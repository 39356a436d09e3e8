/**
 * The "Contact us" form: on submit it thanks the sender when every field is filled in
 * and asks for the missing fields otherwise. Nothing is stored or sent anywhere.
 */
module Contact {
  import opened Wrappers

  datatype Notice = Success(text: string) | Failure(text: string)

  const MissingFieldsMessage := "Please fill out all fields before submitting the form."

  /** A text field counts as filled in when it is not empty (Python's truth value of a str). */
  predicate Filled(field: string) {
    |field| > 0
  }

  /** The notice for one press of Submit. */
  function Submit(name: string, email: string, message: string): (n: Notice)
    ensures n.Success? <==> Filled(name) && Filled(email) && Filled(message)
    ensures n.Failure? ==> n.text == MissingFieldsMessage
    ensures n.Success? ==> n.text == "Thank you for reaching out, " + name
                                     + "! We'll get back to you at " + email + " soon."
  {
    if Filled(name) && Filled(email) && Filled(message) then
      Success("Thank you for reaching out, " + name + "! We'll get back to you at " + email + " soon.")
    else
      Failure(MissingFieldsMessage)
  }

  /** The form after one interaction: a notice only if Submit was pressed. */
  function ContactPage(submitted: bool, name: string, email: string, message: string): (r: Option<Notice>)
    ensures r.Some? <==> submitted
    ensures submitted ==> r == Some(Submit(name, email, message))
    ensures r.Some? ==> (r.value.Success? <==> name != [] && email != [] && message != [])
  {
    if submitted then Some(Submit(name, email, message)) else None
  }
}
