/**
 * The artifact store the dashboard reads its images from, and what a page shows
 * after asking it for one file.
 */
module Artifacts {
  import opened Wrappers
  import opened Timestamp

  /** The paths of the image files that exist; the dashboard never writes to it. */
  type Store = set<string>

  /**
   * What a page shows for one lookup: the image (with the lines written under it),
   * an error box the page wrote itself, or an exception the page did not catch.
   */
  datatype View =
    | Image(path: string, notes: seq<string>)
    | ErrorBox(message: string)
    | Uncaught(missing: string)

  const Png := ".png"

  /** `{prefix}{stamp}.png`, the shape of every timestamp-keyed artifact path. */
  function StampedPath(prefix: string, s: Stamp): (p: string)
    requires Printable(s)
    ensures |p| == |prefix| + 20 && p[..|prefix|] == prefix && p[|prefix| + 16..] == Png
  {
    prefix + FormatStamp(s) + Png
  }

  /** Recovers the stamp from a path of the shape `{prefix}{YYYY-MM-DD-HH-MM}.png`. */
  function ParseStampedPath(prefix: string, p: string): Option<Stamp> {
    if |p| == |prefix| + 20 && p[..|prefix|] == prefix && p[|prefix| + 16..] == Png
    then ParseStamp(p[|prefix|..|prefix| + 16])
    else None
  }

  /** The stamp in a stamped path is read back unchanged. */
  lemma ParseStampedPathOf(prefix: string, s: Stamp)
    requires Printable(s)
    ensures ParseStampedPath(prefix, StampedPath(prefix, s)) == Some(s)
  {
    var p := StampedPath(prefix, s);
    assert p[|prefix|..|prefix| + 16] == FormatStamp(s);
    ParseFormat(s);
  }

  /** A stamped path names exactly one stamp. */
  lemma StampedPathInjective(prefix: string, a: Stamp, b: Stamp)
    requires Printable(a) && Printable(b)
    ensures StampedPath(prefix, a) == StampedPath(prefix, b) <==> a == b
  {
    ParseStampedPathOf(prefix, a);
    ParseStampedPathOf(prefix, b);
  }
}
