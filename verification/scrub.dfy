/** The parks header scrub: `re.sub('[^a-zA-Z_]', '_', h)` on each column name,
    so that the names can become record field names. */
module Scrub {
  import opened Text

  /** The characters the scrub keeps: `[a-zA-Z_]`. */
  predicate IsHeaderChar(c: char)
  {
    IsLowerLetter(c) || IsUpper(c) || c == '_'
  }

  /** The scrub of one header, one character at a time from the left, as the
      substitution replaces every one-character match of the negated class. */
  function ScrubHeader(h: string): (r: string)
    ensures |r| == |h|
    ensures forall i :: 0 <= i < |r| ==> IsHeaderChar(r[i])
    ensures forall i :: 0 <= i < |h| && IsHeaderChar(h[i]) ==> r[i] == h[i]
    ensures forall i :: 0 <= i < |h| && !IsHeaderChar(h[i]) ==> r[i] == '_'
    decreases |h|
  {
    if |h| == 0 then ""
    else [if IsHeaderChar(h[0]) then h[0] else '_'] + ScrubHeader(h[1..])
  }

  /** The scrub of every header of the parks file, in column order. */
  function ScrubHeaders(hs: seq<string>): (r: seq<string>)
    ensures |r| == |hs|
    ensures forall j :: 0 <= j < |r| ==> r[j] == ScrubHeader(hs[j])
    ensures forall j :: 0 <= j < |r| ==> |r[j]| == |hs[j]|
    ensures forall j, i :: 0 <= j < |r| && 0 <= i < |r[j]| ==> IsHeaderChar(r[j][i])
    ensures forall j, i :: 0 <= j < |r| && 0 <= i < |hs[j]| && IsHeaderChar(hs[j][i]) ==> r[j][i] == hs[j][i]
    ensures forall j, i :: 0 <= j < |r| && 0 <= i < |hs[j]| && !IsHeaderChar(hs[j][i]) ==> r[j][i] == '_'
  {
    seq(|hs|, j requires 0 <= j < |hs| => ScrubHeader(hs[j]))
  }

  /** A header is left unchanged exactly when it consists of `[a-zA-Z_]` only. */
  lemma ScrubFixesClean(h: string)
    ensures ScrubHeader(h) == h <==> forall i :: 0 <= i < |h| ==> IsHeaderChar(h[i])
  {
    var r := ScrubHeader(h);
    if forall i :: 0 <= i < |h| ==> IsHeaderChar(h[i]) {
      assert forall i :: 0 <= i < |h| ==> r[i] == h[i];
    }
  }

  /** Scrubbing twice is scrubbing once. */
  lemma ScrubIdempotent(h: string)
    ensures ScrubHeader(ScrubHeader(h)) == ScrubHeader(h)
  {
    ScrubFixesClean(ScrubHeader(h));
  }
}
