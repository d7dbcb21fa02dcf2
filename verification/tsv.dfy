/** Joining fields with a separator character and splitting them again:
    the tab-separated lines the script writes and the line structure of the
    files it produces. */
module Tsv {

  /** The fields laid end to end with `sep` between consecutive ones. */
  function JoinWith(fields: seq<string>, sep: char): string
    requires |fields| >= 1
    decreases |fields|
  {
    if |fields| == 1 then fields[0] else fields[0] + [sep] + JoinWith(fields[1..], sep)
  }

  /** Python's `s.split(sep)` for one separator character: the pieces between
      separators, empty ones included. */
  function SplitOn(s: string, sep: char): (r: seq<string>)
    ensures |r| >= 1
    decreases |s|
  {
    if |s| == 0 then [""]
    else
      var rest := SplitOn(s[1..], sep);
      if s[0] == sep then [""] + rest else [[s[0]] + rest[0]] + rest[1..]
  }

  /** A string free of the separator splits into itself. */
  lemma {:induction false} SplitOnWithoutSep(s: string, sep: char)
    requires sep !in s
    ensures SplitOn(s, sep) == [s]
    decreases |s|
  {
    if |s| > 0 {
      SplitOnWithoutSep(s[1..], sep);
      assert [s[0]] + s[1..] == s;
    }
  }

  /** Splitting stops at the first separator. */
  lemma {:induction false} SplitOnFirstSep(a: string, b: string, sep: char)
    requires sep !in a
    ensures SplitOn(a + [sep] + b, sep) == [a] + SplitOn(b, sep)
    decreases |a|
  {
    var s := a + [sep] + b;
    if |a| == 0 {
      assert s[1..] == b;
    } else {
      assert s[1..] == a[1..] + [sep] + b;
      SplitOnFirstSep(a[1..], b, sep);
      assert [a[0]] + a[1..] == a;
    }
  }

  /** Splitting what was joined gives the fields back, as long as no field
      holds the separator. */
  lemma {:induction false} SplitJoin(fields: seq<string>, sep: char)
    requires |fields| >= 1
    requires forall i :: 0 <= i < |fields| ==> sep !in fields[i]
    ensures SplitOn(JoinWith(fields, sep), sep) == fields
    decreases |fields|
  {
    if |fields| == 1 {
      SplitOnWithoutSep(fields[0], sep);
    } else {
      SplitJoin(fields[1..], sep);
      SplitOnFirstSep(fields[0], JoinWith(fields[1..], sep), sep);
      assert [fields[0]] + fields[1..] == fields;
    }
  }

  /** A character that is neither the separator nor in any field is not in the join. */
  lemma {:induction false} JoinWithout(fields: seq<string>, sep: char, c: char)
    requires |fields| >= 1
    requires c != sep
    requires forall i :: 0 <= i < |fields| ==> c !in fields[i]
    ensures c !in JoinWith(fields, sep)
    decreases |fields|
  {
    if |fields| > 1 {
      JoinWithout(fields[1..], sep, c);
    }
  }

  /** The text of a file whose lines each end with a newline. */
  function Lines(lines: seq<string>): string
  {
    JoinWith(lines + [""], '\n')
  }

  /** The lines of a newline-terminated text: everything after the last newline is dropped. */
  function ReadLines(text: string): seq<string>
  {
    var pieces := SplitOn(text, '\n');
    pieces[..|pieces| - 1]
  }

  /** Reading a file back yields the lines written, when none holds a newline. */
  lemma LinesRoundTrip(lines: seq<string>)
    requires forall i :: 0 <= i < |lines| ==> '\n' !in lines[i]
    ensures ReadLines(Lines(lines)) == lines
  {
    SplitJoin(lines + [""], '\n');
  }
}
