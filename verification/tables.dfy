/** The text of the two intermediate files: tab-separated fields, one line
    per row, each line ending in a newline, no header. The plotting side
    reads them back as three columns. */
module Tables {
  import opened Wrappers
  import opened Decimal
  import opened Tsv
  import opened Academic
  import opened Report

  /** A field the line structure can carry: no tab and no newline in it. */
  predicate PlainField(s: string)
  {
    '\t' !in s && '\n' !in s
  }

  lemma IntToStringIsPlain(i: int)
    ensures PlainField(IntToString(i))
  {
  }

  /** `zip<TAB>gardens<TAB>green_roofs`, without its newline: it holds no
      newline unless the zip does, and when the zip holds neither a tab nor a
      newline its tabs separate exactly the zip and the two counts, and the
      line reads back as its row. */
  function ZipLine(row: ZipRow): (r: string)
    ensures '\n' !in row.zip ==> '\n' !in r
    ensures PlainField(row.zip) ==> SplitOn(r, '\t') == [row.zip, IntToString(row.gardens), IntToString(row.greenRoofs)]
    ensures PlainField(row.zip) ==> ParseZipLine(r) == Some(row)
  {
    var fields := [row.zip, IntToString(row.gardens), IntToString(row.greenRoofs)];
    IntToStringIsPlain(row.gardens);
    IntToStringIsPlain(row.greenRoofs);
    IntToStringRoundTrip(row.gardens);
    IntToStringRoundTrip(row.greenRoofs);
    assert '\n' !in row.zip ==> '\n' !in JoinWith(fields, '\t') by {
      if '\n' !in row.zip {
        JoinWithout(fields, '\t', '\n');
      }
    }
    assert PlainField(row.zip) ==> SplitOn(JoinWith(fields, '\t'), '\t') == fields by {
      if PlainField(row.zip) {
        SplitJoin(fields, '\t');
      }
    }
    JoinWith(fields, '\t')
  }

  /** The plot-2 file: it reads back as one line per row, in row order, as
      long as no zip holds a newline. */
  function ZipTable(rows: seq<ZipRow>): (r: string)
    ensures (forall i :: 0 <= i < |rows| ==> '\n' !in rows[i].zip) ==>
              |ReadLines(r)| == |rows| && forall i :: 0 <= i < |rows| ==> ReadLines(r)[i] == ZipLine(rows[i])
  {
    var lines := seq(|rows|, i requires 0 <= i < |rows| => ZipLine(rows[i]));
    assert (forall i :: 0 <= i < |rows| ==> '\n' !in rows[i].zip) ==> ReadLines(Lines(lines)) == lines by {
      if forall i :: 0 <= i < |rows| ==> '\n' !in rows[i].zip {
        LinesRoundTrip(lines);
      }
    }
    Lines(lines)
  }

  /** Reading one plot-2 line: three fields, the last two integers. */
  function ParseZipLine(line: string): Option<ZipRow>
  {
    var f := SplitOn(line, '\t');
    if |f| != 3 then None
    else
      match (ParseInt(f[1]), ParseInt(f[2]))
      case (Some(g), Some(r)) => Some(ZipRow(f[0], g, r))
      case _ => None
  }

  function ParseZipLines(lines: seq<string>): Option<seq<ZipRow>>
    decreases |lines|
  {
    if |lines| == 0 then Some([])
    else
      match (ParseZipLine(lines[0]), ParseZipLines(lines[1..]))
      case (Some(row), Some(rest)) => Some([row] + rest)
      case _ => None
  }

  function ParseZipTable(text: string): Option<seq<ZipRow>>
  {
    ParseZipLines(ReadLines(text))
  }

  lemma {:induction false} ParseZipLinesOfRows(rows: seq<ZipRow>)
    requires forall i :: 0 <= i < |rows| ==> PlainField(rows[i].zip)
    ensures ParseZipLines(seq(|rows|, i requires 0 <= i < |rows| => ZipLine(rows[i]))) == Some(rows)
    decreases |rows|
  {
    var lines := seq(|rows|, i requires 0 <= i < |rows| => ZipLine(rows[i]));
    if |rows| > 0 {
      assert ParseZipLine(lines[0]) == Some(rows[0]);
      ParseZipLinesOfRows(rows[1..]);
      assert lines[1..] == seq(|rows[1..]|, i requires 0 <= i < |rows[1..]| => ZipLine(rows[1..][i]));
      assert [rows[0]] + rows[1..] == rows;
    }
  }

  /** The plot-2 file reads back as the rows it was written from, as long as
      no zip code holds a tab or a newline. */
  lemma ZipTableRoundTrip(rows: seq<ZipRow>)
    requires forall i :: 0 <= i < |rows| ==> PlainField(rows[i].zip)
    ensures ParseZipTable(ZipTable(rows)) == Some(rows)
  {
    var lines := seq(|rows|, i requires 0 <= i < |rows| => ZipLine(rows[i]));
    assert ReadLines(ZipTable(rows)) == lines;
    ParseZipLinesOfRows(rows);
  }

  /** The third column of the plot-1 file: a plain field that reads back as its label. */
  function LabelText(l: Label): (r: string)
    ensures PlainField(r)
    ensures LabelFromText(r) == Some(l)
  {
    match l
    case AcademicBuilding => "academic_building"
    case NonAcademicBuilding => "non_academic_building"
  }

  function LabelFromText(s: string): Option<Label>
  {
    if s == "academic_building" then Some(AcademicBuilding)
    else if s == "non_academic_building" then Some(NonAcademicBuilding)
    else None
  }

  /** `ID<TAB>percent<TAB>label`, without its newline; `show` is the text
      Python writes for the percent value. When neither the ID nor that text
      holds a tab or newline, the line holds no newline and splits at its tabs
      into the ID, the percent text and the label's text. */
  function PercentLine<V>(row: PercentRow<V>, show: V -> string): (r: string)
    ensures PlainField(row.id) && PlainField(show(row.perVeg)) ==> '\n' !in r
    ensures PlainField(row.id) && PlainField(show(row.perVeg)) ==>
              SplitOn(r, '\t') == [row.id, show(row.perVeg), LabelText(row.buildingType)]
  {
    var fields := [row.id, show(row.perVeg), LabelText(row.buildingType)];
    assert PlainField(row.id) && PlainField(show(row.perVeg)) ==>
             '\n' !in JoinWith(fields, '\t') && SplitOn(JoinWith(fields, '\t'), '\t') == fields by {
      if PlainField(row.id) && PlainField(show(row.perVeg)) {
        SplitJoin(fields, '\t');
        JoinWithout(fields, '\t', '\n');
      }
    }
    JoinWith(fields, '\t')
  }

  /** The plot-1 file: it reads back as one line per row, in row order, as
      long as no ID or percent text holds a tab or newline. */
  function PercentTable<V>(rows: seq<PercentRow<V>>, show: V -> string): (r: string)
    ensures (forall i :: 0 <= i < |rows| ==> PlainField(rows[i].id) && PlainField(show(rows[i].perVeg))) ==>
              |ReadLines(r)| == |rows| && forall i :: 0 <= i < |rows| ==> ReadLines(r)[i] == PercentLine(rows[i], show)
  {
    var lines := seq(|rows|, i requires 0 <= i < |rows| => PercentLine(rows[i], show));
    assert (forall i :: 0 <= i < |rows| ==> PlainField(rows[i].id) && PlainField(show(rows[i].perVeg))) ==>
             ReadLines(Lines(lines)) == lines by {
      if forall i :: 0 <= i < |rows| ==> PlainField(rows[i].id) && PlainField(show(rows[i].perVeg)) {
        LinesRoundTrip(lines);
      }
    }
    Lines(lines)
  }
}
