/** Plot 1: classifying green-roof buildings as academic by their names and
    splitting the buildings' percent-vegetated values into two maps keyed by
    building ID. The percent value is a float in the script; here it is an
    opaque value of type `V` that is only carried along. */
module Academic {
  import opened Wrappers
  import opened Text

  /** The alternatives of the academic pattern, in the order the regular
      expression lists them; the escaped dot of `univ\.` is a literal dot. */
  const Patterns: seq<string> := ["school", "university", "academy", "college", "u of", "univ."]

  /** The specification: the lower-cased name contains one of the patterns. */
  predicate IsAcademicName(name: string)
  {
    exists a :: 0 <= a < |Patterns| && Contains(LowerString(name), Patterns[a])
  }

  /** One character comparison under `re.IGNORECASE`: both sides are folded to lower case. */
  predicate SameIgnoringCase(x: char, y: char)
  {
    Lower(x) == Lower(y)
  }

  /** The regex engine's test of one literal alternative at one position. */
  predicate MatchesAt(name: string, pat: string, pos: int)
  {
    0 <= pos && pos + |pat| <= |name|
    && forall k :: 0 <= k < |pat| ==> SameIgnoringCase(name[pos + k], pat[k])
  }

  /** A successful search: where the match starts and which alternative matched. */
  datatype Match = Match(start: nat, alt: nat)

  /** The first alternative, from `alt` on, that matches at `pos`. */
  function FirstAltAt(name: string, pos: nat, alt: nat): (r: Option<nat>)
    requires alt <= |Patterns|
    ensures r.Some? ==> alt <= r.value < |Patterns| && MatchesAt(name, Patterns[r.value], pos)
    ensures r.Some? ==> forall a :: alt <= a < r.value ==> !MatchesAt(name, Patterns[a], pos)
    ensures r.None? ==> forall a :: alt <= a < |Patterns| ==> !MatchesAt(name, Patterns[a], pos)
    decreases |Patterns| - alt
  {
    if alt == |Patterns| then None
    else if MatchesAt(name, Patterns[alt], pos) then Some(alt)
    else FirstAltAt(name, pos, alt + 1)
  }

  /** `re.search` of the alternation from position `pos` on: the leftmost
      position where some alternative matches, and at that position the first
      alternative in pattern order. */
  function SearchFrom(name: string, pos: nat): (r: Option<Match>)
    ensures r.Some? ==> pos <= r.value.start && r.value.alt < |Patterns|
    ensures r.Some? ==> MatchesAt(name, Patterns[r.value.alt], r.value.start)
    ensures r.Some? ==> forall a :: 0 <= a < r.value.alt ==> !MatchesAt(name, Patterns[a], r.value.start)
    ensures r.Some? ==> forall p, a :: pos <= p < r.value.start && 0 <= a < |Patterns| ==> !MatchesAt(name, Patterns[a], p)
    ensures r.None? ==> forall p, a :: pos <= p && 0 <= a < |Patterns| ==> !MatchesAt(name, Patterns[a], p)
    decreases |name| + 1 - pos
  {
    if pos > |name| then None
    else
      match FirstAltAt(name, pos, 0)
      case Some(a) => Some(Match(pos, a))
      case None => SearchFrom(name, pos + 1)
  }

  /** `re.search` of the academic pattern over the whole name: it finds a
      match exactly when the name is academic. */
  function Search(name: string): (r: Option<Match>)
    ensures r.Some? <==> IsAcademicName(name)
  {
    SearchIffAcademic(name);
    SearchFrom(name, 0)
  }

  /** The engine's case-insensitive test agrees with comparing the lower-cased name. */
  lemma MatchesAtIffLowerOccurs(name: string, a: int, pos: int)
    requires 0 <= a < |Patterns|
    ensures MatchesAt(name, Patterns[a], pos) <==> OccursAt(LowerString(name), Patterns[a], pos)
  {
  }

  /** The search from the start finds a match exactly when the name is academic. */
  lemma SearchIffAcademic(name: string)
    ensures SearchFrom(name, 0).Some? <==> IsAcademicName(name)
  {
    var low := LowerString(name);
    match SearchFrom(name, 0)
    case Some(m) =>
      MatchesAtIffLowerOccurs(name, m.alt, m.start);
      assert m.start <= |low| && OccursAt(low, Patterns[m.alt], m.start);
    case None =>
      if IsAcademicName(name) {
        var a :| 0 <= a < |Patterns| && Contains(low, Patterns[a]);
        var p :| 0 <= p <= |low| && OccursAt(low, Patterns[a], p);
        MatchesAtIffLowerOccurs(name, a, p);
        assert false;
      }
  }

  /** A green-roof record as far as plot 1 reads it. */
  datatype Building<V> = Building(id: string, name1: string, name2: string, perVeg: V)

  /** The test of either name field, as the script writes it with `or`. */
  function Classify<V>(b: Building<V>): (academic: bool)
    ensures academic <==> IsAcademicName(b.name1) || IsAcademicName(b.name2)
  {
    Search(b.name1).Some? || Search(b.name2).Some?
  }

  /** The two maps, ID to percent-vegetated. */
  datatype Split<V> = Split(academic: map<string, V>, nonAcademic: map<string, V>)

  /** The map of one class: `true` selects the academic map. */
  function Side<V>(s: Split<V>, academic: bool): map<string, V>
  {
    if academic then s.academic else s.nonAcademic
  }

  /** One record goes into the map of its class under its ID, overwriting an
      earlier value; the other map is left as it was. */
  function Route<V>(s: Split<V>, b: Building<V>, academic: bool): (r: Split<V>)
    ensures b.id in Side(r, academic) && Side(r, academic)[b.id] == b.perVeg
    ensures Side(r, academic).Keys == Side(s, academic).Keys + {b.id}
    ensures forall k :: k in Side(s, academic) && k != b.id ==> Side(r, academic)[k] == Side(s, academic)[k]
    ensures Side(r, !academic) == Side(s, !academic)
  {
    if academic then Split(s.academic[b.id := b.perVeg], s.nonAcademic)
    else Split(s.academic, s.nonAcademic[b.id := b.perVeg])
  }

  /** The loop over all records, from two empty maps. The classifier is a
      parameter so that the facts below hold of any test; the script's is
      `Classify`. */
  function Partition<V>(bs: seq<Building<V>>, isAcademic: Building<V> -> bool): (r: Split<V>)
    ensures forall i :: 0 <= i < |bs| ==> bs[i].id in Side(r, isAcademic(bs[i]))
    decreases |bs|
  {
    if |bs| == 0 then Split(map[], map[])
    else
      var b := bs[|bs| - 1];
      Route(Partition(bs[..|bs| - 1], isAcademic), b, isAcademic(b))
  }

  /** The IDs of the records of one class. */
  function IdsOf<V>(bs: seq<Building<V>>, isAcademic: Building<V> -> bool, academic: bool): set<string>
  {
    set i | 0 <= i < |bs| && isAcademic(bs[i]) == academic :: bs[i].id
  }

  /** Each map's keys are exactly the IDs of the records of its class. */
  lemma {:induction false} PartitionKeys<V>(bs: seq<Building<V>>, isAcademic: Building<V> -> bool, academic: bool)
    ensures Side(Partition(bs, isAcademic), academic).Keys == IdsOf(bs, isAcademic, academic)
    decreases |bs|
  {
    var keys := Side(Partition(bs, isAcademic), academic).Keys;
    if |bs| > 0 {
      var n := |bs| - 1;
      var pre := bs[..n];
      PartitionKeys(pre, isAcademic, academic);
      forall id | id in keys
        ensures id in IdsOf(bs, isAcademic, academic)
      {
        if id != bs[n].id || isAcademic(bs[n]) != academic {
          assert id in IdsOf(pre, isAcademic, academic);
          var i :| 0 <= i < |pre| && isAcademic(pre[i]) == academic && pre[i].id == id;
          assert bs[i] == pre[i];
        }
      }
    }
    forall id | id in IdsOf(bs, isAcademic, academic)
      ensures id in keys
    {
      var i :| 0 <= i < |bs| && isAcademic(bs[i]) == academic && bs[i].id == id;
    }
  }

  /** `bs[i]` is the last record of its class with its ID. */
  predicate LastOfClass<V>(bs: seq<Building<V>>, isAcademic: Building<V> -> bool, academic: bool, i: int)
  {
    0 <= i < |bs| && isAcademic(bs[i]) == academic
    && forall j :: i < j < |bs| && isAcademic(bs[j]) == academic ==> bs[j].id != bs[i].id
  }

  /** The value kept under an ID is that of the last record of the class
      with that ID: a later record overwrites an earlier one. */
  lemma {:induction false} PartitionLastWins<V>(bs: seq<Building<V>>, isAcademic: Building<V> -> bool, academic: bool, i: int)
    requires LastOfClass(bs, isAcademic, academic, i)
    ensures bs[i].id in Side(Partition(bs, isAcademic), academic)
    ensures Side(Partition(bs, isAcademic), academic)[bs[i].id] == bs[i].perVeg
    decreases |bs|
  {
    var n := |bs| - 1;
    var pre := bs[..n];
    if i < n {
      assert pre[i] == bs[i];
      PartitionLastWins(pre, isAcademic, academic, i);
    }
  }

  /** Every value in a map is that of the last record of the class with its ID. */
  lemma {:induction false} PartitionValueIsLast<V>(bs: seq<Building<V>>, isAcademic: Building<V> -> bool, academic: bool, id: string)
    requires id in Side(Partition(bs, isAcademic), academic)
    ensures exists i :: LastOfClass(bs, isAcademic, academic, i) && bs[i].id == id
                        && Side(Partition(bs, isAcademic), academic)[id] == bs[i].perVeg
    decreases |bs|
  {
    var n := |bs| - 1;
    var pre := bs[..n];
    var b := bs[n];
    if isAcademic(b) == academic && b.id == id {
      assert LastOfClass(bs, isAcademic, academic, n);
    } else {
      PartitionValueIsLast(pre, isAcademic, academic, id);
      var i :| LastOfClass(pre, isAcademic, academic, i) && pre[i].id == id
               && Side(Partition(pre, isAcademic), academic)[id] == pre[i].perVeg;
      assert bs[i] == pre[i];
      assert LastOfClass(bs, isAcademic, academic, i);
    }
  }

  /** The labels the plot-1 file uses for the two classes. */
  datatype Label = AcademicBuilding | NonAcademicBuilding

  function LabelOf(academic: bool): Label
  {
    if academic then AcademicBuilding else NonAcademicBuilding
  }

  /** One line of the plot-1 file: ID, percent-vegetated, label. */
  datatype PercentRow<V> = PercentRow(id: string, perVeg: V, buildingType: Label)

  /** A name holding `College` is academic. */
  lemma CollegeIsAcademic()
    ensures IsAcademicName("Smith College Library")
  {
    var low := LowerString("Smith College Library");
    assert low[6..13] == "college";
    assert OccursAt(low, Patterns[3], 6);
  }

  /** A name holding none of the patterns is not academic. */
  lemma CityHallIsNotAcademic()
    ensures !IsAcademicName("City Hall Annex")
  {
    var low := LowerString("City Hall Annex");
    assert low == "city hall annex";
    forall a, i | 0 <= a < |Patterns| && 0 <= i <= |low|
      ensures !OccursAt(low, Patterns[a], i)
    {
      var p := Patterns[a];
      if i + |p| <= |low| {
        assert low[i..i + |p|][0] == low[i] && low[i..i + |p|][1] == low[i + 1];
      }
    }
  }

  /** Substring matching also finds `u of` inside other words. */
  lemma BureauOfIsAcademic()
    ensures IsAcademicName("Bureau of Water")
  {
    var low := LowerString("Bureau of Water");
    assert low[5..9] == "u of";
    assert OccursAt(low, Patterns[4], 5);
  }
}
