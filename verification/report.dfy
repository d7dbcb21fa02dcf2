/** The two intermediate tables: one row per building ID per class for plot 1, one row per
    zip code for plot 2. Python gives no order for iterating a dict or a set,
    so the order of keys is left to `Enumerate`, which may pick any. */
module Report {
  import opened Wrappers
  import opened Text
  import opened Tally
  import opened Academic
  import opened Gardens
  import opened Roofs

  predicate Distinct<K(==)>(s: seq<K>)
  {
    forall i, j :: 0 <= i < j < |s| ==> s[i] != s[j]
  }

  /** Iterating over a set of keys: each step visits some key not yet visited. */
  method Enumerate<K(==)>(s: set<K>) returns (keys: seq<K>)
    ensures forall k :: k in keys <==> k in s
    ensures Distinct(keys)
    ensures |keys| == |s|
  {
    keys := [];
    var rest := s;
    while rest != {}
      invariant forall k :: k in s <==> k in keys || k in rest
      invariant forall k :: k in keys ==> k !in rest
      invariant Distinct(keys)
      invariant |keys| + |rest| == |s|
      decreases |rest|
    {
      var k :| k in rest;
      keys := keys + [k];
      rest := rest - {k};
    }
  }

  /** One line of the plot-2 file. */
  datatype ZipRow = ZipRow(zip: string, gardens: int, greenRoofs: int)

  /** A row whose two counts are read from their own maps, 0 where a map lacks its zip. */
  predicate RowAgrees(row: ZipRow, gardens: Counts, roofs: Counts)
  {
    && (row.zip in gardens ==> row.gardens == gardens[row.zip])
    && (row.zip !in gardens ==> row.gardens == 0)
    && (row.zip in roofs ==> row.greenRoofs == roofs[row.zip])
    && (row.zip !in roofs ==> row.greenRoofs == 0)
  }

  /** The rows of the given zip codes, in that order. */
  function ZipRowsOf(zips: seq<string>, gardens: Counts, roofs: Counts): (rows: seq<ZipRow>)
    ensures |rows| == |zips|
    ensures forall i :: 0 <= i < |zips| ==> rows[i].zip == zips[i] && RowAgrees(rows[i], gardens, roofs)
  {
    seq(|zips|, i requires 0 <= i < |zips| => ZipRow(zips[i], Get0(gardens, zips[i]), Get0(roofs, zips[i])))
  }

  /** The merge: one row per zip code of either map, each once, with each
      column read from its own map and 0 where that map lacks the zip. */
  method EmitZipRows(gardens: Counts, roofs: Counts) returns (rows: seq<ZipRow>)
    ensures forall z :: (z in gardens || z in roofs) <==> exists i :: 0 <= i < |rows| && rows[i].zip == z
    ensures forall i, j :: 0 <= i < j < |rows| ==> rows[i].zip != rows[j].zip
    ensures forall i :: 0 <= i < |rows| ==> RowAgrees(rows[i], gardens, roofs)
    ensures |rows| == |gardens.Keys + roofs.Keys|
  {
    var zips := Enumerate(gardens.Keys + roofs.Keys);
    rows := ZipRowsOf(zips, gardens, roofs);
    forall z | z in gardens || z in roofs
      ensures exists i :: 0 <= i < |rows| && rows[i].zip == z
    {
      var i :| 0 <= i < |zips| && zips[i] == z;
      assert rows[i].zip == z;
    }
    forall i | 0 <= i < |rows|
      ensures rows[i].zip in gardens || rows[i].zip in roofs
    {
      assert zips[i] in zips;
    }
  }

  /** The rows of one map, in the order of `keys`, all with one label. */
  function RowsOf<V>(keys: seq<string>, m: map<string, V>, kind: Label): (rows: seq<PercentRow<V>>)
    requires forall k :: k in keys ==> k in m
    ensures |rows| == |keys|
  {
    seq(|keys|, i requires 0 <= i < |keys| => PercentRow(keys[i], m[keys[i]], kind))
  }

  /** The plot-1 file: every academic row, then every non-academic row; each
      row carries its map's value, and each ID appears once per map. */
  method EmitPercentRows<V>(s: Split<V>) returns (rows: seq<PercentRow<V>>)
    ensures |rows| == |s.academic| + |s.nonAcademic|
    ensures forall i :: 0 <= i < |rows| ==> (rows[i].buildingType == AcademicBuilding <==> i < |s.academic|)
    ensures forall i :: 0 <= i < |rows| ==> rows[i].buildingType == LabelOf(i < |s.academic|)
    ensures forall i :: 0 <= i < |rows| ==>
              rows[i].id in Side(s, i < |s.academic|) && rows[i].perVeg == Side(s, i < |s.academic|)[rows[i].id]
    ensures forall id :: id in s.academic ==> exists i :: 0 <= i < |s.academic| && rows[i].id == id
    ensures forall id :: id in s.nonAcademic ==> exists i :: |s.academic| <= i < |rows| && rows[i].id == id
    ensures forall i, j :: 0 <= i < j < |rows| && rows[i].buildingType == rows[j].buildingType ==> rows[i].id != rows[j].id
  {
    var ids := Enumerate(s.academic.Keys);
    var others := Enumerate(s.nonAcademic.Keys);
    assert |s.academic| == |s.academic.Keys| && |s.nonAcademic| == |s.nonAcademic.Keys|;
    var first := RowsOf(ids, s.academic, AcademicBuilding);
    var second := RowsOf(others, s.nonAcademic, NonAcademicBuilding);
    rows := first + second;
    forall id | id in s.academic
      ensures exists i :: 0 <= i < |s.academic| && rows[i].id == id
    {
      var i :| 0 <= i < |ids| && ids[i] == id;
      assert rows[i] == first[i];
    }
    forall id | id in s.nonAcademic
      ensures exists i :: |s.academic| <= i < |rows| && rows[i].id == id
    {
      var i :| 0 <= i < |others| && others[i] == id;
      assert rows[|first| + i] == second[i];
    }
  }

  /** Plot 2 end to end: gardens per zip from the parks rows, green roofs per
      zip from the records' postcodes, merged into one row per zip. The run
      fails at the first postcode without a digit. */
  method ZipReport(parks: seq<Park>, postcodes: seq<string>) returns (r: Result<seq<ZipRow>, RoofError>)
    ensures r.Err? <==> exists i :: 0 <= i < |postcodes| && !HasDigit(postcodes[i])
    ensures r.Err? ==> r.error.record < |postcodes| && !HasDigit(postcodes[r.error.record])
    ensures r.Err? ==> forall i :: 0 <= i < r.error.record ==> HasDigit(postcodes[i])
    ensures r.Ok? ==> forall z :: (HasGardenRow(parks, z) || z in ZipsOf(postcodes))
                                  <==> exists i :: 0 <= i < |r.value| && r.value[i].zip == z
    ensures r.Ok? ==> forall i :: 0 <= i < |r.value| ==> r.value[i].gardens == ZipTotal(parks, r.value[i].zip)
    ensures r.Ok? ==> forall i :: 0 <= i < |r.value| ==> r.value[i].greenRoofs == multiset(ZipsOf(postcodes))[r.value[i].zip]
    ensures r.Ok? ==> forall i, j :: 0 <= i < j < |r.value| ==> r.value[i].zip != r.value[j].zip
  {
    var gardens := GardensPerZip(parks);
    GardensPerZipCorrect(parks);
    match CountRoofs(postcodes)
    case Err(e) =>
      r := Err(e);
    case Ok(roofs) =>
      CountRoofsCorrect(postcodes);
      var rows := EmitZipRows(gardens, roofs);
      forall i | 0 <= i < |rows|
        ensures rows[i].gardens == ZipTotal(parks, rows[i].zip)
        ensures rows[i].greenRoofs == multiset(ZipsOf(postcodes))[rows[i].zip]
      {
        assert RowAgrees(rows[i], gardens, roofs);
        assert rows[i].gardens == Get0(gardens, rows[i].zip);
        assert rows[i].greenRoofs == Get0(roofs, rows[i].zip);
      }
      r := Ok(rows);
  }

  /** `row` carries the ID and value of the last record of its class with that ID. */
  ghost predicate FromLastRecord<V>(bs: seq<Building<V>>, isAcademic: Building<V> -> bool, row: PercentRow<V>)
  {
    exists j :: 0 <= j < |bs| && LastOfClass(bs, isAcademic, row.buildingType == AcademicBuilding, j)
                && bs[j].id == row.id && bs[j].perVeg == row.perVeg
  }

  /** Some row lists building `b` under the label of its class. */
  predicate Listed<V>(rows: seq<PercentRow<V>>, b: Building<V>, academic: bool)
  {
    exists i :: 0 <= i < |rows| && rows[i].id == b.id && rows[i].buildingType == LabelOf(academic)
  }

  /** The plot-1 rows under any classifier: each building's ID lands in the
      rows of its class, carrying the value of the last record of that class
      with that ID, and every academic row comes before every non-academic row. */
  method PercentRowsBy<V>(bs: seq<Building<V>>, isAcademic: Building<V> -> bool) returns (rows: seq<PercentRow<V>>)
    ensures forall j :: 0 <= j < |bs| ==> Listed(rows, bs[j], isAcademic(bs[j]))
    ensures forall i :: 0 <= i < |rows| ==> FromLastRecord(bs, isAcademic, rows[i])
    ensures forall i, j :: 0 <= i < j < |rows| && rows[j].buildingType == AcademicBuilding ==> rows[i].buildingType == AcademicBuilding
    ensures forall i, j :: 0 <= i < j < |rows| && rows[i].buildingType == rows[j].buildingType ==> rows[i].id != rows[j].id
  {
    var split := Partition(bs, isAcademic);
    rows := EmitPercentRows(split);
    forall j | 0 <= j < |bs|
      ensures Listed(rows, bs[j], isAcademic(bs[j]))
    {
      var academic := isAcademic(bs[j]);
      PartitionKeys(bs, isAcademic, academic);
      assert bs[j].id in IdsOf(bs, isAcademic, academic);
      assert bs[j].id in Side(split, academic);
    }
    forall i | 0 <= i < |rows|
      ensures FromLastRecord(bs, isAcademic, rows[i])
    {
      var academic := i < |split.academic|;
      var id := rows[i].id;
      assert id in Side(split, academic) && rows[i].perVeg == Side(split, academic)[id];
      assert (rows[i].buildingType == AcademicBuilding) == academic;
      PartitionValueIsLast(bs, isAcademic, academic, id);
    }
  }

  /** Plot 1 end to end with the script's classifier: each building's ID is
      listed under the label of its class, each row carries the value of the
      last record of its class with that ID, and every academic row comes
      before every non-academic row. */
  method PercentReport<V>(bs: seq<Building<V>>) returns (rows: seq<PercentRow<V>>)
    ensures forall j :: 0 <= j < |bs| ==> Listed(rows, bs[j], Classify(bs[j]))
    ensures forall i :: 0 <= i < |rows| ==> FromLastRecord(bs, Classify, rows[i])
    ensures forall i, j :: 0 <= i < j < |rows| && rows[j].buildingType == AcademicBuilding ==> rows[i].buildingType == AcademicBuilding
    ensures forall i, j :: 0 <= i < j < |rows| && rows[i].buildingType == rows[j].buildingType ==> rows[i].id != rows[j].id
  {
    rows := PercentRowsBy(bs, Classify);
  }
}
