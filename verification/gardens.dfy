/** Plot 2, first pass: community gardens per zip code from the parks file. */
module Gardens {
  import opened Tally

  /** A parks record as far as the pass reads it: its zip code and its
      (already parsed) community-garden count. */
  datatype Park = Park(zip: string, communityGardens: int)

  /** One parks row: a row with no garden leaves the map alone; otherwise its
      count is added to its zip's running total. */
  function AddPark(m: Counts, p: Park): (r: Counts)
    ensures p.communityGardens == 0 ==> r == m
    ensures p.communityGardens != 0 ==> r.Keys == m.Keys + {p.zip}
    ensures Get0(r, p.zip) == Get0(m, p.zip) + p.communityGardens
    ensures forall z :: z != p.zip ==> Get0(r, z) == Get0(m, z)
  {
    if p.communityGardens != 0 then Add(m, p.zip, p.communityGardens) else m
  }

  /** The loop over all parks rows, from an empty map. */
  function GardensPerZip(parks: seq<Park>): (r: Counts)
    ensures forall i :: 0 <= i < |parks| && parks[i].communityGardens != 0 ==> parks[i].zip in r
    ensures forall z :: z in r ==> HasGardenRow(parks, z)
    decreases |parks|
  {
    if |parks| == 0 then map[]
    else AddPark(GardensPerZip(parks[..|parks| - 1]), parks[|parks| - 1])
  }

  /** Reference: the garden counts of the rows with zip code `z`, added up. */
  function ZipTotal(parks: seq<Park>, z: string): int
    decreases |parks|
  {
    if |parks| == 0 then 0
    else
      var p := parks[|parks| - 1];
      ZipTotal(parks[..|parks| - 1], z) + (if p.zip == z then p.communityGardens else 0)
  }

  /** Reference: the garden counts of all rows, added up. */
  function GrandTotal(parks: seq<Park>): int
    decreases |parks|
  {
    if |parks| == 0 then 0
    else GrandTotal(parks[..|parks| - 1]) + parks[|parks| - 1].communityGardens
  }

  /** Some row of zip code `z` reports a non-zero garden count. */
  predicate HasGardenRow(parks: seq<Park>, z: string)
  {
    exists i :: 0 <= i < |parks| && parks[i].zip == z && parks[i].communityGardens != 0
  }

  /** A zip is a key exactly when one of its rows has gardens, and its value
      (0 when absent) is the sum of its rows' counts. */
  lemma {:induction false} GardensPerZipCorrect(parks: seq<Park>)
    ensures forall z :: z in GardensPerZip(parks) <==> HasGardenRow(parks, z)
    ensures forall z :: Get0(GardensPerZip(parks), z) == ZipTotal(parks, z)
    decreases |parks|
  {
    if |parks| > 0 {
      var n := |parks| - 1;
      var pre := parks[..n];
      GardensPerZipCorrect(pre);
      forall z
        ensures z in GardensPerZip(parks) <==> HasGardenRow(parks, z)
      {
        if HasGardenRow(parks, z) {
          var i :| 0 <= i < |parks| && parks[i].zip == z && parks[i].communityGardens != 0;
          if i < n {
            assert pre[i] == parks[i];
          }
        }
        if HasGardenRow(pre, z) {
          var i :| 0 <= i < |pre| && pre[i].zip == z && pre[i].communityGardens != 0;
          assert parks[i] == pre[i];
        }
      }
    }
  }

  /** All the map's values together make up every garden in the file. */
  lemma {:induction false} GardensPerZipSum(parks: seq<Park>)
    ensures Sum(GardensPerZip(parks)) == GrandTotal(parks)
    decreases |parks|
  {
    if |parks| > 0 {
      var n := |parks| - 1;
      GardensPerZipSum(parks[..n]);
      if parks[n].communityGardens != 0 {
        SumAdd(GardensPerZip(parks[..n]), parks[n].zip, parks[n].communityGardens);
      }
    }
  }
}
