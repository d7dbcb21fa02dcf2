/** Plot 2, second pass: green roofs per zip code. Each green-roof record
    contributes the postcode string its coordinates reverse-geocode to; the
    run aborts at the first postcode without a digit. */
module Roofs {
  import opened Wrappers
  import opened Text
  import opened Tally
  import opened Postcode

  /** The run aborted: the postcode of record number `record` (from 0) has no digit. */
  datatype RoofError = NoZipInPostcode(record: nat)

  /** One green roof: its zip's count goes up by one and no other count moves. */
  function AddRoof(m: Counts, zip: string): (r: Counts)
    ensures r.Keys == m.Keys + {zip}
    ensures Get0(r, zip) == Get0(m, zip) + 1
    ensures forall z :: z != zip ==> Get0(r, z) == Get0(m, z)
  {
    Add(m, zip, 1)
  }

  /** The loop over the geocoder replies of all records, in file order. */
  function CountRoofs(postcodes: seq<string>): (r: Result<Counts, RoofError>)
    ensures r.Err? <==> exists i :: 0 <= i < |postcodes| && !HasDigit(postcodes[i])
    ensures r.Err? ==> r.error.record < |postcodes| && !HasDigit(postcodes[r.error.record])
    ensures r.Err? ==> forall i :: 0 <= i < r.error.record ==> HasDigit(postcodes[i])
    decreases |postcodes|
  {
    if |postcodes| == 0 then Ok(map[])
    else
      var n := |postcodes| - 1;
      var pre := CountRoofs(postcodes[..n]);
      assert forall i :: 0 <= i < n ==> postcodes[..n][i] == postcodes[i];
      if pre.Err? then pre
      else
        match ExtractZip(postcodes[n])
        case Err(_) => Err(NoZipInPostcode(n))
        case Ok(zip) => Ok(AddRoof(pre.value, zip))
  }

  /** The zip code of every record, when every postcode has one. */
  function ZipsOf(postcodes: seq<string>): (zips: seq<string>)
    requires forall i :: 0 <= i < |postcodes| ==> HasDigit(postcodes[i])
    ensures |zips| == |postcodes|
  {
    seq(|postcodes|, i requires 0 <= i < |postcodes| && HasDigit(postcodes[i]) => ExtractZip(postcodes[i]).value)
  }

  /** When every postcode has a zip, the count of each zip is the number of
      records with that zip, and the keys are exactly those zips. */
  lemma {:induction false} CountRoofsCorrect(postcodes: seq<string>)
    requires forall i :: 0 <= i < |postcodes| ==> HasDigit(postcodes[i])
    ensures CountRoofs(postcodes).Ok?
    ensures forall z :: z in CountRoofs(postcodes).value <==> z in ZipsOf(postcodes)
    ensures forall z :: Get0(CountRoofs(postcodes).value, z) == multiset(ZipsOf(postcodes))[z]
    decreases |postcodes|
  {
    if |postcodes| > 0 {
      var n := |postcodes| - 1;
      var pre := postcodes[..n];
      CountRoofsCorrect(pre);
      var m := CountRoofs(pre).value;
      var zip := ExtractZip(postcodes[n]).value;
      assert CountRoofs(postcodes) == Ok(AddRoof(m, zip));
      var zips := ZipsOf(postcodes);
      assert forall i :: 0 <= i < n ==> pre[i] == postcodes[i];
      assert zips == ZipsOf(pre) + [zip];
      forall z
        ensures z in zips <==> z in ZipsOf(pre) || z == zip
        ensures multiset(zips)[z] == multiset(ZipsOf(pre))[z] + (if z == zip then 1 else 0)
      {
      }
    }
  }

  /** Every record adds exactly one: the counts add up to the number of records. */
  lemma {:induction false} CountRoofsSum(postcodes: seq<string>)
    requires CountRoofs(postcodes).Ok?
    ensures Sum(CountRoofs(postcodes).value) == |postcodes|
    decreases |postcodes|
  {
    if |postcodes| > 0 {
      var n := |postcodes| - 1;
      CountRoofsSum(postcodes[..n]);
      var zip := ExtractZip(postcodes[n]).value;
      SumAdd(CountRoofs(postcodes[..n]).value, zip, 1);
    }
  }
}
