/** Counting maps: the `defaultdict(int)` the script uses for gardens and
    green roofs, where reading an absent key yields 0. */
module Tally {

  type Counts = map<string, int>

  /** The count under `k`, 0 when `k` is absent. */
  function Get0(m: Counts, k: string): int
  {
    if k in m then m[k] else 0
  }

  /** `d[k] += n` on a `defaultdict(int)`: the key is created if absent. */
  function Add(m: Counts, k: string, n: int): (r: Counts)
    ensures r.Keys == m.Keys + {k}
    ensures r[k] == Get0(m, k) + n
    ensures forall j :: j != k ==> Get0(r, j) == Get0(m, j)
  {
    m[k := Get0(m, k) + n]
  }

  /** The sum of all the values of a counting map. */
  ghost function Sum(m: Counts): int
    decreases |m|
  {
    if m == map[] then 0
    else
      var k :| k in m;
      m[k] + Sum(m - {k})
  }

  /** The sum does not depend on which key is taken out first. */
  lemma {:induction false} SumRemove(m: Counts, k: string)
    requires k in m
    ensures Sum(m) == m[k] + Sum(m - {k})
    decreases |m|
  {
    var k' :| k' in m && Sum(m) == m[k'] + Sum(m - {k'});
    if k' != k {
      var both := m - {k} - {k'};
      assert m - {k'} - {k} == both;
      assert |m - {k'}| < |m|;
      assert |m - {k}| < |m|;
      SumRemove(m - {k'}, k);
      SumRemove(m - {k}, k');
    }
  }

  /** Adding `n` under one key raises the total by exactly `n`. */
  lemma SumAdd(m: Counts, k: string, n: int)
    ensures Sum(Add(m, k, n)) == Sum(m) + n
  {
    var r := Add(m, k, n);
    SumRemove(r, k);
    if k in m {
      SumRemove(m, k);
      assert r - {k} == m - {k};
    } else {
      assert r - {k} == m;
    }
  }
}
