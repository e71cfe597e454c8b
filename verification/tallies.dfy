/** Counters keyed by source: the `defaultdict(int)` maps of the aggregator,
    with the get-or-zero-then-add update made explicit, and the sum of all
    counters (Python's `sum(m.values())`). */
module Tallies {

  /** `m[k] += n` on a `defaultdict(int)`: a missing key starts at zero, and
      the key is created even when n is zero. */
  function Add<K>(m: map<K, int>, k: K, n: int): (r: map<K, int>)
    ensures r.Keys == m.Keys + {k}
    ensures k in m ==> r[k] == m[k] + n
    ensures k !in m ==> r[k] == n
    ensures forall j :: j in m && j != k ==> r[j] == m[j]
  {
    m[k := (if k in m then m[k] else 0) + n]
  }

  /** Some key of a non-empty map. */
  ghost function Pick<K>(m: map<K, int>): (k: K)
    requires |m| > 0
    ensures k in m
  {
    assert exists k :: k in m by {
      var ks := m.Keys;
      assert |ks| > 0;
      var k :| k in ks;
    }
    var k :| k in m; k
  }

  /** The sum of all values of m, independent of any key order. */
  ghost function Total<K>(m: map<K, int>): int
    decreases |m|
  {
    if |m| == 0 then 0
    else
      var k := Pick(m);
      assert (m - {k}).Keys == m.Keys - {k};
      m[k] + Total(m - {k})
  }

  /** Any key can be taken out first: the total does not depend on which key
      the definition happens to pick. */
  lemma {:induction false} TotalRemove<K>(m: map<K, int>, k: K)
    requires k in m
    ensures Total(m) == m[k] + Total(m - {k})
    decreases |m|
  {
    var p := Pick(m);
    assert (m - {p}).Keys == m.Keys - {p};
    if p != k {
      assert (m - {k}).Keys == m.Keys - {k};
      TotalRemove(m - {p}, k);
      TotalRemove(m - {k}, p);
      assert m - {p} - {k} == m - {k} - {p};
    }
  }

  /** Adding n to one counter raises the total by exactly n. */
  lemma TotalAdd<K>(m: map<K, int>, k: K, n: int)
    ensures Total(Add(m, k, n)) == Total(m) + n
  {
    var r := Add(m, k, n);
    var rest := m - {k};
    assert (r - {k}).Keys == rest.Keys;
    assert r - {k} == rest;
    TotalRemove(r, k);
    assert Total(r) == r[k] + Total(rest);
    if k in m {
      TotalRemove(m, k);
    } else {
      assert rest == m;
    }
  }
}
