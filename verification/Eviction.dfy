/** Shedding the oldest entries of a table, the way four of the program's bounded maps stay
    bounded. Hash maps leave the choice among equal ages open, so the outcome is a relation. */
module Eviction {

  /** `after` is `before` less `n` entries (or all of them), and no entry shed is younger than
      one kept. */
  ghost predicate ShedsOldest<K, V>(before: map<K, V>, age: V -> int, n: nat, after: map<K, V>) {
    && after.Keys <= before.Keys
    && (forall k :: k in after ==> after[k] == before[k])
    && |after| == (if n <= |before| then |before| - n else 0)
    && (forall k, j :: k in before && k !in after && j in after ==> age(before[k]) <= age(before[j]))
  }

  method OldestKey<K(==), V>(m: map<K, V>, age: V -> int) returns (oldest: K)
    requires m != map[]
    ensures oldest in m && forall k :: k in m ==> age(m[oldest]) <= age(m[k])
  {
    oldest :| oldest in m;
    var left := m.Keys - {oldest};
    while left != {}
      invariant left <= m.Keys && oldest in m
      invariant forall k :: k in m && k !in left ==> age(m[oldest]) <= age(m[k])
      decreases |left|
    {
      var k :| k in left;
      left := left - {k};
      if age(m[k]) < age(m[oldest]) { oldest := k; }
    }
  }

  method ShedOldest<K(==), V>(m: map<K, V>, age: V -> int, n: nat) returns (r: map<K, V>)
    ensures ShedsOldest(m, age, n, r)
  {
    r := m;
    for i := 0 to n
      invariant ShedsOldest(m, age, i, r)
    {
      if r == map[] { return; }
      var k := OldestKey(r, age);
      assert (r - {k}).Keys == r.Keys - {k};
      r := r - {k};
    }
  }

  /** `retain`: the entries whose value passes a test. */
  ghost function Retain<K, V>(m: map<K, V>, keep: V -> bool): map<K, V> {
    map k | k in m && keep(m[k]) :: m[k]
  }

  method RetainIf<K(==), V>(m: map<K, V>, keep: V -> bool) returns (r: map<K, V>)
    ensures r == Retain(m, keep) && |r| <= |m|
  {
    r := map k | k in m && keep(m[k]) :: m[k];
    RetainShrinks(m, keep);
  }

  lemma RetainShrinks<K, V>(m: map<K, V>, keep: V -> bool)
    ensures |Retain(m, keep)| <= |m|
  {
    SubsetSize(Retain(m, keep).Keys, m.Keys);
  }

  lemma {:induction false} SubsetSize<T>(a: set<T>, b: set<T>)
    requires a <= b
    ensures |a| <= |b|
    decreases a
  {
    if a != {} {
      var x :| x in a;
      SubsetSize(a - {x}, b - {x});
    }
  }

  lemma InsertSize<K, V>(m: map<K, V>, k: K, v: V)
    ensures |m[k := v]| <= |m| + 1
  {
    assert m[k := v].Keys == m.Keys + {k};
  }
}
