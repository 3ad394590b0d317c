/** Hierarchy matching: a rule covers a name and everything below it. The walk over dot-suffixes,
    and the compaction of a feed to the names no other name covers. */
module DomainRules {
  import opened Bytes

  type Listing = Name -> bool

  function In(names: set<Name>): Listing { (x: Name) => x in names }

  /** Position `k` of `d` is a dot with something after it. */
  predicate SuffixAt(d: Name, k: int) {
    0 <= k && k + 1 < |d| && d[k] == DOT
  }

  /** `d` itself, or one of its non-empty dot-suffixes, is listed. */
  ghost predicate Covered(listed: Listing, d: Name) {
    listed(d) || exists k :: SuffixAt(d, k) && listed(d[k + 1..])
  }

  ghost predicate IsProperSuffix(s: Name, d: Name) {
    exists k :: SuffixAt(d, k) && s == d[k + 1..]
  }

  /** That is: some listed name is `d`, or stands at the end of `d` after a dot. */
  lemma CoveredIsByEnding(names: set<Name>, d: Name)
    requires [] !in names
    ensures Covered(In(names), d) <==>
      exists n :: n in names && (d == n || (|d| > |n| && d[|d| - |n|..] == n && d[|d| - |n| - 1] == 46))
  {
    if Covered(In(names), d) && d !in names {
      var k :| SuffixAt(d, k) && In(names)(d[k + 1..]);
      var n := d[k + 1..];
      assert |d| > |n| && d[|d| - |n|..] == n && d[|d| - |n| - 1] == 46;
    }
    if n :| n in names && |d| > |n| && d[|d| - |n|..] == n && d[|d| - |n| - 1] == 46 {
      assert SuffixAt(d, |d| - |n| - 1) && In(names)(d[|d| - |n| - 1 + 1..]);
    }
  }

  // ---------------------------------------------------------------- the walk

  function FirstDotFrom(s: Name, i: nat): (p: Option<nat>)
    requires i <= |s|
    ensures p.Some? ==> i <= p.value < |s| && s[p.value] == DOT && forall j :: i <= j < p.value ==> s[j] != DOT
    ensures p.None? ==> forall j :: i <= j < |s| ==> s[j] != DOT
    decreases |s| - i
  {
    if i == |s| then None else if s[i] == DOT then Some(i) else FirstDotFrom(s, i + 1)
  }

  /** `str::find('.')`. */
  function FirstDot(s: Name): Option<nat> { FirstDotFrom(s, 0) }

  method MatchDomainHierarchy(domain: Name, names: set<Name>) returns (found: bool)
    ensures found <==> Covered(In(names), domain)
  {
    if domain in names { return true; }
    var rest := domain;
    var dot := FirstDot(rest);
    ghost var i := 0;
    while dot.Some?
      invariant 0 <= i <= |domain| && rest == domain[i..] && dot == FirstDot(rest)
      invariant forall k :: k < i && SuffixAt(domain, k) ==> domain[k + 1..] !in names
      decreases |rest|
    {
      ghost var at := i + dot.value;
      assert rest[dot.value + 1..] == domain[at + 1..];
      assert forall k :: i <= k < at ==> domain[k] == rest[k - i];
      rest := rest[dot.value + 1..];
      i := at + 1;
      if rest != [] && rest in names {
        assert SuffixAt(domain, at);
        return true;
      }
      dot := FirstDot(rest);
    }
    assert forall k :: i <= k < |domain| ==> domain[k] == rest[k - i];
    return false;
  }

  // ---------------------------------------------------------------- compaction

  function TrimDots(d: Name): (t: Name)
    ensures |t| <= |d| && t == d[..|t|] && (t == [] || t[|t| - 1] != DOT)
    ensures forall i :: |t| <= i < |d| ==> d[i] == DOT
  {
    if d != [] && d[|d| - 1] == DOT then TrimDots(d[..|d| - 1]) else d
  }

  function Normalize(d: Name): (n: Name)
    ensures IsLower(n) && (n == [] || n[|n| - 1] != DOT)
  {
    Lower(TrimDots(d))
  }

  ghost predicate HasParent(d: Name, all: set<Name>) {
    exists k :: SuffixAt(d, k) && d[k + 1..] in all
  }

  /** The names of `all` that no other name of `all` covers. */
  ghost function Kept(all: set<Name>): set<Name> {
    set d | d in all && !HasParent(d, all)
  }

  method CoveredByParent(domain: Name, all: set<Name>) returns (covered: bool)
    ensures covered <==> HasParent(domain, all)
  {
    var rest := domain;
    var dot := FirstDot(rest);
    ghost var i := 0;
    while dot.Some?
      invariant 0 <= i <= |domain| && rest == domain[i..] && dot == FirstDot(rest)
      invariant forall k :: k < i && SuffixAt(domain, k) ==> domain[k + 1..] !in all
      decreases |rest|
    {
      ghost var at := i + dot.value;
      assert rest[dot.value + 1..] == domain[at + 1..];
      assert forall k :: i <= k < at ==> domain[k] == rest[k - i];
      rest := rest[dot.value + 1..];
      i := at + 1;
      if rest == [] { break; }
      if rest in all {
        assert SuffixAt(domain, at);
        return true;
      }
      dot := FirstDot(rest);
    }
    assert forall k :: i <= k < |domain| ==> domain[k] == rest[k - i];
    return false;
  }

  ghost function Normalized(domains: set<Name>): set<Name> {
    set d | d in domains :: Normalize(d)
  }

  method NormalizeAll(domains: set<Name>) returns (all: set<Name>)
    ensures all == Normalized(domains) && |all| <= |domains|
  {
    all := {};
    var left := domains;
    while left != {}
      invariant left <= domains && |all| <= |domains| - |left|
      invariant all == Normalized(domains - left)
      decreases |left|
    {
      var d :| d in left;
      assert domains - (left - {d}) == (domains - left) + {d};
      left := left - {d};
      all := all + {Normalize(d)};
    }
    assert domains - left == domains;
  }

  ghost function KeptAmong(part: set<Name>, all: set<Name>): set<Name> {
    set d | d in part && !HasParent(d, all)
  }

  lemma KeptAmongInsert(part: set<Name>, d: Name, all: set<Name>)
    ensures KeptAmong(part + {d}, all) == KeptAmong(part, all) + if HasParent(d, all) then {} else {d}
  {
  }

  method KeepUncovered(all: set<Name>) returns (kept: set<Name>)
    ensures kept == Kept(all) && |kept| <= |all|
  {
    hide HasParent;
    kept := {};
    var left := all;
    while left != {}
      invariant left <= all && |kept| <= |all| - |left|
      invariant kept == KeptAmong(all - left, all)
      decreases |left|
    {
      var d :| d in left;
      KeptAmongInsert(all - left, d, all);
      assert all - (left - {d}) == (all - left) + {d};
      left := left - {d};
      var covered := CoveredByParent(d, all);
      if !covered { kept := kept + {d}; }
    }
    assert all - left == all;
  }

  /** Normalise the feed, keep what nothing else covers, and count what was dropped. */
  method CompactCoveredDomains(domains: set<Name>) returns (kept: set<Name>, removed: nat)
    ensures kept == Kept(Normalized(domains))
    ensures removed == |domains| - |kept|
  {
    var all := NormalizeAll(domains);
    kept := KeepUncovered(all);
    removed := |domains| - |kept|;
  }

  // ---------------------------------------------------------------- what compaction guarantees

  lemma SuffixOfSuffix(d: Name, k: int, j: int)
    requires SuffixAt(d, k) && SuffixAt(d[k + 1..], j)
    ensures SuffixAt(d, k + 1 + j) && d[k + 1..][j + 1..] == d[k + 1 + j + 1..]
  {
  }

  lemma {:induction false} KeptCoversEveryMember(d: Name, all: set<Name>)
    requires d in all
    ensures Covered(In(Kept(all)), d)
    decreases |d|
  {
    if HasParent(d, all) {
      var k :| SuffixAt(d, k) && d[k + 1..] in all;
      var s := d[k + 1..];
      KeptCoversEveryMember(s, all);
      if !In(Kept(all))(s) {
        var j :| SuffixAt(s, j) && In(Kept(all))(s[j + 1..]);
        SuffixOfSuffix(d, k, j);
      }
    }
  }

  lemma CoveredThroughSuffix(listed: Listing, d: Name, k: int)
    requires SuffixAt(d, k) && Covered(listed, d[k + 1..])
    ensures Covered(listed, d)
  {
    var s := d[k + 1..];
    if !listed(s) {
      var j :| SuffixAt(s, j) && listed(s[j + 1..]);
      SuffixOfSuffix(d, k, j);
    }
  }

  /** The compacted list blocks exactly the names the full list blocks. */
  lemma CompactionPreservesMeaning(all: set<Name>, q: Name)
    ensures Covered(In(Kept(all)), q) <==> Covered(In(all), q)
  {
    if Covered(In(all), q) {
      if q in all {
        KeptCoversEveryMember(q, all);
      } else {
        var k :| SuffixAt(q, k) && In(all)(q[k + 1..]);
        KeptCoversEveryMember(q[k + 1..], all);
        CoveredThroughSuffix(In(Kept(all)), q, k);
      }
    }
  }

  /** No kept name is a proper dot-suffix of another, and the kept list is the least one: every
      sublist of the feed that blocks the same names contains it. */
  lemma CompactionIsMinimal(all: set<Name>)
    ensures forall a, b :: a in Kept(all) && b in Kept(all) ==> !IsProperSuffix(a, b)
    ensures forall t: set<Name> :: t <= all && (forall q :: Covered(In(t), q) <==> Covered(In(all), q)) ==>
      Kept(all) <= t
  {
    forall t: set<Name> | t <= all && (forall q :: Covered(In(t), q) <==> Covered(In(all), q))
      ensures Kept(all) <= t
    {
      forall d | d in Kept(all) ensures d in t {
        assert Covered(In(t), d);
        assert forall k :: SuffixAt(d, k) ==> !In(t)(d[k + 1..]);
      }
    }
  }
}
