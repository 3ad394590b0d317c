/** The blocking half of `DnsBlocker` as the program runs it: a 4096-entry table overwritten in
    place, and a lookup that walks dot-suffixes over the on-disk store. Every method is proved
    equal to the functions of `MemoWalk`. */
module BlockEngine {
  import opened Bytes
  import opened DiskFormat
  import opened DomainRules
  import opened MemoWalk
  import DiskStore
  import DiskTheorems
  import DnsQuery
  import opened DnsWire

  // ---------------------------------------------------------------- custom rules

  predicate IsRuleByte(b: byte) { 48 <= b <= 57 || 65 <= b <= 90 || 97 <= b <= 122 || b == 45 || b == 95 }

  predicate IsRuleLabel(l: Name) { DnsQuery.LabelOk(l) && forall i :: 0 <= i < |l| ==> IsRuleByte(l[i]) }

  /** `validate_domain`: a rule names a host below some top-level domain, never a whole public suffix. */
  function Validate(suffixes: set<Name>, text: Name): Option<Name> {
    var d := Lower(DnsQuery.Trimmed(text));
    if d == [] || |d| > 253 || DOT !in d || d in suffixes then None
    else if forall l :: l in DnsQuery.Split(d) ==> IsRuleLabel(l) then Some(d)
    else None
  }

  /** The rules among the texts. */
  ghost function Accepted(suffixes: set<Name>, texts: seq<Name>): set<Name> {
    set t | t in texts && Validate(suffixes, t).Some? :: Validate(suffixes, t).value
  }

  lemma {:induction false} BytesOfRule(s: Name)
    requires forall l :: l in DnsQuery.Split(s) ==> IsRuleLabel(l)
    ensures forall i :: 0 <= i < |s| ==> s[i] == DOT || IsRuleByte(s[i])
    ensures s != [] ==> s[0] != DOT
    decreases |s|
  {
    hide IsRuleByte, DnsQuery.LabelOk;
    var first, dot := DnsQuery.Split(s)[0], FirstDot(s);
    assert IsRuleLabel(first);
    assert |first| > 0 by { LabelNotEmpty(first); }
    assert forall i :: 0 <= i < |first| ==> s[i] == first[i];
    if dot.Some? {
      var rest := s[dot.value + 1..];
      assert DnsQuery.Split(s)[1..] == DnsQuery.Split(rest);
      assert forall l :: l in DnsQuery.Split(rest) ==> l in DnsQuery.Split(s);
      BytesOfRule(rest);
      assert forall i :: dot.value < i < |s| ==> s[i] == rest[i - dot.value - 1];
    }
  }

  /** What may stand in a rule: 1 to 63 letters, digits, hyphens and underscores. */
  predicate RuleText(l: Name) {
    1 <= |l| <= 63 && forall i :: 0 <= i < |l| ==>
      l[i] == 45 || l[i] == 95 || 48 <= l[i] < 58 || 65 <= l[i] < 91 || 97 <= l[i] < 123
  }

  lemma RuleLabelIsText(l: Name)
    ensures IsRuleLabel(l) <==> RuleText(l)
  {
  }

  lemma JoinHasDot(labels: seq<Name>)
    requires labels != [] && forall i :: 0 <= i < |labels| ==> RuleText(labels[i])
    ensures DOT in Join(labels) <==> |labels| >= 2
  {
    if |labels| >= 2 { assert Join(labels)[|labels[0]|] == DOT; }
  }

  /** A text is accepted exactly when, trimmed and lowered, it is at least two such labels joined by
      dots, at most 253 bytes, and no public suffix; the rule is then that name. */
  lemma ValidExactly(suffixes: set<Name>, text: Name)
    ensures var d := Lower(DnsQuery.Trimmed(text));
      && (Validate(suffixes, text).Some? ==> Validate(suffixes, text).value == d)
      && (Validate(suffixes, text).Some? <==>
            && |d| <= 253 && d !in suffixes
            && exists labels ::
                 |labels| >= 2 && d == Join(labels) && forall i :: 0 <= i < |labels| ==> RuleText(labels[i]))
  {
    hide IsRuleLabel, RuleText, DnsQuery.Split, DnsQuery.Trimmed, Join;
    var d := Lower(DnsQuery.Trimmed(text));
    forall l ensures IsRuleLabel(l) <==> RuleText(l) { RuleLabelIsText(l); }
    if Validate(suffixes, text).Some? {
      var labels := DnsQuery.Split(d);
      DnsQuery.JoinSplit(d);
      assert forall i :: 0 <= i < |labels| ==> labels[i] in labels;
      JoinHasDot(labels);
    }
    if labels :| |labels| >= 2 && d == Join(labels) && forall i :: 0 <= i < |labels| ==> RuleText(labels[i]) {
      forall i, j | 0 <= i < |labels| && 0 <= j < |labels[i]| ensures labels[i][j] != DOT { NoDotInside(labels[i], j); }
      DnsQuery.SplitJoin(labels);
      JoinHasDot(labels);
    }
  }

  lemma NoDotInside(l: Name, j: nat)
    requires RuleText(l) && j < |l|
    ensures l[j] != DOT
  {
  }

  method AcceptRules(suffixes: set<Name>, texts: seq<Name>) returns (rules: set<Name>)
    ensures rules == Accepted(suffixes, texts)
  {
    hide Validate;
    rules := {};
    for i := 0 to |texts|
      invariant rules == Accepted(suffixes, texts[..i])
    {
      assert texts[..i + 1] == texts[..i] + [texts[i]];
      var rule := Validate(suffixes, texts[i]);
      if rule.Some? { rules := rules + {rule.value}; }
    }
    assert texts[..|texts|] == texts;
  }

  lemma LabelNotEmpty(l: Name)
    requires IsRuleLabel(l)
    ensures l != []
  {
  }

  lemma TrimmedHasNoDot(text: Name)
    ensures var t := DnsQuery.Trimmed(text); t == [] || t[|t| - 1] != DOT
  {
  }

  /** An accepted rule is in the form queries are compared in, has a dot inside, and is accepted as
      it is when it is entered again. */
  lemma ValidRuleIsNormal(suffixes: set<Name>, text: Name)
    requires Validate(suffixes, text).Some?
    ensures var d := Validate(suffixes, text).value;
      && Normalize(d) == d && (exists k :: SuffixAt(d, k)) && Validate(suffixes, d) == Some(d)
  {
    hide DnsQuery.Split, IsRuleLabel, DnsQuery.Trimmed;
    var t := DnsQuery.Trimmed(text);
    var d := Lower(t);
    TrimmedHasNoDot(text);
    BytesOfRule(d);
    assert d[|d| - 1] == LowerByte(t[|t| - 1]) && Lower(d) == d;
    var k :| 0 <= k < |d| && d[k] == DOT;
    assert SuffixAt(d, k);
    NothingToTrim(d);
  }

  lemma NothingToTrim(d: Name)
    requires d != [] && d[|d| - 1] != DOT && !DnsQuery.IsSpace(d[0]) && !DnsQuery.IsSpace(d[|d| - 1])
    ensures DnsQuery.Trimmed(d) == d && TrimDots(d) == d
  {
  }

  class FastDomainCache {
    const entries: array<(u64, bool, bool)>
    ghost var slots: Cache

    ghost predicate Valid()
      reads this, entries
    {
      && entries.Length == 4096
      && (forall i :: i in slots ==> i < 4096)
      && (forall i: nat :: i < 4096 ==>
            entries[i].2 == (i in slots) && (i in slots ==> entries[i] == (slots[i].key, slots[i].blocked, true)))
    }

    constructor ()
      ensures Valid() && slots == map[] && fresh(entries)
    {
      entries := new (u64, bool, bool)[4096](_ => (0, false, false));
      slots := map[];
    }

    method Lookup(hash: u64) returns (r: Option<bool>)
      requires Valid()
      ensures r == Get(slots, hash)
    {
      var h := Key(hash);
      var (stored, blocked, occupied) := entries[h % 4096];
      assert SlotOf(hash) == h % 4096;
      r := if occupied && stored == h then Some(blocked) else None;
    }

    /** Overwrite the hash's slot, whatever it held. */
    method Insert(hash: u64, blocked: bool, ghost name: Name, ghost fromWalk: bool)
      requires Valid()
      modifies this, entries
      ensures Valid() && slots == Put(old(slots), hash, blocked, name, fromWalk)
    {
      var h := Key(hash);
      assert SlotOf(hash) == h % 4096;
      entries[h % 4096] := (h, blocked, true);
      slots := Put(slots, hash, blocked, name, fromWalk);
    }

    method Clear()
      requires Valid()
      modifies this, entries
      ensures Valid() && slots == map[]
    {
      forall i | 0 <= i < 4096 { entries[i] := (0, false, false); }
      slots := map[];
    }
  }

  /** An opened store together with the bytes of its file. */
  datatype Store = Store(disk: Disk, file: seq<byte>)

  /** Every bucket is searchable: it lies in the file and is sorted by hash. */
  ghost predicate StoreOk(s: Store) {
    && |s.disk.buckets| == BUCKET_COUNT
    && forall b :: 0 <= b < BUCKET_COUNT ==>
         BucketEnd(s.disk.buckets[b]) <= |s.file| && BucketSorted(s.disk.buckets[b], s.file)
  }

  ghost function Lists(H: Hash, s: Store): Listing {
    (x: Name) => StoreOk(s) && Finds(H, s.disk, s.file, x)
  }

  ghost function DiskListing(H: Hash, s: Option<Store>): Option<Listing> {
    if s.Some? then Some(Lists(H, s.value)) else None
  }

  class DnsBlocker {
    const H: Hash
    var store: Option<Store>
    const fastCache: FastDomainCache
    var builtinDomains: set<Name>
    var allowedDomains: set<Name>
    var customBlocked: set<Name>
    var customAllowed: set<Name>

    ghost predicate Valid()
      reads this, fastCache, fastCache.entries
    {
      fastCache.Valid() && (store.Some? ==> StoreOk(store.value))
    }

    ghost function State(): Engine
      reads this, fastCache
    {
      Engine(customAllowed, allowedDomains, customBlocked, builtinDomains, DiskListing(H, store), fastCache.slots)
    }

    constructor (H: Hash, builtin: set<Name>, store: Option<Store>)
      requires store.Some? ==> StoreOk(store.value)
      ensures Valid() && fresh(fastCache) && fresh(fastCache.entries) && this.H == H
      ensures State() == Engine({}, {}, {}, builtin, DiskListing(H, store), map[])
    {
      this.H := H;
      this.store := store;
      fastCache := new FastDomainCache();
      builtinDomains, allowedDomains, customBlocked, customAllowed := builtin, {}, {}, {};
    }

    /** Replace the disk store, then drop every memoised answer. */
    method LoadStore(store: Option<Store>)
      requires Valid() && (store.Some? ==> StoreOk(store.value))
      modifies this`store, fastCache, fastCache.entries
      ensures Valid() && this.store == store
      ensures State() == Apply(H, true, old(State()), Reload(DiskListing(H, store)))
    {
      this.store := store;
      fastCache.Clear();
    }

    /** Replace both rule lists by the valid texts, then drop every memoised answer. */
    method SetCustomRules(suffixes: set<Name>, blocked: seq<Name>, allowed: seq<Name>)
      requires Valid()
      modifies this`customBlocked, this`customAllowed, fastCache, fastCache.entries
      ensures Valid()
      ensures var change := ChangeRules(Accepted(suffixes, blocked), Accepted(suffixes, allowed));
        State() == Apply(H, true, old(State()), change)
    {
      var cb := AcceptRules(suffixes, blocked);
      var ca := AcceptRules(suffixes, allowed);
      customBlocked, customAllowed := cb, ca;
      fastCache.Clear();
    }

    method StoreContains(domain: Name) returns (found: bool)
      requires Valid() && store.Some?
      ensures found == Lists(H, store.value)(domain)
    {
      var s := store.value;
      assert BucketSorted(s.disk.buckets[BucketOf(H(domain))], s.file);
      found := DiskStore.Contains(H, s.disk, s.file, domain);
    }

    method CheckDiskHierarchy(domain: Name) returns (found: bool)
      requires Valid()
      modifies fastCache, fastCache.entries
      ensures Valid()
      ensures (found, fastCache.slots) == CheckDisk(H, DiskListing(H, store), true, domain, old(fastCache.slots))
    {
      hide Finds, StoreOk, Lists, Get, Put, WalkFrom;
      if store.None? { return false; }
      ghost var listed := Lists(H, store.value);
      var exact := StoreContains(domain);
      if exact { return true; }
      ghost var start := fastCache.slots;
      var rest := domain;
      var dot := FirstDot(rest);
      ghost var i := 0;
      while dot.Some?
        invariant Valid() && 0 <= i <= |domain| && rest == domain[i..] && dot == FirstDot(rest)
        invariant WalkFrom(H, listed, true, domain, 0, start) == WalkFrom(H, listed, true, domain, i, fastCache.slots)
        decreases |rest|
      {
        FirstDotShifts(domain, i, 0);
        WalkStep(H, listed, true, domain, i, fastCache.slots);
        ghost var k := i + dot.value;
        assert rest[dot.value + 1..] == domain[k + 1..];
        rest := rest[dot.value + 1..];
        i := k + 1;
        if rest != [] {
          var h := H(rest);
          var cached := fastCache.Lookup(h);
          if cached.Some? {
            if cached.value { return true; }
          } else {
            var blocked := StoreContains(rest);
            fastCache.Insert(h, blocked, rest, true);
            if blocked { return true; }
          }
        }
        dot := FirstDot(rest);
      }
      FirstDotShifts(domain, i, 0);
      WalkStep(H, listed, true, domain, i, fastCache.slots);
      return false;
    }

    method ShouldBlockName(domain: Name) returns (blocked: bool)
      requires Valid()
      modifies fastCache, fastCache.entries
      ensures Valid()
      ensures (blocked, State()) == ShouldBlock(H, true, old(State()), domain)
    {
      var clean := Normalize(domain);
      if clean == [] { return false; }
      var ca := MatchDomainHierarchy(clean, customAllowed);
      var ga := MatchDomainHierarchy(clean, allowedDomains);
      if ca || ga { return false; }
      var cb := MatchDomainHierarchy(clean, customBlocked);
      if cb { return true; }
      var bb := MatchDomainHierarchy(clean, builtinDomains);
      if bb { return true; }
      var h := H(clean);
      var cached := fastCache.Lookup(h);
      if cached.Some? { return cached.value; }
      blocked := CheckDiskHierarchy(clean);
      fastCache.Insert(h, blocked, clean, false);
    }
  }

  /** The walk, one dot at a time. */
  lemma WalkStep(H: Hash, listed: Listing, negatives: bool, d: Name, i: nat, c: Cache)
    requires i <= |d|
    ensures FirstDotFrom(d, i).None? ==> WalkFrom(H, listed, negatives, d, i, c) == (false, c)
    ensures FirstDotFrom(d, i).Some? ==>
      var k := FirstDotFrom(d, i).value; var rest := d[k + 1..];
      && (rest == [] ==> WalkFrom(H, listed, negatives, d, i, c) == WalkFrom(H, listed, negatives, d, k + 1, c))
      && (rest != [] ==>
            var hit, memo := listed(rest), Get(c, H(rest));
            var c' := if memo.None? && (hit || negatives) then Put(c, H(rest), hit, rest, true) else c;
            WalkFrom(H, listed, negatives, d, i, c) ==
              if memo == Some(true) || (memo.None? && hit) then (true, c')
              else WalkFrom(H, listed, negatives, d, k + 1, c'))
  {
  }

  /** The first dot of a suffix is the first dot of the whole from there. */
  lemma {:induction false} FirstDotShifts(d: Name, i: nat, j: nat)
    requires i + j <= |d|
    ensures var rest := d[i..];
      FirstDotFrom(d, i + j) == (match FirstDotFrom(rest, j) case None => None case Some(p) => Some(i + p))
    decreases |d| - i - j
  {
    if i + j < |d| { FirstDotShifts(d, i, j + 1); }
  }

  // ---------------------------------------------------------------- from feed to answer

  /** `ds` lists `names` in hash order. */
  ghost predicate Orders(H: Hash, names: set<Name>, ds: seq<Name>) {
    Ordered(H, ds) && forall n :: n in ds <==> n in names
  }

  /** `ds` holds exactly the compacted feed, and `s` is the opened encoding of it. */
  ghost predicate EncodesFeed(H: Hash, feed: set<Name>, ds: seq<Name>, s: Store) {
    Orders(H, Kept(Normalized(feed)), ds) && Encodes(H, ds, s.file) && OpenSpec(s.file) == Opened(s.disk)
  }

  /** The compacted feed, in hash order, fits the integer widths of the file. */
  ghost predicate FeedFits(H: Hash, feed: set<Name>) {
    exists ds :: Orders(H, Kept(Normalized(feed)), ds) && Encodable(ds)
  }

  lemma SameLeast(H: Hash, a: seq<Name>, b: seq<Name>)
    requires Ordered(H, a) && Ordered(H, b) && a != [] && b != [] && a[0] in b && b[0] in a
    ensures a[0] == b[0]
  {
    hide Before;
    var i :| 0 <= i < |a| && a[i] == b[0];
    var j :| 0 <= j < |b| && b[j] == a[0];
    DiskStore.BeforeTotal(H, a[0], b[0]);
  }

  /** A set has one listing in hash order. */
  lemma {:induction false} OrderIsUnique(H: Hash, names: set<Name>, a: seq<Name>, b: seq<Name>)
    requires Orders(H, names, a) && Orders(H, names, b)
    ensures a == b
    decreases |a|
  {
    hide Before;
    assert a != [] ==> a[0] in names;
    assert b != [] ==> b[0] in names;
    if a != [] {
      SameLeast(H, a, b);
      FirstIsNowhereElse(H, a);
      FirstIsNowhereElse(H, b);
      OrderIsUnique(H, names - {a[0]}, a[1..], b[1..]);
      assert a == [a[0]] + a[1..] && b == [b[0]] + b[1..];
    }
  }

  lemma FirstIsNowhereElse(H: Hash, ds: seq<Name>)
    requires Ordered(H, ds) && ds != []
    ensures Ordered(H, ds[1..]) && forall n :: n in ds[1..] <==> n in ds && n != ds[0]
  {
    hide Before;
    DiskStore.BeforeTotal(H, ds[0], ds[0]);
    assert ds == [ds[0]] + ds[1..];
  }

  lemma EncodedStoreOk(H: Hash, feed: set<Name>, ds: seq<Name>, s: Store)
    requires EncodesFeed(H, feed, ds, s)
    ensures StoreOk(s)
  {
    DiskTheorems.EncodedFileOpens(H, ds, s.file);
    forall b | 0 <= b < BUCKET_COUNT
      ensures BucketEnd(s.disk.buckets[b]) <= |s.file| && BucketSorted(s.disk.buckets[b], s.file)
    {
      DiskTheorems.EncodedBucketSorted(H, ds, s.file, b);
    }
  }

  lemma FeedLookup(H: Hash, feed: set<Name>, ds: seq<Name>, s: Store, x: Name)
    requires DiskTheorems.FoldsCase(H) && EncodesFeed(H, feed, ds, s)
    requires IsLower(x) && x != [] && StoreOk(s) && DiskTheorems.WithinCap(H, s.disk, x)
    ensures Lists(H, s)(x) <==> x in Kept(Normalized(feed))
  {
    DiskTheorems.IndexRefinesSet(H, ds, s.file, x);
    if DiskTheorems.Listed(ds, x) {
      var d :| d in ds && EqFold(d, x);
      assert d in Normalized(feed);
      LowerNamesFoldEqual(d, x);
    }
    assert EqFold(x, x);
  }

  /** The buckets a walk of `q` reads are within the read cap. */
  ghost predicate WalkWithinCap(H: Hash, disk: Disk, q: Name)
    requires |disk.buckets| == BUCKET_COUNT
  {
    DiskTheorems.WithinCap(H, disk, q) && forall k :: SuffixAt(q, k) ==> DiskTheorems.WithinCap(H, disk, q[k + 1..])
  }

  /** Compaction, encoding, opening, lookup and walk together: with the buckets it reads within the
      cap, the uncached disk walk answers exactly by hierarchy on the normalised feed. */
  lemma DiskWalkIsFeed(H: Hash, feed: set<Name>, ds: seq<Name>, s: Store, q: Name)
    requires DiskTheorems.FoldsCase(H) && EncodesFeed(H, feed, ds, s) && StoreOk(s)
    requires IsLower(q) && q != [] && WalkWithinCap(H, s.disk, q)
    ensures Covered(Lists(H, s), q) <==> Covered(In(Normalized(feed)), q)
  {
    CompactionPreservesMeaning(Normalized(feed), q);
    FeedLookup(H, feed, ds, s, q);
    forall k | SuffixAt(q, k) ensures Lists(H, s)(q[k + 1..]) <==> In(Kept(Normalized(feed)))(q[k + 1..]) {
      FeedLookup(H, feed, ds, s, q[k + 1..]);
    }
  }

  /** The names of a set, in any order. */
  method Collect(names: set<Name>) returns (r: seq<Name>)
    ensures forall n :: n in r <==> n in names
  {
    r := [];
    var left := names;
    while left != {}
      invariant forall n :: n in names <==> n in r || n in left
      decreases |left|
    {
      var n :| n in left;
      r := r + [n];
      left := left - {n};
    }
  }

  /** The store answers by hierarchy on the normalised feed wherever the read cap lets it. */
  ghost predicate AnswersFeed(H: Hash, s: Store, feed: set<Name>)
    requires StoreOk(s)
  {
    forall q :: IsLower(q) && q != [] && WalkWithinCap(H, s.disk, q) ==>
      (Covered(Lists(H, s), q) <==> Covered(In(Normalized(feed)), q))
  }

  lemma EncodedFeedAnswers(H: Hash, feed: set<Name>, ds: seq<Name>, s: Store)
    requires DiskTheorems.FoldsCase(H) && EncodesFeed(H, feed, ds, s) && StoreOk(s)
    ensures AnswersFeed(H, s, feed)
  {
    hide WalkWithinCap, Covered, Lists, IsLower;
    forall q | IsLower(q) && q != [] && WalkWithinCap(H, s.disk, q)
      ensures Covered(Lists(H, s), q) <==> Covered(In(Normalized(feed)), q)
    {
      DiskWalkIsFeed(H, feed, ds, s, q);
    }
  }

  lemma FitsIfListingFits(H: Hash, feed: set<Name>, ds: seq<Name>)
    requires Orders(H, Kept(Normalized(feed)), ds)
    ensures FeedFits(H, feed) <==> Encodable(ds)
  {
    hide Encodable, Orders;
    if FeedFits(H, feed) {
      var other :| Orders(H, Kept(Normalized(feed)), other) && Encodable(other);
      OrderIsUnique(H, Kept(Normalized(feed)), ds, other);
    }
  }

  /** Compact a feed, build its file and open it again; only the build can fail, and only when the
      compacted feed does not fit the format. */
  method StoreFromFeed(H: Hash, feed: set<Name>) returns (s: Option<Store>)
    requires DiskTheorems.FoldsCase(H)
    ensures s.Some? <==> FeedFits(H, feed)
    ensures s.Some? ==> StoreOk(s.value) && AnswersFeed(H, s.value, feed)
  {
    var kept, removed := CompactCoveredDomains(feed);
    var domains := Collect(kept);
    ghost var ds := DiskStore.SortDedup(H, domains);
    FitsIfListingFits(H, feed, ds);
    hide FeedFits, Encodable;
    var outcome := DiskStore.Build(H, domains);
    if outcome.Failed? { return None; }
    var reopened := DiskStore.Open(outcome.file);
    DiskTheorems.EncodedFileOpens(H, ds, outcome.file);
    var store := Store(reopened.disk, outcome.file);
    assert EncodesFeed(H, feed, ds, store) by { hide Encodes; }
    EncodedStoreOk(H, feed, ds, store);
    EncodedFeedAnswers(H, feed, ds, store);
    s := Some(store);
  }

  /** The rebuild at the end of a feed refresh: on success the new store is swapped in and the
      memoised answers are dropped; on failure nothing changes. */
  method RebuildFrom(blocker: DnsBlocker, feed: set<Name>) returns (built: bool)
    requires blocker.Valid() && DiskTheorems.FoldsCase(blocker.H)
    modifies blocker`store, blocker.fastCache, blocker.fastCache.entries
    ensures blocker.Valid() && (built <==> FeedFits(blocker.H, feed))
    ensures !built ==> blocker.State() == old(blocker.State())
    ensures built ==> blocker.store.Some? && AnswersFeed(blocker.H, blocker.store.value, feed)
    ensures built ==>
      blocker.State() == Apply(blocker.H, true, old(blocker.State()), Reload(DiskListing(blocker.H, blocker.store)))
  {
    hide AnswersFeed, FeedFits, StoreOk, Apply, DiskTheorems.FoldsCase;
    var s := StoreFromFeed(blocker.H, feed);
    if s.None? { return false; }
    blocker.LoadStore(s);
    built := true;
  }
}
