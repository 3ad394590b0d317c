/** The direct-mapped answer cache, the suffix walk that reads and writes it, and `should_block` over them, for names
    in a finite universe closed under dot-suffixes whose hashes differ, though they may share slots. */
module MemoWalk {
  import opened Bytes
  import opened DiskFormat
  import opened DomainRules

  // ---------------------------------------------------------------- the cache

  function Key(h: u64): u64 { if h == 0xFFFF_FFFF_FFFF_FFFF then 0 else h + 1 }

  function SlotOf(h: u64): (i: nat)
    ensures i < 4096
  {
    Key(h) % 4096
  }

  /** An occupied slot: the key and answer the program stores, and for the proof the name it was
      written for and whether the suffix walk wrote it (rather than `should_block` itself). */
  datatype Slot = Slot(key: u64, blocked: bool, name: Name, fromWalk: bool)

  type Cache = map<nat, Slot>

  function Get(c: Cache, h: u64): Option<bool> {
    var i := SlotOf(h);
    if i in c && c[i].key == Key(h) then Some(c[i].blocked) else None
  }

  function Put(c: Cache, h: u64, blocked: bool, name: Name, fromWalk: bool): Cache {
    c[SlotOf(h) := Slot(Key(h), blocked, name, fromWalk)]
  }

  // ---------------------------------------------------------------- the memoised walk

  /** The suffix walk of `d` from position `i`. With `negatives` off it memoises hits only. */
  ghost function WalkFrom(H: Hash, listed: Listing, negatives: bool, d: Name, i: nat, c: Cache): (bool, Cache)
    requires i <= |d|
    decreases |d| - i
  {
    match FirstDotFrom(d, i)
    case None => (false, c)
    case Some(k) =>
      var rest := d[k + 1..];
      if rest == [] then (false, c)
      else match Get(c, H(rest))
        case Some(true) => (true, c)
        case Some(false) => WalkFrom(H, listed, negatives, d, k + 1, c)
        case None =>
          var hit := listed(rest);
          var c' := if hit || negatives then Put(c, H(rest), hit, rest, true) else c;
          if hit then (true, c') else WalkFrom(H, listed, negatives, d, k + 1, c')
  }

  ghost function CheckDisk(H: Hash, disk: Option<Listing>, negatives: bool, d: Name, c: Cache): (bool, Cache) {
    if disk.None? then (false, c)
    else if disk.value(d) then (true, c)
    else WalkFrom(H, disk.value, negatives, d, 0, c)
  }

  // ---------------------------------------------------------------- the engine

  datatype Engine = Engine(
    customAllowed: set<Name>, allowed: set<Name>, customBlocked: set<Name>, builtin: set<Name>,
    disk: Option<Listing>, cache: Cache)

  ghost function ListedBy(disk: Option<Listing>): Listing {
    if disk.Some? then disk.value else (x: Name) => false
  }

  /** What the rule sets decide before the cache is consulted. */
  ghost function RuleSets(e: Engine, d: Name): Option<bool> {
    if Covered(In(e.customAllowed), d) || Covered(In(e.allowed), d) then Some(false)
    else if Covered(In(e.customBlocked), d) || Covered(In(e.builtin), d) then Some(true)
    else None
  }

  /** The uncached rule. */
  ghost predicate Rule(e: Engine, domain: Name) {
    var d := Normalize(domain);
    d != [] && match RuleSets(e, d)
               case Some(b) => b
               case None => Covered(ListedBy(e.disk), d)
  }

  ghost function ShouldBlock(H: Hash, negatives: bool, e: Engine, domain: Name): (bool, Engine) {
    var d := Normalize(domain);
    if d == [] then (false, e)
    else match RuleSets(e, d)
      case Some(b) => (b, e)
      case None =>
        match Get(e.cache, H(d))
        case Some(b) => (b, e)
        case None =>
          var (b, c) := CheckDisk(H, e.disk, negatives, d, e.cache);
          (b, e.(cache := Put(c, H(d), b, d, false)))
  }

  /** Everything that happens to an engine: queries, and changes of disk list or custom rules,
      each of which clears the cache. */
  datatype Op =
    | Query(domain: Name)
    | Reload(disk: Option<Listing>)
    | ChangeRules(customBlocked: set<Name>, customAllowed: set<Name>)

  ghost function Apply(H: Hash, negatives: bool, e: Engine, op: Op): Engine {
    match op
    case Query(domain) => ShouldBlock(H, negatives, e, domain).1
    case Reload(disk) => e.(disk := disk, cache := map[])
    case ChangeRules(cb, ca) => e.(customBlocked := cb, customAllowed := ca, cache := map[])
  }

  /** The state after the first `n` operations. */
  ghost function After(H: Hash, negatives: bool, e: Engine, ops: seq<Op>, n: nat): Engine
    requires n <= |ops|
  {
    if n == 0 then e else Apply(H, negatives, After(H, negatives, e, ops, n - 1), ops[n - 1])
  }

  // ---------------------------------------------------------------- the invariant

  ghost predicate Universe(H: Hash, u: set<Name>) {
    && (forall n :: n in u ==> IsLower(n))
    && (forall n, k :: n in u && SuffixAt(n, k) ==> n[k + 1..] in u)
    && (forall a, b :: a in u && b in u && H(a) == H(b) ==> a == b)
  }

  /** A slot written by the walk holds exact membership of its name, one written by
      `should_block` holds the hierarchy answer. */
  ghost predicate SlotOk(H: Hash, u: set<Name>, listed: Listing, negatives: bool, i: nat, s: Slot) {
    && s.name in u && i == SlotOf(H(s.name)) && s.key == Key(H(s.name))
    && (s.fromWalk ==> s.blocked == listed(s.name) && (s.blocked || negatives))
    && (!s.fromWalk ==> s.blocked == Covered(listed, s.name))
  }

  ghost predicate CacheOk(H: Hash, u: set<Name>, listed: Listing, negatives: bool, c: Cache) {
    forall i :: i in c ==> SlotOk(H, u, listed, negatives, i, c[i])
  }

  ghost predicate EngineOk(H: Hash, u: set<Name>, negatives: bool, e: Engine) {
    CacheOk(H, u, ListedBy(e.disk), negatives, e.cache)
  }

  /** A hit is the slot written for that very name. */
  lemma HitNamesItself(H: Hash, u: set<Name>, listed: Listing, negatives: bool, c: Cache, n: Name)
    requires Universe(H, u) && CacheOk(H, u, listed, negatives, c) && n in u
    requires Get(c, H(n)).Some?
    ensures var s := c[SlotOf(H(n))]; s.name == n && SlotOk(H, u, listed, negatives, SlotOf(H(n)), s)
  {
    var s := c[SlotOf(H(n))];
    assert SlotOk(H, u, listed, negatives, SlotOf(H(n)), s);
  }

  /** What a memo tells the walk, whichever of the two writers left it. */
  lemma MemoIsSound(H: Hash, u: set<Name>, listed: Listing, negatives: bool, c: Cache, n: Name)
    requires Universe(H, u) && CacheOk(H, u, listed, negatives, c) && n in u
    ensures Get(c, H(n)) == Some(true) ==> Covered(listed, n)
    ensures Get(c, H(n)) == Some(false) ==> !listed(n)
  {
    if Get(c, H(n)).Some? { HitNamesItself(H, u, listed, negatives, c, n); }
  }

  ghost predicate CoveredFrom(listed: Listing, d: Name, i: nat) {
    exists k :: i <= k && SuffixAt(d, k) && listed(d[k + 1..])
  }

  lemma WalkWriteOk(H: Hash, u: set<Name>, listed: Listing, negatives: bool, c: Cache, n: Name)
    requires CacheOk(H, u, listed, negatives, c) && n in u && (listed(n) || negatives)
    ensures CacheOk(H, u, listed, negatives, Put(c, H(n), listed(n), n, true))
  {
  }

  lemma CoveredFromHere(listed: Listing, d: Name, i: nat, k: nat)
    requires i <= k < |d| && SuffixAt(d, k) && FirstDotFrom(d, i) == Some(k)
    ensures CoveredFrom(listed, d, i) <==> listed(d[k + 1..]) || CoveredFrom(listed, d, k + 1)
    ensures Covered(listed, d[k + 1..]) ==> CoveredFrom(listed, d, i)
  {
    var rest := d[k + 1..];
    if Covered(listed, rest) && !listed(rest) {
      var j :| SuffixAt(rest, j) && listed(rest[j + 1..]);
      SuffixOfSuffix(d, k, j);
    }
  }

  /** One step of the walk. */
  lemma WalkStepsOnce(H: Hash, listed: Listing, negatives: bool, d: Name, i: nat, c: Cache, k: nat)
    requires i <= k && k + 1 < |d| && FirstDotFrom(d, i) == Some(k)
    ensures var rest := d[k + 1..]; var memo, hit := Get(c, H(rest)), listed(rest);
      var c' := if memo.None? && (hit || negatives) then Put(c, H(rest), hit, rest, true) else c;
      WalkFrom(H, listed, negatives, d, i, c) ==
        if memo == Some(true) || (memo.None? && hit) then (true, c') else WalkFrom(H, listed, negatives, d, k + 1, c')
  {
    hide Get, Put;
  }

  lemma WalkEnds(H: Hash, listed: Listing, negatives: bool, d: Name, i: nat, c: Cache)
    requires i <= |d| && (FirstDotFrom(d, i).None? || FirstDotFrom(d, i).value + 1 == |d|)
    ensures WalkFrom(H, listed, negatives, d, i, c) == (false, c) && !CoveredFrom(listed, d, i)
  {
  }

  lemma NextSuffix(H: Hash, u: set<Name>, d: Name, i: nat, k: nat)
    requires Universe(H, u) && d in u && i <= |d| && FirstDotFrom(d, i) == Some(k) && k + 1 != |d|
    ensures i <= k < |d| && SuffixAt(d, k) && d[k + 1..] in u
  {
    assert SuffixAt(d, k);
  }

  /** From any cache in the invariant the walk gives the memo-free answer and keeps the invariant. */
  lemma {:induction false} WalkIsExact(H: Hash, u: set<Name>, listed: Listing, negatives: bool, d: Name, i: nat,
          c: Cache)
    requires Universe(H, u) && CacheOk(H, u, listed, negatives, c) && d in u && i <= |d|
    ensures var (b, c') := WalkFrom(H, listed, negatives, d, i, c);
      (b <==> CoveredFrom(listed, d, i)) && CacheOk(H, u, listed, negatives, c')
    decreases |d| - i
  {
    hide *;
    var dot := FirstDotFrom(d, i);
    if dot.None? || dot.value + 1 == |d| {
      WalkEnds(H, listed, negatives, d, i, c);
    } else {
      var k := dot.value;
      NextSuffix(H, u, d, i, k);
      CoveredFromHere(listed, d, i, k);
      WalkStepsOnce(H, listed, negatives, d, i, c, k);
      var rest := d[k + 1..];
      var memo := Get(c, H(rest));
      MemoIsSound(H, u, listed, negatives, c, rest);
      if memo.None? || !memo.value {
        assert memo.Some? ==> memo == Some(false);
        var hit := listed(rest);
        if hit || negatives { WalkWriteOk(H, u, listed, negatives, c, rest); }
        var c' := if memo.None? && (hit || negatives) then Put(c, H(rest), hit, rest, true) else c;
        WalkIsExact(H, u, listed, negatives, d, k + 1, c');
      }
    }
  }

  /** `check_disk_hierarchy` equals the memo-free suffix walk in every cache state the invariant
      allows. */
  lemma CheckDiskIsExact(H: Hash, u: set<Name>, disk: Option<Listing>, negatives: bool, d: Name, c: Cache)
    requires Universe(H, u) && CacheOk(H, u, ListedBy(disk), negatives, c) && d in u
    ensures var (b, c') := CheckDisk(H, disk, negatives, d, c);
      (b <==> Covered(ListedBy(disk), d)) && CacheOk(H, u, ListedBy(disk), negatives, c')
  {
    if disk.Some? { WalkIsExact(H, u, disk.value, negatives, d, 0, c); }
  }

  /** The cache is about to answer `d` with a negative memo that the suffix walk left behind. */
  ghost predicate WalkNegative(H: Hash, e: Engine, d: Name) {
    && d != [] && RuleSets(e, d).None? && Get(e.cache, H(d)) == Some(false)
    && e.cache[SlotOf(H(d))].fromWalk
  }

  /** One query, exactly: it keeps the invariant; it blocks nothing the rule allows; and it is
      wrong precisely when a walk's negative memo answers for a name the disk list covers. */
  lemma QueryIsExact(H: Hash, u: set<Name>, negatives: bool, e: Engine, domain: Name)
    requires Universe(H, u) && EngineOk(H, u, negatives, e) && Normalize(domain) in u
    ensures var (b, e') := ShouldBlock(H, negatives, e, domain); var d := Normalize(domain);
      && EngineOk(H, u, negatives, e')
      && (b ==> Rule(e, domain))
      && (b != Rule(e, domain) <==> WalkNegative(H, e, d) && Covered(ListedBy(e.disk), d))
      && (WalkNegative(H, e, d) ==> negatives && !ListedBy(e.disk)(d))
  {
    var d := Normalize(domain);
    if d != [] && RuleSets(e, d).None? {
      if Get(e.cache, H(d)).Some? {
        HitNamesItself(H, u, ListedBy(e.disk), negatives, e.cache, d);
      } else {
        CheckDiskIsExact(H, u, e.disk, negatives, d, e.cache);
      }
    }
  }

  // ---------------------------------------------------------------- the rule sets win

  /** A name on either allow list, or below one, is never blocked, whatever else covers it and
      whatever is memoised; nor is the empty name. */
  lemma AllowedIsNeverBlocked(H: Hash, negatives: bool, e: Engine, domain: Name)
    requires var d := Normalize(domain); d == [] || Covered(In(e.customAllowed), d) || Covered(In(e.allowed), d)
    ensures !ShouldBlock(H, negatives, e, domain).0
  {
    hide Covered;
  }

  /** A name under a custom or built-in rule and no allow list is always blocked. */
  lemma RuledIsAlwaysBlocked(H: Hash, negatives: bool, e: Engine, domain: Name)
    requires var d := Normalize(domain);
      && d != [] && (Covered(In(e.customBlocked), d) || Covered(In(e.builtin), d))
      && !Covered(In(e.customAllowed), d) && !Covered(In(e.allowed), d)
    ensures ShouldBlock(H, negatives, e, domain).0
  {
    hide Covered;
  }

  /** A name none of the four sets covers is blocked only if the disk list covers it; and if it is
      not memoised, exactly then. */
  lemma OnlyTheDiskDecides(H: Hash, u: set<Name>, negatives: bool, e: Engine, domain: Name)
    requires Universe(H, u) && EngineOk(H, u, negatives, e) && Normalize(domain) in u
    requires var d := Normalize(domain);
      && d != [] && !Covered(In(e.customAllowed), d) && !Covered(In(e.allowed), d)
      && !Covered(In(e.customBlocked), d) && !Covered(In(e.builtin), d)
    ensures var d := Normalize(domain);
      && (ShouldBlock(H, negatives, e, domain).0 ==> e.disk.Some? && Covered(e.disk.value, d))
      && (e.cache == map[] ==> (ShouldBlock(H, negatives, e, domain).0 <==> e.disk.Some? && Covered(e.disk.value, d)))
  {
    hide Covered, ShouldBlock, CacheOk, Universe;
    QueryIsExact(H, u, negatives, e, domain);
    if e.disk.None? { NothingCovered(Normalize(domain)); }
  }

  // ---------------------------------------------------------------- whole runs

  ghost predicate QueriesIn(u: set<Name>, ops: seq<Op>) {
    forall i :: 0 <= i < |ops| && ops[i].Query? ==> Normalize(ops[i].domain) in u
  }

  lemma {:induction false} RunKeepsInvariant(H: Hash, u: set<Name>, negatives: bool, e: Engine, ops: seq<Op>, n: nat)
    requires Universe(H, u) && e.cache == map[] && QueriesIn(u, ops) && n <= |ops|
    ensures EngineOk(H, u, negatives, After(H, negatives, e, ops, n))
  {
    if n > 0 {
      RunKeepsInvariant(H, u, negatives, e, ops, n - 1);
      if ops[n - 1].Query? {
        QueryIsExact(H, u, negatives, After(H, negatives, e, ops, n - 1), ops[n - 1].domain);
      }
    }
  }

  // ---------------------------------------------------------------- what the walk leaves behind

  /** No dot-suffix of `x` that starts after a dot before `i` is listed. */
  ghost predicate NoneListed(listed: Listing, x: Name, i: int) {
    forall j :: j < i && SuffixAt(x, j) ==> !listed(x[j + 1..])
  }

  /** `d` is a proper suffix of `x`, and no longer one is listed. */
  ghost predicate WalkedTo(listed: Listing, x: Name, d: Name) {
    exists k :: SuffixAt(x, k) && d == x[k + 1..] && NoneListed(listed, x, k)
  }

  /** Asking for `x` walks its suffixes down to `d`: no rule set decides `x`, and neither it nor a
      longer suffix than `d` is listed. */
  ghost predicate WalksTo(e: Engine, x: Name, d: Name) {
    RuleSets(e, x).None? && e.disk.Some? && !e.disk.value(x) && WalkedTo(e.disk.value, x, d)
  }

  /** And finds `d` unlisted, which leaves a negative. */
  ghost predicate Reaches(e: Engine, x: Name, d: Name) { WalksTo(e, x, d) && !e.disk.value(d) }

  lemma NextNotListed(listed: Listing, x: Name, i: nat, k: nat)
    requires i <= |x| && NoneListed(listed, x, i) && FirstDotFrom(x, i) == Some(k) && SuffixAt(x, k)
    ensures NoneListed(listed, x, k) && WalkedTo(listed, x, x[k + 1..])
    ensures !listed(x[k + 1..]) ==> NoneListed(listed, x, k + 1)
  {
  }

  lemma SuffixInUniverse(H: Hash, u: set<Name>, x: Name, k: nat)
    requires Universe(H, u) && x in u && SuffixAt(x, k)
    ensures x[k + 1..] in u
  {
  }

  /** One memo of the walk changes one slot. */
  lemma PutOne(c: Cache, h: u64, blocked: bool, n: Name)
    ensures var c' := Put(c, h, blocked, n, true);
      forall s :: s in c' ==> (s in c && c'[s] == c[s]) || c'[s].name == n
  {
  }

  /** The walk of `x` leaves only memos that were there before and memos of suffixes it walked to. */
  lemma {:induction false} WalkMemos(H: Hash, u: set<Name>, listed: Listing, negatives: bool, x: Name, i: nat, c: Cache)
    requires Universe(H, u) && CacheOk(H, u, listed, negatives, c) && x in u && i <= |x| && NoneListed(listed, x, i)
    ensures var c' := WalkFrom(H, listed, negatives, x, i, c).1;
      forall s :: s in c' ==> (s in c && c'[s] == c[s]) || WalkedTo(listed, x, c'[s].name)
    decreases |x| - i
  {
    hide Get, Put, NoneListed, WalkedTo, CacheOk, Universe;
    var dot := FirstDotFrom(x, i);
    if dot.None? || dot.value + 1 == |x| { return; }
    var rest := x[dot.value + 1..];
    assert SuffixAt(x, dot.value);
    hide SuffixAt;
    SuffixInUniverse(H, u, x, dot.value);
    PutOne(c, H(rest), listed(rest), rest);
    NextNotListed(listed, x, i, dot.value);
    MemoIsSound(H, u, listed, negatives, c, rest);
    var memo, hit := Get(c, H(rest)), listed(rest);
    var c' := if memo.None? && (hit || negatives) then Put(c, H(rest), hit, rest, true) else c;
    if memo != Some(true) && !hit {
      if negatives { WalkWriteOk(H, u, listed, negatives, c, rest); }
      WalkMemos(H, u, listed, negatives, x, dot.value + 1, c');
    }
  }

  lemma AskingMemos(H: Hash, u: set<Name>, negatives: bool, e: Engine, domain: Name)
    requires Universe(H, u) && EngineOk(H, u, negatives, e) && Normalize(domain) in u
    ensures var c, c' := e.cache, ShouldBlock(H, negatives, e, domain).1.cache;
      forall s :: s in c' && c'[s].fromWalk ==> (s in c && c'[s] == c[s]) || WalksTo(e, Normalize(domain), c'[s].name)
  {
    hide Covered, Get, WalkedTo, Universe, CacheOk, RuleSets;
    var x := Normalize(domain);
    if e.disk.Some? {
      NothingBefore(e.disk.value, x);
      WalkMemos(H, u, e.disk.value, negatives, x, 0, e.cache);
    }
  }

  lemma NothingBefore(listed: Listing, x: Name)
    ensures NoneListed(listed, x, 0)
  {
  }

  lemma AskingKeepsRules(H: Hash, negatives: bool, e: Engine, domain: Name, d: Name)
    ensures var e' := ShouldBlock(H, negatives, e, domain).1; e'.disk == e.disk && RuleSets(e', d) == RuleSets(e, d)
  {
    hide Covered;
  }

  /** Since the last reload or rule change, a name was asked for that walks to `d`. */
  ghost predicate WalkedSince(s: Engine, ops: seq<Op>, n: nat, d: Name)
    requires n <= |ops|
  {
    exists i :: 0 <= i < n && ops[i].Query? && WalksTo(s, Normalize(ops[i].domain), d) &&
      forall j :: i < j < n ==> ops[j].Query?
  }

  lemma WalkedSinceStays(H: Hash, negatives: bool, s: Engine, ops: seq<Op>, n: nat, d: Name)
    requires 0 < n <= |ops| && ops[n - 1].Query? && WalkedSince(s, ops, n - 1, d)
    ensures WalkedSince(ShouldBlock(H, negatives, s, ops[n - 1].domain).1, ops, n, d)
  {
    hide ShouldBlock, WalkedTo, RuleSets;
    var i :| 0 <= i < n - 1 && ops[i].Query? && WalksTo(s, Normalize(ops[i].domain), d) &&
      forall j :: i < j < n - 1 ==> ops[j].Query?;
    AskingKeepsRules(H, negatives, s, ops[n - 1].domain, Normalize(ops[i].domain));
    assert forall j :: i < j < n ==> ops[j].Query?;
  }

  lemma WalkedJustNow(H: Hash, negatives: bool, s: Engine, ops: seq<Op>, n: nat, d: Name)
    requires 0 < n <= |ops| && ops[n - 1].Query? && WalksTo(s, Normalize(ops[n - 1].domain), d)
    ensures WalkedSince(ShouldBlock(H, negatives, s, ops[n - 1].domain).1, ops, n, d)
  {
    hide ShouldBlock, WalkedTo, RuleSets;
    AskingKeepsRules(H, negatives, s, ops[n - 1].domain, Normalize(ops[n - 1].domain));
  }

  /** In every run, what the walk memoised was walked to since the cache was last cleared. */
  lemma {:induction false} MemosWereWalkedTo(H: Hash, u: set<Name>, negatives: bool, e: Engine, ops: seq<Op>, n: nat,
          s: nat)
    requires Universe(H, u) && e.cache == map[] && QueriesIn(u, ops) && n <= |ops|
    requires s in After(H, negatives, e, ops, n).cache && After(H, negatives, e, ops, n).cache[s].fromWalk
    ensures WalkedSince(After(H, negatives, e, ops, n), ops, n, After(H, negatives, e, ops, n).cache[s].name)
  {
    hide ShouldBlock, WalksTo, WalkedSince, Universe, EngineOk;
    if n > 0 && ops[n - 1].Query? {
      var before, slot := After(H, negatives, e, ops, n - 1), After(H, negatives, e, ops, n).cache[s];
      RunKeepsInvariant(H, u, negatives, e, ops, n - 1);
      AskingMemos(H, u, negatives, before, ops[n - 1].domain);
      if s in before.cache && before.cache[s] == slot {
        MemosWereWalkedTo(H, u, negatives, e, ops, n - 1, s);
        WalkedSinceStays(H, negatives, before, ops, n, slot.name);
      } else {
        WalkedJustNow(H, negatives, before, ops, n, slot.name);
      }
    }
  }

  /** Since the last reload or rule change, a name was asked for that reaches `d`. */
  ghost predicate ReachedSince(s: Engine, ops: seq<Op>, n: nat, d: Name)
    requires n <= |ops|
  {
    exists i :: 0 <= i < n && ops[i].Query? && Reaches(s, Normalize(ops[i].domain), d) &&
      forall j :: i < j < n ==> ops[j].Query?
  }

  lemma WalkedAndUnlisted(s: Engine, ops: seq<Op>, n: nat, d: Name)
    requires n <= |ops| && WalkedSince(s, ops, n, d) && !ListedBy(s.disk)(d)
    ensures ReachedSince(s, ops, n, d)
  {
    hide WalkedTo, RuleSets;
    var i :| 0 <= i < n && ops[i].Query? && WalksTo(s, Normalize(ops[i].domain), d) &&
      forall j :: i < j < n ==> ops[j].Query?;
    assert Reaches(s, Normalize(ops[i].domain), d);
  }

  /** In every run of queries, slot overwrites, reloads and rule changes: no query is blocked that
      the uncached rule allows, and one is wrongly let through only if no rule set decides it, the
      disk list covers it, and a name that reaches it was asked for since the cache was cleared. */
  lemma WrongOnlyIfReached(H: Hash, u: set<Name>, e: Engine, ops: seq<Op>, n: nat, domain: Name)
    requires Universe(H, u) && e.cache == map[] && QueriesIn(u, ops) && n <= |ops| && Normalize(domain) in u
    ensures var (s, d) := (After(H, true, e, ops, n), Normalize(domain));
      && (ShouldBlock(H, true, s, domain).0 ==> Rule(s, domain))
      && (ShouldBlock(H, true, s, domain).0 != Rule(s, domain) ==>
            RuleSets(s, d).None? && Covered(ListedBy(s.disk), d) && ReachedSince(s, ops, n, d))
  {
    hide ShouldBlock, Rule, WalkedSince, ReachedSince, Covered, RuleSets, Universe;
    var s, d := After(H, true, e, ops, n), Normalize(domain);
    RunKeepsInvariant(H, u, true, e, ops, n);
    QueryIsExact(H, u, true, s, domain);
    if WalkNegative(H, s, d) {
      HitNamesItself(H, u, ListedBy(s.disk), true, s.cache, d);
      MemosWereWalkedTo(H, u, true, e, ops, n, SlotOf(H(d)));
      WalkedAndUnlisted(s, ops, n, d);
    }
  }

  // ---------------------------------------------------------------- exactly when a question spoils another

  /** The first listed dot-suffix of `x`, from position `i` on, starts after the dot at `m`. */
  ghost predicate FirstListed(listed: Listing, x: Name, i: nat, m: nat) {
    && i <= m && SuffixAt(x, m) && listed(x[m + 1..])
    && forall j :: i <= j < m && SuffixAt(x, j) ==> !listed(x[j + 1..])
  }

  /** No suffix of `x` that starts after a dot in `i..m` has slot `s`. */
  ghost predicate Leaves(H: Hash, x: Name, i: int, m: nat, s: nat) {
    forall j :: i <= j <= m && SuffixAt(x, j) ==> SlotOf(H(x[j + 1..])) != s
  }

  lemma {:induction false} FirstListedExists(listed: Listing, x: Name, i: nat, j: nat) returns (m: nat)
    requires i <= j && SuffixAt(x, j) && listed(x[j + 1..])
    ensures m <= j && FirstListed(listed, x, i, m)
    decreases j
  {
    if k: nat :| i <= k < j && SuffixAt(x, k) && listed(x[k + 1..]) {
      m := FirstListedExists(listed, x, i, k);
    } else {
      m := j;
    }
  }

  /** Nothing in the cache is named by a suffix the walk has yet to look up. */
  ghost predicate OnlyLonger(c: Cache, n: nat) { forall s :: s in c ==> |c[s].name| >= n }

  lemma NoMemoYet(H: Hash, u: set<Name>, listed: Listing, c: Cache, n: Name)
    requires Universe(H, u) && CacheOk(H, u, listed, true, c) && n in u && OnlyLonger(c, |n| + 1)
    ensures Get(c, H(n)).None?
  {
    if Get(c, H(n)).Some? { HitNamesItself(H, u, listed, true, c, n); }
  }

  /** One suffix of the walk in a cache that has not seen it: it is memoised, and the walk goes on
      unless it is listed. */
  lemma FreshStep(H: Hash, u: set<Name>, listed: Listing, x: Name, i: nat, c: Cache, m: nat)
    requires Universe(H, u) && CacheOk(H, u, listed, true, c) && x in u && i <= |x| && OnlyLonger(c, |x| - i)
    requires FirstListed(listed, x, i, m)
    ensures var p := FirstDotFrom(x, i);
      && p.Some? && p.value <= m && SuffixAt(x, p.value) && (listed(x[p.value + 1..]) <==> p.value == m)
      && (forall j :: i <= j && SuffixAt(x, j) ==> p.value <= j)
      && var rest := x[p.value + 1..]; var c' := Put(c, H(rest), listed(rest), rest, true);
        && CacheOk(H, u, listed, true, c') && OnlyLonger(c', |x| - p.value - 1) && rest in u
        && WalkFrom(H, listed, true, x, i, c) ==
           if p.value == m then (true, c') else WalkFrom(H, listed, true, x, p.value + 1, c')
  {
    hide Get;
    var p := FirstDotFrom(x, i).value;
    var rest := x[p + 1..];
    assert SuffixAt(x, p) && rest in u;
    NoMemoYet(H, u, listed, c, rest);
    WalkWriteOk(H, u, listed, true, c, rest);
  }

  /** What the walk leaves in slot `s`: what was there if no suffix it memoised has that slot,
      otherwise a memo of one of them. */
  lemma {:induction false} WalkWrites(H: Hash, u: set<Name>, listed: Listing, x: Name, i: nat, c: Cache, m: nat, s: nat)
    requires Universe(H, u) && CacheOk(H, u, listed, true, c) && x in u && i <= |x| && OnlyLonger(c, |x| - i)
    requires FirstListed(listed, x, i, m)
    ensures var c' := WalkFrom(H, listed, true, x, i, c).1;
      if Leaves(H, x, i, m, s) then s in c' <==> s in c
      else s in c' && exists j :: i <= j <= m && SuffixAt(x, j) && c'[s].name == x[j + 1..]
    ensures var c' := WalkFrom(H, listed, true, x, i, c).1;
      Leaves(H, x, i, m, s) && s in c ==> c'[s] == c[s]
    decreases |x| - i
  {
    hide CacheOk, Universe, WalkFrom, OnlyLonger;
    FreshStep(H, u, listed, x, i, c, m);
    var p := FirstDotFrom(x, i).value;
    var rest := x[p + 1..];
    if p < m {
      WalkWrites(H, u, listed, x, p + 1, Put(c, H(rest), false, rest, true), m, s);
    }
  }

  /** The walk of `x` ends with a negative memo for its suffix after the dot at `k` exactly when no
      suffix memoised later has the same slot. */
  lemma {:induction false} NegativeStays(H: Hash, u: set<Name>, listed: Listing, x: Name, i: nat, c: Cache, m: nat,
          k: nat)
    requires Universe(H, u) && CacheOk(H, u, listed, true, c) && x in u && i <= |x| && OnlyLonger(c, |x| - i)
    requires FirstListed(listed, x, i, m) && i <= k < m && SuffixAt(x, k)
    ensures var (d, c') := (x[k + 1..], WalkFrom(H, listed, true, x, i, c).1); var s := SlotOf(H(d));
      && s in c' && (c'[s].name == d <==> Leaves(H, x, k + 1, m, s))
      && (Leaves(H, x, k + 1, m, s) ==> c'[s] == Slot(Key(H(d)), false, d, true))
    decreases |x| - i
  {
    hide CacheOk, Universe, WalkFrom, OnlyLonger;
    FreshStep(H, u, listed, x, i, c, m);
    var p := FirstDotFrom(x, i).value;
    var rest := x[p + 1..];
    var c1 := Put(c, H(rest), false, rest, true);
    if p < k {
      NegativeStays(H, u, listed, x, p + 1, c1, m, k);
    } else {
      var s := SlotOf(H(rest));
      WalkWrites(H, u, listed, x, p + 1, c1, m, s);
      assert forall j :: p < j && SuffixAt(x, j) ==> |x[j + 1..]| < |rest|;
    }
  }

  /** Asking for `x` on a clear cache makes a later question for `d` go wrong: `d` is a proper
      suffix of `x`; no rule set decides either; neither `x` nor a suffix down through `d` is
      listed, but a shorter one is; and neither the suffixes memoised after `d` nor `x` itself take
      its slot. */
  ghost predicate Spoils(H: Hash, e: Engine, x: Name, d: Name) {
    && RuleSets(e, x).None? && RuleSets(e, d).None?
    && e.disk.Some? && !e.disk.value(x) && SlotOf(H(x)) != SlotOf(H(d))
    && exists k :: SuffixAt(x, k) && d == x[k + 1..] && SpoilsWalk(H, e.disk.value, x, k, SlotOf(H(d)))
  }

  /** The walk of `x` goes past the suffix after the dot at `k` before anything listed, and nothing it
      memoises later has slot `s`. */
  ghost predicate SpoilsWalk(H: Hash, listed: Listing, x: Name, k: int, s: nat) {
    exists m: nat :: k < m && FirstListed(listed, x, 0, m) && Leaves(H, x, k + 1, m, s)
  }

  lemma SpoilsBySuffix(H: Hash, e: Engine, x: Name, d: Name, k: nat)
    requires SuffixAt(x, k) && d == x[k + 1..]
    ensures Spoils(H, e, x, d) <==>
      && RuleSets(e, x).None? && RuleSets(e, d).None? && e.disk.Some? && !e.disk.value(x)
      && SlotOf(H(x)) != SlotOf(H(d))
      && SpoilsWalk(H, e.disk.value, x, k, SlotOf(H(d)))
  {
    hide RuleSets, SlotOf, SpoilsWalk;
    var only := SuffixPlace(x, d);
  }

  lemma SpoilsNeedsSuffix(H: Hash, e: Engine, x: Name, d: Name)
    requires !IsProperSuffix(d, x)
    ensures !Spoils(H, e, x, d)
  {
    hide RuleSets, SlotOf, SpoilsWalk;
  }

  lemma SpoiledIsCovered(H: Hash, e: Engine, x: Name, d: Name)
    requires Spoils(H, e, x, d)
    ensures Covered(e.disk.value, d) && !e.disk.value(d)
  {
    hide Leaves, RuleSets;
    var listed := e.disk.value;
    var k :| SuffixAt(x, k) && d == x[k + 1..] && SpoilsWalk(H, listed, x, k, SlotOf(H(d)));
    var m: nat :| k < m && FirstListed(listed, x, 0, m) && Leaves(H, x, k + 1, m, SlotOf(H(d)));
    assert SuffixAt(d, m - k - 1) && d[m - k..] == x[m + 1..];
  }

  /** A covered but unlisted suffix of `x` has a listed suffix of `x` below it. */
  lemma ListedBelow(listed: Listing, x: Name, k: nat) returns (j: nat)
    requires SuffixAt(x, k) && Covered(listed, x[k + 1..]) && !listed(x[k + 1..])
    ensures k < j && SuffixAt(x, j) && listed(x[j + 1..])
  {
    var i :| SuffixAt(x[k + 1..], i) && listed(x[k + 1..][i + 1..]);
    SuffixOfSuffix(x, k, i);
    j := k + 1 + i;
  }

  /** Where a suffix starts is fixed by its length. */
  lemma SuffixPlace(x: Name, d: Name) returns (k: nat)
    requires IsProperSuffix(d, x)
    ensures SuffixAt(x, k) && d == x[k + 1..]
    ensures forall i :: SuffixAt(x, i) && x[i + 1..] == d ==> i == k
  {
    k :| SuffixAt(x, k) && d == x[k + 1..];
    assert forall i :: SuffixAt(x, i) && x[i + 1..] == d ==> |x| - i - 1 == |d| == |x| - k - 1;
  }

  lemma FirstIsUnique(listed: Listing, x: Name, m: nat)
    requires FirstListed(listed, x, 0, m)
    ensures forall n: nat :: FirstListed(listed, x, 0, n) ==> n == m
  {
  }

  /** The walk of `x` on a clear cache ends with a memo for `d` exactly when it reaches `d` before
      anything listed and no later suffix takes the slot. */
  lemma WalkSpoils(H: Hash, u: set<Name>, listed: Listing, x: Name, d: Name, k: nat)
    requires Universe(H, u) && x in u && SuffixAt(x, k) && d == x[k + 1..]
    requires Covered(listed, d) && !listed(d)
    ensures var c := WalkFrom(H, listed, true, x, 0, map[]).1; var s := SlotOf(H(d));
      && ((s in c && c[s].name == d) <==> SpoilsWalk(H, listed, x, k, s))
      && (s in c && c[s].name == d ==> c[s].fromWalk)
  {
    hide Covered, WalkFrom, Universe, Leaves, FirstListed, SlotOf, Key;
    var j := ListedBelow(listed, x, k);
    var m := FirstListedExists(listed, x, 0, j);
    FirstIsUnique(listed, x, m);
    var only := SuffixPlace(x, d);
    if k < m {
      NegativeStays(H, u, listed, x, 0, map[], m, k);
    } else {
      WalkWrites(H, u, listed, x, 0, map[], m, SlotOf(H(d)));
    }
  }

  /** The first question since the cache was cleared: its own slot gets its own answer, any other
      slot is as the walk left it. */
  lemma FirstQuestion(H: Hash, e: Engine, domain: Name, s: nat)
    requires e.cache == map[]
    ensures var (x, c) := (Normalize(domain), ShouldBlock(H, true, e, domain).1.cache);
      if x == [] || RuleSets(e, x).Some? then s !in c
      else if s == SlotOf(H(x)) then s in c && !c[s].fromWalk
      else if e.disk.None? || e.disk.value(x) then s !in c
      else
        var c' := WalkFrom(H, e.disk.value, true, x, 0, map[]).1;
        (s in c <==> s in c') && (s in c ==> c[s] == c'[s])
  {
    hide RuleSets, WalkFrom, SlotOf;
    var x := Normalize(domain);
    if x != [] && RuleSets(e, x).None? {
      var (b, c') := CheckDisk(H, e.disk, true, x, map[]);
      assert ShouldBlock(H, true, e, domain).1.cache == Put(c', H(x), b, x, false);
    }
  }

  lemma WalkedToSuffix(listed: Listing, x: Name, d: Name)
    requires WalkedTo(listed, x, d)
    ensures IsProperSuffix(d, x)
  {
  }

  /** From a clear cache, asking for `x` leaves a walk's memo for a covered but unlisted `d`
      exactly when it spoils it. */
  lemma SpoilsExactly(H: Hash, u: set<Name>, e: Engine, domain: Name, d: Name)
    requires Universe(H, u) && e.cache == map[] && Normalize(domain) in u && RuleSets(e, d).None?
    requires e.disk.Some? && Covered(e.disk.value, d) && !e.disk.value(d)
    ensures var c := ShouldBlock(H, true, e, domain).1.cache; var s := SlotOf(H(d));
      (s in c && c[s].fromWalk && c[s].name == d) <==> Spoils(H, e, Normalize(domain), d)
  {
    hide Covered, RuleSets, WalkFrom, Universe, ShouldBlock, SlotOf, Spoils, SpoilsWalk, IsProperSuffix, WalkedTo;
    var x := Normalize(domain);
    AskingMemos(H, u, true, e, domain);
    if WalksTo(e, x, d) { WalkedToSuffix(e.disk.value, x, d); }
    FirstQuestion(H, e, domain, SlotOf(H(d)));
    if IsProperSuffix(d, x) {
      var k := SuffixPlace(x, d);
      WalkSpoils(H, u, e.disk.value, x, d, k);
      SpoilsBySuffix(H, e, x, d, k);
    } else {
      SpoilsNeedsSuffix(H, e, x, d);
    }
  }

  /** A slot named for `n` answers for `n`. */
  lemma OwnSlotHits(H: Hash, u: set<Name>, listed: Listing, c: Cache, n: Name)
    requires CacheOk(H, u, listed, true, c) && SlotOf(H(n)) in c && c[SlotOf(H(n))].name == n
    ensures var s := c[SlotOf(H(n))]; Get(c, H(n)) == Some(s.blocked) && (s.fromWalk ==> s.blocked == listed(n))
  {
    assert SlotOk(H, u, listed, true, SlotOf(H(n)), c[SlotOf(H(n))]);
  }

  lemma NothingCovered(d: Name)
    ensures !Covered(ListedBy(None), d)
  {
  }

  /** Exactly when a question makes the next one go wrong: on a clear cache, after asking for one
      name, the answer for another differs from the rule if and only if the first spoils it. */
  lemma WrongIffSpoiled(H: Hash, u: set<Name>, e: Engine, first: Name, second: Name)
    requires Universe(H, u) && e.cache == map[] && Normalize(first) in u && Normalize(second) in u
    ensures var e1 := ShouldBlock(H, true, e, first).1;
      ShouldBlock(H, true, e1, second).0 != Rule(e1, second) <==> Spoils(H, e, Normalize(first), Normalize(second))
  {
    hide ShouldBlock, Covered, RuleSets, CacheOk, Rule, Universe, SlotOf;
    var d := Normalize(second);
    var e1 := ShouldBlock(H, true, e, first).1;
    AskingKeepsRules(H, true, e, first, d);
    QueryIsExact(H, u, true, e, first);
    QueryIsExact(H, u, true, e1, second);
    if Spoils(H, e, Normalize(first), d) { SpoiledIsCovered(H, e, Normalize(first), d); }
    if e.disk.None? { NothingCovered(d); }
    if RuleSets(e, d).None? && e.disk.Some? && Covered(e.disk.value, d) && !e.disk.value(d) {
      SpoilsExactly(H, u, e, first, d);
      if Get(e1.cache, H(d)).Some? { HitNamesItself(H, u, ListedBy(e.disk), true, e1.cache, d); }
      var s := SlotOf(H(d));
      if s in e1.cache && e1.cache[s].name == d { OwnSlotHits(H, u, ListedBy(e.disk), e1.cache, d); }
    }
  }

  // ---------------------------------------------------------------- exactly when all answers are right

  /** No two names share a slot. */
  ghost predicate SlotsApart(H: Hash, u: set<Name>) {
    forall a, b :: a in u && b in u && SlotOf(H(a)) == SlotOf(H(b)) ==> a == b
  }

  ghost predicate QuestionsOver(names: set<Name>, ops: seq<Op>) {
    forall i :: 0 <= i < |ops| ==> ops[i].Query? && Normalize(ops[i].domain) in names
  }

  ghost predicate AnswersRight(H: Hash, s: Engine, domain: Name) { ShouldBlock(H, true, s, domain).0 == Rule(s,
          domain) }

  /** Every answer of every run of questions over `names` follows the rule. */
  ghost predicate AllAnswersRight(H: Hash, e: Engine, names: set<Name>) {
    forall ops, domain :: QuestionsOver(names, ops) && Normalize(domain) in names ==>
      AnswersRight(H, After(H, true, e, ops, |ops|), domain)
  }

  /** Asking for `x` can make a later answer for `d` wrong. */
  ghost predicate Endangers(e: Engine, x: Name, d: Name) {
    Reaches(e, x, d) && RuleSets(e, d).None? && Covered(e.disk.value, d)
  }

  lemma {:induction false} QuestionsKeepRules(H: Hash, e: Engine, ops: seq<Op>, n: nat, d: Name)
    requires n <= |ops| && forall i :: 0 <= i < |ops| ==> ops[i].Query?
    ensures var s := After(H, true, e, ops, n); s.disk == e.disk && RuleSets(s, d) == RuleSets(e, d)
  {
    hide ShouldBlock, RuleSets;
    if n > 0 {
      QuestionsKeepRules(H, e, ops, n - 1, d);
      AskingKeepsRules(H, true, After(H, true, e, ops, n - 1), ops[n - 1].domain, d);
    }
  }

  lemma WrongIsEndangered(H: Hash, u: set<Name>, e: Engine, names: set<Name>, ops: seq<Op>, domain: Name)
    requires Universe(H, u) && e.cache == map[] && names <= u && QuestionsOver(names, ops) && Normalize(domain) in names
    requires !AnswersRight(H, After(H, true, e, ops, |ops|), domain)
    ensures exists x :: x in names && Endangers(e, x, Normalize(domain))
  {
    hide ShouldBlock, Rule, Covered, RuleSets, Universe, WalkedTo, After;
    var s, d := After(H, true, e, ops, |ops|), Normalize(domain);
    WrongOnlyIfReached(H, u, e, ops, |ops|, domain);
    var i :| 0 <= i < |ops| && Reaches(s, Normalize(ops[i].domain), d);
    QuestionsKeepRules(H, e, ops, |ops|, d);
    QuestionsKeepRules(H, e, ops, |ops|, Normalize(ops[i].domain));
    assert Endangers(e, Normalize(ops[i].domain), d);
  }

  lemma EndangeredIsSpoiled(H: Hash, u: set<Name>, e: Engine, x: Name, d: Name)
    requires Universe(H, u) && SlotsApart(H, u) && x in u && Endangers(e, x, d)
    ensures Spoils(H, e, x, d)
  {
    hide Covered, RuleSets, SlotOf, IsLower;
    var listed := e.disk.value;
    var k :| SuffixAt(x, k) && d == x[k + 1..] && NoneListed(listed, x, k);
    var j := ListedBelow(listed, x, k);
    var m := FirstListedExists(listed, x, 0, j);
    assert k < m;
    assert forall i :: SuffixAt(x, i) ==> x[i + 1..] in u && |x[i + 1..]| == |x| - i - 1;
    assert Leaves(H, x, k + 1, m, SlotOf(H(d)));
    assert SpoilsWalk(H, listed, x, k, SlotOf(H(d)));
  }

  /** The exact condition for runs, on the rules and the names asked for: when no two names share a
      slot, every answer of every run of questions over `names` from a clear cache is right if and
      only if no name of them reaches another that the disk list alone decides, and covers. */
  lemma AllRightIffNoneEndangered(H: Hash, u: set<Name>, e: Engine, names: set<Name>)
    requires Universe(H, u) && SlotsApart(H, u) && e.cache == map[] && names <= u
    requires forall n :: n in names ==> Normalize(n) == n
    ensures AllAnswersRight(H, e, names) <==> !exists x, d :: x in names && d in names && Endangers(e, x, d)
  {
    hide ShouldBlock, Rule, Endangers, Universe, SlotsApart, AnswersRight, Normalize;
    if x, d :| x in names && d in names && Endangers(e, x, d) {
      EndangeredIsSpoiled(H, u, e, x, d);
      WrongIffSpoiled(H, u, e, x, d);
      SecondIsWrong(H, e, names, x, d);
    } else {
      forall ops, domain | QuestionsOver(names, ops) && Normalize(domain) in names
        ensures AnswersRight(H, After(H, true, e, ops, |ops|), domain)
      {
        if !AnswersRight(H, After(H, true, e, ops, |ops|), domain) { WrongIsEndangered(H, u, e, names, ops, domain); }
      }
    }
  }

  lemma SecondIsWrong(H: Hash, e: Engine, names: set<Name>, x: Name, d: Name)
    requires Normalize(x) in names && Normalize(d) in names
    requires var e1 := ShouldBlock(H, true, e, x).1; ShouldBlock(H, true, e1, d).0 != Rule(e1, d)
    ensures !AllAnswersRight(H, e, names)
  {
    hide ShouldBlock, Rule, Normalize;
    var ops := [Query(x)];
    assert After(H, true, e, ops, 1) == ShouldBlock(H, true, e, x).1;
    assert QuestionsOver(names, ops) && !AnswersRight(H, After(H, true, e, ops, |ops|), d);
  }

  // ---------------------------------------------------------------- the repair

  /** Without the negative memo the cached engine refines the uncached rule on every run. */
  lemma WithoutNegativesExact(H: Hash, u: set<Name>, e: Engine, ops: seq<Op>, n: nat, domain: Name)
    requires Universe(H, u) && e.cache == map[] && QueriesIn(u, ops) && n <= |ops| && Normalize(domain) in u
    ensures var s := After(H, false, e, ops, n); ShouldBlock(H, false, s, domain).0 <==> Rule(s, domain)
  {
    RunKeepsInvariant(H, u, false, e, ops, n);
    QueryIsExact(H, u, false, After(H, false, e, ops, n), domain);
  }
}
