/** The cooldown behind rebinding incidents: at most one per (source, name) pair and minute, in a
    table of at most 1024 pairs.

    A call that finds the pair within its minute changes nothing. Any other stamps the pair, after
    dropping from a full table what has run out and, if it is still full, the oldest quarter. */
module RebindCooldown {
  import opened Bytes
  import opened Time
  import opened Eviction

  type Pair = (string, Name)
  type Slots = map<Pair, Instant>

  const MAX_COOLDOWNS: nat := 1024

  function CoolingAt(now: Instant): Instant -> bool { (t: Instant) => Since(now, t) < Seconds(60) }
  function ByTime(): Instant -> int { (t: Instant) => t }

  predicate Rejected(cd: Slots, pair: Pair, now: Instant) {
    pair in cd && Since(now, cd[pair]) < Seconds(60)
  }

  /** A full table first loses its expired pairs; if still full, its oldest quarter. */
  ghost predicate Trims(cd: Slots, now: Instant, kept: Slots) {
    if |cd| < MAX_COOLDOWNS then kept == cd
    else
      var live := Retain<Pair, Instant>(cd, CoolingAt(now));
      if |live| >= MAX_COOLDOWNS then ShedsOldest<Pair, Instant>(live, ByTime(), |live| / 4, kept) else kept == live
  }

  /** One call: rejected and nothing changes, or accepted and stamped. */
  ghost predicate Takes(cd: Slots, pair: Pair, now: Instant, kept: Slots, accepted: bool, cd': Slots) {
    && accepted == !Rejected(cd, pair, now)
    && (!accepted ==> cd' == cd && kept == cd)
    && (accepted ==> Trims(cd, now, kept) && cd' == kept[pair := now])
  }

  class Cooldown {
    var slots: Slots

    constructor ()
      ensures slots == map[]
    {
      slots := map[];
    }

    method TakeSlot(source: string, name: Name, now: Instant) returns (accepted: bool, ghost kept: Slots)
      modifies this
      ensures Takes(old(slots), (source, name), now, kept, accepted, slots)
    {
      var key := (source, name);
      kept := slots;
      if key in slots && Since(now, slots[key]) < Seconds(60) { return false, kept; }
      var cd := slots;
      if |cd| >= MAX_COOLDOWNS {
        cd := RetainIf<Pair, Instant>(cd, CoolingAt(now));
        if |cd| >= MAX_COOLDOWNS { cd := ShedOldest<Pair, Instant>(cd, ByTime(), |cd| / 4); }
      }
      kept := cd;
      slots := cd[key := now];
      accepted := true;
    }
  }

  // ---------------------------------------------------------------- runs

  datatype Call = Call(pair: Pair, now: Instant, kept: Slots, accepted: bool)

  ghost predicate IsRun(states: seq<Slots>, calls: seq<Call>) {
    && |states| == |calls| + 1 && states[0] == map[]
    && (forall i, j :: 0 <= i <= j < |calls| ==> calls[i].now <= calls[j].now)
    && forall i :: 0 <= i < |calls| ==>
        Takes(states[i], calls[i].pair, calls[i].now, calls[i].kept, calls[i].accepted, states[i + 1])
  }

  lemma {:induction false} TableStaysBounded(states: seq<Slots>, calls: seq<Call>, n: nat)
    requires IsRun(states, calls) && n <= |calls|
    ensures |states[n]| <= MAX_COOLDOWNS
  {
    if n > 0 {
      TableStaysBounded(states, calls, n - 1);
      var c := calls[n - 1];
      assert Takes(states[n - 1], c.pair, c.now, c.kept, c.accepted, states[n]);
      RetainShrinks<Pair, Instant>(states[n - 1], CoolingAt(c.now));
      InsertSize(c.kept, c.pair, c.now);
    }
  }

  /** That call's eviction spared `pair` (an expired pair it may drop). */
  ghost predicate Spared(s: Slots, c: Call, pair: Pair) {
    pair in s && Since(c.now, s[pair]) < Seconds(60) ==> pair in c.kept
  }

  /** A call that spares the pair keeps its stamp or a later one, unless its minute has passed. */
  lemma StampKept(cd: Slots, c: Call, cd': Slots, pair: Pair)
    requires Takes(cd, c.pair, c.now, c.kept, c.accepted, cd') && Spared(cd, c, pair) && pair in cd
    ensures (pair in cd' && (cd'[pair] == cd[pair] || cd'[pair] == c.now)) || c.now >= cd[pair] + Seconds(60)
  {
  }

  /** After an accepted call the pair's stamp stays, or its minute has passed. */
  lemma {:induction false} StampStays(states: seq<Slots>, calls: seq<Call>, i: nat, j: nat)
    requires IsRun(states, calls) && i < j < |calls| && calls[i].accepted
    requires forall k :: i < k < j ==> Spared(states[k], calls[k], calls[i].pair)
    ensures var pair := calls[i].pair;
      (pair in states[j] && states[j][pair] >= calls[i].now) || calls[j].now >= calls[i].now + Seconds(60)
    decreases j
  {
    hide Trims, Spared, Rejected;
    var pair := calls[i].pair;
    assert Takes(states[i], calls[i].pair, calls[i].now, calls[i].kept, calls[i].accepted, states[i + 1]);
    if i + 1 < j {
      StampStays(states, calls, i, j - 1);
      var c := calls[j - 1];
      assert Takes(states[j - 1], c.pair, c.now, c.kept, c.accepted, states[j]);
      assert Spared(states[j - 1], c, pair);
      hide Takes;
      if pair in states[j - 1] { StampKept(states[j - 1], c, states[j], pair); }
    }
  }

  /** Two accepted incidents of one pair are at least a minute apart, unless an eviction under
      saturation dropped the pair in between. */
  lemma AcceptedAMinuteApart(states: seq<Slots>, calls: seq<Call>, i: nat, j: nat)
    requires IsRun(states, calls) && i < j < |calls|
    requires calls[i].accepted && calls[j].accepted && calls[i].pair == calls[j].pair
    requires forall k :: i < k < j ==> Spared(states[k], calls[k], calls[i].pair)
    ensures calls[j].now >= calls[i].now + Seconds(60)
  {
    StampStays(states, calls, i, j);
    var c := calls[j];
    assert Takes(states[j], c.pair, c.now, c.kept, c.accepted, states[j + 1]);
  }

  /** The table's stamps are of accepted calls. */
  lemma {:induction false} StampsAreAccepted(states: seq<Slots>, calls: seq<Call>, n: nat, pair: Pair)
    requires IsRun(states, calls) && n <= |calls| && pair in states[n]
    ensures exists i :: 0 <= i < n && calls[i].accepted && calls[i].pair == pair && calls[i].now == states[n][pair]
  {
    hide Rejected;
    if n > 0 {
      var c := calls[n - 1];
      assert Takes(states[n - 1], c.pair, c.now, c.kept, c.accepted, states[n]);
      if !(c.accepted && c.pair == pair) {
        StampsAreAccepted(states, calls, n - 1, pair);
      }
    }
  }

  /** A call is rejected only when one of the same pair was accepted less than a minute before. */
  lemma RejectedWithinAMinute(states: seq<Slots>, calls: seq<Call>, n: nat)
    requires IsRun(states, calls) && n < |calls| && !calls[n].accepted
    ensures var (pair, now) := (calls[n].pair, calls[n].now);
      exists i :: 0 <= i < n && calls[i].accepted && calls[i].pair == pair && now < calls[i].now + 60_000_000_000
  {
    hide Trims;
    var c := calls[n];
    assert Takes(states[n], c.pair, c.now, c.kept, c.accepted, states[n + 1]);
    StampsAreAccepted(states, calls, n, c.pair);
  }

  /** The pairs accepted within the last minute. */
  ghost function CoolingPairs(cd: Slots, now: Instant): set<Pair> { set p | p in cd && now < cd[p] + 60_000_000_000 }

  /** The eviction drops no running cooldown unless 1024 of them are running, and then a quarter. */
  lemma EvictionOnlyWhenFull(cd: Slots, now: Instant, kept: Slots, pair: Pair)
    requires Trims(cd, now, kept)
    ensures |cd| < 1024 ==> kept == cd
    ensures |CoolingPairs(cd, now)| < 1024 && pair in CoolingPairs(cd, now) ==> pair in kept && kept[pair] == cd[pair]
    ensures var n := |CoolingPairs(cd, now)|; |cd| >= 1024 && n >= 1024 ==> |kept| == n - n / 4
  {
    hide CoolingAt, ByTime;
    var live := Retain<Pair, Instant>(cd, CoolingAt(now));
    CoolingIsRetained(cd, now);
    assert |live| == |live.Keys|;
  }

  lemma CoolingIsRetained(cd: Slots, now: Instant)
    ensures Retain<Pair, Instant>(cd, CoolingAt(now)).Keys == CoolingPairs(cd, now)
  {
  }
}
