/** The hard per-source rate limit: a sliding two-second window, a 60-second block behind an
    alert cooldown, and the two gates every DNS packet passes. */
module RateGate {
  import opened Bytes
  import opened Time
  import opened Eviction

  type Ip = string
  type History = map<Ip, seq<Instant>>

  datatype Gate = Gate(history: History, cooldown: map<Ip, Instant>, blocked: map<Ip, Instant>)

  predicate IsLoopback(source: Ip) { source == "127.0.0.1" || source == "::1" }

  /** base * 10 clamped to 200..2000 for loopback, max(base * 4, 200) for everyone else; the
      32-bit products saturate. */
  function HardLimit(base: u32, source: Ip): (n: nat)
    ensures n >= 200
  {
    if IsLoopback(source) then Max(200, Min(2000, Min(10 * base, U32_MAX)))
    else Max(Min(4 * base, U32_MAX), 200)
  }

  /** The limit in numbers. */
  lemma LimitInNumbers(base: u32, source: Ip)
    ensures HardLimit(base, source) ==
      if source == "127.0.0.1" || source == "::1" then Max(200, Min(2000, 10 * base))
      else if base <= 50 then 200 else Min(4 * base, 0xFFFF_FFFF)
  {
  }

  // ---------------------------------------------------------------- the window

  predicate InWindow(t: Instant, now: Instant) { Since(now, t) < Seconds(2) }

  /** The timestamps less than two seconds old. */
  function Recent(ts: seq<Instant>, now: Instant): (r: seq<Instant>)
    ensures |r| <= |ts|
  {
    if ts == [] then []
    else
      var last := ts[|ts| - 1];
      Recent(ts[..|ts| - 1], now) + if InWindow(last, now) then [last] else []
  }

  predicate AnyRecent(ts: seq<Instant>, now: Instant) {
    exists i :: 0 <= i < |ts| && InWindow(ts[i], now)
  }

  /** The most recent timestamp, or less than any for none. */
  function Latest(ts: seq<Instant>): int {
    if ts == [] then -1 else Max(Latest(ts[..|ts| - 1]), ts[|ts| - 1])
  }

  function Active(now: Instant): seq<Instant> -> bool { (ts: seq<Instant>) => AnyRecent(ts, now) }

  function ByLatest(): seq<Instant> -> int { (ts: seq<Instant>) => Latest(ts) }

  /** Above 1000 sources the idle ones go, and if that is not enough the 256 oldest. */
  ghost predicate Trims(h: History, now: Instant, kept: History) {
    if |h| <= 1000 then kept == h
    else
      var live := Retain(h, Active(now));
      if |live| > 1000 then ShedsOldest(live, ByLatest(), 256, kept) else kept == live
  }

  // ---------------------------------------------------------------- the two gates

  function Unexpired(now: Instant): Instant -> bool { (exp: Instant) => now < exp }

  ghost function Block(blocked: map<Ip, Instant>, source: Ip, now: Instant, duration: nat): map<Ip, Instant> {
    if IsLoopback(source) then blocked
    else
      var live := if |blocked| > 500 then Retain<Ip, Instant>(blocked, Unexpired(now)) else blocked;
      live[source := now + duration]
  }

  predicate Alerting(cooldown: map<Ip, Instant>, source: Ip, now: Instant) {
    !(source in cooldown && Since(now, cooldown[source]) < Seconds(60))
  }

  function CoolingAt(now: Instant): Instant -> bool { (t: Instant) => t + Seconds(60) > now }

  ghost function Alert(cooldown: map<Ip, Instant>, source: Ip, now: Instant): map<Ip, Instant> {
    (if |cooldown| > 1024 then Retain<Ip, Instant>(cooldown, CoolingAt(now)) else cooldown)[source := now]
  }

  function Pushed(kept: History, source: Ip, now: Instant): seq<Instant> {
    Recent(if source in kept then kept[source] else [], now) + [now]
  }

  /** The last ten timestamps survive an overrun. */
  function Drained(ts: seq<Instant>): seq<Instant> {
    if |ts| > 10 then ts[|ts| - 10..] else ts
  }

  ghost function Enforce(g: Gate, base: u32, source: Ip, now: Instant, kept: History): (bool, Gate) {
    var ts := Pushed(kept, source, now);
    if |ts| <= HardLimit(base, source) then (false, g.(history := kept[source := ts]))
    else
      var h := kept[source := Drained(ts)];
      if Alerting(g.cooldown, source, now)
      then (true, Gate(h, Alert(g.cooldown, source, now), Block(g.blocked, source, now, Seconds(60))))
      else (true, g.(history := h))
  }

  ghost function CheckBlocked(g: Gate, source: Ip, now: Instant): (bool, Gate) {
    if source !in g.blocked then (false, g)
    else if now < g.blocked[source] then (true, g)
    else (false, g.(blocked := g.blocked - {source}))
  }

  /** One packet through both gates: whether it passes, and the new state. */
  ghost function Admit(g: Gate, base: u32, source: Ip, now: Instant, kept: History): (bool, Gate) {
    var (exceeded, g1) := Enforce(g, base, source, now, kept);
    if exceeded then (false, g1)
    else
      var (isBlocked, g2) := CheckBlocked(g1, source, now);
      (!isBlocked, g2)
  }

  // ---------------------------------------------------------------- runs

  /** A packet, with the histories the eviction before it kept, or a block placed by one of the other
      detectors (all last a minute or more). */
  datatype Event =
    | Packet(source: Ip, now: Instant, kept: History)
    | OtherBlock(source: Ip, now: Instant, duration: nat)

  ghost predicate StepOk(g: Gate, base: u32, ev: Event, g': Gate) {
    match ev
    case Packet(source, now, kept) => Trims(g.history, now, kept) && g' == Admit(g, base, source, now, kept).1
    case OtherBlock(source, now, duration) =>
      duration >= Seconds(60) && g' == g.(blocked := Block(g.blocked, source, now, duration))
  }

  ghost predicate IsRun(base: u32, states: seq<Gate>, events: seq<Event>) {
    && |states| == |events| + 1 && states[0] == Gate(map[], map[], map[])
    && (forall i, j :: 0 <= i <= j < |events| ==> events[i].now <= events[j].now)
    && forall i :: 0 <= i < |events| ==> StepOk(states[i], base, events[i], states[i + 1])
  }

  ghost predicate Passes(g: Gate, base: u32, ev: Event, source: Ip) {
    ev.Packet? && ev.source == source && Admit(g, base, source, ev.now, ev.kept).0
  }

  /** When packets of `source` passed both gates, among the first `n` events. */
  ghost function PassTimes(base: u32, states: seq<Gate>, events: seq<Event>, source: Ip, n: nat): seq<Instant>
    requires |states| == |events| + 1 && n <= |events|
  {
    if n == 0 then []
    else PassTimes(base, states, events, source, n - 1)
         + if Passes(states[n - 1], base, events[n - 1], source) then [events[n - 1].now] else []
  }

  /** The eviction of that step spared the history of `source`. */
  ghost predicate Spared(g: Gate, ev: Event, source: Ip) {
    ev.Packet? && source in g.history && AnyRecent(g.history[source], ev.now) ==> source in ev.kept
  }

  // ---------------------------------------------------------------- the invariant

  lemma {:induction false} RecentCounts(ts: seq<Instant>, now: Instant, t: Instant)
    ensures multiset(Recent(ts, now))[t] == if InWindow(t, now) then multiset(ts)[t] else 0
  {
    if ts != [] {
      RecentCounts(ts[..|ts| - 1], now, t);
      assert ts == ts[..|ts| - 1] + [ts[|ts| - 1]];
    }
  }

  ghost function HistoryOf(h: History, source: Ip): seq<Instant> {
    if source in h then h[source] else []
  }

  /** Every recent pass since `w` is in the source's history. */
  ghost predicate Remembered(h: History, source: Ip, passes: seq<Instant>, now: Instant, w: Instant) {
    forall t :: InWindow(t, now) && w <= t ==> multiset(passes)[t] <= multiset(HistoryOf(h, source))[t]
  }

  ghost predicate Cooling(g: Gate, source: Ip, now: Instant) {
    source in g.cooldown && now < g.cooldown[source] + Seconds(60)
  }

  /** While the alert cooldown runs the source is blocked to its end and has passed nothing since
      the alert; otherwise its history holds every recent pass since `w`. */
  ghost predicate Inv(g: Gate, source: Ip, passes: seq<Instant>, now: Instant, w: Instant) {
    && (forall t :: t in passes ==> t <= now)
    && (source in g.cooldown ==> g.cooldown[source] <= now)
    && (Cooling(g, source, now) ==>
          && source in g.blocked && g.blocked[source] >= g.cooldown[source] + Seconds(60)
          && forall t :: t in passes ==> t <= g.cooldown[source])
    && (!Cooling(g, source, now) ==> Remembered(g.history, source, passes, now, w))
  }

  /** Time passing keeps the invariant: a pass from before an alert is out of the window once the
      cooldown has run out. */
  lemma InvLater(g: Gate, source: Ip, passes: seq<Instant>, now: Instant, later: Instant, w: Instant)
    requires Inv(g, source, passes, now, w) && now <= later
    ensures Inv(g, source, passes, later, w)
  {
    if Cooling(g, source, now) && !Cooling(g, source, later) {
      assert forall t :: t in passes ==> t <= g.cooldown[source] && !InWindow(t, later);
    }
  }

  /** An eviction is harmless if it spares the source's recent history, or comes before `w`. */
  ghost predicate Harmless(g: Gate, source: Ip, now: Instant, kept: History, w: Instant) {
    w <= now && source in g.history && AnyRecent(g.history[source], now) ==> source in kept
  }

  lemma TrimRemembers(g: Gate, source: Ip, passes: seq<Instant>, now: Instant, kept: History, w: Instant)
    requires Trims(g.history, now, kept) && Remembered(g.history, source, passes, now, w)
    requires Harmless(g, source, now, kept, w) && forall t :: t in passes ==> t <= now
    ensures Remembered(kept, source, passes, now, w)
  {
    if now < w {
      assert forall t :: w <= t ==> t !in passes;
      assert forall t :: t !in passes ==> multiset(passes)[t] == 0;
    } else if source in g.history && source !in kept {
      assert !AnyRecent(g.history[source], now);
      assert forall t :: t in g.history[source] ==> !InWindow(t, now);
    }
  }

  lemma PushedCounts(kept: History, source: Ip, now: Instant, t: Instant)
    requires InWindow(t, now)
    ensures multiset(Pushed(kept, source, now))[t] == multiset(HistoryOf(kept, source))[t] + if t == now then 1 else 0
  {
    RecentCounts(HistoryOf(kept, source), now, t);
  }

  lemma PushRemembers(kept: History, source: Ip, passes: seq<Instant>, now: Instant, h: History, w: Instant)
    requires Remembered(kept, source, passes, now, w) && h == kept[source := Pushed(kept, source, now)]
    ensures Remembered(h, source, passes, now, w) && Remembered(h, source, passes + [now], now, w)
  {
    forall t | InWindow(t, now) && w <= t
      ensures multiset(passes + [now])[t] <= multiset(h[source])[t] && multiset(passes)[t] <= multiset(h[source])[t]
    {
      PushedCounts(kept, source, now, t);
    }
  }

  lemma OwnPacketKeepsInv(g: Gate, base: u32, source: Ip, now: Instant, kept: History, passes: seq<Instant>, w: Instant)
    requires !IsLoopback(source) && Inv(g, source, passes, now, w) && Trims(g.history, now, kept)
    requires Harmless(g, source, now, kept, w)
    ensures var (passed, g') := Admit(g, base, source, now, kept);
      Inv(g', source, if passed then passes + [now] else passes, now, w)
  {
    hide Pushed, Drained, HardLimit, Remembered, Trims, Harmless;
    if !Cooling(g, source, now) {
      TrimRemembers(g, source, passes, now, kept, w);
      PushRemembers(kept, source, passes, now, kept[source := Pushed(kept, source, now)], w);
    }
  }

  /** A packet of another source leaves this one's kept history, its running cooldown and its
      unexpired block alone. */
  lemma OtherPacketElsewhere(g: Gate, base: u32, other: Ip, now: Instant, kept: History, source: Ip)
    requires other != source
    ensures var g' := Admit(g, base, other, now, kept).1;
      && HistoryOf(g'.history, source) == HistoryOf(kept, source)
      && (source in g'.cooldown ==> source in g.cooldown && g'.cooldown[source] == g.cooldown[source])
      && (Cooling(g, source, now) ==> Cooling(g', source, now))
      && (source in g.blocked && now < g.blocked[source] ==>
            source in g'.blocked && g'.blocked[source] == g.blocked[source])
  {
    hide Pushed, Drained, HardLimit, Block, Alert, IsLoopback;
    BlockElsewhere(g.blocked, other, now, Seconds(60), source);
    AlertElsewhere(g.cooldown, other, now, source);
  }

  lemma BlockElsewhere(blocked: map<Ip, Instant>, other: Ip, now: Instant, duration: nat, source: Ip)
    requires other != source
    ensures var after := Block(blocked, other, now, duration);
      source in blocked && now < blocked[source] ==> source in after && after[source] == blocked[source]
  {
  }

  lemma AlertElsewhere(cooldown: map<Ip, Instant>, other: Ip, now: Instant, source: Ip)
    requires other != source
    ensures var after := Alert(cooldown, other, now);
      && (source in after ==> source in cooldown && after[source] == cooldown[source])
      && (source in cooldown && now < cooldown[source] + Seconds(60) ==> source in after)
  {
  }

  lemma OtherPacketKeepsInv(g: Gate, base: u32, other: Ip, now: Instant, kept: History, source: Ip,
          passes: seq<Instant>, w: Instant)
    requires other != source && Inv(g, source, passes, now, w) && Trims(g.history, now, kept)
    requires Harmless(g, source, now, kept, w)
    ensures Inv(Admit(g, base, other, now, kept).1, source, passes, now, w)
  {
    hide Admit, Trims, Harmless;
    OtherPacketElsewhere(g, base, other, now, kept, source);
    if !Cooling(g, source, now) { TrimRemembers(g, source, passes, now, kept, w); }
  }

  /** Every eviction from `w` on, among the first `n` events, spared the source. */
  ghost predicate SparedSince(states: seq<Gate>, events: seq<Event>, source: Ip, n: nat, w: Instant)
    requires |states| == |events| + 1 && n <= |events|
  {
    forall i :: 0 <= i < n && w <= events[i].now ==> Spared(states[i], events[i], source)
  }

  lemma {:induction false} RunKeepsInv(base: u32, states: seq<Gate>, events: seq<Event>, source: Ip, n: nat, w: Instant)
    requires IsRun(base, states, events) && !IsLoopback(source) && 0 < n <= |events|
    requires SparedSince(states, events, source, n, w)
    ensures Inv(states[n], source, PassTimes(base, states, events, source, n), events[n - 1].now, w)
    decreases n, 1
  {
    hide Admit, Inv, Trims, AnyRecent;
    var g, ev := states[n - 1], events[n - 1];
    var passes := PassTimes(base, states, events, source, n - 1);
    InvBefore(base, states, events, source, n, w);
    assert StepOk(g, base, ev, states[n]) && passes + [] == passes;
    match ev
    case Packet(other, now, kept) =>
      if other == source {
        OwnPacketKeepsInv(g, base, source, now, kept, passes, w);
      } else {
        OtherPacketKeepsInv(g, base, other, now, kept, source, passes, w);
      }
    case OtherBlock(other, now, duration) =>
      BlockKeepsInv(g, other, now, duration, source, passes, w);
  }

  /** The invariant in the state event `n - 1` starts from, at that event's time. */
  lemma {:induction false} InvBefore(base: u32, states: seq<Gate>, events: seq<Event>, source: Ip, n: nat, w: Instant)
    requires IsRun(base, states, events) && !IsLoopback(source) && 0 < n <= |events|
    requires SparedSince(states, events, source, n - 1, w)
    ensures Inv(states[n - 1], source, PassTimes(base, states, events, source, n - 1), events[n - 1].now, w)
    decreases n, 0
  {
    if n > 1 {
      RunKeepsInv(base, states, events, source, n - 1, w);
      var passes := PassTimes(base, states, events, source, n - 1);
      InvLater(states[n - 1], source, passes, events[n - 2].now, events[n - 1].now, w);
    }
  }

  lemma BlockKeepsInv(g: Gate, other: Ip, now: Instant, duration: nat, source: Ip, passes: seq<Instant>, w: Instant)
    requires Inv(g, source, passes, now, w) && duration >= Seconds(60)
    ensures Inv(g.(blocked := Block(g.blocked, other, now, duration)), source, passes, now, w)
  {
    hide Remembered;
  }

  // ---------------------------------------------------------------- the bound

  /** The passes that fall in the two seconds from `w` on. */
  ghost function InSpan(passes: seq<Instant>, w: Instant): (r: seq<Instant>) {
    if passes == [] then []
    else
      var last := passes[|passes| - 1];
      InSpan(passes[..|passes| - 1], w) + if w <= last < w + 2_000_000_000 then [last] else []
  }

  lemma CountSnoc(s: seq<Instant>, x: Instant, t: Instant)
    ensures multiset(s + [x])[t] == multiset(s)[t] + if x == t then 1 else 0
  {
  }

  lemma InSpanSnoc(before: seq<Instant>, last: Instant, w: Instant)
    ensures InSpan(before + [last], w) == InSpan(before, w) + if w <= last < w + 2_000_000_000 then [last] else []
  {
    assert (before + [last])[..|before|] == before;
  }

  lemma {:induction false} InSpanCounts(passes: seq<Instant>, w: Instant, t: Instant)
    ensures multiset(InSpan(passes, w))[t] == if w <= t < w + Seconds(2) then multiset(passes)[t] else 0
  {
    if passes != [] {
      var last := passes[|passes| - 1];
      var before := passes[..|passes| - 1];
      assert passes == before + [last];
      InSpanSnoc(before, last, w);
      InSpanCounts(before, w, t);
      hide InSpan;
      CountSnoc(before, last, t);
      CountSnoc(InSpan(before, w), last, t);
      assert InSpan(before, w) + [] == InSpan(before, w);
    }
  }

  lemma {:induction false} SubMultisetSize(a: multiset<Instant>, b: multiset<Instant>)
    requires a <= b
    ensures |a| <= |b|
  {
    assert b == a + (b - a);
  }

  /** At a pass, the span's passes are all in the history that was just counted. */
  lemma SpanFitsHistory(h: seq<Instant>, passes: seq<Instant>, now: Instant, w: Instant)
    requires forall t :: InWindow(t, now) && w <= t ==> multiset(passes)[t] <= multiset(h)[t]
    requires (forall t :: t in passes ==> t <= now) && w <= now < w + Seconds(2)
    ensures |InSpan(passes, w)| <= |h|
  {
    forall t ensures multiset(InSpan(passes, w))[t] <= multiset(h)[t] {
      InSpanCounts(passes, w, t);
      if t in multiset(passes) && w <= t { assert t in passes && InWindow(t, now); }
    }
    SubMultisetSize(multiset(InSpan(passes, w)), multiset(h));
  }

  /** Every pass leaves the packet's history within the limit, and it holds the passes since `w`. */
  lemma PassWithinLimit(g: Gate, base: u32, source: Ip, now: Instant, kept: History, passes: seq<Instant>, w: Instant)
    requires !IsLoopback(source) && Inv(g, source, passes, now, w) && Trims(g.history, now, kept)
    requires Harmless(g, source, now, kept, w)
    requires Admit(g, base, source, now, kept).0
    ensures |Pushed(kept, source, now)| <= HardLimit(base, source)
    ensures forall t :: InWindow(t, now) && w <= t ==>
      multiset(passes + [now])[t] <= multiset(Pushed(kept, source, now))[t]
  {
    hide Drained, Trims, HardLimit, Pushed, Harmless;
    assert !Cooling(g, source, now);
    TrimRemembers(g, source, passes, now, kept, w);
    PushRemembers(kept, source, passes, now, kept[source := Pushed(kept, source, now)], w);
  }

  lemma SpanAtPass(g: Gate, base: u32, source: Ip, now: Instant, kept: History, passes: seq<Instant>, w: Instant)
    requires !IsLoopback(source) && Inv(g, source, passes, now, w) && Trims(g.history, now, kept)
    requires Harmless(g, source, now, kept, w)
    requires Admit(g, base, source, now, kept).0 && w <= now < w + Seconds(2)
    ensures |InSpan(passes + [now], w)| <= HardLimit(base, source)
  {
    hide Admit, Trims, Pushed, HardLimit, InSpan, Cooling, Harmless;
    PassWithinLimit(g, base, source, now, kept, passes, w);
    SpanFitsHistory(Pushed(kept, source, now), passes + [now], now, w);
  }

  lemma {:induction false} WindowWithinLimit(base: u32, states: seq<Gate>, events: seq<Event>, source: Ip, n: nat,
          w: Instant)
    requires IsRun(base, states, events) && !IsLoopback(source) && n <= |events|
    requires forall i :: 0 <= i < n && w <= events[i].now < w + Seconds(2) ==> Spared(states[i], events[i], source)
    ensures |InSpan(PassTimes(base, states, events, source, n), w)| <= HardLimit(base, source)
  {
    if n > 0 {
      hide Admit, Inv, Trims, HardLimit, AnyRecent;
      WindowWithinLimit(base, states, events, source, n - 1, w);
      var g, ev := states[n - 1], events[n - 1];
      var passes := PassTimes(base, states, events, source, n - 1);
      assert StepOk(g, base, ev, states[n]) && passes + [] == passes;
      if Passes(g, base, ev, source) && w <= ev.now < w + Seconds(2) {
        assert forall i :: 0 <= i < n ==> events[i].now <= ev.now;
        InvBefore(base, states, events, source, n, w);
        SpanAtPass(g, base, source, ev.now, ev.kept, passes, w);
      } else if Passes(g, base, ev, source) {
        assert (passes + [ev.now])[..|passes|] == passes;
        assert InSpan(passes + [ev.now], w) == InSpan(passes, w) + [] == InSpan(passes, w);
      }
    }
  }

  /** In every run with a fixed rate setting, a non-loopback source gets at most max(4 * base, 200)
      packets through both gates in the two seconds from `w` on, unless an eviction within those
      two seconds took its recent history: despite earlier evictions, the drain to ten timestamps,
      the alert cooldown, and other blocks overwriting the expiry. */
  lemma NoWindowExceedsLimit(base: u32, states: seq<Gate>, events: seq<Event>, source: Ip, n: nat, w: Instant)
    requires IsRun(base, states, events) && source != "127.0.0.1" && source != "::1" && n <= |events|
    requires forall i :: 0 <= i < n && w <= events[i].now < w + 2_000_000_000 ==> Spared(states[i], events[i], source)
    ensures |InSpan(PassTimes(base, states, events, source, n), w)| <=
      if base <= 50 then 200 else Min(4 * base, 0xFFFF_FFFF)
  {
    hide HardLimit, IsRun, PassTimes, InSpan;
    LimitInNumbers(base, source);
    WindowWithinLimit(base, states, events, source, n, w);
  }

  // ---------------------------------------------------------------- no false drops

  ghost predicate SentBy(ev: Event, source: Ip) { ev.Packet? && ev.source == source }

  /** When packets of `source` arrived, passed or not, among the first `n` events. */
  ghost function SendTimes(events: seq<Event>, source: Ip, n: nat): seq<Instant>
    requires n <= |events|
  {
    if n == 0 then []
    else SendTimes(events, source, n - 1) + if SentBy(events[n - 1], source) then [events[n - 1].now] else []
  }

  /** At most `limit` in any two seconds. */
  ghost predicate WithinLimit(sent: seq<Instant>, limit: nat) { forall w: Instant :: |InSpan(sent, w)| <= limit }

  /** The source never exceeds its limit in any two seconds, and no other detector blocks it. */
  ghost predicate WellBehaved(base: u32, events: seq<Event>, source: Ip, n: nat)
    requires n <= |events|
  {
    && WithinLimit(SendTimes(events, source, n), HardLimit(base, source))
    && forall i :: 0 <= i < n && events[i].OtherBlock? ==> events[i].source != source
  }

  /** The history holds nothing the source did not send, and it is neither blocked nor alerted on. */
  ghost predicate Clean(g: Gate, source: Ip, sent: seq<Instant>) {
    && source !in g.blocked
    && forall t :: multiset(HistoryOf(g.history, source))[t] <= multiset(sent)[t]
  }

  lemma TrimAddsNothing(h: History, now: Instant, kept: History, source: Ip)
    requires Trims(h, now, kept)
    ensures source in kept ==> source in h && kept[source] == h[source]
  {
  }

  lemma PushedFits(kept: History, source: Ip, now: Instant, sent: seq<Instant>, w: Instant, t: Instant)
    requires multiset(HistoryOf(kept, source))[t] <= multiset(sent)[t]
    requires (t in sent ==> t <= now) && w == if now + 1 >= Seconds(2) then now + 1 - Seconds(2) else 0
    ensures multiset(Pushed(kept, source, now))[t] <= multiset(InSpan(sent + [now], w))[t]
    ensures multiset(Pushed(kept, source, now))[t] <= multiset(sent + [now])[t]
  {
    hide InSpan, Recent;
    RecentCounts(HistoryOf(kept, source), now, t);
    InSpanCounts(sent + [now], w, t);
    assert t in multiset(sent) ==> t in sent;
  }

  lemma PushedFitsSpan(kept: History, source: Ip, now: Instant, sent: seq<Instant>) returns (w: Instant)
    requires forall t :: multiset(HistoryOf(kept, source))[t] <= multiset(sent)[t]
    requires forall t :: t in sent ==> t <= now
    ensures |Pushed(kept, source, now)| <= |InSpan(sent + [now], w)|
    ensures forall t :: multiset(Pushed(kept, source, now))[t] <= multiset(sent + [now])[t]
  {
    w := if now + 1 >= Seconds(2) then now + 1 - Seconds(2) else 0;
    hide Pushed;
    var p := Pushed(kept, source, now);
    forall t
      ensures multiset(p)[t] <= multiset(InSpan(sent + [now], w))[t] && multiset(p)[t] <= multiset(sent + [now])[t]
    {
      PushedFits(kept, source, now, sent, w, t);
    }
    SubMultisetSize(multiset(p), multiset(InSpan(sent + [now], w)));
  }

  lemma LimitHeldBefore(base: u32, source: Ip, sent: seq<Instant>, t: Instant)
    requires WithinLimit(sent + [t], HardLimit(base, source))
    ensures WithinLimit(sent, HardLimit(base, source))
  {
    hide HardLimit;
    forall w ensures |InSpan(sent, w)| <= HardLimit(base, source) {
      assert (sent + [t])[..|sent|] == sent;
      assert |InSpan(sent + [t], w)| <= HardLimit(base, source);
    }
  }

  lemma OwnPacketStaysClean(g: Gate, base: u32, source: Ip, now: Instant, kept: History, sent: seq<Instant>)
    requires Clean(g, source, sent) && Trims(g.history, now, kept)
    requires (forall t :: t in sent ==> t <= now) && WithinLimit(sent + [now], HardLimit(base, source))
    ensures var (passed, g') := Admit(g, base, source, now, kept); passed && Clean(g', source, sent + [now])
  {
    hide Trims, Pushed, InSpan, HardLimit;
    TrimAddsNothing(g.history, now, kept, source);
    var w := PushedFitsSpan(kept, source, now, sent);
    assert |InSpan(sent + [now], w)| <= HardLimit(base, source);
  }

  lemma OtherPacketStaysClean(g: Gate, base: u32, other: Ip, now: Instant, kept: History, source: Ip,
          sent: seq<Instant>)
    requires other != source && Clean(g, source, sent) && Trims(g.history, now, kept)
    ensures Clean(Admit(g, base, other, now, kept).1, source, sent)
  {
    hide Trims, Pushed, Drained, HardLimit;
    TrimAddsNothing(g.history, now, kept, source);
  }

  lemma StepStaysClean(base: u32, states: seq<Gate>, events: seq<Event>, source: Ip, m: nat)
    requires IsRun(base, states, events) && m < |events|
    requires Clean(states[m], source, SendTimes(events, source, m)) && WellBehaved(base, events, source, m + 1)
    ensures Clean(states[m + 1], source, SendTimes(events, source, m + 1))
    ensures SentBy(events[m], source) ==> Passes(states[m], base, events[m], source)
  {
    hide Trims, WithinLimit, Admit, Clean;
    var g, ev, sent := states[m], events[m], SendTimes(events, source, m);
    assert StepOk(g, base, ev, states[m + 1]);
    match ev
    case Packet(from, now, kept) =>
      if from == source {
        SentEarlier(base, states, events, source, m);
        OwnPacketStaysClean(g, base, source, now, kept, sent);
      } else {
        assert sent + [] == sent;
        OtherPacketStaysClean(g, base, from, now, kept, source, sent);
      }
    case OtherBlock(from, now, duration) =>
      assert sent + [] == sent;
      OtherBlockStaysClean(g, from, now, duration, source, sent);
  }

  lemma {:induction false} StaysClean(base: u32, states: seq<Gate>, events: seq<Event>, source: Ip, n: nat)
    requires IsRun(base, states, events) && n <= |events| && WellBehaved(base, events, source, n)
    ensures Clean(states[n], source, SendTimes(events, source, n))
  {
    if n > 0 {
      hide WellBehaved, Clean, StepOk;
      WellBehavedBefore(base, events, source, n);
      StaysClean(base, states, events, source, n - 1);
      StepStaysClean(base, states, events, source, n - 1);
    } else {
      hide WellBehaved, StepOk;
    }
  }

  lemma OtherBlockStaysClean(g: Gate, other: Ip, now: Instant, duration: nat, source: Ip, sent: seq<Instant>)
    requires other != source && Clean(g, source, sent)
    ensures Clean(g.(blocked := Block(g.blocked, other, now, duration)), source, sent)
  {
  }

  lemma WellBehavedBefore(base: u32, events: seq<Event>, source: Ip, n: nat)
    requires 0 < n <= |events| && WellBehaved(base, events, source, n)
    ensures WellBehaved(base, events, source, n - 1)
  {
    hide WithinLimit;
    var before := SendTimes(events, source, n - 1);
    if SentBy(events[n - 1], source) {
      LimitHeldBefore(base, source, before, events[n - 1].now);
    } else {
      assert before + [] == before;
    }
  }

  lemma SentEarlier(base: u32, states: seq<Gate>, events: seq<Event>, source: Ip, m: nat)
    requires IsRun(base, states, events) && m < |events|
    ensures forall t :: t in SendTimes(events, source, m) ==> t <= events[m].now
  {
    if m > 0 {
      assert events[m - 1].now <= events[m].now;
    }
  }

  /** No false drops: over any run, whatever evictions do, a source that stays within the limit in
      every two seconds (max(4 * base, 200), and for loopback 10 * base held within 200 to 2000) and
      is not blocked by another detector has every packet pass both gates. */
  lemma WellBehavedAlwaysPasses(base: u32, states: seq<Gate>, events: seq<Event>, source: Ip, n: nat)
    requires IsRun(base, states, events) && n < |events| && SentBy(events[n], source)
    requires var limit := if source == "127.0.0.1" || source == "::1" then Max(200, Min(2000, 10 * base))
                          else if base <= 50 then 200 else Min(4 * base, 0xFFFF_FFFF);
      WithinLimit(SendTimes(events, source, n + 1), limit)
    requires forall i :: 0 <= i < n && events[i].OtherBlock? ==> events[i].source != source
    ensures Passes(states[n], base, events[n], source)
  {
    hide Clean, Passes, StepOk, HardLimit, InSpan;
    LimitInNumbers(base, source);
    assert WellBehaved(base, events, source, n + 1);
    WellBehavedBefore(base, events, source, n + 1);
    StaysClean(base, states, events, source, n);
    StepStaysClean(base, states, events, source, n);
  }

  // ---------------------------------------------------------------- this machine's own queries

  lemma {:induction false} RecentSize(ts: seq<Instant>, now: Instant)
    ensures |Recent(ts, now)| == |set i | 0 <= i < |ts| && now < ts[i] + 2_000_000_000|
  {
    var all := set i | 0 <= i < |ts| && now < ts[i] + 2_000_000_000;
    if ts == [] {
      assert all == {};
    } else {
      var n := |ts| - 1;
      RecentSize(ts[..n], now);
      var before := set i | 0 <= i < n && now < ts[..n][i] + 2_000_000_000;
      assert all == before + if now < ts[n] + 2_000_000_000 then {n} else {};
    }
  }

  lemma {:induction false} LoopbackIsNeverBlocked(base: u32, states: seq<Gate>, events: seq<Event>, source: Ip, n: nat)
    requires IsRun(base, states, events) && n <= |events| && IsLoopback(source)
    ensures source !in states[n].blocked
  {
    hide StepOk;
    if n > 0 {
      LoopbackIsNeverBlocked(base, states, events, source, n - 1);
      StepKeepsLoopback(states[n - 1], base, events[n - 1], states[n], source);
    }
  }

  lemma StepKeepsLoopback(g: Gate, base: u32, ev: Event, g': Gate, source: Ip)
    requires StepOk(g, base, ev, g') && IsLoopback(source) && source !in g.blocked
    ensures source !in g'.blocked
  {
    hide Trims, Pushed, Drained, HardLimit, Alerting, Alert;
  }

  /** A loopback packet is dropped exactly when the timestamps kept from the last two seconds, its own
      included, exceed 10 * base held within 200 to 2000. */
  lemma LoopbackIsDroppedExactly(base: u32, states: seq<Gate>, events: seq<Event>, n: nat)
    requires IsRun(base, states, events) && n < |events| && events[n].Packet?
    requires events[n].source == "127.0.0.1" || events[n].source == "::1"
    ensures var (source, now) := (events[n].source, events[n].now); var ts := HistoryOf(events[n].kept, source);
      Passes(states[n], base, events[n], source) <==>
        |set i | 0 <= i < |ts| && now < ts[i] + 2_000_000_000| + 1 <= Max(200, Min(2000, 10 * base))
  {
    hide StepOk, Recent, Trims;
    var source := events[n].source;
    LimitInNumbers(base, source);
    RecentSize(HistoryOf(events[n].kept, source), events[n].now);
    LoopbackIsNeverBlocked(base, states, events, source, n);
  }

  // ---------------------------------------------------------------- blocks

  /** A block of a non-loopback source holds exactly until it expires, and no other source's block
      changes while it runs. */
  lemma BlockHoldsUntilExpiry(g: Gate, source: Ip, now: Instant, duration: nat, other: Ip, later: Instant)
    requires source != "127.0.0.1" && source != "::1" && now <= later
    ensures var g' := g.(blocked := Block(g.blocked, source, now, duration));
      && (CheckBlocked(g', source, later).0 <==> later < now + duration)
      && (other != source ==> CheckBlocked(g', other, later).0 == CheckBlocked(g, other, later).0)
  {
  }

  /** An overrun drops the packet, keeps the last ten timestamps, and blocks a non-loopback source for
      a minute unless it was alerted on within the last minute. */
  lemma OverrunIsPunished(g: Gate, base: u32, source: Ip, now: Instant, kept: History)
    requires |Recent(HistoryOf(kept, source), now)| + 1 > HardLimit(base, source)
    ensures var (exceeded, g') := Enforce(g, base, source, now, kept);
      var all := Recent(HistoryOf(kept, source), now) + [now];
      && exceeded && source in g'.history && g'.history[source] == all[|all| - 10..]
      && (source in g.cooldown && now < g.cooldown[source] + 60_000_000_000 ==>
            g'.blocked == g.blocked && g'.cooldown == g.cooldown)
      && (!(source in g.cooldown && now < g.cooldown[source] + 60_000_000_000) ==>
            && source in g'.cooldown && g'.cooldown[source] == now
            && (!IsLoopback(source) ==> source in g'.blocked && g'.blocked[source] == now + 60_000_000_000))
  {
    hide Recent, HardLimit;
  }

  /** Who stays in the two tables when `source` is entered: with at most 500 blocks (1024 alerts)
      everyone, with more whoever's minute or block still runs. */
  lemma OnlyTheExpiredArePruned(g: Gate, source: Ip, now: Instant, duration: nat, other: Ip)
    requires other != source
    ensures source != "127.0.0.1" && source != "::1" ==>
      (other in Block(g.blocked, source, now, duration) <==>
         other in g.blocked && (|g.blocked| <= 500 || now < g.blocked[other]))
    ensures other in Alert(g.cooldown, source, now) <==>
      other in g.cooldown && (|g.cooldown| <= 1024 || now < g.cooldown[other] + 60_000_000_000)
  {
  }

  // ---------------------------------------------------------------- memory

  /** The sources with a packet in the last two seconds. */
  ghost function ActiveSources(h: History, now: Instant): set<Ip> {
    set s | s in h && exists i :: 0 <= i < |h[s]| && now < h[s][i] + 2_000_000_000
  }

  /** An eviction spares every active source unless more than 1000 are active, and then takes exactly
      256 of them; with at most 1000 sources in all nothing is evicted. */
  lemma EvictionOnlyWhenFull(h: History, now: Instant, kept: History, source: Ip)
    requires Trims(h, now, kept)
    ensures |h| <= 1000 ==> kept == h
    ensures |ActiveSources(h, now)| <= 1000 && source in ActiveSources(h, now) ==>
      source in kept && kept[source] == h[source]
    ensures |h| > 1000 && |ActiveSources(h, now)| > 1000 ==> |kept| == |ActiveSources(h, now)| - 256
  {
    hide Active, ByLatest;
    var live := Retain(h, Active(now));
    ActiveIsRetained(h, now);
    assert |live| == |live.Keys|;
  }

  lemma ActiveIsRetained(h: History, now: Instant)
    ensures Retain(h, Active(now)).Keys == ActiveSources(h, now)
  {
  }

  /** The age evictions go by is the latest timestamp. */
  lemma {:induction false} LatestIsGreatest(ts: seq<Instant>)
    ensures ts == [] ==> Latest(ts) == -1
    ensures ts != [] ==> exists i :: 0 <= i < |ts| && ts[i] == Latest(ts)
    ensures forall i :: 0 <= i < |ts| ==> ts[i] <= Latest(ts)
  {
    if ts != [] {
      var n := |ts| - 1;
      LatestIsGreatest(ts[..n]);
      if Latest(ts) == ts[n] { assert ts[n] == Latest(ts); } else {
        var i :| 0 <= i < n && ts[..n][i] == Latest(ts[..n]);
        assert ts[i] == Latest(ts);
      }
      assert forall i :: 0 <= i < n ==> ts[i] == ts[..n][i];
    }
  }

  lemma StepStaysBounded(g: Gate, base: u32, ev: Event, g': Gate)
    requires StepOk(g, base, ev, g') && |g.history| <= 1001
    ensures |g'.history| <= 1001
  {
    hide Pushed, Drained, HardLimit, Active, ByLatest;
    if ev.Packet? {
      TrimmedSize(g.history, ev.now, ev.kept);
      hide Trims;
      InsertSize(ev.kept, ev.source, Pushed(ev.kept, ev.source, ev.now));
      InsertSize(ev.kept, ev.source, Drained(Pushed(ev.kept, ev.source, ev.now)));
    }
  }

  lemma TrimmedSize(h: History, now: Instant, kept: History)
    requires Trims(h, now, kept) && |h| <= 1001
    ensures |kept| <= 1000
  {
    hide Active, ByLatest;
    RetainShrinks(h, Active(now));
  }

  /** The history never holds more than 1001 sources. */
  lemma {:induction false} HistoryStaysBounded(base: u32, states: seq<Gate>, events: seq<Event>, n: nat)
    requires IsRun(base, states, events) && n <= |events|
    ensures |states[n].history| <= 1001
  {
    hide StepOk;
    if n > 0 {
      HistoryStaysBounded(base, states, events, n - 1);
      StepStaysBounded(states[n - 1], base, events[n - 1], states[n]);
    }
  }
}
