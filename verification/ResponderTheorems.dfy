/** What the packet handler decides, stated on its inputs and on the bytes it sends, and that the
    response cache serves everything it should. */
module ResponderTheorems {
  import opened Bytes
  import opened Time
  import opened Eviction
  import opened DnsWire
  import opened DnsAnswers
  import opened DnsMessages
  import opened DomainRules
  import opened Responder
  import DiskFormat
  import MemoWalk

  // ---------------------------------------------------------------- before the cache

  /** The reply answers the query with the given code and no records. */
  ghost predicate IsEmptyReply(v: Verdict, pkt: Packet, rcode: byte) {
    && v.Send? && Matches(v.reply, pkt)
    && v.reply[3] % 16 == rcode && forall i :: 6 <= i < 12 ==> v.reply[i] == 0
  }

  /** The reply answers the query with one address record for the name asked, for ten seconds. */
  ghost predicate IsAddressReply(v: Verdict, pkt: Packet, rtype: u16, address: seq<byte>)
    requires |address| <= U16_MAX
  {
    && v.Send? && Matches(v.reply, pkt)
    && var record := Record(Owner([], Some(12)), rtype, 1, 10, address);
      RecordOk(record) && OnlyAnswer(v.reply, record)
  }

  lemma ErrorIsEmpty(pkt: Packet, rcode: byte)
    requires rcode < 16 && ParseSpec(pkt).Some?
    ensures IsEmptyReply(Reply(ErrorReply(pkt, rcode)), pkt, rcode)
  {
    hide ParseSpec, Matches;
    ParsedHasHeader(pkt);
    ErrorMatches(pkt, rcode);
  }

  /** What does not parse, and any packet of a rate-limited or blocked source, gets no reply. */
  lemma LimitedIsDropped(lower: Lowering, s: State, pkt: Packet, ctx: Context)
    requires ContextOk(ctx)
    requires ParseSpec(pkt).None? || ctx.rateLimited || ctx.blocked
    ensures Serve(lower, s, pkt, ctx) == Drop
  {
    hide ParseSpec;
  }

  /** A quarantined client, a darknet name, and an incident under automatic blocking are answered
      NXDOMAIN, whatever else holds. */
  lemma IsolatedIsDenied(lower: Lowering, s: State, pkt: Packet, ctx: Context)
    requires ContextOk(ctx) && ParseSpec(pkt).Some? && !ctx.rateLimited && !ctx.blocked
    requires ctx.quarantined || ctx.darknet || (ctx.incident && ctx.autoBlock)
    ensures IsEmptyReply(Serve(lower, s, pkt, ctx), pkt, 3)
  {
    hide ParseSpec, ErrorReply;
    ErrorIsEmpty(pkt, NXDOMAIN);
  }

  /** What a policy answers: the address of the type asked for, or NXDOMAIN for another type or a
      question cut short of its class. */
  ghost predicate IsPolicyAnswer(v: Verdict, pkt: Packet, ip4: seq<byte>, ip6: seq<byte>)
    requires ParseSpec(pkt).Some? && |ip4| == 4 && |ip6| == 16
  {
    var qtype, whole := ParseSpec(pkt).value.qtype, ReadLabels(pkt, 12, 0).pos + 4 <= |pkt|;
    if qtype == 1 && whole then IsAddressReply(v, pkt, 1, ip4)
    else if qtype == 28 && whole then IsAddressReply(v, pkt, 28, ip6)
    else IsEmptyReply(v, pkt, 3)
  }

  lemma WholeQuestion(pkt: Packet)
    requires ParseSpec(pkt).Some?
    ensures QuestionEnd(pkt).Some? <==> ReadLabels(pkt, 12, 0).pos + 4 <= |pkt|
  {
    hide Join;
    ParserAndBuilderAgree(pkt, HEADER, 0);
  }

  lemma PolicyAnswers(pkt: Packet, ip4: seq<byte>, ip6: seq<byte>)
    requires |ip4| == 4 && |ip6| == 16 && ParseSpec(pkt).Some?
    ensures IsPolicyAnswer(Reply(PolicyReply(pkt, ParseSpec(pkt).value.qtype, ip4, ip6)), pkt, ip4, ip6)
  {
    var qtype := ParseSpec(pkt).value.qtype;
    hide Matches, ErrorReply, ParseSpec, OnlyAnswer, RecordOk, QuestionEnd, ReadLabels;
    ParsedEndsQuestion(pkt);
    WholeQuestion(pkt);
    PolicyMatches(pkt, qtype, ip4, ip6);
    PolicyReplyDecodes(pkt, qtype, ip4, ip6);
    ErrorIsEmpty(pkt, NXDOMAIN);
  }

  /** An administrator's override is answered with its address. */
  lemma OverrideIsAnswered(lower: Lowering, s: State, pkt: Packet, ctx: Context)
    requires ContextOk(ctx) && ParseSpec(pkt).Some? && !ctx.rateLimited && !ctx.blocked
    requires !ctx.quarantined && !ctx.darknet && !(ctx.incident && ctx.autoBlock) && ctx.override.Some?
    ensures IsPolicyAnswer(Serve(lower, s, pkt, ctx), pkt, ctx.override.value.0, ctx.override.value.1)
  {
    hide ParseSpec, PolicyReply, IsPolicyAnswer;
    PolicyAnswers(pkt, ctx.override.value.0, ctx.override.value.1);
  }

  /** While blocking is not paused, a listed name asked for by an ordinary client, and any name asked
      for by a strict one other than this machine, is answered 127.0.0.1 or 0.0.0.0, or `::`. */
  lemma ListedIsSinkholed(lower: Lowering, s: State, pkt: Packet, ctx: Context)
    requires ContextOk(ctx) && ParseSpec(pkt).Some? && !ctx.rateLimited && !ctx.blocked
    requires !ctx.quarantined && !ctx.darknet && !(ctx.incident && ctx.autoBlock) && ctx.override.None?
    requires !ctx.paused && ((ctx.mode == Default && ctx.listed) || (ctx.mode == Strict && !ctx.loopback))
    ensures IsPolicyAnswer(Serve(lower, s, pkt, ctx), pkt, if ctx.silentSinkhole then [127, 0, 0, 1] else [0, 0, 0, 0],
                           [0, 0, 0, 0, 0, 0, 0, 0, 0, 0, 0, 0, 0, 0, 0, 0])
  {
    hide ParseSpec, PolicyReply, IsPolicyAnswer;
    PolicyAnswers(pkt, if ctx.silentSinkhole then LOOPBACK4 else ZERO4, ZERO16);
  }

  /** A query is forwarded exactly when it parses, nothing refuses it, overrides it or blocks it, and
      no entry under its lowered name and type is still within its TTL. */
  lemma ForwardedExactly(lower: Lowering, names: iset<Name>, s: State, pkt: Packet, ctx: Context)
    requires ContextOk(ctx) && CacheOk(lower, names, s.cache)
    ensures Serve(lower, s, pkt, ctx) == ForwardUpstream <==>
      && ParseSpec(pkt).Some? && !ctx.rateLimited && !ctx.blocked && !ctx.quarantined && !ctx.darknet
      && !(ctx.incident && ctx.autoBlock) && ctx.override.None?
      && (ctx.paused || ctx.mode == Trusted || (ctx.mode == Strict && ctx.loopback)
          || (ctx.mode == Default && !ctx.listed))
      && var key := (lower(ParseSpec(pkt).value.name), ParseSpec(pkt).value.qtype);
        !(key in s.cache && ctx.now < s.cache[key].inserted + 1_000_000_000 * s.cache[key].ttl)
  {
    hide ParseSpec, PolicyReply, ErrorReply, HitsPrivateSpace, Retagged, AskedAs;
    if ParseSpec(pkt).Some? {
      ParsedHasHeader(pkt);
      var key := (lower(ParseSpec(pkt).value.name), ParseSpec(pkt).value.qtype);
      if key in s.cache { assert EntryOk(key, s.cache[key]); }
    }
  }

  // ---------------------------------------------------------------- the block lists at work

  /** The packet gets as far as the block lists, which are asked about its name. */
  ghost predicate AsksBlockLists(H: DiskFormat.Hash, e: MemoWalk.Engine, pkt: Packet, ctx: Context) {
    && ContextOk(ctx) && ParseSpec(pkt).Some? && !ctx.rateLimited && !ctx.blocked && !ctx.quarantined && !ctx.darknet
    && !(ctx.incident && ctx.autoBlock) && ctx.override.None? && !ctx.paused && ctx.mode == Default
    && ctx.listed == MemoWalk.ShouldBlock(H, true, e, ParseSpec(pkt).value.name).0
  }

  /** A query for a name under a custom or built-in rule and no allow list is answered by the sinkhole,
      whatever is memoised, cached or on disk. */
  lemma BlockedNameIsSinkholed(lower: Lowering, s: State, H: DiskFormat.Hash, e: MemoWalk.Engine, pkt: Packet,
          ctx: Context)
    requires AsksBlockLists(H, e, pkt, ctx)
    requires var d := Normalize(ParseSpec(pkt).value.name);
      && d != [] && (Covered(In(e.customBlocked), d) || Covered(In(e.builtin), d))
      && !Covered(In(e.customAllowed), d) && !Covered(In(e.allowed), d)
    ensures IsPolicyAnswer(Serve(lower, s, pkt, ctx), pkt, if ctx.silentSinkhole then [127, 0, 0, 1] else [0, 0, 0, 0],
                           [0, 0, 0, 0, 0, 0, 0, 0, 0, 0, 0, 0, 0, 0, 0, 0])
  {
    MemoWalk.RuledIsAlwaysBlocked(H, true, e, ParseSpec(pkt).value.name);
    hide Serve, ParseSpec, Covered, PolicyReply, IsPolicyAnswer;
    ListedIsSinkholed(lower, s, pkt, ctx);
  }

  /** A query for a name on or below an allow list is forwarded unless a live entry answers it, whatever blocks
      the name. */
  lemma AllowedNameIsForwarded(lower: Lowering, names: iset<Name>, s: State, H: DiskFormat.Hash, e: MemoWalk.Engine,
          pkt: Packet, ctx: Context)
    requires AsksBlockLists(H, e, pkt, ctx) && CacheOk(lower, names, s.cache)
    requires var d := Normalize(ParseSpec(pkt).value.name); Covered(In(e.customAllowed), d) || Covered(In(e.allowed), d)
    ensures var key := (lower(ParseSpec(pkt).value.name), ParseSpec(pkt).value.qtype);
      Serve(lower, s, pkt, ctx) == ForwardUpstream <==>
        !(key in s.cache && ctx.now < s.cache[key].inserted + 1_000_000_000 * s.cache[key].ttl)
  {
    MemoWalk.AllowedIsNeverBlocked(H, true, e, ParseSpec(pkt).value.name);
    hide Serve, ParseSpec, Covered, CacheOk;
    ForwardedExactly(lower, names, s, pkt, ctx);
  }

  // ---------------------------------------------------------------- after forwarding

  /** Body `i` is the first that is at most 64 KiB and answers the query. */
  ghost predicate IsAccepted(bodies: seq<Packet>, pkt: Packet, i: nat) {
    && i < |bodies| && |bodies[i]| <= 65536 && Matches(bodies[i], pkt)
    && forall j :: 0 <= j < i ==> |bodies[j]| > 65536 || !Matches(bodies[j], pkt)
  }

  lemma {:induction false} FirstIsAccepted(bodies: seq<Packet>, pkt: Packet, i: nat)
    requires IsAccepted(bodies, pkt, i)
    ensures FirstAccepted(bodies, pkt) == Some(bodies[i])
    decreases i
  {
    hide Matches;
    if i > 0 {
      assert forall j :: 0 <= j < i ==> bodies[1..][j] == bodies[j + 1];
      FirstIsAccepted(bodies[1..], pkt, i - 1);
    }
  }

  lemma {:induction false} NoneIsAccepted(bodies: seq<Packet>, pkt: Packet)
    requires forall j :: 0 <= j < |bodies| ==> |bodies[j]| > 65536 || !Matches(bodies[j], pkt)
    ensures FirstAccepted(bodies, pkt).None?
  {
    hide Matches;
    if bodies != [] {
      assert forall j :: 0 <= j < |bodies| - 1 ==> bodies[1..][j] == bodies[j + 1];
      NoneIsAccepted(bodies[1..], pkt);
    }
  }

  /** When no body is acceptable the client is told SERVFAIL and nothing is stored. */
  lemma FailureIsReported(lower: Lowering, s: State, pkt: Packet, bodies: seq<Packet>, later: Instant, s': State)
    requires ParseSpec(pkt).Some? && FinishUpdates(lower, s, pkt, ParseSpec(pkt).value, bodies, later, s')
    requires forall j :: 0 <= j < |bodies| ==> |bodies[j]| > 65536 || !Matches(bodies[j], pkt)
    ensures IsEmptyReply(Finish(lower, s, pkt, ParseSpec(pkt).value, bodies), pkt, 2) && s' == s
  {
    hide ParseSpec, ErrorReply, Matches, HitsPrivateSpace, Stores, IsEmptyReply, FirstAccepted;
    NoneIsAccepted(bodies, pkt);
    ErrorIsEmpty(pkt, SERVFAIL);
  }

  /** Otherwise it gets the first acceptable body, which is stored under the query's key, or for a
      private answer to a guarded name NXDOMAIN, with nothing stored. */
  lemma AcceptedIsPassedOn(lower: Lowering, s: State, pkt: Packet, bodies: seq<Packet>, later: Instant, s': State,
          i: nat)
    requires ParseSpec(pkt).Some? && FinishUpdates(lower, s, pkt, ParseSpec(pkt).value, bodies, later, s')
    requires IsAccepted(bodies, pkt, i)
    ensures var v := Finish(lower, s, pkt, ParseSpec(pkt).value, bodies); var key := KeyOf(lower, pkt);
      if Guarded(lower, s.customAllowed, ParseSpec(pkt).value.name) && HasPrivateAddress(bodies[i])
      then IsEmptyReply(v, pkt, 3) && s' == s
      else v == Send(bodies[i]) && key in s'.cache && s'.cache[key] == Entry(bodies[i], later, CacheTtl(bodies[i]))
  {
    hide ParseSpec, ErrorReply, Matches, IsLegitLocalDomain, Covered, HasPrivateAddress, CacheTtl, Trims;
    hide IsEmptyReply, FirstAccepted;
    FirstIsAccepted(bodies, pkt, i);
    ErrorMatches(pkt, NXDOMAIN);
    ErrorIsEmpty(pkt, NXDOMAIN);
  }

  // ---------------------------------------------------------------- how long a reply is cached

  /** The least TTL of the answers the decoder reads, but at least a second and at most a minute; ten
      seconds when there is none. */
  lemma CachedForLeastTtl(m: Message, i: nat)
    requires MessageOk(m) && |m.questions| == 1
    ensures |m.questions[0].owner.labels| <= 127
    ensures m.answers == [] ==> CacheTtl(Encode(m)) == 10
    ensures var n := Min(|m.answers|, 255 - |m.questions[0].owner.labels|);
      i < n && m.answers[i].ttl < U32_MAX && (forall j :: 0 <= j < n ==> m.answers[i].ttl <= m.answers[j].ttl) ==>
        CacheTtl(Encode(m)) ==
          if m.answers[i].ttl == 0 then 1 else if m.answers[i].ttl <= 60 then m.answers[i].ttl else 60
  {
    hide Encode, MessageOk, MinTtl;
    MinTtlIsLeast(m);
  }

  // ---------------------------------------------------------------- the cache serves what it should

  /** The event stores a reply under `key`. */
  ghost predicate StoresUnder(lower: Lowering, s: State, ev: Event, key: (Name, u16)) {
    && ev.Finished? && ParseSpec(ev.pkt).Some? && KeyOf(lower, ev.pkt) == key
    && FirstAccepted(ev.bodies, ev.pkt).Some?
    && !HitsPrivateSpace(lower, s.customAllowed, ParseSpec(ev.pkt).value.name, FirstAccepted(ev.bodies, ev.pkt).value)
  }

  lemma StoringIsFinishing(lower: Lowering, s: State, ev: Event, key: (Name, u16))
    requires StoresUnder(lower, s, ev, key)
    ensures ev.Finished? && FirstAccepted(ev.bodies, ev.pkt).Some?
  {
  }

  /** The keys of the entries within their TTL. */
  ghost function Live(c: Cache, now: Instant): set<(Name, u16)> {
    set k | k in c && now < c[k].inserted + 1_000_000_000 * c[k].ttl
  }

  /** At no store among events `i + 1` up to `n` were there more than 5500 live entries. */
  ghost predicate NeverCrowded(states: seq<State>, events: seq<Event>, i: nat, n: nat)
    requires |states| == |events| + 1 && n <= |events|
  {
    forall j :: i < j < n && events[j].Finished? ==> |Live(states[j].cache, events[j].later)| <= 5500
  }

  lemma LiveIsRetained(lower: Lowering, names: iset<Name>, c: Cache, now: Instant)
    requires CacheOk(lower, names, c)
    ensures Retain(c, Fresh(now)).Keys == Live(c, now)
  {
    hide AskedAs;
    forall k | k in c ensures Fresh(now)(c[k]) <==> now < c[k].inserted + 1_000_000_000 * c[k].ttl {
      assert EntryOk(k, c[k]);
    }
  }

  /** What making room keeps: up to 5000 entries everything, beyond that the live entries, and of more than 5500
      live ones 5000, none of them older than one dropped. */
  lemma TrimmedInNumbers(lower: Lowering, names: iset<Name>, c: Cache, now: Instant, after: Cache, k: (Name, u16),
          j: (Name, u16))
    requires CacheOk(lower, names, c) && Trims(c, now, after)
    ensures k in after ==> k in c && after[k] == c[k]
    ensures |c| <= 5000 ==> after.Keys == c.Keys
    ensures |c| > 5000 && |Live(c, now)| <= 5500 ==> after.Keys == Live(c, now)
    ensures |c| > 5000 && |Live(c, now)| > 5500 ==>
      && |after| == 5000 && after.Keys <= Live(c, now)
      && (k in after && j in Live(c, now) && j !in after ==> c[j].inserted <= c[k].inserted)
  {
    hide CacheOk, Fresh, Live;
    LiveIsRetained(lower, names, c, now);
    var live := Retain(c, Fresh(now));
    assert |live| == |live.Keys|;
  }

  /** A store under another key keeps a live entry unless more than 5500 are live. */
  lemma StoreKeepsLive(lower: Lowering, names: iset<Name>, c: Cache, key: (Name, u16), resp: Packet, now: Instant,
          after: Cache, k: (Name, u16))
    requires CacheOk(lower, names, c) && Stores(c, key, resp, now, after) && k != key
    requires k in Live(c, now) && |Live(c, now)| <= 5500
    ensures k in after && after[k] == c[k]
  {
    hide CacheTtl, CacheOk, Fresh, Inserted;
    LiveIsRetained(lower, names, c, now);
    var live := Retain(c, Fresh(now));
    assert k in live.Keys && |live| == |live.Keys|;
  }

  lemma StepKeepsLive(lower: Lowering, names: iset<Name>, s: State, ev: Event, s': State, k: (Name, u16))
    requires EventOk(ev) && CacheOk(lower, names, s.cache) && Step(lower, s, ev, s') && k in s.cache
    requires !StoresUnder(lower, s, ev, k)
    requires ev.Finished? ==> k in Live(s.cache, ev.later) && |Live(s.cache, ev.later)| <= 5500
    ensures k in s'.cache && s'.cache[k] == s.cache[k]
  {
    hide CacheTtl, CacheOk, Stores, ParseSpec, HitsPrivateSpace, FirstAccepted, Live;
    if ev.Finished? && FirstAccepted(ev.bodies, ev.pkt).Some? {
      var q, r := ParseSpec(ev.pkt).value, FirstAccepted(ev.bodies, ev.pkt).value;
      if !HitsPrivateSpace(lower, s.customAllowed, q.name, r) {
        StoreKeepsLive(lower, names, s.cache, (lower(q.name), q.qtype), r, ev.later, s'.cache, k);
      }
    }
  }

  lemma StoredAtOnce(lower: Lowering, s: State, ev: Event, s': State, k: (Name, u16))
    requires EventOk(ev) && Step(lower, s, ev, s') && StoresUnder(lower, s, ev, k)
    ensures var body := FirstAccepted(ev.bodies, ev.pkt).value;
      k in s'.cache && s'.cache[k] == Entry(body, ev.later, CacheTtl(body))
  {
    hide CacheTtl, ParseSpec, HitsPrivateSpace, FirstAccepted, Trims;
  }

  lemma RunStep(lower: Lowering, states: seq<State>, events: seq<Event>, j: nat) returns (names: iset<Name>)
    requires IsRun(lower, states, events) && j < |events|
    ensures EventOk(events[j]) && Step(lower, states[j], events[j], states[j + 1])
    ensures CacheOk(lower, names, states[j].cache)
  {
    hide Step, EventOk, CacheOk, ParseSpec;
    names := iset n | 0 <= n < |events| && AskedName(events[n]).Some? :: AskedName(events[n]).value;
    RunKeepsCacheOk(lower, names, states, events, j);
  }

  lemma StillLive(c: Cache, k: (Name, u16), e: Entry, at: Instant, now: Instant)
    requires k in c && c[k] == e && at <= now < e.inserted + 1_000_000_000 * e.ttl
    ensures k in Live(c, at)
  {
  }

  /** One event, not storing under `k`, keeps a live entry of a cache that is not crowded. */
  lemma EventKeepsEntry(lower: Lowering, states: seq<State>, events: seq<Event>, j: nat, k: (Name, u16), e: Entry,
          now: Instant)
    requires IsRun(lower, states, events) && j < |events| && k in states[j].cache && states[j].cache[k] == e
    requires !StoresUnder(lower, states[j], events[j], k)
    requires events[j].Finished? ==> events[j].later <= now && |Live(states[j].cache, events[j].later)| <= 5500
    requires now < e.inserted + 1_000_000_000 * e.ttl
    ensures k in states[j + 1].cache && states[j + 1].cache[k] == e
  {
    hide StoresUnder, Step, CacheOk, EventOk, Live;
    var names := RunStep(lower, states, events, j);
    if events[j].Finished? { StillLive(states[j].cache, k, e, events[j].later, now); }
    StepKeepsLive(lower, names, states[j], events[j], states[j + 1], k);
  }

  lemma RunLength(lower: Lowering, states: seq<State>, events: seq<Event>)
    requires IsRun(lower, states, events)
    ensures |states| == |events| + 1
  {
    hide EventOk, Step;
  }

  lemma Crowding(states: seq<State>, events: seq<Event>, i: nat, n: nat)
    requires |states| == |events| + 1 && i + 1 < n <= |events| && NeverCrowded(states, events, i, n)
    ensures NeverCrowded(states, events, i, n - 1)
    ensures events[n - 1].Finished? ==> |Live(states[n - 1].cache, events[n - 1].later)| <= 5500
  {
    hide Live;
  }

  /** The entry event `i` stored is there before event `n`, while it lives. */
  lemma {:induction false} EntryStays(lower: Lowering, states: seq<State>, events: seq<Event>, i: nat, n: nat,
          k: (Name, u16), body: Packet, now: Instant)
    requires IsRun(lower, states, events) && i < n <= |events| && StoresUnder(lower, states[i], events[i], k)
    requires FirstAccepted(events[i].bodies, events[i].pkt) == Some(body)
    requires forall j :: i < j < n ==> !StoresUnder(lower, states[j], events[j], k)
    requires forall j :: i < j < n && events[j].Finished? ==> events[j].later <= now
    requires NeverCrowded(states, events, i, n) && now < events[i].later + 1_000_000_000 * CacheTtl(body)
    ensures k in states[n].cache && states[n].cache[k] == Entry(body, events[i].later, CacheTtl(body))
  {
    hide *;
    RunLength(lower, states, events);
    if n == i + 1 {
      var names := RunStep(lower, states, events, i);
      StoredAtOnce(lower, states[i], events[i], states[n], k);
    } else {
      Crowding(states, events, i, n);
      EntryStays(lower, states, events, i, n - 1, k, body, now);
      EventKeepsEntry(lower, states, events, n - 1, k, states[n - 1].cache[k], now);
    }
  }

  /** The other half of `CachedReplyIsRecent`: in every run on a clock that does not run backwards, a
      reply stored for a name and type is what the cache finds for every later packet with the same
      lowered name and type until its TTL runs out, as long as no newer one was stored for them and
      the cache was never crowded. */
  lemma RecentReplyIsFound(lower: Lowering, states: seq<State>, events: seq<Event>, i: nat, n: nat)
    requires IsRun(lower, states, events) && Clocked(events) && i < n < |events| && events[n].Served?
    requires ParseSpec(events[n].pkt).Some? && StoresUnder(lower, states[i], events[i], KeyOf(lower, events[n].pkt))
    requires forall j :: i < j < n ==> !StoresUnder(lower, states[j], events[j], KeyOf(lower, events[n].pkt))
    requires NeverCrowded(states, events, i, n)
    requires var body := FirstAccepted(events[i].bodies, events[i].pkt).value;
      events[n].ctx.now < events[i].later + 1_000_000_000 * CacheTtl(body)
    ensures var body := FirstAccepted(events[i].bodies, events[i].pkt).value; var pkt := events[n].pkt;
      && |body| >= 2 && |pkt| >= 2 && events[i].later <= events[n].ctx.now
      && CachedReply(lower, states[n].cache, ParseSpec(pkt).value, pkt, events[n].ctx.now)
           == Some([pkt[0], pkt[1]] + body[2..])
  {
    hide CacheTtl, StoresUnder, Step, FirstAccepted, ParseSpec, NeverCrowded;
    var pkt, now := events[n].pkt, events[n].ctx.now;
    StoringIsFinishing(lower, states[i], events[i], KeyOf(lower, pkt));
    var body := FirstAccepted(events[i].bodies, events[i].pkt).value;
    ParsedHasHeader(pkt);
    assert Clock(events[i]).value <= Clock(events[n]).value;
    forall j | i < j < n && events[j].Finished? ensures events[j].later <= now {
      assert Clock(events[j]).value <= Clock(events[n]).value;
    }
    EntryStays(lower, states, events, i, n, KeyOf(lower, pkt), body, now);
  }

  // ---------------------------------------------------------------- local names

  const LOCALHOST: Name := [108, 111, 99, 97, 108, 104, 111, 115, 116]
  const LOCAL: Name := [108, 111, 99, 97, 108]
  const LAN: Name := [108, 97, 110]
  const HOME: Name := [104, 111, 109, 101]
  const INTERNAL: Name := [105, 110, 116, 101, 114, 110, 97, 108]
  const INTRANET: Name := [105, 110, 116, 114, 97, 110, 101, 116]
  const ARPA: Name := [97, 114, 112, 97]
  const LOCALDOMAIN: Name := [108, 111, 99, 97, 108, 100, 111, 109, 97, 105, 110]

  const LOCAL_ENDINGS: set<Name> := {LOCALHOST, LOCAL, LAN, HOME, INTERNAL, INTRANET, ARPA, LOCALDOMAIN}

  /** The word stands at the end of `d`, after a dot. */
  predicate EndsAfterDot(d: Name, word: Name) {
    |d| > |word| && d[|d| - |word| - 1] == 46 && d[|d| - |word|..] == word
  }

  lemma EndingAfterDot(d: Name, suffix: Name, word: Name)
    requires suffix == [46] + word
    ensures EndsWith(d, suffix) <==> EndsAfterDot(d, word)
  {
    if |d| > |word| {
      assert d[|d| - |word| - 1..] == [d[|d| - |word| - 1]] + d[|d| - |word|..];
      assert ([d[|d| - |word| - 1]] + d[|d| - |word|..])[1..] == d[|d| - |word|..] && suffix[1..] == word;
    }
  }

  lemma LocalTexts()
    ensures Text("localhost") == LOCALHOST && Text(".localhost") == [46] + LOCALHOST && Text(".local") == [46] + LOCAL
    ensures Text(".localdomain") == [46] + LOCALDOMAIN
  {
  }

  lemma InsideTexts()
    ensures Text(".lan") == [46] + LAN && Text(".home") == [46] + HOME && Text(".arpa") == [46] + ARPA
  {
  }

  lemma NetworkTexts()
    ensures Text(".internal") == [46] + INTERNAL && Text(".intranet") == [46] + INTRANET
  {
  }

  /** A name is local when, lowered and without its trailing dots, it is "localhost" or ends, after a
      dot, in one of the eight endings. */
  lemma LocalByEnding(lower: Lowering, domain: Name)
    ensures var d := TrimDots(lower(domain));
      IsLegitLocalDomain(lower, domain) <==>
        || d == LOCALHOST
        || exists w :: w in LOCAL_ENDINGS && EndsAfterDot(d, w)
  {
    hide Text, EndsWith, TrimDots, EndsAfterDot;
    var d := TrimDots(lower(domain));
    LocalTexts();
    InsideTexts();
    NetworkTexts();
    EndingAfterDot(d, [46] + LOCALHOST, LOCALHOST);
    EndingAfterDot(d, [46] + LOCAL, LOCAL);
    EndingAfterDot(d, [46] + LAN, LAN);
    EndingAfterDot(d, [46] + HOME, HOME);
    EndingAfterDot(d, [46] + INTERNAL, INTERNAL);
    EndingAfterDot(d, [46] + INTRANET, INTRANET);
    EndingAfterDot(d, [46] + ARPA, ARPA);
    EndingAfterDot(d, [46] + LOCALDOMAIN, LOCALDOMAIN);
  }
}
