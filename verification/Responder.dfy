/** The DNS responder: which reply each packet gets, and the response cache behind it. `Serve` decides everything up to
    forwarding, `Finish` handles what came back; between the two a packet waits while others are handled. */
module Responder {
  import opened Bytes
  import opened Time
  import opened Eviction
  import opened DnsWire
  import opened DnsAnswers
  import opened DnsMessages
  import DnsQuery
  import opened DomainRules

  // ---------------------------------------------------------------- the response cache

  datatype Entry = Entry(resp: Packet, inserted: Instant, ttl: u32)

  type Cache = map<(Name, u16), Entry>

  /** Unicode `to_lowercase`. Of it only the ASCII part is fixed. */
  type Lowering = Name -> Name

  ghost predicate LowersAscii(lower: Lowering) {
    forall n :: Ascii(n) ==> lower(n) == Lower(n)
  }

  function Clamp(n: nat, lo: nat, hi: nat): nat
    requires lo <= hi
  {
    if n < lo then lo else if n > hi then hi else n
  }

  function CacheTtl(resp: Packet): (t: u32)
    ensures 1 <= t <= 60
  {
    match MinTtl(resp) case Some(ttl) => Clamp(ttl, 1, 60) case None => 10
  }

  function Inserted(): Entry -> int { (e: Entry) => e.inserted }

  function Fresh(now: Instant): Entry -> bool {
    (e: Entry) => Since(now, e.inserted) < Seconds(Max(e.ttl, 1))
  }

  /** Above 5000 entries the expired go; if more than 5500 remain, the oldest go down to 5000. */
  ghost predicate Trims(c: Cache, now: Instant, after: Cache) {
    if |c| <= 5000 then after == c
    else
      var live := Retain(c, Fresh(now));
      if |live| > 5500 then ShedsOldest(live, Inserted(), |live| - 5000, after) else after == live
  }

  ghost predicate Stores(c: Cache, key: (Name, u16), resp: Packet, now: Instant, after: Cache) {
    exists mid :: Trims(c, now, mid) && after == mid[key := Entry(resp, now, CacheTtl(resp))]
  }

  function Retagged(resp: Packet, pkt: Packet): Packet
    requires |resp| >= 2 && |pkt| >= 2
  {
    [pkt[0], pkt[1]] + resp[2..]
  }

  function CachedReply(lower: Lowering, c: Cache, q: Question, pkt: Packet, now: Instant): Option<Packet>
    requires |pkt| >= 2
  {
    var key := (lower(q.name), q.qtype);
    if key in c && Since(now, c[key].inserted) < Seconds(c[key].ttl) && |c[key].resp| >= HEADER
    then Some(Retagged(c[key].resp, pkt)) else None
  }

  // ---------------------------------------------------------------- rebinding

  /** The bytes of ASCII text. */
  function Text(s: string): Name
  {
    seq(|s|, i requires 0 <= i < |s| => s[i] as int % 128)
  }

  predicate EndsWith(s: Name, suffix: Name) {
    |suffix| <= |s| && s[|s| - |suffix|..] == suffix
  }

  predicate IsLegitLocalDomain(lower: Lowering, domain: Name) {
    var d := TrimDots(lower(domain));
    || d == Text("localhost") || EndsWith(d, Text(".localhost")) || EndsWith(d, Text(".local"))
    || EndsWith(d, Text(".lan")) || EndsWith(d, Text(".home")) || EndsWith(d, Text(".internal"))
    || EndsWith(d, Text(".intranet")) || EndsWith(d, Text(".arpa")) || EndsWith(d, Text(".localdomain"))
  }

  /** A private answer for a name that is neither local nor on the administrator's allowlist. */
  ghost predicate HitsPrivateSpace(lower: Lowering, customAllowed: set<Name>, name: Name, resp: Packet) {
    && !IsLegitLocalDomain(lower, name)
    && HasPrivateAddress(resp)
    && !Covered(In(customAllowed), lower(TrimDots(name)))
  }

  // ---------------------------------------------------------------- one packet

  /** The rule the administrator set for the client. */
  datatype ClientMode = Default | Trusted | Strict

  /** What the other parts of the program decide about a packet: `listed` is the answer of
      `should_block` for its name, `loopback` says it comes from this machine. */
  datatype Context = Context(
    rateLimited: bool, blocked: bool, quarantined: bool, darknet: bool, incident: bool, autoBlock: bool,
    override: Option<(seq<byte>, seq<byte>)>, paused: bool, mode: ClientMode, loopback: bool, listed: bool,
    silentSinkhole: bool, now: Instant)

  /** Ad blocking applies: strict clients are refused everything, other than this machine. */
  predicate AdEnforced(ctx: Context) {
    !ctx.paused && match ctx.mode
                   case Trusted => false
                   case Strict => !ctx.loopback
                   case Default => ctx.listed
  }

  predicate ContextOk(ctx: Context) {
    ctx.override.Some? ==> |ctx.override.value.0| == 4 && |ctx.override.value.1| == 16
  }

  datatype Verdict = Drop | Send(reply: Packet) | ForwardUpstream

  function Reply(r: Option<Packet>): Verdict {
    match r case Some(p) => Send(p) case None => Drop
  }

  const ZERO4: seq<byte> := [0, 0, 0, 0]
  const LOOPBACK4: seq<byte> := [127, 0, 0, 1]
  const ZERO16: seq<byte> := [0, 0, 0, 0, 0, 0, 0, 0, 0, 0, 0, 0, 0, 0, 0, 0]

  /** A sinkhole record of the asked-for type, or NXDOMAIN. */
  function PolicyReply(pkt: Packet, qtype: u16, ip4: seq<byte>, ip6: seq<byte>): Option<Packet>
    requires |ip4| == 4 && |ip6| == 16
  {
    var sink := if qtype == 1 then Sinkhole(pkt, 1, ip4) else if qtype == 28 then Sinkhole(pkt, 28, ip6) else None;
    if sink.Some? then sink else ErrorReply(pkt, NXDOMAIN)
  }

  datatype State = State(cache: Cache, customAllowed: set<Name>)

  ghost function Serve(lower: Lowering, s: State, pkt: Packet, ctx: Context): Verdict
    requires ContextOk(ctx)
  {
    match ParseSpec(pkt)
    case None => Drop
    case Some(q) =>
      if ctx.rateLimited || ctx.blocked then Drop
      else if ctx.quarantined || ctx.darknet || (ctx.incident && ctx.autoBlock) then Reply(ErrorReply(pkt, NXDOMAIN))
      else if ctx.override.Some? then Reply(PolicyReply(pkt, q.qtype, ctx.override.value.0, ctx.override.value.1))
      else if AdEnforced(ctx) then
        Reply(PolicyReply(pkt, q.qtype, if ctx.silentSinkhole then LOOPBACK4 else ZERO4, ZERO16))
      else match CachedReply(lower, s.cache, q, pkt, ctx.now)
        case Some(r) =>
          if HitsPrivateSpace(lower, s.customAllowed, q.name, r) then Reply(ErrorReply(pkt, NXDOMAIN)) else Send(r)
        case None => ForwardUpstream
  }

  const MAX_DOH_BYTES: nat := 65536

  /** The first upstream body that is small enough and answers the query. */
  function FirstAccepted(bodies: seq<Packet>, pkt: Packet): (r: Option<Packet>)
    ensures r.Some? ==> Matches(r.value, pkt)
  {
    if bodies == [] then None
    else if |bodies[0]| <= MAX_DOH_BYTES && Matches(bodies[0], pkt) then Some(bodies[0])
    else FirstAccepted(bodies[1..], pkt)
  }

  /** The reply to a forwarded packet, given the bodies that came back. */
  ghost function Finish(lower: Lowering, s: State, pkt: Packet, q: Question, bodies: seq<Packet>): Verdict {
    match FirstAccepted(bodies, pkt)
    case None => Reply(ErrorReply(pkt, SERVFAIL))
    case Some(r) =>
      if HitsPrivateSpace(lower, s.customAllowed, q.name, r) then
        match ErrorReply(pkt, NXDOMAIN) case Some(nx) => Send(nx) case None => Send(r)
      else Send(r)
  }

  /** What finishing does to the cache: only an unsuspicious upstream answer is stored. */
  ghost predicate FinishUpdates(lower: Lowering, s: State, pkt: Packet, q: Question, bodies: seq<Packet>,
          later: Instant, s': State) {
    match FirstAccepted(bodies, pkt)
    case None => s' == s
    case Some(r) =>
      if HitsPrivateSpace(lower, s.customAllowed, q.name, r) then s' == s
      else s'.customAllowed == s.customAllowed && Stores(s.cache, (lower(q.name), q.qtype), r, later, s'.cache)
  }

  // ---------------------------------------------------------------- runs

  datatype Event =
    | Served(pkt: Packet, ctx: Context)
    | Finished(pkt: Packet, bodies: seq<Packet>, later: Instant)
    | RulesChanged(customAllowed: set<Name>)

  ghost predicate EventOk(ev: Event) {
    && (ev.Served? ==> ContextOk(ev.ctx))
    && (ev.Finished? ==> ParseSpec(ev.pkt).Some?)
  }

  ghost predicate Step(lower: Lowering, s: State, ev: Event, s': State)
    requires EventOk(ev)
  {
    match ev
    case Served(pkt, ctx) => s' == s
    case Finished(pkt, bodies, later) => FinishUpdates(lower, s, pkt, ParseSpec(pkt).value, bodies, later, s')
    case RulesChanged(allowed) => s' == s.(customAllowed := allowed)
  }

  ghost function Output(lower: Lowering, s: State, ev: Event): Verdict
    requires EventOk(ev)
  {
    match ev
    case Served(pkt, ctx) => Serve(lower, s, pkt, ctx)
    case Finished(pkt, bodies, later) => Finish(lower, s, pkt, ParseSpec(pkt).value, bodies)
    case RulesChanged(allowed) => Drop
  }

  ghost predicate IsRun(lower: Lowering, states: seq<State>, events: seq<Event>) {
    && |states| == |events| + 1 && states[0].cache == map[]
    && forall i :: 0 <= i < |events| ==> EventOk(events[i]) && Step(lower, states[i], events[i], states[i + 1])
  }

  // ---------------------------------------------------------------- the cache invariant

  /** A stored reply is a reply, and its question has its key's type. */
  ghost predicate EntryOk(key: (Name, u16), e: Entry) {
    && |e.resp| >= HEADER && e.resp[2] >= 128 && 1 <= e.ttl <= 60
    && ParseSpec(e.resp).Some? && ParseSpec(e.resp).value.qtype == key.1
  }

  /** And names, up to ASCII case, a name that was asked for and lowers to its key. */
  ghost predicate AskedAs(lower: Lowering, names: iset<Name>, key: (Name, u16), e: Entry) {
    ParseSpec(e.resp).Some? && exists n :: n in names && lower(n) == key.0 && EqFold(ParseSpec(e.resp).value.name, n)
  }

  /** The cache of a server that was only asked for `names`. */
  ghost predicate CacheOk(lower: Lowering, names: iset<Name>, c: Cache) {
    && |c| <= 5501
    && forall k :: k in c ==> EntryOk(k, c[k]) && AskedAs(lower, names, k, c[k])
  }

  lemma TrimsKeepsEntries(c: Cache, now: Instant, after: Cache)
    requires Trims(c, now, after) && |c| <= 5501
    ensures |after| <= 5500 && forall k :: k in after ==> k in c && after[k] == c[k]
  {
    RetainShrinks(c, Fresh(now));
  }

  /** Storing never lets the cache grow past 5501 entries. */
  lemma StoreKeepsCacheOk(lower: Lowering, names: iset<Name>, c: Cache, key: (Name, u16), resp: Packet, now: Instant,
          after: Cache)
    requires CacheOk(lower, names, c) && Stores(c, key, resp, now, after)
    requires var e := Entry(resp, now, CacheTtl(resp)); EntryOk(key, e) && AskedAs(lower, names, key, e)
    ensures CacheOk(lower, names, after)
  {
    hide CacheTtl, EntryOk, AskedAs, Trims;
    var mid :| Trims(c, now, mid) && after == mid[key := Entry(resp, now, CacheTtl(resp))];
    TrimsKeepsEntries(c, now, mid);
    InsertSize(mid, key, Entry(resp, now, CacheTtl(resp)));
  }

  /** The name a packet asks about. */
  function AskedName(ev: Event): Option<Name> {
    if ev.RulesChanged? then None
    else match ParseSpec(ev.pkt) case None => None case Some(q) => Some(q.name)
  }

  ghost predicate NamedIn(names: iset<Name>, ev: Event) {
    AskedName(ev).Some? ==> AskedName(ev).value in names
  }

  lemma StepKeepsCacheOk(lower: Lowering, names: iset<Name>, s: State, ev: Event, s': State)
    requires EventOk(ev) && CacheOk(lower, names, s.cache) && Step(lower, s, ev, s') && NamedIn(names, ev)
    ensures CacheOk(lower, names, s'.cache)
  {
    hide CacheTtl, MinTtl, HitsPrivateSpace, Stores, EqFold, ParseSpec;
    if ev.Finished? {
      var q := ParseSpec(ev.pkt).value;
      var r := FirstAccepted(ev.bodies, ev.pkt);
      if r.Some? && !HitsPrivateSpace(lower, s.customAllowed, q.name, r.value) {
        StoreKeepsCacheOk(lower, names, s.cache, (lower(q.name), q.qtype), r.value, ev.later, s'.cache);
      }
    }
  }

  // ---------------------------------------------------------------- every reply answers its query

  /** Rewriting the transaction ID of a stored reply makes it answer the query exactly when its
      question names what the query names. */
  lemma RetaggedMatches(e: Entry, key: (Name, u16), pkt: Packet)
    requires EntryOk(key, e) && ParseSpec(pkt).Some? && ParseSpec(pkt).value.qtype == key.1
    ensures Matches(Retagged(e.resp, pkt), pkt) <==> EqFold(ParseSpec(e.resp).value.name, ParseSpec(pkt).value.name)
  {
    hide EqFold, ParseSpec;
    ParsedHasHeader(pkt);
    RetaggedParses(e.resp, pkt);
  }

  lemma ParsedHasHeader(pkt: Packet)
    requires ParseSpec(pkt).Some?
    ensures |pkt| >= HEADER
  {
  }

  lemma RetaggedParses(resp: Packet, pkt: Packet)
    requires |resp| >= HEADER && |pkt| >= 2 && ParseSpec(resp).Some?
    ensures ParseSpec(Retagged(resp, pkt)) == ParseSpec(resp)
  {
    hide Join, Utf8;
    var r := Retagged(resp, pkt);
    assert r[HEADER..|r|] == resp[HEADER..|r|];
    ReadLabelsAdvance(resp, HEADER, 0);
    ParseLocal(resp, r, |r|);
  }

  /** The cache is about to answer `pkt` with a reply stored for a differently spelled name. */
  ghost predicate StoredForOtherName(lower: Lowering, s: State, pkt: Packet) {
    && ParseSpec(pkt).Some?
    && var q := ParseSpec(pkt).value; var key := (lower(q.name), q.qtype);
      && key in s.cache && ParseSpec(s.cache[key].resp).Some?
      && !EqFold(ParseSpec(s.cache[key].resp).value.name, q.name)
  }

  /** No earlier rule decides: the cache is consulted. */
  predicate ReachesCache(pkt: Packet, ctx: Context) {
    && ParseSpec(pkt).Some?
    && !ctx.rateLimited && !ctx.blocked && !ctx.quarantined && !ctx.darknet && !(ctx.incident && ctx.autoBlock)
    && ctx.override.None? && !AdEnforced(ctx)
  }

  /** The reply came from the cache and passed the rebinding check. */
  ghost predicate FromCache(lower: Lowering, s: State, pkt: Packet, ctx: Context) {
    && ReachesCache(pkt, ctx)
    && var q := ParseSpec(pkt).value; var r := CachedReply(lower, s.cache, q, pkt, ctx.now);
      r.Some? && !HitsPrivateSpace(lower, s.customAllowed, q.name, r.value)
  }

  lemma PolicyMatches(pkt: Packet, qtype: u16, ip4: seq<byte>, ip6: seq<byte>)
    requires |ip4| == 4 && |ip6| == 16 && ParseSpec(pkt).Some?
    ensures PolicyReply(pkt, qtype, ip4, ip6).Some? && Matches(PolicyReply(pkt, qtype, ip4, ip6).value, pkt)
  {
    hide Matches, Sinkhole, ErrorReply, ParseSpec;
    ErrorMatches(pkt, NXDOMAIN);
    if Sinkhole(pkt, 1, ip4).Some? { SinkholeMatches(pkt, 1, ip4); }
    if Sinkhole(pkt, 28, ip6).Some? { SinkholeMatches(pkt, 28, ip6); }
  }

  /** The record of a policy reply: an address for the name in the question, for ten seconds. */
  function AddressRecord(rtype: u16, rdata: seq<byte>): Record { Record(Owner([], Some(HEADER)), rtype, 1, 10, rdata) }

  /** One question, and after it this record and nothing else. */
  ghost predicate OnlyAnswer(r: Packet, record: Record)
    requires RecordOk(record)
  {
    && |r| >= HEADER + |EncodeRecord(record)| && BE16(r[4], r[5]) == 1 && BE16(r[6], r[7]) == 1
    && r[|r| - |EncodeRecord(record)|..] == EncodeRecord(record)
  }

  lemma AddressRecordBytes(rtype: byte, rdata: seq<byte>)
    requires |rdata| < 256
    ensures RecordOk(AddressRecord(rtype, rdata))
    ensures EncodeRecord(AddressRecord(rtype, rdata)) == AnswerRecord(rtype, rdata)
  {
    var r := AddressRecord(rtype, rdata);
    EncodeNoLabels();
    SmallTwo(rtype);
    SmallTwo(1);
    SmallTwo(|rdata|);
    FourTen();
    hide Two, Four, DnsQuery.EncodeLabels, BE16, BE32;
    assert EncodeOwner(r.owner) == [0xC0, 0x0C];
    hide EncodeOwner;
    assert Fixed(r) == [0, rtype] + [0, 1] + [0, 0, 0, 10] + [0, |rdata|];
    hide Fixed;
    AppendTen(rtype, |rdata|, rdata);
  }

  lemma SmallTwo(n: byte)
    ensures Two(n) == [0, n]
  {
    hide BE16;
    assert n / 256 == 0 && n % 256 == n;
  }

  lemma FourTen()
    ensures Four(10) == [0, 0, 0, 10]
  {
    hide BE16, BE32, Two;
    SmallTwo(0);
    SmallTwo(10);
    assert 10 / 0x1_0000 == 0 && 10 % 0x1_0000 == 10;
  }

  lemma AppendTen(rtype: byte, n: byte, rdata: seq<byte>)
    requires n == |rdata|
    ensures AnswerRecord(rtype, rdata) == [0xC0, 0x0C] + ([0, rtype] + [0, 1] + [0, 0, 0, 10] + [0, n] + rdata)
  {
    var head: Packet := [0xC0, 0x0C, 0, rtype, 0, 1, 0, 0, 0, 10, 0, n];
    assert head == [0xC0, 0x0C] + ([0, rtype] + [0, 1] + [0, 0, 0, 10] + [0, n]);
  }

  lemma EncodeNoLabels()
    ensures DnsQuery.EncodeLabels([]) == []
  {
  }

  lemma SinkholeAnswers(pkt: Packet, rtype: byte, rdata: seq<byte>)
    requires |rdata| < 256 && Sinkhole(pkt, rtype, rdata).Some?
    ensures RecordOk(AddressRecord(rtype, rdata))
    ensures OnlyAnswer(Sinkhole(pkt, rtype, rdata).value, AddressRecord(rtype, rdata))
  {
    hide Sinkhole, RecordOk, EncodeRecord;
    AddressRecordBytes(rtype, rdata);
    SinkholeTail(pkt, rtype, rdata);
  }

  /** What a policy reply says: an A query gets exactly the given IPv4 address and an AAAA query
      exactly the given IPv6 address, in one record for ten seconds, as the program's own decoders
      agree; anything else, or a question cut short of its class, gets NXDOMAIN without answers. */
  lemma PolicyReplyDecodes(pkt: Packet, qtype: u16, ip4: seq<byte>, ip6: seq<byte>)
    requires |ip4| == 4 && |ip6| == 16 && ParseSpec(pkt).Some?
    ensures RecordOk(AddressRecord(1, ip4)) && RecordOk(AddressRecord(28, ip6))
    ensures var r := PolicyReply(pkt, qtype, ip4, ip6).value;
      && (qtype == 1 && QuestionEnd(pkt).Some? ==>
            FirstA(r) == Some(ip4) && MinTtl(r) == Some(10) && OnlyAnswer(r, AddressRecord(1, ip4)))
      && (qtype == 28 && QuestionEnd(pkt).Some? ==>
            && FirstA(r) == None && MinTtl(r) == Some(10) && (HasPrivateAddress(r) <==> IsPrivateIpv6(ip6))
            && OnlyAnswer(r, AddressRecord(28, ip6)))
      && ((qtype != 1 && qtype != 28) || QuestionEnd(pkt).None? ==>
            MinTtl(r) == None && !HasPrivateAddress(r) && |r| >= HEADER && r[3] % 16 == 3)
  {
    hide FirstA, MinTtl, HasPrivateAddress, IsPrivateIpv6, QuestionEnd, OnlyAnswer, RecordOk;
    ParsedEndsQuestion(pkt);
    AddressRecordBytes(1, ip4);
    AddressRecordBytes(28, ip6);
    if qtype == 1 && QuestionEnd(pkt).Some? {
      SinkholeAnswers(pkt, 1, ip4);
      SinkholeADecodes(pkt, ip4);
    } else if qtype == 28 && QuestionEnd(pkt).Some? {
      SinkholeAnswers(pkt, 28, ip6);
      SinkholeAaaaDecodes(pkt, ip6);
    } else {
      ErrorHasNoAnswers(pkt, NXDOMAIN);
    }
  }

  lemma ParsedEndsQuestion(pkt: Packet)
    requires ParseSpec(pkt).Some?
    ensures |pkt| >= HEADER && (QuestionEnd(pkt).Some? ==> QuestionEnd(pkt).value >= HEADER)
  {
    ParserAndBuilderAgree(pkt, HEADER, 0);
    ReadLabelsAdvance(pkt, HEADER, 0);
  }

  lemma ErrorHasNoAnswers(pkt: Packet, rcode: byte)
    requires rcode < 16 && |pkt| >= HEADER
    ensures var r := ErrorReply(pkt, rcode).value;
      MinTtl(r) == None && !HasPrivateAddress(r) && |r| >= HEADER && r[3] % 16 == rcode
  {
    hide ErrorReply;
    ErrorBytes(pkt, rcode);
    NoAnswers(ErrorReply(pkt, rcode).value);
  }

  /** On every path but one the reply answers its query; the cached reply does so unless it was
      stored for another name. */
  lemma ServeMatches(lower: Lowering, names: iset<Name>, s: State, pkt: Packet, ctx: Context)
    requires ContextOk(ctx) && CacheOk(lower, names, s.cache) && Serve(lower, s, pkt, ctx).Send?
    ensures Matches(Serve(lower, s, pkt, ctx).reply, pkt) <==>
      !(FromCache(lower, s, pkt, ctx) && StoredForOtherName(lower, s, pkt))
  {
    hide Matches, Sinkhole, ErrorReply, PolicyReply, ParseSpec, HitsPrivateSpace, EqFold, Retagged;
    var q := ParseSpec(pkt).value;
    ErrorMatches(pkt, NXDOMAIN);
    if ctx.override.Some? { PolicyMatches(pkt, q.qtype, ctx.override.value.0, ctx.override.value.1); }
    PolicyMatches(pkt, q.qtype, if ctx.silentSinkhole then LOOPBACK4 else ZERO4, ZERO16);
    var key := (lower(q.name), q.qtype);
    if key in s.cache { RetaggedMatches(s.cache[key], key, pkt); }
  }

  lemma FinishMatches(lower: Lowering, s: State, pkt: Packet, bodies: seq<Packet>)
    requires ParseSpec(pkt).Some?
    ensures var v := Finish(lower, s, pkt, ParseSpec(pkt).value, bodies); v.Send? && Matches(v.reply, pkt)
  {
    hide Matches, ErrorReply, HitsPrivateSpace;
    ErrorMatches(pkt, NXDOMAIN);
    ErrorMatches(pkt, SERVFAIL);
  }

  /** No two of the names that lower to one key differ in more than ASCII case. */
  ghost predicate Separates(lower: Lowering, names: iset<Name>) {
    forall a, b :: a in names && b in names && lower(a) == lower(b) ==> EqFold(a, b)
  }

  lemma SeparatedCacheFitsQuery(lower: Lowering, names: iset<Name>, s: State, pkt: Packet)
    requires Separates(lower, names) && CacheOk(lower, names, s.cache)
    requires ParseSpec(pkt).Some? ==> ParseSpec(pkt).value.name in names
    ensures !StoredForOtherName(lower, s, pkt)
  {
    hide EqFold, EntryOk;
    if ParseSpec(pkt).Some? {
      var q := ParseSpec(pkt).value;
      var key := (lower(q.name), q.qtype);
      if key in s.cache {
        var stored := ParseSpec(s.cache[key].resp).value.name;
        assert AskedAs(lower, names, key, s.cache[key]);
        var n :| n in names && lower(n) == key.0 && EqFold(stored, n);
        assert EqFold(n, q.name);
        EqFoldTransitive(stored, n, q.name);
      }
    }
  }

  lemma EqFoldTransitive(a: Name, b: Name, c: Name)
    requires EqFold(a, b) && EqFold(b, c)
    ensures EqFold(a, c)
  {
  }

  ghost predicate IsRunOver(lower: Lowering, names: iset<Name>, states: seq<State>, events: seq<Event>) {
    IsRun(lower, states, events) && forall i :: 0 <= i < |events| ==> NamedIn(names, events[i])
  }

  lemma {:induction false} RunKeepsCacheOk(lower: Lowering, names: iset<Name>, states: seq<State>, events: seq<Event>,
          n: nat)
    requires IsRunOver(lower, names, states, events) && n <= |events|
    ensures CacheOk(lower, names, states[n].cache)
  {
    hide Step, CacheOk, NamedIn;
    if n > 0 {
      RunKeepsCacheOk(lower, names, states, events, n - 1);
      StepKeepsCacheOk(lower, names, states[n - 1], events[n - 1], states[n]);
    } else {
      EmptyCacheOk(lower, names);
    }
  }

  lemma EmptyCacheOk(lower: Lowering, names: iset<Name>)
    ensures CacheOk(lower, names, map[])
  {
  }

  /** In every run the cache stays within 5501 entries. */
  lemma CacheStaysBounded(lower: Lowering, states: seq<State>, events: seq<Event>, n: nat)
    requires IsRun(lower, states, events) && n <= |events|
    ensures |states[n].cache| <= 5501
  {
    var asked := iset i | 0 <= i < |events| && AskedName(events[i]).Some? :: AskedName(events[i]).value;
    RunKeepsCacheOk(lower, asked, states, events, n);
  }

  ghost predicate ReplyMatches(lower: Lowering, s: State, ev: Event)
    requires EventOk(ev)
  {
    Output(lower, s, ev).Send? ==> Matches(Output(lower, s, ev).reply, ev.pkt)
  }

  /** In every run over the names, however served and finished packets interleave and whatever comes
      back from upstream, each reply answers its own query. */
  ghost predicate AllRepliesMatch(lower: Lowering, names: iset<Name>) {
    forall states, events, n: nat :: IsRunOver(lower, names, states, events) && n < |events| ==>
      ReplyMatches(lower, states[n], events[n])
  }

  lemma SeparatedReplyMatches(lower: Lowering, names: iset<Name>, states: seq<State>, events: seq<Event>, n: nat)
    requires Separates(lower, names) && IsRunOver(lower, names, states, events) && n < |events|
    ensures ReplyMatches(lower, states[n], events[n])
  {
    hide Matches, Serve, Finish, StoredForOtherName, FromCache, Step, Separates;
    RunKeepsCacheOk(lower, names, states, events, n);
    assert NamedIn(names, events[n]);
    match events[n]
    case Served(pkt, ctx) =>
      SeparatedCacheFitsQuery(lower, names, states[n], pkt);
      if Serve(lower, states[n], pkt, ctx).Send? { ServeMatches(lower, names, states[n], pkt, ctx); }
    case Finished(pkt, bodies, later) => FinishMatches(lower, states[n], pkt, bodies);
    case RulesChanged(_) =>
  }

  /** Over ASCII names every reply of every run answers its own query. */
  lemma EveryReplyMatches(lower: Lowering)
    requires LowersAscii(lower)
    ensures AllRepliesMatch(lower, iset n | Ascii(n))
  {
    hide Step, EventOk, NamedIn, Output;
    var names: iset<Name> := iset n | Ascii(n);
    forall a, b | a in names && b in names && lower(a) == lower(b) ensures EqFold(a, b) {
      EqFoldIsLowerEquality(a, b);
    }
    forall states, events, n: nat | IsRunOver(lower, names, states, events) && n < |events|
      ensures ReplyMatches(lower, states[n], events[n])
    {
      SeparatedReplyMatches(lower, names, states, events, n);
    }
  }

  // ---------------------------------------------------------------- rebinding and TTL, by the records

  /** A name that is neither local nor on the administrator's allowlist. */
  ghost predicate Guarded(lower: Lowering, customAllowed: set<Name>, name: Name) {
    !IsLegitLocalDomain(lower, name) && !Covered(In(customAllowed), lower(TrimDots(name)))
  }

  lemma HitIsGuardedPrivate(lower: Lowering, customAllowed: set<Name>, name: Name, m: Message)
    requires MessageOk(m)
    ensures HitsPrivateSpace(lower, customAllowed, name, Encode(m)) <==>
      Guarded(lower, customAllowed, name) && AnyPrivate(m.answers)
  {
    hide IsLegitLocalDomain, HasPrivateAddress, Encode, Covered;
    PrivateIsExact(m);
  }

  /** A denial is not the message it replaces. */
  lemma DenialDiffers(pkt: Packet, rcode: byte, m: Message)
    requires rcode < 16 && ParseSpec(pkt).Some? && MessageOk(m)
    ensures ErrorReply(pkt, rcode).Some? && (ErrorReply(pkt, rcode).value == Encode(m) ==> !AnyPrivate(m.answers))
  {
    hide ErrorReply, HasPrivateAddress, Encode, ParseSpec, AnyPrivate;
    ErrorMatches(pkt, rcode);
    ParsedHasHeader(pkt);
    ErrorHasNoAnswers(pkt, rcode);
    PrivateIsExact(m);
  }

  /** Rebinding, forwarded: for a guarded name no message with a private address is sent; and an
      accepted upstream message is passed on unchanged if and only if its name is not guarded or
      none of its answers is private. */
  lemma RebindingIsWithheld(lower: Lowering, s: State, pkt: Packet, bodies: seq<Packet>, m: Message)
    requires ParseSpec(pkt).Some? && MessageOk(m)
    ensures var q := ParseSpec(pkt).value; var v := Finish(lower, s, pkt, q, bodies);
      var bad := Guarded(lower, s.customAllowed, q.name) && AnyPrivate(m.answers);
      && v.Send? && (v.reply == Encode(m) ==> !bad)
      && (FirstAccepted(bodies, pkt) == Some(Encode(m)) ==> (v.reply == Encode(m) <==> !bad))
  {
    hide ErrorReply, HitsPrivateSpace, Guarded, AnyPrivate, ParseSpec, FirstAccepted, Encode;
    DenialDiffers(pkt, NXDOMAIN, m);
    DenialDiffers(pkt, SERVFAIL, m);
    HitIsGuardedPrivate(lower, s.customAllowed, ParseSpec(pkt).value.name, m);
  }

  /** Rebinding, cached: the same for a reply from the cache, by the allowlist of that moment. */
  lemma CachedRebindingIsWithheld(lower: Lowering, s: State, pkt: Packet, ctx: Context, m: Message)
    requires ContextOk(ctx) && MessageOk(m) && ReachesCache(pkt, ctx)
    requires |pkt| >= 2 && CachedReply(lower, s.cache, ParseSpec(pkt).value, pkt, ctx.now) == Some(Encode(m))
    ensures Serve(lower, s, pkt, ctx).Send?
    ensures Serve(lower, s, pkt, ctx).reply == Encode(m) <==>
      !(Guarded(lower, s.customAllowed, ParseSpec(pkt).value.name) && AnyPrivate(m.answers))
  {
    hide ErrorReply, HitsPrivateSpace, Guarded, AnyPrivate, ParseSpec, CachedReply, Encode;
    DenialDiffers(pkt, NXDOMAIN, m);
    HitIsGuardedPrivate(lower, s.customAllowed, ParseSpec(pkt).value.name, m);
  }

  /** A message with one question is cached for at most a minute, and no longer than any of its
      answers allows (but a second at least), as far as the TTL decoder reads. */
  lemma CachedWithinTtl(m: Message, i: nat)
    requires MessageOk(m) && |m.questions| == 1
    requires i < |m.answers| && i + |m.questions[0].owner.labels| < 255
    ensures CacheTtl(Encode(m)) <= 60 && CacheTtl(Encode(m)) <= Max(m.answers[i].ttl, 1)
  {
    hide Encode, MinTtl;
    MinTtlIsLeast(m);
  }

  /** It takes one question: this reply without one is accepted for a query for "a", and cached for
      ten seconds although its only record allows five. */
  lemma UnaskedReplyIsOvercached()
    ensures MessageOk(UNASKED) && UNASKED.answers[0].ttl == 5
    ensures FirstAccepted([Encode(UNASKED)], AQuestion(1, 1, A)) == Some(Encode(UNASKED))
    ensures CacheTtl(Encode(UNASKED)) == 10
  {
    hide Encode, Matches, ParseSpec, MinTtl, MessageOk, AQuestion;
    NoQuestionMisleads();
    UnaskedBytes();
    OneByteLabels();
    AQuestionParses(1, 1, A);
    SameQuestionMatches(Encode(UNASKED), AQuestion(1, 1, A));
    OneBody(Encode(UNASKED), AQuestion(1, 1, A));
  }

  lemma SameQuestionMatches(r: Packet, q: Packet)
    requires |r| >= HEADER && |q| >= HEADER && r[0] == q[0] && r[1] == q[1] && r[2] >= 128
    requires ParseSpec(q).Some? && ParseSpec(r) == ParseSpec(q)
    ensures Matches(r, q)
  {
    hide ParseSpec;
  }

  /** And it takes answers within the decoder's reach: this reply matches a query for "a" and is
      cached for a minute although its last record allows a second. */
  lemma CrowdedReplyIsOvercached()
    ensures MessageOk(Crowded())
    ensures Matches(Encode(Crowded()), AQuestion(1, 1, A)) && CacheTtl(Encode(Crowded())) == 60
  {
    hide Encode, Matches, ParseSpec, MinTtl, MessageOk, AQuestion, CrowdedRecord;
    LastAnswerIsNotRead();
    OneByteLabels();
    AQuestionParses(1, 1, A);
    HeadBytes(Crowded());
    var b := Encode(Crowded());
    assert b[0] == b[..4][0] && b[1] == b[..4][1] && b[2] == b[..4][2];
    ParsedHasHeader(b);
    SameQuestionMatches(b, AQuestion(1, 1, A));
  }

  // ---------------------------------------------------------------- where a cached reply comes from

  function Clock(ev: Event): Option<Instant> {
    match ev
    case Served(_, ctx) => Some(ctx.now)
    case Finished(_, _, later) => Some(later)
    case RulesChanged(_) => None
  }

  /** Time does not run backwards. */
  ghost predicate Clocked(events: seq<Event>) {
    forall i, j :: 0 <= i <= j < |events| && Clock(events[i]).Some? && Clock(events[j]).Some? ==>
      Clock(events[i]).value <= Clock(events[j]).value
  }

  /** The entry is the body that event accepted, stored then under that query's key. */
  ghost predicate StoredBy(lower: Lowering, ev: Event, key: (Name, u16), e: Entry) {
    && ev.Finished? && ParseSpec(ev.pkt).Some? && FirstAccepted(ev.bodies, ev.pkt) == Some(e.resp)
    && key == (lower(ParseSpec(ev.pkt).value.name), ParseSpec(ev.pkt).value.qtype)
    && e.inserted == ev.later && e.ttl == CacheTtl(e.resp)
  }

  lemma StoresOnlyThat(c: Cache, key: (Name, u16), resp: Packet, now: Instant, after: Cache, k: (Name, u16))
    requires Stores(c, key, resp, now, after) && k in after
    ensures if k == key then after[k] == Entry(resp, now, CacheTtl(resp)) else k in c && after[k] == c[k]
  {
    hide CacheTtl, Fresh, Inserted;
  }

  lemma StepStores(lower: Lowering, s: State, ev: Event, s': State, k: (Name, u16))
    requires EventOk(ev) && Step(lower, s, ev, s') && k in s'.cache
    ensures (k in s.cache && s'.cache[k] == s.cache[k]) || StoredBy(lower, ev, k, s'.cache[k])
  {
    hide CacheTtl, HitsPrivateSpace, Stores, ParseSpec, FirstAccepted;
    if ev.Finished? {
      var q, r := ParseSpec(ev.pkt).value, FirstAccepted(ev.bodies, ev.pkt);
      if r.Some? && !HitsPrivateSpace(lower, s.customAllowed, q.name, r.value) {
        StoresOnlyThat(s.cache, (lower(q.name), q.qtype), r.value, ev.later, s'.cache, k);
      }
    }
  }

  /** Every entry was accepted from upstream by an earlier event of the run. */
  lemma {:induction false} EntriesWereAccepted(lower: Lowering, states: seq<State>, events: seq<Event>, n: nat,
          k: (Name, u16))
    requires IsRun(lower, states, events) && n <= |events| && k in states[n].cache
    ensures exists i :: 0 <= i < n && StoredBy(lower, events[i], k, states[n].cache[k])
  {
    hide Step, StoredBy;
    if n > 0 {
      StepStores(lower, states[n - 1], events[n - 1], states[n], k);
      if !StoredBy(lower, events[n - 1], k, states[n].cache[k]) {
        EntriesWereAccepted(lower, states, events, n - 1, k);
      }
    }
  }

  /** `reply` is, but for the transaction ID, the body that event accepted for the same lowered name
      and type, at most its clamped TTL ago. */
  ghost predicate RecentlyAccepted(lower: Lowering, ev: Event, pkt: Packet, now: Instant, reply: Packet)
    requires ParseSpec(pkt).Some?
  {
    && ev.Finished? && ParseSpec(ev.pkt).Some? && FirstAccepted(ev.bodies, ev.pkt).Some?
    && var (asked, q, body) := (ParseSpec(ev.pkt).value, ParseSpec(pkt).value, FirstAccepted(ev.bodies, ev.pkt).value);
      && lower(asked.name) == lower(q.name) && asked.qtype == q.qtype
      && |body| >= 2 && |pkt| >= 2 && reply == Retagged(body, pkt)
      && ev.later <= now < ev.later + Seconds(CacheTtl(body))
  }

  /** In every run on a clock that does not run backwards, a reply served from the cache is a body
      accepted from upstream earlier in the run that has not outlived its TTL. */
  lemma CachedReplyIsRecent(lower: Lowering, states: seq<State>, events: seq<Event>, n: nat)
    requires IsRun(lower, states, events) && Clocked(events) && n < |events|
    requires events[n].Served? && FromCache(lower, states[n], events[n].pkt, events[n].ctx)
    ensures var (v, pkt, now) := (Output(lower, states[n], events[n]), events[n].pkt, events[n].ctx.now);
      v.Send? && exists i :: 0 <= i < n && RecentlyAccepted(lower, events[i], pkt, now, v.reply)
  {
    hide ParseSpec, HitsPrivateSpace, FirstAccepted, CacheTtl, Step, Retagged;
    var pkt, ctx := events[n].pkt, events[n].ctx;
    var q := ParseSpec(pkt).value;
    var key := (lower(q.name), q.qtype);
    ParsedHasHeader(pkt);
    EntriesWereAccepted(lower, states, events, n, key);
    var i :| 0 <= i < n && StoredBy(lower, events[i], key, states[n].cache[key]);
    assert Clock(events[i]).value <= Clock(events[n]).value;
    assert RecentlyAccepted(lower, events[i], pkt, ctx.now, Output(lower, states[n], events[n]).reply);
  }

  // ---------------------------------------------------------------- exactly when replies match

  /** A reply with no answer records carries no address and is cached for ten seconds. */
  lemma NoAnswers(r: Packet)
    requires |r| >= HEADER && r[6] == 0 && r[7] == 0
    ensures !HasPrivateAddress(r) && MinTtl(r) == None && CacheTtl(r) == 10
  {
    hide HasPrivateAddress, MinTtl;
    NoTtl(r);
    NoAddress(r);
  }

  lemma NoTtl(r: Packet)
    requires |r| >= HEADER && r[6] == 0 && r[7] == 0
    ensures MinTtl(r) == None
  {
    hide TtlScan, SkipNameCounted;
    assert BE16(r[6], r[7]) == 0;
  }

  lemma NoAddress(r: Packet)
    requires |r| >= HEADER && r[6] == 0 && r[7] == 0
    ensures !HasPrivateAddress(r)
  {
    hide PrivateScan, SkipQuestions;
    assert BE16(r[6], r[7]) == 0;
  }

  lemma RetaggedHasNoAnswers(r: Packet, pkt: Packet)
    requires |r| >= HEADER && |pkt| >= 2 && r[6] == 0 && r[7] == 0
    ensures !HasPrivateAddress(Retagged(r, pkt))
  {
    NoAnswers(Retagged(r, pkt));
  }

  lemma OneBody(body: Packet, pkt: Packet)
    requires Matches(body, pkt) && |body| <= MAX_DOH_BYTES
    ensures FirstAccepted([body], pkt) == Some(body)
  {
    hide Matches;
  }

  lemma NoAddressNoHit(lower: Lowering, name: Name, r: Packet)
    requires !HasPrivateAddress(r)
    ensures !HitsPrivateSpace(lower, {}, name, r)
  {
    hide IsLegitLocalDomain, HasPrivateAddress;
  }

  lemma FirstStore(key: (Name, u16), resp: Packet)
    requires CacheTtl(resp) == 10
    ensures Stores(map[], key, resp, 0, map[key := Entry(resp, 0, 10)])
  {
    hide CacheTtl;
    var none: Cache := map[];
    assert Trims(none, 0, none);
  }

  /** A packet nothing but the cache or the upstream answers. */
  const QUIET: Context :=
    Context(false, false, false, false, false, false, None, false, Default, false, false, false, 0)

  /** The NXDOMAIN reply to a query, as it could come from upstream. */
  function Denial(asked: Packet): Packet
    requires |asked| >= HEADER
  {
    ErrorReply(asked, NXDOMAIN).value
  }

  function KeyOf(lower: Lowering, pkt: Packet): (Name, u16)
    requires ParseSpec(pkt).Some?
  {
    (lower(ParseSpec(pkt).value.name), ParseSpec(pkt).value.qtype)
  }

  lemma DenialIsCached(lower: Lowering, asked: Packet)
    requires ParseSpec(asked).Some? && |asked| <= MAX_DOH_BYTES
    ensures |asked| >= HEADER
    ensures var ev := Finished(asked, [Denial(asked)], 0);
      var s := State(map[KeyOf(lower, asked) := Entry(Denial(asked), 0, 10)], {});
      EventOk(ev) && Step(lower, State(map[], {}), ev, s)
  {
    hide ParseSpec, ErrorReply, Matches, HasPrivateAddress, Stores, CacheTtl, FirstAccepted, HitsPrivateSpace;
    ParsedHasHeader(asked);
    var q := ParseSpec(asked).value;
    var r := Denial(asked);
    ErrorMatches(asked, NXDOMAIN);
    ErrorBytes(asked, NXDOMAIN);
    OneBody(r, asked);
    NoAnswers(r);
    NoAddressNoHit(lower, q.name, r);
    FirstStore((lower(q.name), q.qtype), r);
  }

  lemma DenialIsServed(lower: Lowering, asked: Packet, pkt: Packet)
    requires ParseSpec(asked).Some? && ParseSpec(pkt).Some?
    requires ParseSpec(asked).value.qtype == ParseSpec(pkt).value.qtype
    requires lower(ParseSpec(asked).value.name) == lower(ParseSpec(pkt).value.name)
    requires !EqFold(ParseSpec(asked).value.name, ParseSpec(pkt).value.name)
    ensures |asked| >= HEADER
    ensures var s := State(map[KeyOf(lower, asked) := Entry(Denial(asked), 0, 10)], {});
      !ReplyMatches(lower, s, Served(pkt, QUIET))
  {
    hide ParseSpec, ErrorReply, Matches, HasPrivateAddress, HitsPrivateSpace, EqFold, Retagged;
    ParsedHasHeader(asked);
    ParsedHasHeader(pkt);
    var q, r := ParseSpec(asked).value, Denial(asked);
    var key, e := (lower(q.name), q.qtype), Entry(r, 0, 10);
    ErrorBytes(asked, NXDOMAIN);
    ErrorParses(asked, NXDOMAIN);
    assert r[2] >= 128 by { DenialIsReply(asked); }
    RetaggedMatches(e, key, pkt);
    RetaggedHasNoAnswers(r, pkt);
    NoAddressNoHit(lower, ParseSpec(pkt).value.name, Retagged(r, pkt));
    assert CachedReply(lower, map[key := e], ParseSpec(pkt).value, pkt, 0) == Some(Retagged(r, pkt));
  }

  lemma DenialIsReply(asked: Packet)
    requires |asked| >= HEADER
    ensures Denial(asked)[2] >= 128
  {
  }

  /** Two queries of one type whose names lower alike but are not the same name: the denial of the
      one, once cached, is served for the other. */
  lemma CollisionFails(lower: Lowering, names: iset<Name>, asked: Packet, pkt: Packet)
    requires ParseSpec(asked).Some? && ParseSpec(pkt).Some?
    requires ParseSpec(asked).value.qtype == ParseSpec(pkt).value.qtype
    requires lower(ParseSpec(asked).value.name) == lower(ParseSpec(pkt).value.name)
    requires !EqFold(ParseSpec(asked).value.name, ParseSpec(pkt).value.name)
    requires |asked| <= MAX_DOH_BYTES && ParseSpec(asked).value.name in names && ParseSpec(pkt).value.name in names
    ensures !AllRepliesMatch(lower, names)
  {
    hide ParseSpec, Step, ReplyMatches, EqFold, ErrorReply;
    DenialIsCached(lower, asked);
    DenialIsServed(lower, asked, pkt);
    var q := ParseSpec(asked).value;
    var after := State(map[(lower(q.name), q.qtype) := Entry(Denial(asked), 0, 10)], {});
    var states := [State(map[], {}), after, after];
    var events := [Finished(asked, [Denial(asked)], 0), Served(pkt, QUIET)];
    ServingChangesNothing(lower, after, pkt);
    assert IsRunOver(lower, names, states, events);
    assert !ReplyMatches(lower, states[1], events[1]);
  }

  lemma ServingChangesNothing(lower: Lowering, s: State, pkt: Packet)
    ensures EventOk(Served(pkt, QUIET)) && Step(lower, s, Served(pkt, QUIET), s)
  {
  }

  ghost predicate Asked(n: Name) { exists pkt :: ParseSpec(pkt).Some? && ParseSpec(pkt).value.name == n }

  lemma {:induction false} ReadLabelsEnd(pkt: Packet, pos: nat, steps: nat)
    requires steps <= MAX_STEPS && ReadLabels(pkt, pos, steps).Walked?
    ensures ReadLabels(pkt, pos, steps).pos <= pos + 192 * (128 - steps)
    decreases MAX_STEPS - steps
  {
    hide Utf8;
    if pos < |pkt| && pkt[pos] != 0 { ReadLabelsEnd(pkt, pos + 1 + pkt[pos], steps + 1); }
  }

  /** A parsable packet cut off after its name and completed with type A. */
  lemma CutToA(any: Packet) returns (pkt: Packet)
    requires ParseSpec(any).Some?
    ensures ParseSpec(pkt) == Some(Question(ParseSpec(any).value.name, 1)) && |pkt| <= MAX_DOH_BYTES
  {
    hide Utf8, Join;
    var w := ReadLabels(any, HEADER, 0);
    ReadLabelsAdvance(any, HEADER, 0);
    ReadLabelsEnd(any, HEADER, 0);
    pkt := any[..w.pos] + [0, 1];
    assert any[HEADER..w.pos] == pkt[HEADER..w.pos];
    ReadLabelsLocal(any, pkt, HEADER, 0, w.pos);
  }

  /** Whatever can be asked for can be asked for in an A query small enough to come back. */
  lemma AskedAsA(n: Name) returns (pkt: Packet)
    requires Asked(n)
    ensures ParseSpec(pkt) == Some(Question(n, 1)) && |pkt| <= MAX_DOH_BYTES
  {
    hide ParseSpec;
    var any :| ParseSpec(any).Some? && ParseSpec(any).value.name == n;
    pkt := CutToA(any);
  }

  /** The exact condition, on the names alone: every reply of every run over `names` answers its
      query if and only if no two of them that differ in more than ASCII case lower alike. */
  lemma RepliesMatchIffSeparated(lower: Lowering, names: iset<Name>)
    requires forall n :: n in names ==> Asked(n)
    ensures AllRepliesMatch(lower, names) <==> Separates(lower, names)
  {
    hide Step, EventOk, NamedIn, Output, Asked, EqFold, ParseSpec;
    if Separates(lower, names) {
      forall states, events, n: nat | IsRunOver(lower, names, states, events) && n < |events|
        ensures ReplyMatches(lower, states[n], events[n])
      {
        SeparatedReplyMatches(lower, names, states, events, n);
      }
    } else {
      var a, b :| a in names && b in names && lower(a) == lower(b) && !EqFold(a, b);
      var asked := AskedAsA(a);
      var pkt := AskedAsA(b);
      CollisionFails(lower, names, asked, pkt);
    }
  }

  // ---------------------------------------------------------------- names that lower into ASCII

  const KELVIN: Name := [0xE2, 0x84, 0xAA]
  const K: Name := [107]

  function AQuestion(id: byte, flags: byte, name: Name): Packet
    requires |name| < 64
  {
    [0, id, flags, 0, 0, 1, 0, 0, 0, 0, 0, 0] + [|name|] + name + [0, 0, 1, 0, 1]
  }

  lemma AQuestionParses(id: byte, flags: byte, name: Name)
    requires 0 < |name| < 64 && Utf8(name)
    ensures ParseSpec(AQuestion(id, flags, name)) == Some(Question(name, 1))
    ensures var pkt := AQuestion(id, flags, name);
      |pkt| == 18 + |name| && pkt[0] == 0 && pkt[1] == id && pkt[2] == flags && pkt[6] == 0 && pkt[7] == 0
  {
    hide Utf8;
    var pkt := AQuestion(id, flags, name);
    var n := |name|;
    assert pkt[12] == n && pkt[13..13 + n] == name && pkt[13 + n] == 0;
    assert pkt[14 + n] == 0 && pkt[15 + n] == 1;
    hide AQuestion;
    assert ReadLabels(pkt, 13 + n, 1) == Walked([], 14 + n);
    assert [name] + [] == [name];
    assert ReadLabels(pkt, HEADER, 0) == Walked([name], 14 + n);
  }

  lemma KelvinIsNotK()
    ensures Utf8(KELVIN) && Utf8(K) && Ascii(K) && Lower(K) == K && !EqFold(KELVIN, K)
  {
    assert Utf8(KELVIN[3..]) && Utf8(K[1..]);
  }

  /** Outside ASCII the law fails: Unicode lowers the Kelvin sign to "k", so a query for "k" can be
      sent the reply about the Kelvin sign. */
  lemma KelvinSignCollides(lower: Lowering)
    requires LowersAscii(lower) && lower(KELVIN) == K
    ensures !AllRepliesMatch(lower, iset{KELVIN, K})
  {
    hide AllRepliesMatch, EqFold, ParseSpec, AQuestion, Utf8;
    KelvinIsNotK();
    AQuestionParses(1, 1, KELVIN);
    AQuestionParses(1, 1, K);
    CollisionFails(lower, iset{KELVIN, K}, AQuestion(1, 1, KELVIN), AQuestion(1, 1, K));
  }
}
