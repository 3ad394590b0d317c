/** The responder's mutable half: the cache and allowlist as fields, with the methods that read
    and update them proved against `Responder`. */
module DnsServer {
  import opened Bytes
  import opened Time
  import opened Eviction
  import opened DnsWire
  import opened DnsAnswers
  import opened DomainRules
  import opened Responder

  class DnsServer {
    const lower: Lowering
    var dnsCache: Cache
    var customAllowed: set<Name>

    constructor (lower: Lowering)
      ensures this.lower == lower && Current() == State(map[], {})
    {
      this.lower := lower;
      dnsCache, customAllowed := map[], {};
    }

    function Current(): State
      reads this
    {
      State(dnsCache, customAllowed)
    }

    method CachedResponseFor(q: Question, pkt: Packet, now: Instant) returns (r: Option<Packet>)
      requires |pkt| >= 2
      ensures r == CachedReply(lower, dnsCache, q, pkt, now)
    {
      var key := (lower(q.name), q.qtype);
      if key !in dnsCache { return None; }
      var e := dnsCache[key];
      if Since(now, e.inserted) < Seconds(e.ttl) && |e.resp| >= 12 {
        var resp := e.resp[0 := pkt[0]];
        resp := resp[1 := pkt[1]];
        assert resp == Retagged(e.resp, pkt);
        r := Some(resp);
      } else {
        r := None;
      }
    }

    method StoreCacheResponse(q: Question, resp: Packet, now: Instant)
      modifies this`dnsCache
      ensures Stores(old(dnsCache), (lower(q.name), q.qtype), resp, now, dnsCache)
    {
      hide CacheTtl;
      var kept := dnsCache;
      if |kept| > 5000 {
        kept := RetainIf(kept, Fresh(now));
        if |kept| > 5500 {
          kept := ShedOldest(kept, Inserted(), |kept| - 5000);
        }
      }
      assert Trims(dnsCache, now, kept);
      var ttl := TtlSeconds(resp);
      dnsCache := kept[(lower(q.name), q.qtype) := Entry(resp, now, ttl)];
    }

    method TtlSeconds(resp: Packet) returns (ttl: u32)
      ensures ttl == CacheTtl(resp)
    {
      var least := ExtractMinTtl(resp);
      ttl := match least case Some(t) => Clamp(t, 1, 60) case None => 10;
    }

    method ForwardedAnswerHitsPrivateSpace(name: Name, resp: Packet) returns (hits: bool)
      ensures hits <==> HitsPrivateSpace(lower, customAllowed, name, resp)
    {
      if IsLegitLocalDomain(lower, name) { return false; }
      var isPrivate := IsPrivateIpRecord(resp);
      if !isPrivate { return false; }
      var allowed := MatchDomainHierarchy(lower(TrimDots(name)), customAllowed);
      hits := !allowed;
    }

    method AnswerByPolicy(pkt: Packet, qtype: u16, ip4: seq<byte>, ip6: seq<byte>) returns (v: Verdict)
      requires |ip4| == 4 && |ip6| == 16
      ensures v == Reply(PolicyReply(pkt, qtype, ip4, ip6))
    {
      hide Sinkhole, ErrorReply;
      var resp: Option<Packet> := None;
      if qtype == 1 {
        resp := BuildSinkholeARecord(pkt, ip4);
      } else if qtype == 28 {
        resp := BuildSinkholeAaaaRecord(pkt, ip6);
      }
      if resp.None? { resp := BuildError(pkt, NXDOMAIN); }
      v := Reply(resp);
    }

    /** Everything `handle_dns_packet` does before it forwards. */
    method ServePacket(pkt: Packet, ctx: Context) returns (v: Verdict)
      requires ContextOk(ctx)
      ensures v == Serve(lower, Current(), pkt, ctx)
    {
      hide ParseSpec, ErrorReply, PolicyReply, HitsPrivateSpace, CachedReply;
      var info := ParseQueryInfo(pkt);
      if info.None? { return Drop; }
      ParsedHasHeader(pkt);
      var q := info.value;
      if ctx.rateLimited { return Drop; }
      if ctx.blocked { return Drop; }
      if ctx.quarantined || ctx.darknet || (ctx.incident && ctx.autoBlock) {
        var nx := BuildError(pkt, NXDOMAIN);
        return Reply(nx);
      }
      if ctx.override.Some? {
        v := AnswerByPolicy(pkt, q.qtype, ctx.override.value.0, ctx.override.value.1);
        return;
      }
      var adEnforced := false;
      if !ctx.paused {
        match ctx.mode
        case Trusted =>
        case Strict => adEnforced := !ctx.loopback;
        case Default => adEnforced := ctx.listed;
      }
      if adEnforced {
        v := AnswerByPolicy(pkt, q.qtype, if ctx.silentSinkhole then LOOPBACK4 else ZERO4, ZERO16);
        return;
      }
      var cached := CachedResponseFor(q, pkt, ctx.now);
      if cached.None? { return ForwardUpstream; }
      var hits := ForwardedAnswerHitsPrivateSpace(q.name, cached.value);
      if hits {
        var nx := BuildError(pkt, NXDOMAIN);
        return Reply(nx);
      }
      v := Send(cached.value);
    }

    method FirstAcceptedBody(bodies: seq<Packet>, pkt: Packet) returns (r: Option<Packet>)
      ensures r == FirstAccepted(bodies, pkt)
    {
      for i := 0 to |bodies|
        invariant FirstAccepted(bodies, pkt) == FirstAccepted(bodies[i..], pkt)
      {
        var matches := ResponseMatchesQuery(bodies[i], pkt);
        if |bodies[i]| <= MAX_DOH_BYTES && matches { return Some(bodies[i]); }
        assert bodies[i..][1..] == bodies[i + 1..];
      }
      r := None;
    }

    /** What happens when the forwarded query comes back, or does not. */
    method FinishForward(pkt: Packet, q: Question, bodies: seq<Packet>, later: Instant) returns (v: Verdict)
      modifies this`dnsCache
      ensures v == Finish(lower, old(Current()), pkt, q, bodies)
      ensures FinishUpdates(lower, old(Current()), pkt, q, bodies, later, Current())
    {
      hide ErrorReply, HitsPrivateSpace, Stores, Matches;
      var resp := FirstAcceptedBody(bodies, pkt);
      if resp.None? {
        var servfail := BuildError(pkt, SERVFAIL);
        return Reply(servfail);
      }
      var hits := ForwardedAnswerHitsPrivateSpace(q.name, resp.value);
      if hits {
        var nx := BuildError(pkt, NXDOMAIN);
        return if nx.Some? then Send(nx.value) else Send(resp.value);
      }
      StoreCacheResponse(q, resp.value, later);
      v := Send(resp.value);
    }
  }
}
