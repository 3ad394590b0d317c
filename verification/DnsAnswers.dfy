/** Writing replies and reading them back: the sinkhole and error builders, and the three
    decoders that walk a reply for its smallest TTL, for a private address and for its first A
    record. Each decoder has its own walker, written independently in the program. */
module DnsAnswers {
  import opened Bytes
  import opened DnsWire

  // ---------------------------------------------------------------- builders

  /** Where the builders' own walker leaves the question name. */
  function NameEnd(q: Packet, pos: nat, steps: nat): Option<nat>
    requires steps <= MAX_STEPS
    decreases MAX_STEPS - steps
  {
    if pos >= |q| then Some(pos)
    else if steps == MAX_STEPS then None
    else
      var len := q[pos];
      if len == 0 then Some(pos + 1)
      else if IsPointer(len) then Some(pos + 2)
      else if pos + 1 + len > |q| then None
      else NameEnd(q, pos + 1 + len, steps + 1)
  }

  /** The end of the question, type and class included. */
  function QuestionEnd(q: Packet): (e: Option<nat>)
    ensures e.Some? ==> e.value <= |q|
  {
    if |q| < HEADER then None
    else match NameEnd(q, HEADER, 0)
      case None => None
      case Some(p) => if p + 4 > |q| then None else Some(p + 4)
  }

  function AnswerRecord(rtype: byte, rdata: seq<byte>): Packet
    requires |rdata| < 256
  {
    [0xC0, 0x0C, 0, rtype, 0, 1, 0, 0, 0, 10, 0, |rdata|] + rdata
  }

  /** One question copied from `q`, one answer pointing back at its name, with TTL 10. */
  function Sinkhole(q: Packet, rtype: byte, rdata: seq<byte>): Option<Packet>
    requires |rdata| < 256
  {
    match QuestionEnd(q)
    case None => None
    case Some(e) =>
      if e < HEADER then None
      else Some([q[0], q[1], 0x81, 0x80, 0, 1, 0, 1, 0, 0, 0, 0] + q[HEADER..e] + AnswerRecord(rtype, rdata))
  }

  method FindQuestionEnd(q: Packet) returns (e: Option<nat>)
    requires |q| >= HEADER
    ensures e == QuestionEnd(q)
  {
    var pos := 12;
    var loopCount := 0;
    while pos < |q|
      invariant 12 <= pos && loopCount <= 128
      invariant NameEnd(q, pos, loopCount) == NameEnd(q, 12, 0)
      decreases |q| - pos
    {
      if loopCount == 128 { return None; }
      loopCount := loopCount + 1;
      var len := q[pos];
      if len == 0 { pos := pos + 1; break; }
      if IsPointer(len) { pos := pos + 2; break; }
      if pos + 1 + len > |q| { return None; }
      pos := pos + 1 + len;
    }
    e := if pos + 4 > |q| then None else Some(pos + 4);
  }

  method BuildSinkholeARecord(q: Packet, ip: seq<byte>) returns (r: Option<Packet>)
    requires |ip| == 4
    ensures r == Sinkhole(q, 1, ip)
  {
    if |q| < 12 { return None; }
    var reply := q[0..2] + [0x81, 0x80] + [0, 1] + [0, 1] + [0, 0] + [0, 0];
    assert reply == [q[0], q[1], 0x81, 0x80, 0, 1, 0, 1, 0, 0, 0, 0];
    var e := FindQuestionEnd(q);
    if e.None? { return None; }
    NameEndAdvances(q, HEADER, 0);
    reply := reply + q[12..e.value];
    var answer := [0xC0, 0x0C] + [0, 1] + [0, 1] + [0, 0, 0, 10] + [0, 4] + ip;
    assert answer == AnswerRecord(1, ip);
    reply := reply + answer;
    r := Some(reply);
  }

  method BuildSinkholeAaaaRecord(q: Packet, ip6: seq<byte>) returns (r: Option<Packet>)
    requires |ip6| == 16
    ensures r == Sinkhole(q, 28, ip6)
  {
    if |q| < 12 { return None; }
    var reply := q[0..2] + [0x81, 0x80] + [0, 1] + [0, 1] + [0, 0] + [0, 0];
    assert reply == [q[0], q[1], 0x81, 0x80, 0, 1, 0, 1, 0, 0, 0, 0];
    var e := FindQuestionEnd(q);
    if e.None? { return None; }
    NameEndAdvances(q, HEADER, 0);
    reply := reply + q[12..e.value];
    var answer := [0xC0, 0x0C] + [0, 0x1C] + [0, 1] + [0, 0, 0, 10] + [0, 0x10] + ip6;
    assert answer == AnswerRecord(28, ip6);
    reply := reply + answer;
    r := Some(reply);
  }

  const NXDOMAIN: byte := 3
  const SERVFAIL: byte := 2

  /** The query turned into an error reply: QR set, the code in the low nibble, and the answer,
      authority and additional counts cleared. */
  function ErrorReply(q: Packet, rcode: byte): Option<Packet>
    requires rcode < 16
  {
    if |q| < HEADER then None
    else Some(q[..2] + [if q[2] < 128 then q[2] + 128 else q[2], q[3] - q[3] % 16 + rcode] + q[4..6]
              + [0, 0, 0, 0, 0, 0] + q[12..])
  }

  method BuildError(q: Packet, rcode: byte) returns (r: Option<Packet>)
    requires rcode < 16
    ensures r == ErrorReply(q, rcode)
  {
    if |q| < 12 { return None; }
    var reply := q;
    reply := reply[2 := if q[2] < 128 then q[2] + 128 else q[2]];
    reply := reply[3 := q[3] - q[3] % 16 + rcode];
    for i := 6 to 12
      invariant |reply| == |q| && reply[..2] == q[..2] && reply[4..6] == q[4..6] && reply[12..] == q[12..]
      invariant reply[2] == (if q[2] < 128 then q[2] + 128 else q[2]) && reply[3] == q[3] - q[3] % 16 + rcode
      invariant forall j :: 6 <= j < i ==> reply[j] == 0
    {
      reply := reply[i := 0];
    }
    assert reply[6..12] == [0, 0, 0, 0, 0, 0];
    assert reply[2..4] == [reply[2], reply[3]];
    assert reply == reply[..2] + reply[2..4] + reply[4..6] + reply[6..12] + reply[12..];
    r := Some(reply);
  }

  // ---------------------------------------------------------------- the unguarded name walker

  function SkipName(buf: Packet, pos: nat): (p: nat)
    ensures pos <= p
    decreases |buf| - pos
  {
    if pos >= |buf| then pos
    else if buf[pos] == 0 then pos + 1
    else if IsPointer(buf[pos]) then pos + 2
    else SkipName(buf, pos + 1 + buf[pos])
  }

  method SkipNameLoop(buf: Packet, start: nat) returns (pos: nat)
    ensures pos == SkipName(buf, start)
  {
    pos := start;
    while pos < |buf|
      invariant SkipName(buf, pos) == SkipName(buf, start)
      decreases |buf| - pos
    {
      var len := buf[pos];
      if len == 0 { pos := pos + 1; break; }
      if IsPointer(len) { pos := pos + 2; break; }
      pos := pos + 1 + len;
    }
  }

  // ---------------------------------------------------------------- smallest TTL

  datatype CountedWalk = Overrun | Stopped(pos: nat, guard: nat)

  function SkipNameCounted(buf: Packet, pos: nat, guard: nat): CountedWalk
    requires guard <= 128
    decreases 128 - guard
  {
    if pos >= |buf| then Stopped(pos, guard)
    else if guard == 128 then Overrun
    else if IsPointer(buf[pos]) then Stopped(pos + 2, guard + 1)
    else if buf[pos] == 0 then Stopped(pos + 1, guard + 1)
    else SkipNameCounted(buf, pos + 1 + buf[pos], guard + 1)
  }

  function SkipOwner(buf: Packet, pos: nat, steps: nat): (p: Option<nat>)
    requires steps <= 128
    ensures p.Some? ==> pos <= p.value
    decreases 128 - steps
  {
    if pos >= |buf| then Some(pos)
    else if steps == 128 then None
    else if IsPointer(buf[pos]) then Some(pos + 2)
    else if buf[pos] >= 64 then None
    else if buf[pos] == 0 then Some(pos + 1)
    else SkipOwner(buf, pos + 1 + buf[pos], steps + 1)
  }

  function OwnerEnd(buf: Packet, pos: nat): (p: Option<nat>)
    requires pos < |buf|
    ensures p.Some? ==> pos <= p.value
  {
    if IsPointer(buf[pos]) then Some(pos + 2) else SkipOwner(buf, pos, 0)
  }

  function TtlScan(buf: Packet, pos: nat, n: nat, guard: nat, least: u32): Option<u32>
    decreases n
  {
    if n == 0 || guard >= 256 || pos >= |buf| then Some(least)
    else match OwnerEnd(buf, pos)
      case None => None
      case Some(p) =>
        if p + 10 > |buf| then Some(least)
        else
          var ttl := BE32(buf[p + 4], buf[p + 5], buf[p + 6], buf[p + 7]);
          TtlScan(buf, p + 10 + BE16(buf[p + 8], buf[p + 9]), n - 1, guard + 1, if ttl < least then ttl else least)
  }

  function MinTtl(resp: Packet): Option<u32> {
    if |resp| < HEADER || BE16(resp[6], resp[7]) == 0 then None
    else
      var name := SkipNameCounted(resp, HEADER, 0);
      if name.Overrun? then None
      else
        var least := TtlScan(resp, name.pos + 4, BE16(resp[6], resp[7]), name.guard, U32_MAX);
        if least == Some(U32_MAX) then None else least
  }

  method SkipOwnerLoop(resp: Packet, start: nat) returns (p: Option<nat>)
    requires start < |resp|
    ensures p == OwnerEnd(resp, start)
  {
    if IsPointer(resp[start]) { return Some(start + 2); }
    var pos := start;
    var labelGuard := 0;
    while pos < |resp|
      invariant start <= pos && labelGuard <= 128 && SkipOwner(resp, pos, labelGuard) == SkipOwner(resp, start, 0)
      decreases |resp| - pos
    {
      if labelGuard == 128 { return None; }
      labelGuard := labelGuard + 1;
      var l := resp[pos];
      if IsPointer(l) { return Some(pos + 2); }
      if l >= 64 { return None; }
      if l == 0 { return Some(pos + 1); }
      pos := pos + 1 + l;
    }
    p := Some(pos);
  }

  method SkipNameCountedLoop(resp: Packet) returns (r: CountedWalk)
    ensures r == SkipNameCounted(resp, HEADER, 0)
  {
    var pos: nat := 12;
    var guard := 0;
    while pos < |resp|
      invariant guard <= 128 && SkipNameCounted(resp, pos, guard) == SkipNameCounted(resp, HEADER, 0)
      decreases |resp| - pos
    {
      if guard == 128 { return Overrun; }
      guard := guard + 1;
      var lenByte := resp[pos];
      if IsPointer(lenByte) { pos := pos + 2; break; }
      if lenByte == 0 { pos := pos + 1; break; }
      pos := pos + 1 + lenByte;
    }
    r := Stopped(pos, guard);
  }

  method TtlScanLoop(resp: Packet, start: nat, anCount: nat, startGuard: nat) returns (least: Option<u32>)
    ensures least == TtlScan(resp, start, anCount, startGuard, U32_MAX)
  {
    hide OwnerEnd;
    var pos: nat, guard: nat := start, startGuard;
    var minTtl: u32 := U32_MAX;
    for i := 0 to anCount
      invariant TtlScan(resp, pos, anCount - i, guard, minTtl) == TtlScan(resp, start, anCount, startGuard, U32_MAX)
    {
      if guard >= 256 || pos >= |resp| { return Some(minTtl); }
      guard := guard + 1;
      var p := SkipOwnerLoop(resp, pos);
      if p.None? { return None; }
      pos := p.value;
      if pos + 10 > |resp| { return Some(minTtl); }
      var t := BE32(resp[pos + 4], resp[pos + 5], resp[pos + 6], resp[pos + 7]);
      minTtl := if t < minTtl then t else minTtl;
      pos := pos + 10 + BE16(resp[pos + 8], resp[pos + 9]);
    }
    least := Some(minTtl);
  }

  method ExtractMinTtl(resp: Packet) returns (ttl: Option<u32>)
    ensures ttl == MinTtl(resp)
  {
    if |resp| < 12 { return None; }
    var anCount := BE16(resp[6], resp[7]);
    if anCount == 0 { return None; }
    var question := SkipNameCountedLoop(resp);
    if question.Overrun? { return None; }
    var least := TtlScanLoop(resp, question.pos + 4, anCount, question.guard);
    ttl := if least == Some(U32_MAX) then None else least;
  }

  // ---------------------------------------------------------------- private addresses

  predicate IsPrivateIpv4(a: byte, b: byte, c: byte, d: byte) {
    || a == 0 || a == 10 || a == 127
    || (a == 100 && 64 <= b < 128)
    || (a == 169 && b == 254)
    || (a == 172 && 16 <= b <= 31)
    || (a == 192 && b == 168)
    || (a == 198 && (b == 18 || b == 19))
    || (a == 192 && b == 0 && c == 0)
    || (a == 255 && b == 255 && c == 255 && d == 255)
  }

  /** IPv4-mapped private, loopback, link-local fe80::/10, unique-local fc00::/7. */
  predicate IsPrivateIpv6(ip: seq<byte>)
    requires |ip| == 16
  {
    if (forall i :: 0 <= i < 10 ==> ip[i] == 0) && ip[10] == 0xFF && ip[11] == 0xFF
    then IsPrivateIpv4(ip[12], ip[13], ip[14], ip[15])
    else
      || ((forall i :: 0 <= i < 15 ==> ip[i] == 0) && ip[15] == 1)
      || (ip[0] == 0xFE && 128 <= ip[1] < 192)
      || 252 <= ip[0] <= 253
  }

  /** The ranges by address: 0/8, 10/8, 127/8, 100.64/10, 169.254/16, 172.16/12, 192.168/16, 198.18/15,
      192.0.0/24 and the broadcast address. */
  lemma PrivateRangesV4(a: byte, b: byte, c: byte, d: byte)
    ensures var v := 0x100_0000 * a + 0x1_0000 * b + 256 * c + d;
      IsPrivateIpv4(a, b, c, d) <==>
        || v < 0x0100_0000 || 0x0A00_0000 <= v < 0x0B00_0000 || 0x7F00_0000 <= v < 0x8000_0000
        || 0x6440_0000 <= v < 0x6480_0000 || 0xA9FE_0000 <= v < 0xA9FF_0000 || 0xAC10_0000 <= v < 0xAC20_0000
        || 0xC0A8_0000 <= v < 0xC0A9_0000 || 0xC612_0000 <= v < 0xC614_0000 || 0xC000_0000 <= v < 0xC000_0100
        || v == 0xFFFF_FFFF
  {
  }

  /** Group `k` of the eight of an IPv6 address. */
  function Group(ip: seq<byte>, k: nat): u16
    requires |ip| == 16 && k < 8
  {
    BE16(ip[2 * k], ip[2 * k + 1])
  }

  /** The ranges by groups: ::ffff:0:0/96 by its IPv4 address, ::1, fe80::/10 and fc00::/7. */
  lemma PrivateRangesV6(ip: seq<byte>)
    requires |ip| == 16
    ensures IsPrivateIpv6(ip) <==>
      if (forall k :: 0 <= k < 5 ==> Group(ip, k) == 0) && Group(ip, 5) == 0xFFFF
      then IsPrivateIpv4(ip[12], ip[13], ip[14], ip[15])
      else
        || ((forall k :: 0 <= k < 7 ==> Group(ip, k) == 0) && Group(ip, 7) == 1)
        || 0xFE80 <= Group(ip, 0) < 0xFEC0 || 0xFC00 <= Group(ip, 0) < 0xFE00
  {
    hide IsPrivateIpv4, BE16;
    ZeroGroups(ip, 5);
    ZeroGroups(ip, 7);
    assert Group(ip, 0) == BE16(ip[0], ip[1]) && Group(ip, 5) == BE16(ip[10], ip[11]);
    assert Group(ip, 7) == BE16(ip[14], ip[15]);
    hide Group;
    PairRanges(ip[0], ip[1]);
    PairRanges(ip[10], ip[11]);
    PairRanges(ip[14], ip[15]);
    assert (forall i :: 0 <= i < 15 ==> ip[i] == 0) <==> (forall i :: 0 <= i < 14 ==> ip[i] == 0) && ip[14] == 0;
  }

  lemma PairRanges(a: byte, b: byte)
    ensures (BE16(a, b) == 0xFFFF <==> a == 255 && b == 255) && (BE16(a, b) == 1 <==> a == 0 && b == 1)
    ensures 0xFE80 <= BE16(a, b) < 0xFEC0 <==> a == 0xFE && 128 <= b < 192
    ensures 0xFC00 <= BE16(a, b) < 0xFE00 <==> 252 <= a <= 253
  {
  }

  lemma {:induction false} ZeroGroups(ip: seq<byte>, n: nat)
    requires |ip| == 16 && n <= 8
    ensures (forall k :: 0 <= k < n ==> Group(ip, k) == 0) <==> (forall i :: 0 <= i < 2 * n ==> ip[i] == 0)
  {
    if n > 0 {
      ZeroGroups(ip, n - 1);
      assert Group(ip, n - 1) == BE16(ip[2 * n - 2], ip[2 * n - 1]);
      assert (forall i :: 0 <= i < 2 * n ==> ip[i] == 0) <==>
        (forall i :: 0 <= i < 2 * (n - 1) ==> ip[i] == 0) && ip[2 * n - 2] == 0 && ip[2 * n - 1] == 0;
    }
  }

  function SkipQuestions(buf: Packet, pos: nat, n: nat): Option<nat>
    decreases n
  {
    if n == 0 then Some(pos)
    else
      var p := SkipName(buf, pos);
      if p + 4 > |buf| then None else SkipQuestions(buf, p + 4, n - 1)
  }

  predicate PrivateRecord(buf: Packet, p: nat, rtype: nat, rdlen: nat)
    requires p + rdlen <= |buf|
  {
    if rtype == 1 && rdlen == 4 then IsPrivateIpv4(buf[p], buf[p + 1], buf[p + 2], buf[p + 3])
    else rtype == 28 && rdlen == 16 && IsPrivateIpv6(buf[p..p + 16])
  }

  predicate PrivateScan(buf: Packet, pos: nat, n: nat)
    decreases n
  {
    if n == 0 || pos >= |buf| then false
    else
      var p := SkipName(buf, pos);
      if p + 10 > |buf| then false
      else
        var rdlen := BE16(buf[p + 8], buf[p + 9]);
        if p + 10 + rdlen > |buf| then false
        else PrivateRecord(buf, p + 10, BE16(buf[p], buf[p + 1]), rdlen) || PrivateScan(buf, p + 10 + rdlen, n - 1)
  }

  predicate HasPrivateAddress(resp: Packet) {
    && |resp| >= HEADER && BE16(resp[6], resp[7]) != 0
    && var p := SkipQuestions(resp, HEADER, BE16(resp[4], resp[5]));
      p.Some? && PrivateScan(resp, p.value, BE16(resp[6], resp[7]))
  }

  method SkipQuestionsLoop(resp: Packet, qdcount: nat) returns (end: Option<nat>)
    ensures end == SkipQuestions(resp, HEADER, qdcount)
  {
    var pos: nat := 12;
    for i := 0 to qdcount
      invariant SkipQuestions(resp, pos, qdcount - i) == SkipQuestions(resp, HEADER, qdcount)
    {
      pos := SkipNameLoop(resp, pos);
      if pos + 4 > |resp| { return None; }
      pos := pos + 4;
    }
    end := Some(pos);
  }

  method PrivateScanLoop(resp: Packet, start: nat, ancount: nat) returns (found: bool)
    ensures found <==> PrivateScan(resp, start, ancount)
  {
    hide PrivateRecord, SkipName;
    var pos: nat := start;
    for i := 0 to ancount
      invariant PrivateScan(resp, pos, ancount - i) == PrivateScan(resp, start, ancount)
    {
      if pos >= |resp| { return false; }
      pos := SkipNameLoop(resp, pos);
      if pos + 10 > |resp| { return false; }
      var rtype := BE16(resp[pos], resp[pos + 1]);
      var rdlength := BE16(resp[pos + 8], resp[pos + 9]);
      pos := pos + 10;
      if pos + rdlength > |resp| { return false; }
      if PrivateRecord(resp, pos, rtype, rdlength) { return true; }
      pos := pos + rdlength;
    }
    found := false;
  }

  method IsPrivateIpRecord(resp: Packet) returns (found: bool)
    ensures found <==> HasPrivateAddress(resp)
  {
    if |resp| < 12 { return false; }
    var ancount := BE16(resp[6], resp[7]);
    if ancount == 0 { return false; }
    var end := SkipQuestionsLoop(resp, BE16(resp[4], resp[5]));
    if end.None? { return false; }
    found := PrivateScanLoop(resp, end.value, ancount);
  }

  // ---------------------------------------------------------------- first A record

  function SkipQuestionsUnchecked(buf: Packet, pos: nat, n: nat): nat
    decreases n
  {
    if n == 0 then pos else SkipQuestionsUnchecked(buf, SkipName(buf, pos) + 4, n - 1)
  }

  /** This decoder's own walker over an owner name: after the first byte it takes no pointers. */
  function PlainNameEnd(buf: Packet, pos: nat): (p: Option<nat>)
    ensures p.Some? ==> pos <= p.value
    decreases |buf| - pos
  {
    if pos >= |buf| then None
    else if buf[pos] == 0 then Some(pos + 1)
    else PlainNameEnd(buf, pos + 1 + buf[pos])
  }

  function OwnerEndForA(buf: Packet, pos: nat): Option<nat>
    requires pos < |buf|
  {
    if IsPointer(buf[pos]) then Some(pos + 2) else PlainNameEnd(buf, pos)
  }

  function FirstAScan(buf: Packet, pos: nat, n: nat): Option<seq<byte>>
    decreases n
  {
    if n == 0 || pos >= |buf| then None
    else match OwnerEndForA(buf, pos)
      case None => None
      case Some(p) =>
        if p + 10 > |buf| then None
        else
          var rdlen := BE16(buf[p + 8], buf[p + 9]);
          if p + 10 + rdlen > |buf| then None
          else if BE16(buf[p], buf[p + 1]) == 1 && rdlen == 4 then Some(buf[p + 10..p + 14])
          else FirstAScan(buf, p + 10 + rdlen, n - 1)
  }

  function FirstA(resp: Packet): Option<seq<byte>> {
    if |resp| < HEADER then None
    else FirstAScan(resp, SkipQuestionsUnchecked(resp, HEADER, BE16(resp[4], resp[5])), BE16(resp[6], resp[7]))
  }

  method OwnerForALoop(resp: Packet, start: nat) returns (end: Option<nat>)
    requires start < |resp|
    ensures end == OwnerEndForA(resp, start)
  {
    if IsPointer(resp[start]) { return Some(start + 2); }
    var cursor := start;
    while true
      invariant start <= cursor && PlainNameEnd(resp, cursor) == PlainNameEnd(resp, start)
      decreases |resp| - cursor
    {
      if cursor >= |resp| { return None; }
      var len := resp[cursor];
      cursor := cursor + 1;
      if len == 0 { return Some(cursor); }
      cursor := cursor + len;
    }
  }

  method FirstAScanLoop(resp: Packet, start: nat, answers: nat) returns (ip: Option<seq<byte>>)
    ensures ip == FirstAScan(resp, start, answers)
  {
    hide OwnerEndForA;
    var cursor: nat := start;
    for i := 0 to answers
      invariant FirstAScan(resp, cursor, answers - i) == FirstAScan(resp, start, answers)
    {
      if cursor >= |resp| { return None; }
      var end := OwnerForALoop(resp, cursor);
      if end.None? { return None; }
      cursor := end.value;
      if cursor + 10 > |resp| { return None; }
      var rtype := BE16(resp[cursor], resp[cursor + 1]);
      var rdlen := BE16(resp[cursor + 8], resp[cursor + 9]);
      cursor := cursor + 10;
      if cursor + rdlen > |resp| { return None; }
      if rtype == 1 && rdlen == 4 { return Some(resp[cursor..cursor + 4]); }
      cursor := cursor + rdlen;
    }
    return None;
  }

  method ParseFirstARecord(resp: Packet) returns (ip: Option<seq<byte>>)
    ensures ip == FirstA(resp)
  {
    if |resp| < 12 { return None; }
    var questions := BE16(resp[4], resp[5]);
    var answers := BE16(resp[6], resp[7]);
    var cursor: nat := 12;
    for i := 0 to questions
      invariant SkipQuestionsUnchecked(resp, cursor, questions - i) == SkipQuestionsUnchecked(resp, 12, questions)
    {
      cursor := SkipNameLoop(resp, cursor);
      cursor := cursor + 4;
    }
    ip := FirstAScanLoop(resp, cursor, answers);
  }

  // ---------------------------------------------------------------- all walkers agree

  lemma {:induction false} NameEndAdvances(q: Packet, pos: nat, steps: nat)
    requires steps <= MAX_STEPS && NameEnd(q, pos, steps).Some?
    ensures pos <= NameEnd(q, pos, steps).value
    decreases MAX_STEPS - steps
  {
    if pos < |q| && q[pos] != 0 && !IsPointer(q[pos]) { NameEndAdvances(q, pos + 1 + q[pos], steps + 1); }
  }

  /** Where the builders' walker stops inside `q`, every other walker stops in any packet that
      carries the same question bytes. */
  lemma {:induction false} WalkersAgree(q: Packet, r: Packet, pos: nat, steps: nat, end: nat)
    requires steps <= MAX_STEPS && NameEnd(q, pos, steps).Some? && NameEnd(q, pos, steps).value + 4 <= end
    requires SameQuestionBytes(q, r, pos, end)
    ensures SkipName(r, pos) == NameEnd(q, pos, steps).value
    ensures SkipNameCounted(r, pos, steps).Stopped?
    ensures SkipNameCounted(r, pos, steps).pos == NameEnd(q, pos, steps).value
    ensures SkipNameCounted(r, pos, steps).guard <= 128
    decreases MAX_STEPS - steps
  {
    NameEndAdvances(q, pos, steps);
    AgreeInside(q, r, pos, end, pos, end);
    if q[pos] != 0 && !IsPointer(q[pos]) {
      var next := pos + 1 + q[pos];
      NameEndAdvances(q, next, steps + 1);
      AgreeInside(q, r, pos, end, next, end);
      WalkersAgree(q, r, next, steps + 1, end);
    }
  }

  /** On a name the question parser accepts, the builders' walker stops where the parser does. */
  lemma {:induction false} ParserAndBuilderAgree(q: Packet, pos: nat, steps: nat)
    requires steps <= MAX_STEPS && ReadLabels(q, pos, steps).Walked?
    ensures NameEnd(q, pos, steps) == Some(ReadLabels(q, pos, steps).pos)
    decreases MAX_STEPS - steps
  {
    hide Utf8;
    if pos < |q| && q[pos] != 0 { ParserAndBuilderAgree(q, pos + 1 + q[pos], steps + 1); }
  }

  // ---------------------------------------------------------------- the reply, byte by byte

  /** The layout of a sinkhole reply whose question ends at `e`. */
  ghost predicate SinkholeLayout(q: Packet, r: Packet, e: nat, rtype: byte, rdata: seq<byte>) {
    && HEADER <= e && |r| == e + 12 + |rdata| && SameQuestionBytes(q, r, HEADER, e)
    && |q| >= 2 && r[0] == q[0] && r[1] == q[1] && r[2] == 0x81
    && r[4] == 0 && r[5] == 1 && r[6] == 0 && r[7] == 1
    && r[e] == 0xC0 && r[e + 2] == 0 && r[e + 3] == rtype
    && r[e + 6] == 0 && r[e + 7] == 0 && r[e + 8] == 0 && r[e + 9] == 10
    && r[e + 10] == 0 && r[e + 11] == |rdata| && r[e + 12..] == rdata
  }

  lemma Concat3(a: Packet, b: Packet, c: Packet)
    ensures var r := a + b + c;
      r[..|a|] == a && r[|a|..|a| + |b|] == b && r[|a| + |b|..] == c
  {
  }

  lemma SinkholeLayoutFrom(q: Packet, r: Packet, e: nat, rtype: byte, rdata: seq<byte>)
    requires |rdata| < 256 && HEADER <= e <= |q| && e <= |r|
    requires r[..12] == [q[0], q[1], 0x81, 0x80, 0, 1, 0, 1, 0, 0, 0, 0] && r[HEADER..e] == q[HEADER..e]
    requires r[e..] == AnswerRecord(rtype, rdata)
    ensures SinkholeLayout(q, r, e, rtype, rdata)
  {
    assert forall i :: 0 <= i < 12 ==> r[i] == r[..12][i];
  }

  lemma SinkholeBytes(q: Packet, rtype: byte, rdata: seq<byte>)
    requires |rdata| < 256 && Sinkhole(q, rtype, rdata).Some?
    ensures QuestionEnd(q).Some?
    ensures SinkholeLayout(q, Sinkhole(q, rtype, rdata).value, QuestionEnd(q).value, rtype, rdata)
  {
    hide NameEnd, SinkholeLayout;
    var e := QuestionEnd(q).value;
    var r := Sinkhole(q, rtype, rdata).value;
    var head: Packet := [q[0], q[1], 0x81, 0x80, 0, 1, 0, 1, 0, 0, 0, 0];
    var tail := AnswerRecord(rtype, rdata);
    assert r == head + q[HEADER..e] + tail;
    hide AnswerRecord, Sinkhole;
    Concat3(head, q[HEADER..e], tail);
    assert r[..12] == head && r[12..e] == q[12..e] && r[e..] == tail;
    SinkholeLayoutFrom(q, r, e, rtype, rdata);
  }

  /** The reply has one question and one answer, and ends with the record. */
  lemma SinkholeTail(q: Packet, rtype: byte, rdata: seq<byte>)
    requires |rdata| < 256 && Sinkhole(q, rtype, rdata).Some?
    ensures var r := Sinkhole(q, rtype, rdata).value; var n := |r| - 12 - |rdata|;
      n >= HEADER && r[4] == 0 && r[5] == 1 && r[6] == 0 && r[7] == 1 && r[n..] == AnswerRecord(rtype, rdata)
  {
    hide QuestionEnd;
    var e := QuestionEnd(q).value;
    var head: Packet := [q[0], q[1], 0x81, 0x80, 0, 1, 0, 1, 0, 0, 0, 0];
    var tail := AnswerRecord(rtype, rdata);
    assert Sinkhole(q, rtype, rdata).value == head + q[HEADER..e] + tail && |tail| == 12 + |rdata|;
    hide AnswerRecord, Sinkhole;
    Concat3(head, q[HEADER..e], tail);
  }

  /** In such a reply every decoder finds the record at the end of the question. */
  lemma DecodersLand(q: Packet, r: Packet, e: nat, rtype: byte, rdata: seq<byte>)
    requires QuestionEnd(q) == Some(e) && SinkholeLayout(q, r, e, rtype, rdata)
    ensures SkipQuestions(r, HEADER, 1) == Some(e) && SkipQuestionsUnchecked(r, HEADER, 1) == e
    ensures SkipNameCounted(r, HEADER, 0).Stopped? && SkipNameCounted(r, HEADER, 0).pos + 4 == e
    ensures SkipNameCounted(r, HEADER, 0).guard <= 128
  {
    WalkersAgree(q, r, HEADER, 0, e);
    assert SkipQuestions(r, e, 0) == Some(e) && SkipQuestionsUnchecked(r, e, 0) == e;
  }

  lemma LayoutTtl(q: Packet, r: Packet, e: nat, rtype: byte, rdata: seq<byte>, guard: nat)
    requires |rdata| < 256 && SinkholeLayout(q, r, e, rtype, rdata) && guard <= 128
    ensures TtlScan(r, e, 1, guard, U32_MAX) == Some(10)
  {
    hide SkipOwner, SameQuestionBytes;
    var next := e + 12 + |rdata|;
    assert OwnerEnd(r, e) == Some(e + 2);
    assert BE32(r[e + 6], r[e + 7], r[e + 8], r[e + 9]) == BE32(0, 0, 0, 10) == 10;
    assert BE16(r[e + 10], r[e + 11]) == |rdata|;
    assert TtlScan(r, next, 0, guard + 1, 10) == Some(10);
  }

  lemma TtlFromScan(r: Packet, ttl: u32)
    requires |r| >= HEADER && r[6] == 0 && r[7] == 1 && ttl < U32_MAX
    requires SkipNameCounted(r, HEADER, 0).Stopped?
    requires var name := SkipNameCounted(r, HEADER, 0); TtlScan(r, name.pos + 4, 1, name.guard, U32_MAX) == Some(ttl)
    ensures MinTtl(r) == Some(ttl)
  {
  }

  lemma SinkholeTtl(q: Packet, rtype: byte, rdata: seq<byte>)
    requires |rdata| < 256 && Sinkhole(q, rtype, rdata).Some?
    ensures MinTtl(Sinkhole(q, rtype, rdata).value) == Some(10)
  {
    hide AnswerRecord, Sinkhole, TtlScan, QuestionEnd, SkipNameCounted, SameQuestionBytes, MinTtl;
    SinkholeBytes(q, rtype, rdata);
    var e := QuestionEnd(q).value;
    var r := Sinkhole(q, rtype, rdata).value;
    DecodersLand(q, r, e, rtype, rdata);
    LayoutTtl(q, r, e, rtype, rdata, SkipNameCounted(r, HEADER, 0).guard);
    TtlFromScan(r, 10);
  }

  /** What the scan for private addresses and the search for an A record see at the end of the
      question of a sinkhole reply. */
  lemma LayoutScans(q: Packet, r: Packet, e: nat, rtype: byte, rdata: seq<byte>)
    requires |rdata| < 256 && SinkholeLayout(q, r, e, rtype, rdata)
    ensures e + 12 + |rdata| == |r| && r[e + 12..] == rdata
    ensures PrivateScan(r, e, 1) <==> PrivateRecord(r, e + 12, rtype, |rdata|)
    ensures FirstAScan(r, e, 1) == if rtype == 1 && |rdata| == 4 then Some(rdata) else None
  {
    hide PrivateRecord, SameQuestionBytes, PlainNameEnd;
    assert OwnerEndForA(r, e) == Some(e + 2);
    var next := e + 12 + |rdata|;
    assert SkipName(r, e) == e + 2;
    assert BE16(r[e + 2], r[e + 3]) == rtype && BE16(r[e + 10], r[e + 11]) == |rdata|;
    assert !PrivateScan(r, next, 0) && FirstAScan(r, next, 0) == None;
    assert |rdata| == 4 ==> r[e + 12..e + 16] == r[e + 12..] == rdata;
  }

  /** The A reply decodes to the address it was built from, with TTL 10, and counts as private
      exactly when that address is. */
  lemma SinkholeADecodes(q: Packet, ip: seq<byte>)
    requires |ip| == 4 && Sinkhole(q, 1, ip).Some?
    ensures var r := Sinkhole(q, 1, ip).value;
      && FirstA(r) == Some(ip) && MinTtl(r) == Some(10)
      && (HasPrivateAddress(r) <==> IsPrivateIpv4(ip[0], ip[1], ip[2], ip[3]))
  {
    hide AnswerRecord, Sinkhole, IsPrivateIpv4, MinTtl, NameEnd, PrivateScan, FirstAScan;
    SinkholeBytes(q, 1, ip);
    var e := QuestionEnd(q).value;
    var r := Sinkhole(q, 1, ip).value;
    DecodersLand(q, r, e, 1, ip);
    SinkholeTtl(q, 1, ip);
    LayoutScans(q, r, e, 1, ip);
    assert forall i :: 0 <= i < 4 ==> r[e + 12..][i] == ip[i];
    assert BE16(r[6], r[7]) == 1 && BE16(r[4], r[5]) == 1;
  }

  /** The AAAA reply likewise; it holds no A record. */
  lemma SinkholeAaaaDecodes(q: Packet, ip6: seq<byte>)
    requires |ip6| == 16 && Sinkhole(q, 28, ip6).Some?
    ensures var r := Sinkhole(q, 28, ip6).value;
      && FirstA(r) == None && MinTtl(r) == Some(10)
      && (HasPrivateAddress(r) <==> IsPrivateIpv6(ip6))
  {
    hide AnswerRecord, Sinkhole, IsPrivateIpv6, MinTtl, NameEnd, PrivateScan, FirstAScan;
    SinkholeBytes(q, 28, ip6);
    var e := QuestionEnd(q).value;
    var r := Sinkhole(q, 28, ip6).value;
    DecodersLand(q, r, e, 28, ip6);
    SinkholeTtl(q, 28, ip6);
    LayoutScans(q, r, e, 28, ip6);
    assert r[e + 12..e + 28] == r[e + 12..] == ip6;
    assert BE16(r[6], r[7]) == 1 && BE16(r[4], r[5]) == 1;
  }

  // ---------------------------------------------------------------- replies answer their query

  lemma SinkholeMatches(q: Packet, rtype: byte, rdata: seq<byte>)
    requires |rdata| < 256 && ParseSpec(q).Some? && Sinkhole(q, rtype, rdata).Some?
    ensures Matches(Sinkhole(q, rtype, rdata).value, q)
  {
    hide AnswerRecord, Sinkhole, Join;
    SinkholeBytes(q, rtype, rdata);
    var r := Sinkhole(q, rtype, rdata).value;
    ParserAndBuilderAgree(q, HEADER, 0);
    ParseLocal(q, r, QuestionEnd(q).value);
  }

  lemma ErrorMatches(q: Packet, rcode: byte)
    requires rcode < 16 && ParseSpec(q).Some?
    ensures ErrorReply(q, rcode).Some? && Matches(ErrorReply(q, rcode).value, q)
  {
    hide ParseSpec, EqFold;
    ErrorParses(q, rcode);
    assert EqFold(ParseSpec(q).value.name, ParseSpec(q).value.name) by { SameFolds(ParseSpec(q).value.name); }
  }

  lemma ErrorBytes(q: Packet, rcode: byte)
    requires rcode < 16 && |q| >= HEADER
    ensures ErrorReply(q, rcode).Some? && var r := ErrorReply(q, rcode).value;
      |r| == |q| && r[3] % 16 == rcode && r[6] == 0 && r[7] == 0
  {
  }

  lemma SameFolds(n: Name)
    ensures EqFold(n, n)
  {
  }

  lemma ErrorParses(q: Packet, rcode: byte)
    requires rcode < 16 && ParseSpec(q).Some?
    ensures |q| >= HEADER && ParseSpec(ErrorReply(q, rcode).value) == ParseSpec(q)
  {
    hide Join, Utf8;
    var r := ErrorReply(q, rcode).value;
    assert r[HEADER..|q|] == q[HEADER..|q|];
    ReadLabelsAdvance(q, HEADER, 0);
    ParseLocal(q, r, |q|);
  }
}
