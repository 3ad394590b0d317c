/** Reading the RFC 1035 wire format: the question parser, the reply filter, and the other
    independently written walkers over names. Packets are byte sequences. Masks on the two top
    bits of a length byte are written as ranges; `LengthByteBits` shows they say the same. */
module DnsWire {
  import opened Bytes

  type Packet = seq<byte>

  const HEADER: nat := 12
  /** The parsers give up on a name after this many length bytes. */
  const MAX_STEPS: nat := 128

  predicate IsPointer(l: byte) { l >= 192 }

  lemma LengthByteBits(l: bv8)
    ensures l & 0xC0 == 0xC0 <==> 192 <= l
    ensures l & 0xC0 != 0 <==> 64 <= l
    ensures l & 0xC0 == 64 <==> 64 <= l < 128
    ensures l & 0xC0 == 0x80 <==> 128 <= l < 192
    ensures l & 0xFE == 0xFC <==> 252 <= l <= 253
    ensures l & 0x3F == l % 64
    ensures l | 0x80 == if l < 128 then l + 128 else l
    ensures (l & 0xF0) | 3 == l - l % 16 + 3 && (l & 0xF0) | 2 == l - l % 16 + 2
    ensures l & 0x80 == 0 <==> l < 128
  {
  }

  // ---------------------------------------------------------------- text

  predicate Continuation(b: byte) { 0x80 <= b <= 0xBF }

  /** Well-formed UTF-8 (RFC 3629, section 4), as `str::from_utf8` checks it. */
  predicate Utf8(s: Name)
    decreases |s|
  {
    || s == []
    || (s[0] < 0x80 && Utf8(s[1..]))
    || (|s| >= 2 && 0xC2 <= s[0] <= 0xDF && Continuation(s[1]) && Utf8(s[2..]))
    || (|s| >= 3 && 0xE0 <= s[0] <= 0xEF && Continuation(s[1]) && Continuation(s[2])
        && (s[0] == 0xE0 ==> s[1] >= 0xA0) && (s[0] == 0xED ==> s[1] <= 0x9F) && Utf8(s[3..]))
    || (|s| >= 4 && 0xF0 <= s[0] <= 0xF4 && Continuation(s[1]) && Continuation(s[2]) && Continuation(s[3])
        && (s[0] == 0xF0 ==> s[1] >= 0x90) && (s[0] == 0xF4 ==> s[1] <= 0x8F) && Utf8(s[4..]))
  }

  lemma {:induction false} AsciiIsUtf8(s: Name)
    requires Ascii(s)
    ensures Utf8(s)
    decreases |s|
  {
    if s != [] { AsciiIsUtf8(s[1..]); }
  }

  /** `labels.join(".")`. */
  function Join(labels: seq<Name>): Name {
    if labels == [] then []
    else if |labels| == 1 then labels[0]
    else labels[0] + [DOT] + Join(labels[1..])
  }

  // ---------------------------------------------------------------- the question parser

  datatype NameWalk = Bad | Walked(labels: seq<Name>, pos: nat)

  /** The labels read from `pos` after `steps` length bytes, and where reading stops. */
  function ReadLabels(pkt: Packet, pos: nat, steps: nat): NameWalk
    requires steps <= MAX_STEPS
    decreases MAX_STEPS - steps
  {
    if pos >= |pkt| then Walked([], pos)
    else if steps == MAX_STEPS then Bad
    else
      var len := pkt[pos];
      if len == 0 then Walked([], pos + 1)
      else if IsPointer(len) || pos + 1 + len > |pkt| then Bad
      else if !Utf8(pkt[pos + 1..pos + 1 + len]) then Bad
      else Behind([pkt[pos + 1..pos + 1 + len]], ReadLabels(pkt, pos + 1 + len, steps + 1))
  }

  function Behind(labels: seq<Name>, w: NameWalk): NameWalk {
    if w.Bad? then Bad else Walked(labels + w.labels, w.pos)
  }

  datatype Question = Question(name: Name, qtype: u16)

  function ParseSpec(pkt: Packet): Option<Question> {
    if |pkt| < HEADER then None
    else
      var w := ReadLabels(pkt, HEADER, 0);
      if w.Bad? || w.labels == [] || w.pos + 2 > |pkt| then None
      else Some(Question(Join(w.labels), BE16(pkt[w.pos], pkt[w.pos + 1])))
  }

  lemma BehindChain(a: seq<Name>, b: seq<Name>, w: NameWalk)
    ensures Behind(a, Behind(b, w)) == Behind(a + b, w)
  {
    if w.Walked? { assert a + (b + w.labels) == a + b + w.labels; }
  }

  method ReadLabelsLoop(pkt: Packet) returns (w: NameWalk)
    ensures w == ReadLabels(pkt, HEADER, 0)
  {
    hide Utf8;
    var pos: nat := 12;
    var labels: seq<Name> := [];
    var loopCount := 0;
    ghost var whole := ReadLabels(pkt, HEADER, 0);
    assert Behind([], whole) == whole;
    while pos < |pkt|
      invariant loopCount <= 128 && Behind(labels, ReadLabels(pkt, pos, loopCount)) == whole
      decreases |pkt| - pos
    {
      if loopCount == 128 { return Bad; }
      loopCount := loopCount + 1;
      var len := pkt[pos];
      if len == 0 {
        pos := pos + 1;
        break;
      }
      if IsPointer(len) { return Bad; }
      pos := pos + 1;
      if pos + len > |pkt| { return Bad; }
      var part := pkt[pos..pos + len];
      if !Utf8(part) { return Bad; }
      BehindChain(labels, [part], ReadLabels(pkt, pos + len, loopCount));
      labels := labels + [part];
      pos := pos + len;
    }
    assert labels + [] == labels;
    w := Walked(labels, pos);
  }

  method ParseQueryInfo(pkt: Packet) returns (r: Option<Question>)
    ensures r == ParseSpec(pkt)
  {
    if |pkt| < 12 { return None; }
    var w := ReadLabelsLoop(pkt);
    if w.Bad? || w.labels == [] || w.pos + 2 > |pkt| { return None; }
    r := Some(Question(Join(w.labels), BE16(pkt[w.pos], pkt[w.pos + 1])));
  }

  // ---------------------------------------------------------------- does a reply answer a query

  predicate Matches(resp: Packet, query: Packet) {
    && |resp| >= HEADER && |query| >= HEADER
    && resp[0] == query[0] && resp[1] == query[1]
    && resp[2] >= 128
    && var (q, r) := (ParseSpec(query), ParseSpec(resp));
      q.Some? && r.Some? && EqFold(r.value.name, q.value.name) && r.value.qtype == q.value.qtype
  }

  method ResponseMatchesQuery(resp: Packet, query: Packet) returns (matches: bool)
    ensures matches <==> Matches(resp, query)
  {
    if |resp| < 12 || |query| < 12 { return false; }
    if resp[0] != query[0] || resp[1] != query[1] { return false; }
    if resp[2] < 128 { return false; }
    var q := ParseQueryInfo(query);
    var r := ParseQueryInfo(resp);
    matches := q.Some? && r.Some? && EqFold(r.value.name, q.value.name) && r.value.qtype == q.value.qtype;
  }

  // ---------------------------------------------------------------- locality of the parser

  /** The question occupies bytes 12..`end` of `pkt`, type and class included. */
  ghost predicate SameQuestionBytes(f: Packet, g: Packet, from: nat, end: nat) {
    from <= end <= |f| && end <= |g| && f[from..end] == g[from..end]
  }

  lemma AgreeInside(f: Packet, g: Packet, from: nat, end: nat, i: nat, j: nat)
    requires SameQuestionBytes(f, g, from, end) && from <= i <= j <= end
    ensures SameQuestionBytes(f, g, i, j) && (i < j ==> f[i] == g[i])
  {
    forall k | i <= k < end ensures f[k] == g[k] {
      assert f[k] == f[from..end][k - from] == g[from..end][k - from] == g[k];
    }
  }

  /** Parsing a name only depends on the bytes it reads. */
  lemma {:induction false} ReadLabelsLocal(f: Packet, g: Packet, pos: nat, steps: nat, end: nat)
    requires steps <= MAX_STEPS && ReadLabels(f, pos, steps).Walked?
    requires ReadLabels(f, pos, steps).pos <= end && ReadLabels(f, pos, steps).pos < |f|
    requires SameQuestionBytes(f, g, pos, end)
    ensures ReadLabels(g, pos, steps) == ReadLabels(f, pos, steps)
    decreases MAX_STEPS - steps
  {
    hide Utf8;
    ReadLabelsAdvance(f, pos, steps);
    AgreeInside(f, g, pos, end, pos, end);
    var len := f[pos];
    if len != 0 {
      var next := pos + 1 + len;
      ReadLabelsAdvance(f, next, steps + 1);
      AgreeInside(f, g, pos, end, pos + 1, next);
      AgreeInside(f, g, pos, end, next, end);
      ReadLabelsLocal(f, g, next, steps + 1, end);
    }
  }

  lemma {:induction false} ReadLabelsAdvance(pkt: Packet, pos: nat, steps: nat)
    requires steps <= MAX_STEPS && ReadLabels(pkt, pos, steps).Walked?
    ensures pos <= ReadLabels(pkt, pos, steps).pos
    ensures pos < |pkt| ==> pos < ReadLabels(pkt, pos, steps).pos <= |pkt|
    decreases MAX_STEPS - steps
  {
    if pos < |pkt| && pkt[pos] != 0 { ReadLabelsAdvance(pkt, pos + 1 + pkt[pos], steps + 1); }
  }

  /** Packets that agree from byte 12 through the question type parse to the same question. */
  lemma ParseLocal(f: Packet, g: Packet, end: nat)
    requires |f| >= HEADER && ParseSpec(f).Some? && ReadLabels(f, HEADER, 0).pos + 2 <= end
    requires SameQuestionBytes(f, g, HEADER, end)
    ensures ParseSpec(g) == ParseSpec(f)
  {
    hide Utf8, Join, ReadLabels, SameQuestionBytes;
    var p := ReadLabels(f, HEADER, 0).pos;
    ReadLabelsAdvance(f, HEADER, 0);
    ReadLabelsLocal(f, g, HEADER, 0, end);
    AgreeInside(f, g, HEADER, end, p, end);
    AgreeInside(f, g, HEADER, end, p + 1, end);
  }

  // ---------------------------------------------------------------- bytes standing in a packet

  /** The bytes of `s` stand at `p`. */
  ghost predicate Holds(buf: Packet, p: nat, s: Packet) {
    p + |s| <= |buf| && buf[p..p + |s|] == s
  }

  lemma HoldsParts(buf: Packet, p: nat, a: Packet, b: Packet)
    requires Holds(buf, p, a + b)
    ensures Holds(buf, p, a) && Holds(buf, p + |a|, b)
  {
    assert buf[p..p + |a|] == buf[p..p + |a + b|][..|a|] == a;
    assert buf[p + |a|..p + |a| + |b|] == buf[p..p + |a + b|][|a|..] == b;
  }
}
