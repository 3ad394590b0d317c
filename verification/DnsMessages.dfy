/** RFC 1035 messages as data (section 4.1), written to bytes, and what the program's three reply
    decoders compute on them: from the records, not from the bytes. */
module DnsMessages {
  import opened Bytes
  import opened DnsWire
  import opened DnsQuery
  import opened DnsAnswers

  // ---------------------------------------------------------------- messages

  /** A name as it stands on the wire: labels, then a zero byte or a pointer. */
  datatype Owner = Owner(labels: seq<Name>, pointer: Option<nat>)

  datatype Asking = Asking(owner: Owner, qtype: u16, qclass: u16)

  datatype Record = Record(owner: Owner, rtype: u16, rclass: u16, ttl: u32, rdata: seq<byte>)

  /** `head` is the transaction ID and the flags; `counts` and `rest` are the sizes and the bytes of
      the authority and additional sections. */
  datatype Message = Message(head: seq<byte>, counts: seq<byte>, questions: seq<Asking>, answers: seq<Record>,
          rest: seq<byte>)

  function Terminator(pointer: Option<nat>): Packet
    requires pointer.Some? ==> pointer.value < 0x4000
  {
    if pointer.None? then [0] else [192 + pointer.value / 256, pointer.value % 256]
  }

  /** Labels of 1 to 63 bytes, at most 255 bytes in all (section 2.3.4). */
  ghost predicate OwnerOk(o: Owner) {
    && LabelsOk(o.labels) && (o.pointer.Some? ==> o.pointer.value < 0x4000)
    && |EncodeLabels(o.labels)| + |Terminator(o.pointer)| <= 255
  }

  ghost predicate RecordOk(r: Record) { OwnerOk(r.owner) && |r.rdata| <= U16_MAX }

  ghost predicate MessageOk(m: Message) {
    && |m.head| == 4 && |m.counts| == 4 && |m.questions| <= U16_MAX && |m.answers| <= U16_MAX
    && (forall i :: 0 <= i < |m.questions| ==> OwnerOk(m.questions[i].owner))
    && (forall i :: 0 <= i < |m.answers| ==> RecordOk(m.answers[i]))
  }

  function Two(n: u16): (s: Packet)
    ensures |s| == 2 && BE16(s[0], s[1]) == n
  {
    [n / 256, n % 256]
  }

  function Four(n: u32): (s: Packet)
    ensures |s| == 4 && BE32(s[0], s[1], s[2], s[3]) == n
  {
    var high: u16, low: u16 := n / 0x1_0000, n % 0x1_0000;
    Two(high) + Two(low)
  }

  ghost function EncodeOwner(o: Owner): Packet
    requires OwnerOk(o)
  {
    EncodeLabels(o.labels) + Terminator(o.pointer)
  }

  ghost function EncodeQuestion(q: Asking): Packet
    requires OwnerOk(q.owner)
  {
    EncodeOwner(q.owner) + (Two(q.qtype) + Two(q.qclass))
  }

  ghost function Fixed(r: Record): (s: Packet)
    requires RecordOk(r)
    ensures |s| == 10
  {
    Two(r.rtype) + Two(r.rclass) + Four(r.ttl) + Two(|r.rdata|)
  }

  ghost function EncodeRecord(r: Record): Packet
    requires RecordOk(r)
  {
    EncodeOwner(r.owner) + (Fixed(r) + r.rdata)
  }

  ghost function EncodeQuestions(qs: seq<Asking>): Packet
    requires forall i :: 0 <= i < |qs| ==> OwnerOk(qs[i].owner)
  {
    if qs == [] then [] else EncodeQuestion(qs[0]) + EncodeQuestions(qs[1..])
  }

  ghost function EncodeRecords(rs: seq<Record>): Packet
    requires forall i :: 0 <= i < |rs| ==> RecordOk(rs[i])
  {
    if rs == [] then [] else EncodeRecord(rs[0]) + EncodeRecords(rs[1..])
  }

  ghost function Header(m: Message): (h: Packet)
    requires MessageOk(m)
    ensures |h| == HEADER && BE16(h[4], h[5]) == |m.questions| && BE16(h[6], h[7]) == |m.answers|
  {
    var qd, an := Two(|m.questions|), Two(|m.answers|);
    var h := m.head + qd + an + m.counts;
    assert h[4] == qd[0] && h[5] == qd[1] && h[6] == an[0] && h[7] == an[1];
    h
  }

  ghost function Encode(m: Message): Packet
    requires MessageOk(m)
  {
    Header(m) + (EncodeQuestions(m.questions) + (EncodeRecords(m.answers) + m.rest))
  }

  // ---------------------------------------------------------------- what the records say

  /** An A record with an address in one of the private ranges, or an AAAA record likewise. */
  predicate IsPrivateRecord(r: Record) {
    if r.rtype == 1 && |r.rdata| == 4 then IsPrivateIpv4(r.rdata[0], r.rdata[1], r.rdata[2], r.rdata[3])
    else r.rtype == 28 && |r.rdata| == 16 && IsPrivateIpv6(r.rdata)
  }

  predicate IsA(r: Record) { r.rtype == 1 && |r.rdata| == 4 }

  /** A name of both labels and a pointer. */
  predicate Mixed(o: Owner) { o.labels != [] && o.pointer.Some? }

  // ---------------------------------------------------------------- walking one name

  /** A name stands at `p`. */
  ghost predicate NameAt(buf: Packet, p: nat, o: Owner) {
    && LabelsOk(o.labels) && (o.pointer.Some? ==> o.pointer.value < 0x4000)
    && Holds(buf, p, EncodeLabels(o.labels)) && Holds(buf, p + |EncodeLabels(o.labels)|, Terminator(o.pointer))
  }

  ghost function NameSize(o: Owner): nat
    requires LabelsOk(o.labels) && (o.pointer.Some? ==> o.pointer.value < 0x4000)
  {
    |EncodeLabels(o.labels)| + |Terminator(o.pointer)|
  }

  lemma NoLabelsAt(buf: Packet, p: nat, o: Owner)
    requires NameAt(buf, p, o) && o.labels == []
    ensures p + NameSize(o) <= |buf| && NameSize(o) == if o.pointer.None? then 1 else 2
    ensures if o.pointer.None? then buf[p] == 0 else buf[p] == 192 + o.pointer.value / 256 && IsPointer(buf[p])
  {
    var t := Terminator(o.pointer);
    assert EncodeLabels(o.labels) == [];
    assert buf[p..p + |t|] == t;
    assert buf[p] == buf[p..p + |t|][0] == t[0];
  }

  /** The name behind its first label. */
  function WithoutFirst(o: Owner): Owner
    requires o.labels != []
  {
    o.(labels := o.labels[1..])
  }

  lemma FirstLabelAt(buf: Packet, p: nat, o: Owner)
    requires NameAt(buf, p, o) && o.labels != []
    ensures var l := |o.labels[0]|;
      && 1 <= l <= 63 && p + 1 + l < |buf| && buf[p] == l
      && NameAt(buf, p + 1 + l, WithoutFirst(o)) && NameSize(o) == 1 + l + NameSize(WithoutFirst(o))
  {
    hide Terminator, EncodeLabels;
    var l := o.labels[0];
    FirstLabelHolds(buf, p, o.labels);
    assert LabelOk(l);
    assert buf[p] == buf[p..p + 1][0] == |l|;
    EndsInside(buf, p, o);
  }

  lemma EndsInside(buf: Packet, p: nat, o: Owner)
    requires NameAt(buf, p, o)
    ensures p + |EncodeLabels(o.labels)| < p + NameSize(o) <= |buf|
  {
    hide EncodeLabels;
  }

  lemma {:induction false} SkipNameOver(buf: Packet, p: nat, o: Owner)
    requires NameAt(buf, p, o)
    ensures p < |buf| && SkipName(buf, p) == p + NameSize(o) <= |buf|
    decreases |o.labels|
  {
    hide NameAt, NameSize;
    if o.labels == [] {
      NoLabelsAt(buf, p, o);
    } else {
      FirstLabelAt(buf, p, o);
      SkipNameOver(buf, p + 1 + |o.labels[0]|, WithoutFirst(o));
    }
  }

  lemma {:induction false} SkipOwnerOver(buf: Packet, p: nat, o: Owner, steps: nat)
    requires NameAt(buf, p, o) && steps + |o.labels| < 128
    ensures SkipOwner(buf, p, steps) == Some(p + NameSize(o))
    decreases |o.labels|
  {
    hide NameAt, NameSize;
    if o.labels == [] {
      NoLabelsAt(buf, p, o);
    } else {
      FirstLabelAt(buf, p, o);
      SkipOwnerOver(buf, p + 1 + |o.labels[0]|, WithoutFirst(o), steps + 1);
    }
  }

  lemma OwnerEndOver(buf: Packet, p: nat, o: Owner)
    requires NameAt(buf, p, o) && |o.labels| < 128
    ensures p < |buf| && OwnerEnd(buf, p) == Some(p + NameSize(o)) && p + NameSize(o) <= |buf|
  {
    hide NameAt, NameSize, SkipOwner;
    SkipNameOver(buf, p, o);
    SkipOwnerOver(buf, p, o, 0);
    if o.labels == [] { NoLabelsAt(buf, p, o); } else { FirstLabelAt(buf, p, o); }
  }

  lemma {:induction false} CountedOver(buf: Packet, p: nat, o: Owner, guard: nat)
    requires NameAt(buf, p, o) && guard + |o.labels| < 128
    ensures SkipNameCounted(buf, p, guard) == Stopped(p + NameSize(o), guard + |o.labels| + 1)
    decreases |o.labels|
  {
    hide NameAt, NameSize;
    if o.labels == [] {
      NoLabelsAt(buf, p, o);
    } else {
      FirstLabelAt(buf, p, o);
      CountedOver(buf, p + 1 + |o.labels[0]|, WithoutFirst(o), guard + 1);
    }
  }

  /** The A-record decoder's walker passes a name without a pointer, and past labels reads a pointer
      as one more label of at least 192 bytes. */
  lemma {:induction false} PlainNameOver(buf: Packet, p: nat, o: Owner)
    requires NameAt(buf, p, o)
    ensures p + NameSize(o) <= |buf|
    ensures o.pointer.None? ==> PlainNameEnd(buf, p) == Some(p + NameSize(o))
    ensures o.pointer.Some? && |buf| < p + NameSize(o) + 192 ==> PlainNameEnd(buf, p) == None
    decreases |o.labels|
  {
    hide NameAt, NameSize;
    if o.labels == [] {
      NoLabelsAt(buf, p, o);
    } else {
      FirstLabelAt(buf, p, o);
      PlainNameOver(buf, p + 1 + |o.labels[0]|, WithoutFirst(o));
    }
  }

  lemma OwnerEndForAOver(buf: Packet, p: nat, o: Owner)
    requires NameAt(buf, p, o)
    ensures p < |buf|
    ensures !Mixed(o) ==> OwnerEndForA(buf, p) == Some(p + NameSize(o))
    ensures Mixed(o) && |buf| < p + NameSize(o) + 192 ==> OwnerEndForA(buf, p) == None
  {
    hide NameAt, NameSize, PlainNameEnd;
    PlainNameOver(buf, p, o);
    if o.labels == [] { NoLabelsAt(buf, p, o); } else { FirstLabelAt(buf, p, o); }
  }

  /** 255 bytes hold at most 127 labels. */
  lemma {:induction false} LabelsFit(labels: seq<Name>)
    requires LabelsOk(labels)
    ensures 2 * |labels| <= |EncodeLabels(labels)|
  {
    if labels != [] {
      assert LabelOk(labels[0]);
      LabelsFit(labels[1..]);
    }
  }

  lemma FewLabels(o: Owner)
    requires OwnerOk(o)
    ensures |o.labels| <= 127
  {
    LabelsFit(o.labels);
  }

  // ---------------------------------------------------------------- walking records

  ghost predicate RecordsOk(rs: seq<Record>) { forall i :: 0 <= i < |rs| ==> RecordOk(rs[i]) }

  /** The fields of a record that stands at `p`. */
  lemma RecordFields(buf: Packet, p: nat, r: Record)
    requires RecordOk(r) && Holds(buf, p, EncodeRecord(r))
    ensures NameAt(buf, p, r.owner)
    ensures var q := p + NameSize(r.owner);
      && p < q && q + 10 + |r.rdata| <= |buf| && |EncodeRecord(r)| == NameSize(r.owner) + 10 + |r.rdata|
      && Holds(buf, q, Fixed(r)) && buf[q + 10..q + 10 + |r.rdata|] == r.rdata
  {
    hide EncodeLabels, Terminator, Fixed;
    var o := r.owner;
    HoldsParts(buf, p, EncodeOwner(o), Fixed(r) + r.rdata);
    HoldsParts(buf, p, EncodeLabels(o.labels), Terminator(o.pointer));
    HoldsParts(buf, p + NameSize(o), Fixed(r), r.rdata);
    EndsInside(buf, p, o);
  }

  lemma FixedFields(buf: Packet, q: nat, r: Record)
    requires RecordOk(r) && Holds(buf, q, Fixed(r))
    ensures q + 10 <= |buf| && BE16(buf[q], buf[q + 1]) == r.rtype && BE16(buf[q + 8], buf[q + 9]) == |r.rdata|
    ensures BE32(buf[q + 4], buf[q + 5], buf[q + 6], buf[q + 7]) == r.ttl
  {
    hide BE16, BE32, Two, Four;
    var f := Fixed(r);
    assert forall i :: 0 <= i < 10 ==> buf[q + i] == buf[q..q + 10][i] == f[i];
    assert buf[q + 0] == f[0] && buf[q + 1] == f[1] && buf[q + 4] == f[4] && buf[q + 5] == f[5];
    assert buf[q + 6] == f[6] && buf[q + 7] == f[7] && buf[q + 8] == f[8] && buf[q + 9] == f[9];
  }

  lemma FirstRecordHolds(buf: Packet, p: nat, rs: seq<Record>)
    requires RecordsOk(rs) && rs != [] && Holds(buf, p, EncodeRecords(rs))
    ensures RecordOk(rs[0]) && RecordsOk(rs[1..])
    ensures Holds(buf, p, EncodeRecord(rs[0])) && Holds(buf, p + |EncodeRecord(rs[0])|, EncodeRecords(rs[1..]))
    ensures |EncodeRecords(rs)| == |EncodeRecord(rs[0])| + |EncodeRecords(rs[1..])|
  {
    hide EncodeRecord, RecordOk;
    assert EncodeRecords(rs) == EncodeRecord(rs[0]) + EncodeRecords(rs[1..]);
    hide EncodeRecords, Holds;
    HoldsParts(buf, p, EncodeRecord(rs[0]), EncodeRecords(rs[1..]));
  }

  /** Where the fixed fields of the first record and the next record stand, with the fields read. */
  lemma FirstRecordAt(buf: Packet, p: nat, rs: seq<Record>) returns (q: nat, next: nat)
    requires RecordsOk(rs) && rs != [] && Holds(buf, p, EncodeRecords(rs))
    ensures var r := rs[0];
      && RecordOk(r) && RecordsOk(rs[1..]) && NameAt(buf, p, r.owner) && q == p + NameSize(r.owner)
      && p < q && next == q + 10 + |r.rdata| <= |buf|
      && BE16(buf[q], buf[q + 1]) == r.rtype && BE16(buf[q + 8], buf[q + 9]) == |r.rdata|
      && BE32(buf[q + 4], buf[q + 5], buf[q + 6], buf[q + 7]) == r.ttl && buf[q + 10..next] == r.rdata
      && Holds(buf, next, EncodeRecords(rs[1..])) && next == p + |EncodeRecord(r)|
      && p + |EncodeRecords(rs)| == next + |EncodeRecords(rs[1..])|
  {
    hide BE16, BE32, EncodeRecords, EncodeRecord, NameAt, NameSize, Fixed;
    FirstRecordHolds(buf, p, rs);
    RecordFields(buf, p, rs[0]);
    q := p + NameSize(rs[0].owner);
    next := q + 10 + |rs[0].rdata|;
    FixedFields(buf, q, rs[0]);
  }

  lemma SameRecord(buf: Packet, p: nat, r: Record)
    requires p + |r.rdata| <= |buf| && buf[p..p + |r.rdata|] == r.rdata
    ensures PrivateRecord(buf, p, r.rtype, |r.rdata|) <==> IsPrivateRecord(r)
    ensures IsA(r) ==> buf[p..p + 4] == r.rdata
  {
    hide IsPrivateIpv4, IsPrivateIpv6;
    assert |r.rdata| == 4 ==> buf[p] == r.rdata[0] && buf[p + 1] == r.rdata[1];
    assert |r.rdata| == 4 ==> buf[p + 2] == r.rdata[2] && buf[p + 3] == r.rdata[3];
  }

  ghost predicate AnyPrivate(rs: seq<Record>) { exists i :: 0 <= i < |rs| && IsPrivateRecord(rs[i]) }

  lemma {:induction false} PrivateScanOver(buf: Packet, p: nat, rs: seq<Record>)
    requires RecordsOk(rs) && Holds(buf, p, EncodeRecords(rs))
    ensures PrivateScan(buf, p, |rs|) <==> AnyPrivate(rs)
    decreases |rs|
  {
    hide BE16, BE32, EncodeRecords, EncodeRecord, RecordOk, RecordsOk;
    hide NameAt, NameSize, IsPrivateRecord, PrivateRecord, SkipName, Holds;
    if rs != [] {
      var q, next := FirstRecordAt(buf, p, rs);
      SkipNameOver(buf, p, rs[0].owner);
      SameRecord(buf, q + 10, rs[0]);
      PrivateScanOver(buf, next, rs[1..]);
      assert forall i :: 0 < i < |rs| ==> rs[i] == rs[1..][i - 1];
      assert forall i :: 0 <= i < |rs| - 1 ==> rs[1..][i] == rs[i + 1];
    }
  }

  /** `t` is the least of `top` and the TTLs of `rs`. */
  ghost predicate IsLeast(t: u32, top: u32, rs: seq<Record>) {
    && t <= top && (forall i :: 0 <= i < |rs| ==> t <= rs[i].ttl)
    && (t == top || exists i :: 0 <= i < |rs| && rs[i].ttl == t)
  }

  lemma LeastBehind(t: u32, top: u32, r: Record, rs: seq<Record>)
    requires IsLeast(t, if r.ttl < top then r.ttl else top, rs)
    ensures IsLeast(t, top, [r] + rs)
  {
    var all := [r] + rs;
    assert all[0] == r && forall i :: 0 <= i < |rs| ==> all[i + 1] == rs[i];
  }

  /** The TTL scan takes the least TTL of the records its guard lets it reach. */
  lemma {:induction false} TtlScanOver(buf: Packet, p: nat, rs: seq<Record>, guard: nat, top: u32)
    requires RecordsOk(rs) && Holds(buf, p, EncodeRecords(rs)) && guard <= 256
    ensures TtlScan(buf, p, |rs|, guard, top).Some?
    ensures IsLeast(TtlScan(buf, p, |rs|, guard, top).value, top, rs[..Min(|rs|, 256 - guard)])
    decreases |rs|
  {
    hide BE16, BE32, EncodeRecords, EncodeRecord, RecordsOk, NameAt, NameSize, OwnerEnd, IsLeast, Holds;
    if rs != [] && guard < 256 {
      var q, next := FirstRecordAt(buf, p, rs);
      FewLabels(rs[0].owner);
      OwnerEndOver(buf, p, rs[0].owner);
      var lower := if rs[0].ttl < top then rs[0].ttl else top;
      TtlScanOver(buf, next, rs[1..], guard + 1, lower);
      var n := Min(|rs|, 256 - guard);
      assert rs[..n] == [rs[0]] + rs[1..][..n - 1];
      LeastBehind(TtlScan(buf, p, |rs|, guard, top).value, top, rs[0], rs[1..][..n - 1]);
    } else {
      NothingIsLeast(top, rs[..Min(|rs|, 256 - guard)]);
    }
  }

  lemma NothingIsLeast(top: u32, rs: seq<Record>)
    requires rs == []
    ensures IsLeast(top, top, rs)
  {
  }

  /** The first A record is at `i`, or there is none and `i` is the end. */
  ghost predicate FirstAAt(rs: seq<Record>, i: nat) {
    i <= |rs| && (forall j :: 0 <= j < i ==> !IsA(rs[j])) && (i < |rs| ==> IsA(rs[i]))
  }

  lemma {:induction false} FirstAScanOver(buf: Packet, p: nat, rs: seq<Record>, i: nat)
    requires RecordsOk(rs) && Holds(buf, p, EncodeRecords(rs)) && FirstAAt(rs, i)
    requires forall j :: 0 <= j <= i && j < |rs| ==> !Mixed(rs[j].owner)
    ensures FirstAScan(buf, p, |rs|) == if i < |rs| then Some(rs[i].rdata) else None
    decreases |rs|
  {
    hide BE16, BE32, EncodeRecords, EncodeRecord, RecordsOk, RecordOk, NameAt, NameSize, OwnerEndForA, Mixed, Holds;
    if rs != [] {
      var q, next := FirstRecordAt(buf, p, rs);
      OwnerEndForAOver(buf, p, rs[0].owner);
      SameRecord(buf, q + 10, rs[0]);
      if i > 0 {
        assert forall j :: 0 <= j < |rs| - 1 ==> rs[1..][j] == rs[j + 1];
        FirstAScanOver(buf, next, rs[1..], i - 1);
      }
    }
  }

  /** The bytes of the records after the name of record `j`. */
  ghost function AfterName(rs: seq<Record>, j: nat): nat
    requires RecordsOk(rs) && j < |rs|
  {
    10 + |rs[j].rdata| + |EncodeRecords(rs[j + 1..])|
  }

  /** A mixed name before the end of the first A record hides it if fewer than 192 bytes follow. */
  lemma {:induction false} MixedNameHides(buf: Packet, p: nat, rs: seq<Record>, i: nat, j: nat)
    requires RecordsOk(rs) && Holds(buf, p, EncodeRecords(rs)) && FirstAAt(rs, i)
    requires j <= i && j < |rs| && Mixed(rs[j].owner) && (forall k :: 0 <= k < j ==> !Mixed(rs[k].owner))
    requires |buf| - (p + |EncodeRecords(rs)|) + AfterName(rs, j) < 192
    ensures FirstAScan(buf, p, |rs|) == None
    decreases |rs|
  {
    hide BE16, BE32, EncodeRecords, EncodeRecord, RecordsOk, RecordOk, NameAt, OwnerEndForA, Mixed, Holds, EncodeLabels;
    var q, next := FirstRecordAt(buf, p, rs);
    OwnerEndForAOver(buf, p, rs[0].owner);
    if j > 0 {
      SameRecord(buf, q + 10, rs[0]);
      assert forall k :: 0 <= k < |rs| - 1 ==> rs[1..][k] == rs[k + 1];
      hide AfterName;
      MixedNameHides(buf, next, rs[1..], i - 1, j - 1);
    }
  }

  // ---------------------------------------------------------------- walking questions

  ghost predicate QuestionsOk(qs: seq<Asking>) { forall i :: 0 <= i < |qs| ==> OwnerOk(qs[i].owner) }

  lemma FirstQuestionEncoded(qs: seq<Asking>)
    requires QuestionsOk(qs) && qs != []
    ensures OwnerOk(qs[0].owner) && QuestionsOk(qs[1..])
    ensures EncodeQuestions(qs) == EncodeQuestion(qs[0]) + EncodeQuestions(qs[1..])
  {
    hide OwnerOk, EncodeQuestion;
  }

  /** A question that stands at `p`. */
  lemma QuestionHolds(buf: Packet, p: nat, q: Asking)
    requires OwnerOk(q.owner) && Holds(buf, p, EncodeQuestion(q))
    ensures NameAt(buf, p, q.owner) && p + NameSize(q.owner) + 4 <= |buf|
    ensures |EncodeQuestion(q)| == NameSize(q.owner) + 4
  {
    var o, tail := q.owner, Two(q.qtype) + Two(q.qclass);
    hide Two, EncodeLabels, Terminator, Holds;
    HoldsParts(buf, p, EncodeOwner(o), tail);
    HoldsParts(buf, p, EncodeLabels(o.labels), Terminator(o.pointer));
  }

  lemma FirstQuestionAt(buf: Packet, p: nat, qs: seq<Asking>)
    requires QuestionsOk(qs) && qs != [] && Holds(buf, p, EncodeQuestions(qs))
    ensures var q := qs[0]; var next := p + NameSize(q.owner) + 4;
      && OwnerOk(q.owner) && QuestionsOk(qs[1..]) && NameAt(buf, p, q.owner) && next <= |buf|
      && Holds(buf, next, EncodeQuestions(qs[1..])) && next == p + |EncodeQuestion(q)|
      && |EncodeQuestions(qs)| == |EncodeQuestion(q)| + |EncodeQuestions(qs[1..])|
  {
    hide Holds, EncodeQuestion, EncodeQuestions, NameAt, NameSize;
    FirstQuestionEncoded(qs);
    hide OwnerOk, QuestionsOk;
    HoldsParts(buf, p, EncodeQuestion(qs[0]), EncodeQuestions(qs[1..]));
    QuestionHolds(buf, p, qs[0]);
  }

  lemma {:induction false} QuestionsOver(buf: Packet, p: nat, qs: seq<Asking>)
    requires QuestionsOk(qs) && Holds(buf, p, EncodeQuestions(qs))
    ensures SkipQuestions(buf, p, |qs|) == Some(p + |EncodeQuestions(qs)|)
    ensures SkipQuestionsUnchecked(buf, p, |qs|) == p + |EncodeQuestions(qs)|
    decreases |qs|
  {
    hide NameAt, NameSize, QuestionsOk, Holds, EncodeQuestion, SkipName, EncodeLabels, Terminator, LabelsOk;
    if qs != [] {
      hide EncodeQuestions, OwnerOk;
      FirstQuestionAt(buf, p, qs);
      SkipNameOver(buf, p, qs[0].owner);
      QuestionsOver(buf, p + NameSize(qs[0].owner) + 4, qs[1..]);
    }
  }

  // ---------------------------------------------------------------- the decoders on messages

  /** Where the sections of a message stand. */
  lemma Sections(m: Message) returns (at: nat)
    requires MessageOk(m)
    ensures QuestionsOk(m.questions) && RecordsOk(m.answers)
    ensures var b := Encode(m);
      && |b| == HEADER + |EncodeQuestions(m.questions)| + |EncodeRecords(m.answers)| + |m.rest|
      && BE16(b[4], b[5]) == |m.questions| && BE16(b[6], b[7]) == |m.answers|
      && Holds(b, HEADER, EncodeQuestions(m.questions)) && at == HEADER + |EncodeQuestions(m.questions)|
      && Holds(b, at, EncodeRecords(m.answers))
  {
    hide BE16, Header, EncodeQuestions, EncodeRecords, OwnerOk, RecordOk;
    var b, h := Encode(m), Header(m);
    var qs, rs := EncodeQuestions(m.questions), EncodeRecords(m.answers);
    var tail := qs + (rs + m.rest);
    assert b == h + tail;
    hide Encode, Holds;
    assert b[4] == h[4] && b[5] == h[5] && b[6] == h[6] && b[7] == h[7];
    WholeHolds(b);
    HoldsParts(b, 0, h, tail);
    HoldsParts(b, HEADER, qs, rs + m.rest);
    at := HEADER + |qs|;
    HoldsParts(b, at, rs, m.rest);
  }

  lemma WholeHolds(b: Packet)
    ensures Holds(b, 0, b)
  {
  }

  /** The scan for private addresses is exact on every message: it reports one if and only if an
      answer record is a private A or AAAA record. */
  lemma PrivateIsExact(m: Message)
    requires MessageOk(m)
    ensures HasPrivateAddress(Encode(m)) <==> AnyPrivate(m.answers)
  {
    hide Encode, EncodeQuestions, EncodeRecords, MessageOk, PrivateScan, SkipQuestions, BE16, IsPrivateRecord, Holds;
    var at := Sections(m);
    QuestionsOver(Encode(m), HEADER, m.questions);
    PrivateScanOver(Encode(m), at, m.answers);
  }

  /** On a message with one question the decoder finds the least TTL of the answers, as far as its
      guard lets it read: all of them, unless they and the question's labels number more than 255.
      A least TTL of 2^32 - 1 counts as none. */
  lemma MinTtlIsLeast(m: Message)
    requires MessageOk(m) && |m.questions| == 1
    ensures |m.questions[0].owner.labels| <= 127
    ensures var n := Min(|m.answers|, 255 - |m.questions[0].owner.labels|);
      match MinTtl(Encode(m))
      case None => forall i :: 0 <= i < n ==> m.answers[i].ttl == U32_MAX
      case Some(t) =>
        && t < U32_MAX && (forall i :: 0 <= i < n ==> t <= m.answers[i].ttl)
        && exists i :: 0 <= i < n && m.answers[i].ttl == t
  {
    hide Encode, EncodeQuestions, EncodeRecords, MessageOk, TtlScan, SkipNameCounted, BE16, Holds, NameAt, NameSize;
    var b, o := Encode(m), m.questions[0].owner;
    var at := Sections(m);
    FirstQuestionAt(b, HEADER, m.questions);
    OneQuestion(m.questions);
    FewLabels(o);
    CountedOver(b, HEADER, o, 0);
    TtlScanOver(b, at, m.answers, |o.labels| + 1, U32_MAX);
    var n := Min(|m.answers|, 255 - |o.labels|);
    assert forall i :: 0 <= i < n ==> m.answers[..n][i] == m.answers[i];
  }

  lemma OneQuestion(qs: seq<Asking>)
    requires QuestionsOk(qs) && |qs| == 1
    ensures EncodeQuestions(qs) == EncodeQuestion(qs[0])
  {
    assert EncodeQuestions(qs[1..]) == [];
  }

  /** When no name up to it mixes labels with a pointer, the decoder finds the first A record, and
      none when there is none. */
  lemma FirstAIsFirst(m: Message, i: nat)
    requires MessageOk(m) && FirstAAt(m.answers, i)
    requires forall j :: 0 <= j <= i && j < |m.answers| ==> !Mixed(m.answers[j].owner)
    ensures FirstA(Encode(m)) == if i < |m.answers| then Some(m.answers[i].rdata) else None
  {
    hide Encode, EncodeQuestions, EncodeRecords, MessageOk, FirstAScan;
    hide SkipQuestionsUnchecked, BE16, Holds, FirstAAt, Mixed;
    var at := Sections(m);
    QuestionsOver(Encode(m), HEADER, m.questions);
    FirstAScanOver(Encode(m), at, m.answers, i);
  }

  /** Otherwise it reads that pointer as a label of at least 192 bytes, and when fewer bytes follow
      the name in the message it finds nothing, whatever A records there are. */
  lemma MixedNameHidesA(m: Message, i: nat, j: nat)
    requires MessageOk(m) && FirstAAt(m.answers, i)
    requires j <= i && j < |m.answers| && Mixed(m.answers[j].owner)
    requires forall k :: 0 <= k < j ==> !Mixed(m.answers[k].owner)
    requires AfterName(m.answers, j) + |m.rest| < 192
    ensures FirstA(Encode(m)) == None
  {
    hide Encode, EncodeQuestions, EncodeRecords, MessageOk, FirstAScan, SkipQuestionsUnchecked;
    hide BE16, Holds, FirstAAt, Mixed, AfterName;
    var at := Sections(m);
    QuestionsOver(Encode(m), HEADER, m.questions);
    MixedNameHides(Encode(m), at, m.answers, i, j);
  }

  /** Fewer than 192 bytes follow the first mixed name, if there is one up to record `i`. */
  ghost predicate MixedNearEnd(m: Message, i: nat)
    requires MessageOk(m) && i < |m.answers|
  {
    forall j :: 0 <= j <= i && Mixed(m.answers[j].owner) && (forall k :: 0 <= k < j ==> !Mixed(m.answers[k].owner)) ==>
      AfterName(m.answers, j) + |m.rest| < 192
  }

  /** So the first A record is found if and only if no name up to it mixes labels with a pointer,
      provided fewer than 192 bytes follow the first that does. */
  lemma FirstAExactly(m: Message, i: nat)
    requires MessageOk(m) && FirstAAt(m.answers, i) && i < |m.answers| && MixedNearEnd(m, i)
    ensures FirstA(Encode(m)) == Some(m.answers[i].rdata) <==> forall j :: 0 <= j <= i ==> !Mixed(m.answers[j].owner)
  {
    hide Encode, MessageOk, FirstA, FirstAAt, Mixed, AfterName;
    if forall j :: 0 <= j <= i ==> !Mixed(m.answers[j].owner) {
      FirstAIsFirst(m, i);
    } else {
      var any :| 0 <= any <= i && Mixed(m.answers[any].owner);
      var j := FirstMixed(m.answers, any);
      MixedNameHidesA(m, i, j);
    }
  }

  lemma {:induction false} FirstMixed(rs: seq<Record>, any: nat) returns (j: nat)
    requires any < |rs| && Mixed(rs[any].owner)
    ensures j <= any && Mixed(rs[j].owner) && forall k :: 0 <= k < j ==> !Mixed(rs[k].owner)
  {
    if k: nat :| k < any && Mixed(rs[k].owner) {
      j := FirstMixed(rs, k);
    } else {
      j := any;
    }
  }

  // ---------------------------------------------------------------- the question parser on messages

  /** A message whose first question has a plain name of valid text parses to that question. */
  lemma MessageParses(m: Message)
    requires MessageOk(m) && m.questions != [] && m.questions[0].owner.pointer.None?
    requires m.questions[0].owner.labels != []
    requires forall i :: 0 <= i < |m.questions[0].owner.labels| ==> Utf8(m.questions[0].owner.labels[i])
    ensures ParseSpec(Encode(m)) == Some(Question(Join(m.questions[0].owner.labels), m.questions[0].qtype))
  {
    hide Utf8, Encode, EncodeQuestion, EncodeQuestions, EncodeRecords, MessageOk;
    hide BE16, NameSize, ReadLabels, Join, LabelsOk, EncodeLabels;
    var b, q := Encode(m), m.questions[0];
    var at := Sections(m);
    FirstQuestionAt(b, HEADER, m.questions);
    FirstQuestionHolds(b, HEADER, m.questions);
    QuestionType(b, HEADER, q);
    FewLabels(q.owner);
    ReadEncoded(b, HEADER, q.owner.labels, 0);
    assert NameSize(q.owner) == |EncodeLabels(q.owner.labels)| + 1 by { PlainSize(q.owner); }
  }

  lemma PlainSize(o: Owner)
    requires LabelsOk(o.labels) && o.pointer.None?
    ensures NameSize(o) == |EncodeLabels(o.labels)| + 1
  {
  }

  lemma FirstQuestionHolds(buf: Packet, p: nat, qs: seq<Asking>)
    requires QuestionsOk(qs) && qs != [] && Holds(buf, p, EncodeQuestions(qs))
    ensures OwnerOk(qs[0].owner) && Holds(buf, p, EncodeQuestion(qs[0]))
  {
    hide Holds, EncodeQuestion;
    FirstQuestionEncoded(qs);
    hide EncodeQuestions, OwnerOk;
    HoldsParts(buf, p, EncodeQuestion(qs[0]), EncodeQuestions(qs[1..]));
  }

  lemma QuestionType(buf: Packet, p: nat, q: Asking)
    requires OwnerOk(q.owner) && Holds(buf, p, EncodeQuestion(q))
    ensures var e := p + NameSize(q.owner); e + 4 <= |buf| && BE16(buf[e], buf[e + 1]) == q.qtype
  {
    var o, t, c := q.owner, Two(q.qtype), Two(q.qclass);
    hide Two, EncodeLabels, Terminator, BE16;
    var e := p + NameSize(o);
    assert EncodeQuestion(q) == EncodeOwner(o) + (t + c) && |EncodeOwner(o)| == NameSize(o);
    hide Holds, EncodeQuestion, EncodeOwner, NameSize;
    HoldsParts(buf, p, EncodeOwner(o), t + c);
    HoldsParts(buf, e, t, c);
  }

  // ---------------------------------------------------------------- three replies read wrongly

  const A: Name := [97]
  const B: Name := [98]
  const REPLY_HEAD: seq<byte> := [0, 1, 129, 128]
  const NO_COUNTS: seq<byte> := [0, 0, 0, 0]

  lemma OneByteLabels()
    ensures EncodeLabels([]) == [] && EncodeLabels([A]) == [1, 97] && EncodeLabels([B]) == [1, 98]
    ensures EncodeLabels([B, A]) == [1, 98, 1, 97] && Utf8(A) && Utf8(B)
  {
    assert [A][1..] == [] && [B][1..] == [] && [B, A][1..] == [A];
    assert EncodeLabels([A]) == [1] + A + EncodeLabels([]) && EncodeLabels([B]) == [1] + B + EncodeLabels([]);
    assert EncodeLabels([B, A]) == [1] + B + EncodeLabels([A]);
    AsciiIsUtf8(A);
    AsciiIsUtf8(B);
  }

  /** An A record for "a" with TTL 5, in a reply without a question. */
  const UNASKED: Message := Message(REPLY_HEAD, NO_COUNTS, [], [Record(Owner([A], None), 1, 1, 5, [8, 8, 8, 8])], [])

  lemma UnaskedBytes()
    ensures MessageOk(UNASKED)
    ensures var b := Encode(UNASKED);
      && |b| == 29 && b[0] == 0 && b[1] == 1 && b[2] == 129 && BE16(b[6], b[7]) == 1
      && b[12] == 1 && b[13..14] == A && b[14] == 0 && BE16(b[15], b[16]) == 1 && b[19] == 0
  {
    hide Encode, EncodeRecord, Holds, NameAt, NameSize, Header, Utf8;
    OneByteLabels();
    assert OwnerOk(UNASKED.answers[0].owner) && RecordOk(UNASKED.answers[0]);
    hide EncodeLabels;
    assert MessageOk(UNASKED);
    EmptySections();
    var b := Encode(UNASKED);
    var at := Sections(UNASKED);
    HeadBytes(UNASKED);
    var q, next := FirstRecordAt(b, at, UNASKED.answers);
    SingleName(b, at);
    assert BE32(b[19], b[20], b[21], b[22]) == 5;
  }

  lemma EmptySections()
    ensures EncodeQuestions([]) == [] && EncodeRecords(UNASKED.answers[1..]) == []
  {
  }

  lemma HeadBytes(m: Message)
    requires MessageOk(m)
    ensures |Encode(m)| >= 4 && Encode(m)[..4] == m.head
  {
    hide Two, EncodeQuestions, EncodeRecords;
  }

  lemma SingleName(b: Packet, p: nat)
    requires NameAt(b, p, Owner([A], None))
    ensures NameSize(Owner([A], None)) == 3 && p + 3 <= |b| && b[p] == 1 && b[p + 1..p + 2] == A && b[p + 2] == 0
  {
    OneByteLabels();
    hide EncodeLabels;
    assert b[p..p + 2] == [1, 97] && b[p + 2..p + 3] == [0];
    assert b[p] == b[p..p + 2][0] && b[p + 1] == b[p..p + 2][1] && b[p + 2] == b[p + 2..p + 3][0];
  }

  /** The TTL decoder skips one question whether there is one or not. This reply parses like a query
      for "a", because its answer stands where the question would, but the decoder finds no TTL. */
  lemma NoQuestionMisleads()
    ensures MessageOk(UNASKED) && ParseSpec(Encode(UNASKED)) == Some(Question(A, 1)) && MinTtl(Encode(UNASKED)) == None
  {
    hide Encode;
    UnaskedBytes();
  }

  function CrowdedRecord(i: nat): Record { Record(Owner([], Some(12)), 1, 1, if i < 254 then 60 else 1, [8, 8, 8, 8]) }

  /** 255 A records for "a", all with TTL 60 but the last, which has TTL 1. */
  function Crowded(): (m: Message)
    ensures |m.answers| == 255 && forall i :: 0 <= i < 255 ==> m.answers[i] == CrowdedRecord(i)
  {
    Message(REPLY_HEAD, NO_COUNTS, [Asking(Owner([A], None), 1, 1)],
            seq(255, i requires 0 <= i < 255 => CrowdedRecord(i)), [])
  }

  lemma CrowdedOk()
    ensures MessageOk(Crowded())
  {
    OneByteLabels();
    hide EncodeLabels;
    assert forall i: nat :: RecordOk(CrowdedRecord(i));
  }

  /** The TTL decoder counts the question's length bytes and the answers against one limit of 256: of
      this reply it does not read the last answer. */
  lemma LastAnswerIsNotRead()
    ensures MessageOk(Crowded()) && ParseSpec(Encode(Crowded())) == Some(Question(A, 1))
    ensures |Crowded().answers| == 255 && Crowded().answers[254].ttl == 1 && MinTtl(Encode(Crowded())) == Some(60)
  {
    hide Encode, MessageOk, Utf8, ParseSpec, MinTtl, CrowdedRecord;
    CrowdedOk();
    var m := Crowded();
    assert m.questions == [Asking(Owner([A], None), 1, 1)];
    assert m.answers[254] == CrowdedRecord(254) && CrowdedRecord(254).ttl == 1 by { CrowdedTtl(254); }
    forall i | 0 <= i < 254 ensures m.answers[i].ttl == 60 { CrowdedTtl(i); }
    hide Crowded;
    OneByteLabels();
    MessageParses(m);
    FirstsSet(m, 60);
  }

  lemma CrowdedTtl(i: nat)
    ensures CrowdedRecord(i).ttl == if i < 254 then 60 else 1
  {
  }

  /** With a one-label question and 255 answers, the first 254 decide. */
  lemma FirstsSet(m: Message, t: u32)
    requires MessageOk(m) && |m.questions| == 1 && |m.questions[0].owner.labels| == 1 && |m.answers| == 255
    requires t < U32_MAX
    requires forall i :: 0 <= i < 254 ==> m.answers[i].ttl == t
    ensures MinTtl(Encode(m)) == Some(t)
  {
    hide Encode, MessageOk, MinTtl;
    MinTtlIsLeast(m);
    assert m.answers[0].ttl == t;
  }

  /** An A record for "b.a" whose owner is "b" and a pointer to the "a" of the question. */
  const SHARED: Message := Message(REPLY_HEAD, NO_COUNTS, [Asking(Owner([B, A], None), 1, 1)],
                                   [Record(Owner([B], Some(14)), 1, 1, 60, [8, 8, 8, 8])], [])

  lemma SharedOk()
    ensures MessageOk(SHARED) && AfterName(SHARED.answers, 0) == 14 && Join([B, A]) == B + [DOT] + A
  {
    OneByteLabels();
    hide EncodeLabels;
    assert OwnerOk(SHARED.questions[0].owner) && OwnerOk(SHARED.answers[0].owner);
    assert [B, A][1..] == [A];
  }

  /** The A-record decoder misses the only answer of this reply. */
  lemma SharedSuffixHidesAnswer()
    ensures MessageOk(SHARED) && ParseSpec(Encode(SHARED)) == Some(Question(B + [DOT] + A, 1))
    ensures IsA(SHARED.answers[0]) && FirstA(Encode(SHARED)) == None
  {
    OneByteLabels();
    SharedOk();
    hide Encode, MessageOk, Utf8, EncodeLabels, AfterName, ParseSpec, FirstA, Join;
    MessageParses(SHARED);
    MixedNameHidesA(SHARED, 0, 0);
  }
}
