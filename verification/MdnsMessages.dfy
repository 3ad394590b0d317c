/** The service names of an mDNS response, by its records. */
module MdnsMessages {
  import opened Bytes
  import opened DnsWire
  import opened DnsMessages
  import opened Discovery
  import DnsQuery

  /** A name in place ends where its bytes do. */
  lemma {:induction false} InPlaceEndOver(buf: Packet, p: nat, o: Owner)
    requires NameAt(buf, p, o)
    ensures p < |buf| && InPlaceEnd(buf, p) == p + NameSize(o) <= |buf|
    decreases |o.labels|
  {
    hide NameAt, NameSize;
    if o.labels == [] {
      NoLabelsAt(buf, p, o);
    } else {
      FirstLabelAt(buf, p, o);
      InPlaceEndOver(buf, p + 1 + |o.labels[0]|, WithoutFirst(o));
    }
  }

  /** Every question's name, from `p` on, can be read. */
  ghost predicate QuestionsReadable(buf: Packet, p: nat, qs: seq<Asking>)
    requires QuestionsOk(qs)
    decreases |qs|
  {
    qs == [] || (Follow(buf, p, 0).Some? && QuestionsReadable(buf, p + |EncodeQuestion(qs[0])|, qs[1..]))
  }

  /** Every record's owner, from `p` on, can be read. */
  ghost predicate OwnersReadable(buf: Packet, p: nat, rs: seq<Record>)
    requires RecordsOk(rs)
    decreases |rs|
  {
    rs == [] || (Follow(buf, p, 0).Some? && OwnersReadable(buf, p + |EncodeRecord(rs[0])|, rs[1..]))
  }

  /** What the PTR records (type 12) from `p` on point to, where that can be read. */
  ghost function Targets(lossy: Lossy, buf: Packet, p: nat, rs: seq<Record>): seq<Name>
    requires RecordsOk(rs)
    decreases |rs|
  {
    if rs == [] then []
    else
      var target := JoinRead(lossy, Follow(buf, p + |EncodeRecord(rs[0])| - |rs[0].rdata|, 0));
      (if rs[0].rtype == 12 && target.Some? then [target.value] else [])
      + Targets(lossy, buf, p + |EncodeRecord(rs[0])|, rs[1..])
  }

  lemma {:induction false} QuestionsSkipped(buf: Packet, p: nat, qs: seq<Asking>)
    requires QuestionsOk(qs) && Holds(buf, p, EncodeQuestions(qs)) && QuestionsReadable(buf, p, qs)
    ensures SkipNames(buf, p, |qs|) == Some(p + |EncodeQuestions(qs)|)
    decreases |qs|
  {
    hide NameAt, NameSize, QuestionsOk, Holds, EncodeQuestions, EncodeQuestion, InPlaceEnd, Follow;
    hide DnsQuery.EncodeLabels, DnsQuery.LabelsOk;
    if qs == [] {
      NoQuestions();
    } else {
      FirstQuestionAt(buf, p, qs);
      InPlaceEndOver(buf, p, qs[0].owner);
      QuestionsSkipped(buf, p + |EncodeQuestion(qs[0])|, qs[1..]);
    }
  }

  lemma NoQuestions()
    ensures EncodeQuestions([]) == []
  {
  }

  lemma {:induction false} RecordsScanned(lossy: Lossy, buf: Packet, p: nat, rs: seq<Record>)
    requires RecordsOk(rs) && Holds(buf, p, EncodeRecords(rs)) && OwnersReadable(buf, p, rs)
    ensures PointedNames(lossy, buf, p, |rs|) == Targets(lossy, buf, p, rs)
    decreases |rs|
  {
    hide NameAt, NameSize, RecordsOk, RecordOk, Holds, EncodeRecords, EncodeRecord, InPlaceEnd, Follow;
    hide PointedNames, BE16, BE32, JoinRead, Join;
    if rs == [] {
      NoneLeft(lossy, buf, p);
    } else {
      var q, next := FirstRecordAt(buf, p, rs);
      InPlaceEndOver(buf, p, rs[0].owner);
      PointedStep(lossy, buf, p, |rs|);
      RecordsScanned(lossy, buf, next, rs[1..]);
    }
  }

  /** In a message whose question and owner names can be read, the names collected are those its PTR
      records point to. */
  lemma ServicesAreTargets(lossy: Lossy, m: Message)
    requires MessageOk(m)
    ensures QuestionsOk(m.questions) && RecordsOk(m.answers)
    ensures var b, at := Encode(m), 12 + |EncodeQuestions(m.questions)|;
      QuestionsReadable(b, 12, m.questions) && OwnersReadable(b, at, m.answers) ==>
        AllPointedNames(lossy, b) == Targets(lossy, b, at, m.answers)
  {
    hide Encode, EncodeQuestions, EncodeRecords, MessageOk, PointedNames, SkipNames, BE16, Holds;
    hide QuestionsReadable, OwnersReadable;
    var b := Encode(m);
    var at := Sections(m);
    if QuestionsReadable(b, 12, m.questions) && OwnersReadable(b, at, m.answers) {
      QuestionsSkipped(b, 12, m.questions);
      RecordsScanned(lossy, b, at, m.answers);
    }
  }
}
