/** Compressed DNS names as the mDNS probe reads them (RFC 1035, section 4.1.4), and the service
    names collected from a response. A label becomes text by a lossy decoding. */
module Discovery {
  import opened Bytes
  import opened DnsWire
  import DnsQuery

  /** Length bytes and pointers a name may take, its terminator included. */
  const MAX_HOPS: nat := 64

  function Target(buf: Packet, p: nat): nat
    requires p + 1 < |buf| && IsPointer(buf[p])
  {
    var high: int := buf[p];
    256 * (high - 192) + buf[p + 1]
  }

  // ---------------------------------------------------------------- what the reader computes

  function Follow(buf: Packet, p: nat, hops: nat): Option<seq<Name>>
    requires hops <= MAX_HOPS
    decreases MAX_HOPS - hops
  {
    if hops == MAX_HOPS || p >= |buf| then None
    else
      var l := buf[p];
      if l == 0 then Some([])
      else if IsPointer(l) then
        if p + 1 >= |buf| then None else Follow(buf, Target(buf, p), hops + 1)
      else if p + 1 + l > |buf| then None
      else Ahead([buf[p + 1..p + 1 + l]], Follow(buf, p + 1 + l, hops + 1))
  }

  /** `String::from_utf8_lossy`: valid UTF-8 stays as it is, and how the rest is repaired is left open. */
  type Lossy = Name -> Name

  ghost predicate KeepsUtf8(lossy: Lossy) { forall n :: Utf8(n) ==> lossy(n) == n }

  function Decoded(lossy: Lossy, labels: seq<Name>): (r: seq<Name>)
    ensures |r| == |labels| && forall i :: 0 <= i < |labels| ==> r[i] == lossy(labels[i])
  {
    seq(|labels|, i requires 0 <= i < |labels| => lossy(labels[i]))
  }

  lemma DecodedSnoc(lossy: Lossy, labels: seq<Name>, l: Name)
    ensures Decoded(lossy, labels + [l]) == Decoded(lossy, labels) + [lossy(l)]
  {
  }

  function JoinRead(lossy: Lossy, labels: Option<seq<Name>>): Option<Name> {
    if labels.None? then None else Some(Join(Decoded(lossy, labels.value)))
  }

  /** Where the name stops in place: after its terminator or its first pointer. */
  function InPlaceEnd(buf: Packet, p: nat): nat
    decreases |buf| - p
  {
    if p >= |buf| then p
    else if buf[p] == 0 then p + 1
    else if IsPointer(buf[p]) then p + 2
    else InPlaceEnd(buf, p + 1 + buf[p])
  }

  function Ahead(labels: seq<Name>, rest: Option<seq<Name>>): Option<seq<Name>> {
    if rest.None? then None else Some(labels + rest.value)
  }

  lemma AheadChain(a: seq<Name>, b: seq<Name>, r: Option<seq<Name>>)
    ensures Ahead(a, Ahead(b, r)) == Ahead(a + b, r) && Ahead([], r) == r && Ahead(a, Some([])) == Some(a)
  {
    if r.Some? {
      assert a + (b + r.value) == a + b + r.value && [] + r.value == r.value;
    }
    assert a + [] == a;
  }

  method ReadDnsName(lossy: Lossy, buf: Packet, pos: nat) returns (name: Option<Name>, end: nat)
    ensures name == JoinRead(lossy, Follow(buf, pos, 0))
    ensures name.Some? ==> end == InPlaceEnd(buf, pos)
  {
    hide Join, Target, Decoded;
    assert Decoded(lossy, []) == [];
    end := pos;
    var labels: seq<Name> := [];
    ghost var raw: seq<Name> := [];
    var jumped := false;
    var p: nat := pos;
    var guard := 0;
    ghost var whole := Follow(buf, pos, 0);
    AheadChain([], [], whole);
    while true
      invariant guard <= 64
      invariant labels == Decoded(lossy, raw) && Ahead(raw, Follow(buf, p, guard)) == whole
      invariant if jumped then end == InPlaceEnd(buf, pos) else InPlaceEnd(buf, p) == InPlaceEnd(buf, pos)
      decreases 64 - guard
    {
      if guard == 64 || p >= |buf| { return None, end; }
      guard := guard + 1;
      var l := buf[p];
      if l == 0 {
        p := p + 1;
        if !jumped { end := p; }
        AheadChain(raw, [], Some([]));
        break;
      }
      if IsPointer(l) {
        if p + 1 >= |buf| { return None, end; }
        var ptr := Target(buf, p);
        if !jumped { end := p + 2; }
        jumped := true;
        p := ptr;
        continue;
      }
      if p + 1 + l > |buf| { return None, end; }
      var part := buf[p + 1..p + 1 + l];
      AheadChain(raw, [part], Follow(buf, p + 1 + l, guard));
      DecodedSnoc(lossy, raw, part);
      raw := raw + [part];
      labels := labels + [lossy(part)];
      p := p + 1 + l;
    }
    name := Some(Join(labels));
  }

  // ---------------------------------------------------------------- what a name means

  /** At `p` the buffer spells `labels`, using `jumps` pointers on the way. */
  ghost predicate Denotes(buf: Packet, p: nat, labels: seq<Name>, jumps: nat)
    decreases |labels| + jumps
  {
    p < |buf| &&
    if buf[p] == 0 then labels == [] && jumps == 0
    else if IsPointer(buf[p]) then p + 1 < |buf| && jumps > 0 && Denotes(buf, Target(buf, p), labels, jumps - 1)
    else
      && p + 1 + buf[p] <= |buf| && labels != [] && labels[0] == buf[p + 1..p + 1 + buf[p]]
      && Denotes(buf, p + 1 + buf[p], labels[1..], jumps)
  }

  lemma {:induction false} FollowIsDenoted(buf: Packet, p: nat, hops: nat) returns (jumps: nat)
    requires hops <= MAX_HOPS && Follow(buf, p, hops).Some?
    ensures Denotes(buf, p, Follow(buf, p, hops).value, jumps)
    ensures hops + |Follow(buf, p, hops).value| + jumps < MAX_HOPS
    decreases MAX_HOPS - hops
  {
    jumps := 0;
    if buf[p] != 0 {
      if IsPointer(buf[p]) {
        var j := FollowIsDenoted(buf, Target(buf, p), hops + 1);
        jumps := j + 1;
      } else {
        jumps := FollowIsDenoted(buf, p + 1 + buf[p], hops + 1);
        var rest := Follow(buf, p + 1 + buf[p], hops + 1).value;
        assert ([buf[p + 1..p + 1 + buf[p]]] + rest)[1..] == rest;
      }
    }
  }

  lemma {:induction false} DenotedIsFollowed(buf: Packet, p: nat, labels: seq<Name>, jumps: nat, hops: nat)
    requires Denotes(buf, p, labels, jumps) && hops <= MAX_HOPS
    ensures Follow(buf, p, hops) == if hops + |labels| + jumps < MAX_HOPS then Some(labels) else None
    decreases |labels| + jumps
  {
    if hops < MAX_HOPS && buf[p] != 0 {
      if IsPointer(buf[p]) {
        DenotedIsFollowed(buf, Target(buf, p), labels, jumps - 1, hops + 1);
      } else {
        DenotedIsFollowed(buf, p + 1 + buf[p], labels[1..], jumps, hops + 1);
        assert [labels[0]] + labels[1..] == labels;
      }
    }
  }

  ghost predicate Spells(buf: Packet, p: nat, labels: seq<Name>) {
    exists jumps: nat :: Denotes(buf, p, labels, jumps) && |labels| + jumps <= 63
  }

  /** The reader returns a name exactly when the bytes spell one, pointer cycles included, with at
      most 63 labels and pointers together. */
  lemma ReadsExactlyWhatIsSpelled(buf: Packet, p: nat, labels: seq<Name>)
    ensures Follow(buf, p, 0) == Some(labels) <==> Spells(buf, p, labels)
  {
    hide Target;
    if Follow(buf, p, 0) == Some(labels) {
      var jumps := FollowIsDenoted(buf, p, 0);
      assert Spells(buf, p, labels);
    } else if Spells(buf, p, labels) {
      var jumps: nat :| Denotes(buf, p, labels, jumps) && |labels| + jumps <= 63;
      DenotedIsFollowed(buf, p, labels, jumps, 0);
    }
  }

  /** After a successful read the position has moved forward and is still in the buffer. */
  lemma {:induction false} EndAdvances(buf: Packet, p: nat, hops: nat)
    requires hops <= MAX_HOPS && Follow(buf, p, hops).Some?
    ensures p < InPlaceEnd(buf, p) <= |buf|
    decreases MAX_HOPS - hops
  {
    if buf[p] != 0 && !IsPointer(buf[p]) { EndAdvances(buf, p + 1 + buf[p], hops + 1); }
  }

  // ---------------------------------------------------------------- encoded names read back

  lemma SpellOneLabel(buf: Packet, p: nat, l: Name, rest: seq<Name>, jumps: nat)
    requires DnsQuery.LabelOk(l) && Holds(buf, p, [|l|]) && Holds(buf, p + 1, l)
    requires Denotes(buf, p + 1 + |l|, rest, jumps)
    ensures Denotes(buf, p, [l] + rest, jumps)
  {
    assert buf[p] == buf[p..p + 1][0] == |l|;
    assert ([l] + rest)[1..] == rest;
  }

  /** Labels written at `p`, followed by anything that spells `suffix`, spell both together. */
  lemma {:induction false} PrefixSpells(buf: Packet, p: nat, labels: seq<Name>, suffix: seq<Name>, jumps: nat)
    requires DnsQuery.LabelsOk(labels) && Holds(buf, p, DnsQuery.EncodeLabels(labels))
    requires Denotes(buf, p + |DnsQuery.EncodeLabels(labels)|, suffix, jumps)
    ensures Denotes(buf, p, labels + suffix, jumps)
    decreases |labels|
  {
    hide Target, Denotes, Holds;
    if labels == [] {
      assert labels + suffix == suffix;
    } else {
      hide DnsQuery.EncodeLabels;
      var l := labels[0];
      DnsQuery.FirstLabelHolds(buf, p, labels);
      PrefixSpells(buf, p + 1 + |l|, labels[1..], suffix, jumps);
      assert labels + suffix == [l] + (labels[1..] + suffix);
      SpellOneLabel(buf, p, l, labels[1..] + suffix, jumps);
    }
  }

  /** A plainly encoded name reads back when it has at most 63 labels. */
  lemma PlainNameReadsBack(buf: Packet, p: nat, labels: seq<Name>)
    requires DnsQuery.LabelsOk(labels) && Holds(buf, p, DnsQuery.EncodeLabels(labels) + [0])
    ensures Follow(buf, p, 0) == if |labels| <= 63 then Some(labels) else None
  {
    var e := DnsQuery.EncodeLabels(labels);
    HoldsParts(buf, p, e, [0]);
    assert buf[p + |e|] == buf[p + |e|..p + |e| + 1][0] == 0;
    assert Denotes(buf, p + |e|, [], 0);
    PrefixSpells(buf, p, labels, [], 0);
    assert labels + [] == labels;
    DenotedIsFollowed(buf, p, labels, 0, 0);
  }

  /** A name that ends in a pointer to an encoded suffix reads back as both together when labels
      and pointers number at most 63. */
  lemma CompressedNameReadsBack(buf: Packet, p: nat, labels: seq<Name>, target: nat, suffix: seq<Name>, jumps: nat)
    requires DnsQuery.LabelsOk(labels) && target < 0x4000 && Denotes(buf, target, suffix, jumps)
    requires Holds(buf, p, DnsQuery.EncodeLabels(labels) + [192 + target / 256, target % 256])
    ensures Follow(buf, p, 0) == if |labels| + |suffix| + jumps + 1 <= 63 then Some(labels + suffix) else None
  {
    hide Denotes, Holds, Follow, DnsQuery.EncodeLabels;
    var e := DnsQuery.EncodeLabels(labels);
    HoldsParts(buf, p, e, [192 + target / 256, target % 256]);
    PointerSpells(buf, p + |e|, target, suffix, jumps);
    PrefixSpells(buf, p, labels, suffix, jumps + 1);
    DenotedIsFollowed(buf, p, labels + suffix, jumps + 1, 0);
  }

  lemma PointerSpells(buf: Packet, at: nat, target: nat, suffix: seq<Name>, jumps: nat)
    requires target < 0x4000 && Denotes(buf, target, suffix, jumps)
    requires Holds(buf, at, [192 + target / 256, target % 256])
    ensures Denotes(buf, at, suffix, jumps + 1)
  {
    assert buf[at] == buf[at..at + 2][0] == 192 + target / 256;
    assert buf[at + 1] == buf[at..at + 2][1] == target % 256;
    assert Target(buf, at) == target;
  }

  // ---------------------------------------------------------------- agreement with the question parser

  lemma {:induction false} ParsedLabelsAreSpelled(pkt: Packet, pos: nat, steps: nat)
    requires steps <= MAX_STEPS && ReadLabels(pkt, pos, steps).Walked? && ReadLabels(pkt, pos, steps).pos < |pkt|
    ensures Denotes(pkt, pos, ReadLabels(pkt, pos, steps).labels, 0)
    ensures InPlaceEnd(pkt, pos) == ReadLabels(pkt, pos, steps).pos
    decreases MAX_STEPS - steps
  {
    hide Utf8;
    var w := ReadLabels(pkt, pos, steps);
    if pkt[pos] != 0 {
      ParsedLabelsAreSpelled(pkt, pos + 1 + pkt[pos], steps + 1);
      assert w.labels[1..] == ReadLabels(pkt, pos + 1 + pkt[pos], steps + 1).labels;
    }
  }

  lemma {:induction false} ParsedLabelsAreUtf8(pkt: Packet, pos: nat, steps: nat)
    requires steps <= MAX_STEPS && ReadLabels(pkt, pos, steps).Walked?
    ensures forall i :: 0 <= i < |ReadLabels(pkt, pos, steps).labels| ==> Utf8(ReadLabels(pkt, pos, steps).labels[i])
    decreases MAX_STEPS - steps
  {
    hide Utf8;
    if pos < |pkt| && pkt[pos] != 0 { ParsedLabelsAreUtf8(pkt, pos + 1 + pkt[pos], steps + 1); }
  }

  /** On a parsable question the two independent readers agree on name and end, up to this one's
      lower limit of 63 labels. */
  lemma ReadersAgree(lossy: Lossy, pkt: Packet)
    requires ParseSpec(pkt).Some? && KeepsUtf8(lossy)
    ensures var w := ReadLabels(pkt, HEADER, 0);
      && JoinRead(lossy, Follow(pkt, HEADER, 0)) == (if |w.labels| <= 63 then Some(ParseSpec(pkt).value.name) else None)
      && InPlaceEnd(pkt, HEADER) == w.pos
  {
    hide Join, Utf8, Follow;
    var labels := ReadLabels(pkt, HEADER, 0).labels;
    ParsedLabelsAreSpelled(pkt, HEADER, 0);
    ParsedLabelsAreUtf8(pkt, HEADER, 0);
    DenotedIsFollowed(pkt, HEADER, labels, 0, 0);
    assert Decoded(lossy, labels) == labels;
  }

  // ---------------------------------------------------------------- mDNS services

  predicate IsService(name: Name) { name != [] && name[0] == 95 }

  /** `n` questions skipped from `pos`. */
  function SkipNames(buf: Packet, pos: nat, n: nat): Option<nat>
    decreases n
  {
    if n == 0 then Some(pos)
    else if Follow(buf, pos, 0).None? then None
    else SkipNames(buf, InPlaceEnd(buf, pos) + 4, n - 1)
  }

  /** The names the PTR records among the next `n` point to. */
  function PointedNames(lossy: Lossy, buf: Packet, pos: nat, n: nat): seq<Name>
    decreases n
  {
    if n == 0 || Follow(buf, pos, 0).None? then []
    else
      var p := InPlaceEnd(buf, pos);
      if p + 10 > |buf| then []
      else
        var rdata := p + 10;
        var len := BE16(buf[p + 8], buf[p + 9]);
        if rdata + len > |buf| then []
        else
          var target := Follow(buf, rdata, 0);
          (if BE16(buf[p], buf[p + 1]) == 12 && target.Some? then [Join(Decoded(lossy, target.value))] else [])
          + PointedNames(lossy, buf, rdata + len, n - 1)
  }

  function AllPointedNames(lossy: Lossy, response: Packet): seq<Name> {
    if |response| < HEADER then []
    else match SkipNames(response, HEADER, BE16(response[4], response[5]))
      case None => []
      case Some(p) => PointedNames(lossy, response, p, BE16(response[6], response[7]))
  }

  ghost predicate DistinctNames(s: seq<Name>) { forall i, j :: 0 <= i < j < |s| ==> s[i] != s[j] }

  /** One record of the scan. */
  lemma PointedStep(lossy: Lossy, buf: Packet, pos: nat, n: nat)
    requires n > 0
    ensures var p := InPlaceEnd(buf, pos);
      if Follow(buf, pos, 0).None? || p + 10 > |buf| || p + 10 + BE16(buf[p + 8], buf[p + 9]) > |buf| then
        PointedNames(lossy, buf, pos, n) == []
      else
        var target := JoinRead(lossy, Follow(buf, p + 10, 0));
        PointedNames(lossy, buf, pos, n) ==
          (if BE16(buf[p], buf[p + 1]) == 12 && target.Some? then [target.value] else [])
          + PointedNames(lossy, buf, p + 10 + BE16(buf[p + 8], buf[p + 9]), n - 1)
  {
    hide Join, Follow, InPlaceEnd;
  }

  lemma NoneLeft(lossy: Lossy, buf: Packet, pos: nat)
    ensures PointedNames(lossy, buf, pos, 0) == []
  {
  }

  /** Collect the distinct service names among the pointed names. */
  method ScanRecords(lossy: Lossy, response: Packet, start: nat, ancount: nat) returns (services: seq<Name>)
    ensures DistinctNames(services)
    ensures forall s :: s in services <==> s in PointedNames(lossy, response, start, ancount) && IsService(s)
  {
    hide Join, Follow, InPlaceEnd, PointedNames;
    services := [];
    var pos: nat := start;
    ghost var seen: seq<Name> := [];
    for i := 0 to ancount
      invariant DistinctNames(services)
      invariant forall s :: s in services <==> s in seen && IsService(s)
      invariant seen + PointedNames(lossy, response, pos, ancount - i) == PointedNames(lossy, response, start, ancount)
    {
      assert seen + [] == seen;
      PointedStep(lossy, response, pos, ancount - i);
      var owner, p := ReadDnsName(lossy, response, pos);
      if owner.None? || p + 10 > |response| { return; }
      var rdata := p + 10;
      var rtype := BE16(response[p], response[p + 1]);
      var len := BE16(response[p + 8], response[p + 9]);
      if rdata + len > |response| { return; }
      ghost var rest := PointedNames(lossy, response, rdata + len, ancount - i - 1);
      if rtype == 12 {
        var service, unused := ReadDnsName(lossy, response, rdata);
        if service.Some? {
          assert seen + ([service.value] + rest) == seen + [service.value] + rest;
          seen := seen + [service.value];
          if IsService(service.value) && service.value !in services {
            services := services + [service.value];
          }
        } else {
          assert seen + ([] + rest) == seen + rest;
        }
      } else {
        assert seen + ([] + rest) == seen + rest;
      }
      pos := rdata + len;
    }
    NoneLeft(lossy, response, pos);
    assert seen + [] == seen;
  }

  /** The services of a response: exactly the distinct names, starting with an underscore, that
      its readable PTR records point to. */
  method ExtractMdnsServices(lossy: Lossy, response: Packet) returns (services: seq<Name>)
    ensures DistinctNames(services)
    ensures forall s :: s in services <==> s in AllPointedNames(lossy, response) && s != [] && s[0] == 95
  {
    if |response| < 12 { return []; }
    var qdcount := BE16(response[4], response[5]);
    var pos: nat := 12;
    for i := 0 to qdcount
      invariant SkipNames(response, pos, qdcount - i) == SkipNames(response, HEADER, qdcount)
    {
      var name, end := ReadDnsName(lossy, response, pos);
      if name.None? { return []; }
      pos := end + 4;
    }
    services := ScanRecords(lossy, response, pos, BE16(response[6], response[7]));
  }
}
