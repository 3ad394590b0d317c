/** The query the program sends when it resolves a feed host, and its round trip through the
    question parser. */
module DnsQuery {
  import opened Bytes
  import opened DnsWire
  import opened DomainRules

  // ---------------------------------------------------------------- text helpers

  /** ASCII white space, as `str::trim` removes it. */
  predicate IsSpace(b: byte) { 9 <= b <= 13 || b == 32 }

  function TrimStart(s: Name): (t: Name)
    ensures |t| <= |s| && t == s[|s| - |t|..]
  {
    if s != [] && IsSpace(s[0]) then TrimStart(s[1..]) else s
  }

  function TrimEnd(s: Name): (t: Name)
    ensures |t| <= |s| && t == s[..|t|]
  {
    if s != [] && IsSpace(s[|s| - 1]) then TrimEnd(s[..|s| - 1]) else s
  }

  /** `host.trim().trim_end_matches('.')`. */
  function Trimmed(host: Name): (t: Name)
    ensures |t| <= |host| && (Ascii(host) ==> Ascii(t))
  {
    TrimDots(TrimEnd(TrimStart(host)))
  }

  /** `host.split('.')`: always at least one label, possibly empty. */
  function Split(s: Name): (labels: seq<Name>)
    ensures |labels| >= 1
    decreases |s|
  {
    match FirstDot(s)
    case None => [s]
    case Some(k) => [s[..k]] + Split(s[k + 1..])
  }

  lemma JoinFirst(l: Name, rest: seq<Name>)
    requires rest != []
    ensures Join([l] + rest) == l + [DOT] + Join(rest)
  {
    assert ([l] + rest)[1..] == rest;
  }

  lemma CutAt(s: Name, k: nat)
    requires k < |s|
    ensures s == s[..k] + [s[k]] + s[k + 1..]
  {
  }

  lemma {:induction false} JoinSplit(s: Name)
    ensures Join(Split(s)) == s
    decreases |s|
  {
    var dot := FirstDot(s);
    if dot.Some? {
      var k := dot.value;
      assert Split(s) == [s[..k]] + Split(s[k + 1..]);
      hide Split, Join, FirstDotFrom;
      JoinSplit(s[k + 1..]);
      JoinFirst(s[..k], Split(s[k + 1..]));
      CutAt(s, k);
    }
  }

  predicate AllSpace(s: Name) { forall i :: 0 <= i < |s| ==> s[i] == 32 || 9 <= s[i] <= 13 }

  lemma SpaceAhead(b: byte, s: Name)
    requires IsSpace(b) && AllSpace(s)
    ensures AllSpace([b] + s) && AllSpace(s + [b])
  {
  }

  lemma NoSpace(b: byte)
    requires !IsSpace(b)
    ensures !AllSpace([b])
  {
    assert [b][0] == b;
  }

  lemma {:induction false} StartTrimmed(s: Name)
    ensures var n := |s| - |TrimStart(s)|; AllSpace(s[..n]) && (TrimStart(s) != [] ==> !AllSpace([TrimStart(s)[0]]))
  {
    if s != [] && IsSpace(s[0]) {
      StartTrimmed(s[1..]);
      assert TrimStart(s) == TrimStart(s[1..]);
      hide TrimStart, AllSpace;
      var n := |s[1..]| - |TrimStart(s[1..])|;
      SpaceAhead(s[0], s[1..][..n]);
      assert s[..n + 1] == [s[0]] + s[1..][..n];
    } else if s != [] {
      NoSpace(s[0]);
    }
  }

  lemma {:induction false} EndTrimmed(s: Name)
    ensures var t := TrimEnd(s); AllSpace(s[|t|..]) && (t != [] ==> !AllSpace([t[|t| - 1]]))
  {
    if s != [] && IsSpace(s[|s| - 1]) {
      var n := |s| - 1;
      EndTrimmed(s[..n]);
      assert TrimEnd(s) == TrimEnd(s[..n]);
      hide TrimEnd, AllSpace;
      var k := |TrimEnd(s[..n])|;
      SpaceAhead(s[n], s[..n][k..]);
      assert s[k..] == s[..n][k..] + [s[n]];
    } else if s != [] {
      NoSpace(s[|s| - 1]);
    }
  }

  lemma SpacesTrimmed(host: Name) returns (before: Name, inner: Name, after: Name)
    ensures host == before + (inner + after) && AllSpace(before) && AllSpace(after)
    ensures inner == TrimEnd(TrimStart(host))
    ensures inner != [] ==> !AllSpace([inner[0]]) && !AllSpace([inner[|inner| - 1]])
  {
    var a := TrimStart(host);
    inner := TrimEnd(a);
    StartTrimmed(host);
    EndTrimmed(a);
    hide *;
    before, after := host[..|host| - |a|], a[|inner|..];
    CutInTwo(host, |host| - |a|);
    CutInTwo(a, |inner|);
  }

  lemma DotsTrimmed(s: Name) returns (dots: Name)
    ensures var t := TrimDots(s);
      && s == t + dots
      && (t != [] ==> t[|t| - 1] != 46 && t[0] == s[0])
      && forall i :: 0 <= i < |dots| ==> dots[i] == 46
  {
    var t := TrimDots(s);
    dots := s[|t|..];
    CutInTwo(s, |t|);
  }

  /** Trimming drops white space at both ends and then dots at the end, and nothing else. */
  lemma TrimmedIsInside(host: Name) returns (before: Name, dots: Name, after: Name)
    ensures host == before + (Trimmed(host) + dots + after) && AllSpace(before) && AllSpace(after)
    ensures forall i :: 0 <= i < |dots| ==> dots[i] == 46
    ensures var t := Trimmed(host); t != [] ==> t[|t| - 1] != 46 && !AllSpace([t[0]])
    ensures var inner := Trimmed(host) + dots; inner != [] ==> !AllSpace([inner[|inner| - 1]])
  {
    var inner: Name;
    before, inner, after := SpacesTrimmed(host);
    dots := DotsTrimmed(inner);
    assert Trimmed(host) == TrimDots(inner);
    hide *;
  }

  lemma CutInTwo(s: Name, k: nat)
    requires k <= |s|
    ensures s == s[..k] + s[k..]
  {
  }

  lemma FirstDotAfter(l: Name, tail: Name)
    requires forall j :: 0 <= j < |l| ==> l[j] != DOT
    ensures FirstDot(l + [DOT] + tail) == Some(|l|) && FirstDot(l).None?
    ensures (l + [DOT] + tail)[..|l|] == l && (l + [DOT] + tail)[|l| + 1..] == tail
  {
    var s := l + [DOT] + tail;
    assert s[|l|] == DOT && forall j :: 0 <= j < |l| ==> s[j] == l[j];
  }

  /** Labels without dots are what splitting their join gives back. */
  lemma {:induction false} SplitJoin(labels: seq<Name>)
    requires labels != [] && forall i, j :: 0 <= i < |labels| && 0 <= j < |labels[i]| ==> labels[i][j] != DOT
    ensures Split(Join(labels)) == labels
  {
    hide FirstDotFrom;
    var l, rest := labels[0], labels[1..];
    FirstDotAfter(l, Join(rest));
    assert [l] + rest == labels;
    if rest != [] {
      assert forall i, j :: 0 <= i < |rest| && 0 <= j < |rest[i]| ==> rest[i][j] == labels[i + 1][j];
      SplitJoin(rest);
    }
  }

  // ---------------------------------------------------------------- encoding

  predicate LabelOk(l: Name) { 0 < |l| <= 63 }

  predicate LabelsOk(labels: seq<Name>) { forall i :: 0 <= i < |labels| ==> LabelOk(labels[i]) }

  function EncodeLabels(labels: seq<Name>): Packet
    requires LabelsOk(labels)
  {
    if labels == [] then [] else [|labels[0]|] + labels[0] + EncodeLabels(labels[1..])
  }

  const QUERY_HEADER: Packet := [0x12, 0x34, 1, 0, 0, 1, 0, 0, 0, 0, 0, 0]
  const TYPE_A_CLASS_IN: Packet := [0, 1, 0, 1]

  function AQuery(host: Name): Option<Packet> {
    var h := Trimmed(host);
    if h == [] || !LabelsOk(Split(h)) then None
    else Some(QUERY_HEADER + EncodeLabels(Split(h)) + [0] + TYPE_A_CLASS_IN)
  }

  /** A query is built exactly when each label of the trimmed host has 1 to 63 bytes. It asks one question,
      recursion desired, and ends with the root label, type A and class IN. */
  lemma BuiltExactly(host: Name, labels: seq<Name>)
    requires labels != [] && Join(labels) == Trimmed(host)
    requires forall i, j :: 0 <= i < |labels| && 0 <= j < |labels[i]| ==> labels[i][j] != 46
    ensures AQuery(host).Some? <==> forall i :: 0 <= i < |labels| ==> 1 <= |labels[i]| <= 63
    ensures AQuery(host).Some? ==> var q := AQuery(host).value;
      |q| >= 17 && q[..12] == [0x12, 0x34, 1, 0, 0, 1, 0, 0, 0, 0, 0, 0] && q[|q| - 5..] == [0, 0, 1, 0, 1]
  {
    SplitJoin(labels);
    assert Trimmed(host) == [] ==> labels[0] == [];
    hide Split, Trimmed, EncodeLabels, Join;
    if AQuery(host).Some? {
      var head, tail := QUERY_HEADER + EncodeLabels(labels), [0] + TYPE_A_CLASS_IN;
      assert AQuery(host).value == head + tail;
    }
  }

  lemma {:induction false} EncodeSnoc(labels: seq<Name>, l: Name)
    requires LabelsOk(labels) && LabelOk(l)
    ensures LabelsOk(labels + [l]) && EncodeLabels(labels + [l]) == EncodeLabels(labels) + [|l|] + l
  {
    if labels == [] {
      assert EncodeLabels([l]) == [|l|] + l + EncodeLabels([]);
    } else {
      EncodeSnoc(labels[1..], l);
      assert (labels + [l])[1..] == labels[1..] + [l];
      assert EncodeLabels(labels + [l]) == [|labels[0]|] + labels[0] + EncodeLabels(labels[1..] + [l]);
    }
  }

  lemma EncodeNone()
    ensures EncodeLabels([]) == []
  {
  }

  method BuildAQuery(host: Name) returns (query: Option<Packet>)
    ensures query == AQuery(host)
  {
    var h := Trimmed(host);
    if h == [] { return None; }
    var labels := Split(h);
    var q := QUERY_HEADER;
    hide EncodeLabels, Trimmed, Split;
    assert EncodeLabels([]) == [] by { EncodeNone(); }
    for i := 0 to |labels|
      invariant LabelsOk(labels[..i]) && q == QUERY_HEADER + EncodeLabels(labels[..i])
    {
      var l := labels[i];
      if l == [] || |l| > 63 { return None; }
      assert labels[..i + 1] == labels[..i] + [l];
      EncodeSnoc(labels[..i], l);
      q := q + [|l|];
      q := q + l;
    }
    assert labels[..|labels|] == labels;
    q := q + [0];
    q := q + [0, 1, 0, 1];
    query := Some(q);
  }

  // ---------------------------------------------------------------- the round trip

  lemma FirstLabelEncoded(labels: seq<Name>)
    requires LabelsOk(labels) && labels != []
    ensures LabelOk(labels[0]) && LabelsOk(labels[1..])
    ensures EncodeLabels(labels) == ([|labels[0]|] + labels[0]) + EncodeLabels(labels[1..])
  {
  }

  /** The encoding of labels starts with the first one's length and text. */
  lemma FirstLabelHolds(pkt: Packet, pos: nat, labels: seq<Name>)
    requires LabelsOk(labels) && labels != [] && Holds(pkt, pos, EncodeLabels(labels))
    ensures var l := labels[0];
      && LabelOk(l) && LabelsOk(labels[1..])
      && Holds(pkt, pos, [|l|]) && Holds(pkt, pos + 1, l) && Holds(pkt, pos + 1 + |l|, EncodeLabels(labels[1..]))
      && |EncodeLabels(labels)| == 1 + |l| + |EncodeLabels(labels[1..])|
  {
    hide EncodeLabels, Holds, LabelsOk;
    FirstLabelEncoded(labels);
    var l := labels[0];
    var head: Packet := [|l|] + l;
    HoldsParts(pkt, pos, head, EncodeLabels(labels[1..]));
    HoldsParts(pkt, pos, [|l|], l);
  }

  lemma ReadOneLabel(pkt: Packet, pos: nat, l: Name, steps: nat)
    requires LabelOk(l) && Utf8(l) && steps < MAX_STEPS && Holds(pkt, pos, [|l|]) && Holds(pkt, pos + 1, l)
    ensures ReadLabels(pkt, pos, steps) == Behind([l], ReadLabels(pkt, pos + 1 + |l|, steps + 1))
  {
    hide Utf8;
    assert pkt[pos] == pkt[pos..pos + 1][0] == |l|;
  }

  /** Encoded labels read back, unless they need more than 127 steps before the terminator. */
  lemma {:induction false} ReadEncoded(pkt: Packet, pos: nat, labels: seq<Name>, steps: nat)
    requires LabelsOk(labels) && steps <= MAX_STEPS
    requires forall i :: 0 <= i < |labels| ==> Utf8(labels[i])
    requires Holds(pkt, pos, EncodeLabels(labels)) && Holds(pkt, pos + |EncodeLabels(labels)|, [0])
    ensures ReadLabels(pkt, pos, steps) ==
      if steps + |labels| < MAX_STEPS then Walked(labels, pos + |EncodeLabels(labels)| + 1) else Bad
    decreases |labels|
  {
    hide Utf8, Holds, LabelOk, ReadLabels;
    if labels == [] {
      EncodeNone();
      ReadTerminator(pkt, pos, steps);
    } else {
      hide EncodeLabels;
      var l := labels[0];
      assert Utf8(l);
      FirstLabelHolds(pkt, pos, labels);
      if steps < MAX_STEPS {
        ReadOneLabel(pkt, pos, l, steps);
        ReadEncoded(pkt, pos + 1 + |l|, labels[1..], steps + 1);
        assert [l] + labels[1..] == labels;
      } else {
        NoStepsLeft(pkt, pos, l);
      }
    }
  }

  lemma ReadTerminator(pkt: Packet, pos: nat, steps: nat)
    requires Holds(pkt, pos, [0]) && steps <= MAX_STEPS
    ensures ReadLabels(pkt, pos, steps) == if steps < MAX_STEPS then Walked([], pos + 1) else Bad
  {
    assert pkt[pos] == pkt[pos..pos + 1][0] == 0;
  }

  lemma NoStepsLeft(pkt: Packet, pos: nat, l: Name)
    requires LabelOk(l) && Holds(pkt, pos, [|l|])
    ensures ReadLabels(pkt, pos, MAX_STEPS) == Bad
  {
  }

  lemma {:induction false} SplitLength(s: Name)
    requires LabelsOk(Split(s))
    ensures |s| >= 2 * |Split(s)| - 1
    decreases |s|
  {
    var dot := FirstDot(s);
    assert LabelOk(Split(s)[0]);
    if dot.Some? {
      var rest := Split(s[dot.value + 1..]);
      assert Split(s)[1..] == rest;
      assert forall i :: 0 <= i < |rest| ==> rest[i] == Split(s)[i + 1];
      SplitLength(s[dot.value + 1..]);
    }
  }

  lemma {:induction false} SplitAscii(s: Name)
    requires Ascii(s)
    ensures forall i :: 0 <= i < |Split(s)| ==> Utf8(Split(s)[i])
    decreases |s|
  {
    var dot := FirstDot(s);
    if dot.None? {
      AsciiIsUtf8(s);
    } else {
      AsciiIsUtf8(s[..dot.value]);
      SplitAscii(s[dot.value + 1..]);
      assert Split(s)[1..] == Split(s[dot.value + 1..]);
      forall i | 0 <= i < |Split(s)| ensures Utf8(Split(s)[i]) {
        if i > 0 { assert Split(s)[i] == Split(s[dot.value + 1..])[i - 1]; }
      }
    }
  }

  /** The query for an ASCII host parses back to the trimmed host with type A exactly when the
      host has at most 127 labels; 253 bytes never hold more. */
  lemma QueryRoundTrip(host: Name)
    requires Ascii(host) && AQuery(host).Some?
    ensures var q := AQuery(host).value; var labels := Split(Trimmed(host));
      && ParseSpec(q) == (if |labels| <= 127 then Some(Question(Trimmed(host), 1)) else None)
      && (|Trimmed(host)| <= 253 ==> |labels| <= 127)
  {
    hide Utf8, TrimDots, TrimStart, TrimEnd, Split, EncodeLabels, Join;
    var h := Trimmed(host);
    var labels := Split(h);
    var tail := TYPE_A_CLASS_IN;
    SplitAscii(h);
    SplitLength(h);
    JoinSplit(h);
    var head := QUERY_HEADER + EncodeLabels(labels) + [0];
    assert (head + tail)[12..|head| - 1] == EncodeLabels(labels) && (head + tail)[|head| - 1..|head|] == [0];
    ReadEncoded(head + tail, 12, labels, 0);
    assert (head + tail)[|head|] == tail[0] && (head + tail)[|head| + 1] == tail[1];
  }
}
