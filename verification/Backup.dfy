/** The message a backup's MAC is computed over: every field behind its length.

    The MAC itself is opaque; what matters is that the message determines the fields. The lists
    stand end to end without lengths of their own, so of these it determines the concatenation
    and no more. */
module Backup {
  import opened Bytes

  type Field = seq<byte>

  function Frame(f: Field): seq<byte> { LittleEndian(|f|, 8) + f }

  function Frames(fs: seq<Field>): seq<byte> {
    if fs == [] then [] else Frame(fs[0]) + Frames(fs[1..])
  }

  ghost predicate Fits(fs: seq<Field>) {
    forall i :: 0 <= i < |fs| ==> |fs[i]| < 0x1_0000_0000_0000_0000
  }

  lemma {:induction false} FramesSnoc(fs: seq<Field>, f: Field)
    ensures Frames(fs + [f]) == Frames(fs) + Frame(f)
  {
    if fs == [] {
      assert Frames([f]) == Frame(f) + Frames([]);
    } else {
      FramesSnoc(fs[1..], f);
      assert (fs + [f])[1..] == fs[1..] + [f];
      assert Frame(fs[0]) + (Frames(fs[1..]) + Frame(f)) == Frame(fs[0]) + Frames(fs[1..]) + Frame(f);
    }
  }

  function Fields(cfg: Field, blocked: seq<Field>, allowed: seq<Field>, devices: seq<Field>, created: Field,
          version: Field): seq<Field> {
    [version, created, cfg] + (blocked + allowed + devices)
  }

  method MacPayload(cfg: Field, blocked: seq<Field>, allowed: seq<Field>, devices: seq<Field>, created: Field,
          version: Field)
    returns (msg: seq<byte>)
    ensures msg == Frames(Fields(cfg, blocked, allowed, devices, created, version))
  {
    hide Frame;
    var head := [version, created, cfg];
    var list := blocked + allowed + devices;
    msg := [];
    msg := Feed(msg, version);
    msg := Feed(msg, created);
    msg := Feed(msg, cfg);
    assert msg == Frames(head) by {
      FramesSnoc([], version);
      FramesSnoc([version], created);
      FramesSnoc([version, created], cfg);
    }
    assert head + list[..0] == head;
    for i := 0 to |list|
      invariant msg == Frames(head + list[..i])
    {
      FramesSnoc(head + list[..i], list[i]);
      assert head + list[..i] + [list[i]] == head + list[..i + 1];
      msg := Feed(msg, list[i]);
    }
    assert list[..|list|] == list;
  }

  method Feed(msg: seq<byte>, f: Field) returns (r: seq<byte>)
    ensures r == msg + Frame(f)
  {
    r := msg + LittleEndian(|f|, 8);
    r := r + f;
    assert r == msg + (LittleEndian(|f|, 8) + f);
  }

  // ---------------------------------------------------------------- unique decodability

  /** Read the frames back. */
  function Decode(msg: seq<byte>): Option<seq<Field>>
    decreases |msg|
  {
    if msg == [] then Some([])
    else if |msg| < 8 then None
    else
      var n := ReadLE(msg, 0, 8);
      if 8 + n > |msg| then None
      else match Decode(msg[8 + n..])
        case None => None
        case Some(rest) => Some([msg[8..8 + n]] + rest)
  }

  lemma FrameHead(f: Field, rest: seq<byte>)
    requires |f| < 0x1_0000_0000_0000_0000
    ensures var msg := Frame(f) + rest;
      && |msg| == 8 + |f| + |rest| && ReadLE(msg, 0, 8) == |f|
      && msg[8..8 + |f|] == f && msg[8 + |f|..] == rest
  {
    var msg := Frame(f) + rest;
    Widths();
    LittleEndianRoundTrip(|f|, 8);
    assert msg[0..8] == LittleEndian(|f|, 8)[0..8];
    ReadsAgree(msg, 0, LittleEndian(|f|, 8), 0, 8);
  }

  lemma {:induction false} DecodesBack(fs: seq<Field>)
    requires Fits(fs)
    ensures Decode(Frames(fs)) == Some(fs)
  {
    if fs != [] {
      hide Frame, ReadLE;
      FrameHead(fs[0], Frames(fs[1..]));
      DecodesBack(fs[1..]);
      assert [fs[0]] + fs[1..] == fs;
    }
  }

  datatype Package = Package(cfg: Field, blocked: seq<Field>, allowed: seq<Field>, devices: seq<Field>,
          created: Field, version: Field)

  ghost function Payload(p: Package): seq<byte> {
    Frames(Fields(p.cfg, p.blocked, p.allowed, p.devices, p.created, p.version))
  }

  ghost predicate PackageFits(p: Package) {
    Fits(Fields(p.cfg, p.blocked, p.allowed, p.devices, p.created, p.version))
  }

  /** Two packages have the same payload exactly when version, creation time and configuration
      agree and so do the three lists end to end. Where one list stops and the next begins is not
      part of the payload. */
  lemma PayloadDeterminesFields(p: Package, q: Package)
    requires PackageFits(p) && PackageFits(q)
    ensures Payload(p) == Payload(q) <==>
      && p.version == q.version && p.created == q.created && p.cfg == q.cfg
      && p.blocked + p.allowed + p.devices == q.blocked + q.allowed + q.devices
  {
    var a := Fields(p.cfg, p.blocked, p.allowed, p.devices, p.created, p.version);
    var b := Fields(q.cfg, q.blocked, q.allowed, q.devices, q.created, q.version);
    DecodesBack(a);
    DecodesBack(b);
    if Payload(p) == Payload(q) {
      assert a == b;
      assert a[0] == b[0] && a[1] == b[1] && a[2] == b[2] && a[3..] == b[3..];
    }
  }
}
