/** The texts a label may hold: well-formed UTF-8 is what code points encode to.

    The parser checks a label byte by byte (`DnsWire.Utf8`). Here the encoding of a scalar value is
    written down as RFC 3629 gives it, and the two are shown to agree: every encoded text passes
    the check, and every text that passes is encoded. */
module Utf8Text {
  import opened Bytes
  import opened DnsWire

  /** A Unicode scalar value: a code point that is no surrogate. */
  predicate Scalar(c: nat) { c < 0x11_0000 && !(0xD800 <= c < 0xE000) }

  /** The encoding of one scalar value (RFC 3629, section 3). */
  function EncodeScalar(c: nat): seq<byte>
    requires Scalar(c)
  {
    if c < 0x80 then [c]
    else if c < 0x800 then [0xC0 + c / 64, 0x80 + c % 64]
    else if c < 0x1_0000 then [0xE0 + c / 4096, 0x80 + c / 64 % 64, 0x80 + c % 64]
    else [0xF0 + c / 262144, 0x80 + c / 4096 % 64, 0x80 + c / 64 % 64, 0x80 + c % 64]
  }

  ghost predicate Scalars(cs: seq<nat>) { forall i :: 0 <= i < |cs| ==> Scalar(cs[i]) }

  function EncodeText(cs: seq<nat>): Name
    requires Scalars(cs)
  {
    if cs == [] then [] else EncodeScalar(cs[0]) + EncodeText(cs[1..])
  }

  lemma ScalarAhead(c: nat, rest: Name)
    requires Scalar(c) && Utf8(rest)
    ensures Utf8(EncodeScalar(c) + rest)
  {
    var e := EncodeScalar(c);
    var s := e + rest;
    assert s[|e|..] == rest;
    assert forall i :: 0 <= i < |e| ==> s[i] == e[i];
  }

  lemma {:induction false} TextIsUtf8(cs: seq<nat>)
    requires Scalars(cs)
    ensures Utf8(EncodeText(cs))
  {
    if cs != [] {
      TextIsUtf8(cs[1..]);
      ScalarAhead(cs[0], EncodeText(cs[1..]));
    }
  }

  lemma OneByte(a: byte)
    requires a < 0x80
    ensures EncodeScalar(a) == [a]
  {
  }

  lemma TwoBytes(a: byte, b: byte)
    requires 0xC2 <= a <= 0xDF && 0x80 <= b <= 0xBF
    ensures var c: nat := 64 * (a as int - 0xC0) + (b - 0x80); Scalar(c) && EncodeScalar(c) == [a, b]
  {
  }

  lemma ThreeBytes(a: byte, b: byte, d: byte)
    requires 0xE0 <= a <= 0xEF && 0x80 <= b <= 0xBF && 0x80 <= d <= 0xBF
    requires (a == 0xE0 ==> b >= 0xA0) && (a == 0xED ==> b <= 0x9F)
    ensures var c: nat := 4096 * (a as int - 0xE0) + 64 * (b as int - 0x80) + (d - 0x80);
      Scalar(c) && EncodeScalar(c) == [a, b, d]
  {
    var c: nat := 4096 * (a as int - 0xE0) + 64 * (b as int - 0x80) + (d - 0x80);
    assert c / 64 == 64 * (a as int - 0xE0) + (b as int - 0x80);
  }

  lemma FourBytes(a: byte, b: byte, d: byte, e: byte)
    requires 0xF0 <= a <= 0xF4 && 0x80 <= b <= 0xBF && 0x80 <= d <= 0xBF && 0x80 <= e <= 0xBF
    requires (a == 0xF0 ==> b >= 0x90) && (a == 0xF4 ==> b <= 0x8F)
    ensures var c: nat := 262144 * (a as int - 0xF0) + 4096 * (b as int - 0x80) + 64 * (d as int - 0x80) + (e - 0x80);
      Scalar(c) && EncodeScalar(c) == [a, b, d, e]
  {
    var x, y, z, w := a as int - 0xF0, b as int - 0x80, d as int - 0x80, e as int - 0x80;
    SixBits(4096 * x + 64 * y + z, w);
    SixBits(64 * x + y, z);
    SixBits(x, y);
    var c := 64 * (64 * (64 * x + y) + z) + w;
    assert c / 4096 == c / 64 / 64 && c / 262144 == c / 4096 / 64;
  }

  lemma SixBits(n: nat, low: nat)
    requires low < 64
    ensures (64 * n + low) / 64 == n && (64 * n + low) % 64 == low
  {
  }

  /** The first scalar value of well-formed text, and how many bytes it takes. */
  lemma FirstScalar(s: Name) returns (c: nat, n: nat)
    requires Utf8(s) && s != []
    ensures 0 < n <= |s| && Scalar(c) && s[..n] == EncodeScalar(c) && Utf8(s[n..])
  {
    hide EncodeScalar;
    if s[0] < 0x80 {
      OneByte(s[0]);
      c, n := s[0], 1;
    } else if s[0] <= 0xDF {
      TwoBytes(s[0], s[1]);
      c, n := 64 * (s[0] as int - 0xC0) + (s[1] - 0x80), 2;
    } else if s[0] <= 0xEF {
      ThreeBytes(s[0], s[1], s[2]);
      c, n := 4096 * (s[0] as int - 0xE0) + 64 * (s[1] as int - 0x80) + (s[2] - 0x80), 3;
    } else {
      FourBytes(s[0], s[1], s[2], s[3]);
      c := 262144 * (s[0] as int - 0xF0) + 4096 * (s[1] as int - 0x80) + 64 * (s[2] as int - 0x80) + (s[3] - 0x80);
      n := 4;
    }
  }

  /** Every well-formed text is the encoding of scalar values, and only that. */
  lemma {:induction false} Utf8IsText(s: Name) returns (cs: seq<nat>)
    requires Utf8(s)
    ensures Scalars(cs) && EncodeText(cs) == s
    decreases |s|
  {
    cs := [];
    if s != [] {
      var c, n := FirstScalar(s);
      hide Utf8, EncodeScalar;
      var rest := Utf8IsText(s[n..]);
      cs := [c] + rest;
      assert cs[1..] == rest && s == s[..n] + s[n..];
    }
  }
}
