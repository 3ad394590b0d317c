/** Bytes, fixed-width little-endian integers and ASCII case folding: the vocabulary every
    other module shares. A `Name` is a domain name as the bytes of its text. */
module Bytes {
  type byte = b: int | 0 <= b < 256
  type u16 = n: int | 0 <= n < 0x1_0000
  type u32 = n: int | 0 <= n < 0x1_0000_0000
  type u64 = n: int | 0 <= n < 0x1_0000_0000_0000_0000

  type Name = seq<byte>

  const U16_MAX: nat := 0xFFFF
  const U32_MAX: nat := 0xFFFF_FFFF
  const DOT: byte := 46

  datatype Option<+T> = None | Some(value: T)

  function Min(a: int, b: int): int { if a <= b then a else b }
  function Max(a: int, b: int): int { if a <= b then b else a }

  // ---------------------------------------------------------------- integers as bytes

  function Pow256(w: nat): (p: nat)
    ensures p >= 1
  {
    if w == 0 then 1 else 256 * Pow256(w - 1)
  }

  function LittleEndian(n: nat, w: nat): (s: seq<byte>)
    ensures |s| == w
  {
    if w == 0 then [] else [n % 256] + LittleEndian(n / 256, w - 1)
  }

  /** The `w`-byte little-endian integer at offset `p`. */
  function ReadLE(file: seq<byte>, p: nat, w: nat): (n: nat)
    requires p + w <= |file|
    ensures n < Pow256(w)
    decreases w
  {
    if w == 0 then 0 else file[p] + 256 * ReadLE(file, p + 1, w - 1)
  }

  lemma {:induction false} ReadsAgree(f: seq<byte>, p: nat, g: seq<byte>, r: nat, w: nat)
    requires p + w <= |f| && r + w <= |g|
    requires f[p..p + w] == g[r..r + w]
    ensures ReadLE(f, p, w) == ReadLE(g, r, w)
    decreases w
  {
    if w != 0 {
      assert f[p] == f[p..p + w][0] == g[r..r + w][0] == g[r];
      assert f[p + 1..p + w] == f[p..p + w][1..] == g[r..r + w][1..] == g[r + 1..r + w];
      ReadsAgree(f, p + 1, g, r + 1, w - 1);
    }
  }

  lemma {:induction false} LittleEndianRoundTrip(n: nat, w: nat)
    requires n < Pow256(w)
    ensures ReadLE(LittleEndian(n, w), 0, w) == n
  {
    if w != 0 {
      LittleEndianRoundTrip(n / 256, w - 1);
      assert LittleEndian(n, w)[1..w] == LittleEndian(n / 256, w - 1)[0..w - 1];
      ReadsAgree(LittleEndian(n, w), 1, LittleEndian(n / 256, w - 1), 0, w - 1);
    }
  }

  lemma Widths()
    ensures Pow256(2) == 0x1_0000 && Pow256(4) == 0x1_0000_0000
    ensures Pow256(8) == 0x1_0000_0000_0000_0000
  {
    assert Pow256(1) == 256 && Pow256(3) == 0x100_0000 && Pow256(5) == 0x100_0000_0000;
    assert Pow256(6) == 0x1_0000_0000_0000 && Pow256(7) == 0x100_0000_0000_0000;
  }

  /** The 16-bit and 32-bit big-endian integers of the DNS wire format. */
  function BE16(a: byte, b: byte): u16 { 256 * a + b }

  function BE32(a: byte, b: byte, c: byte, d: byte): u32 {
    0x100_0000 * a + 0x1_0000 * b + 256 * c + d
  }

  // ---------------------------------------------------------------- ASCII case folding

  function LowerByte(b: byte): byte { if 65 <= b <= 90 then b + 32 else b }

  function Lower(s: Name): (r: Name)
    ensures |r| == |s| && forall i :: 0 <= i < |s| ==> r[i] == LowerByte(s[i])
  {
    seq(|s|, i requires 0 <= i < |s| => LowerByte(s[i]))
  }

  /** `eq_ignore_ascii_case` on byte strings. */
  predicate EqFold(a: Name, b: Name) {
    |a| == |b| && forall i :: 0 <= i < |a| ==> LowerByte(a[i]) == LowerByte(b[i])
  }

  predicate IsLower(s: Name) { forall i :: 0 <= i < |s| ==> !(65 <= s[i] <= 90) }

  predicate Ascii(s: Name) { forall i :: 0 <= i < |s| ==> s[i] < 128 }

  lemma EqFoldIsLowerEquality(a: Name, b: Name)
    ensures EqFold(a, b) <==> Lower(a) == Lower(b)
  {
    if Lower(a) == Lower(b) {
      forall i | 0 <= i < |a| ensures LowerByte(a[i]) == LowerByte(b[i]) {
        assert Lower(a)[i] == Lower(b)[i];
      }
    }
  }

  lemma LowerNamesFoldEqual(a: Name, b: Name)
    requires IsLower(a) && IsLower(b)
    ensures EqFold(a, b) <==> a == b
  {
    if EqFold(a, b) {
      forall i | 0 <= i < |a| ensures a[i] == b[i] {
        assert LowerByte(a[i]) == LowerByte(b[i]);
      }
    }
  }

  /** Texts equal up to case: at every place the same byte, or the two cases of one of A to Z. */
  lemma FoldsLettersOnly(a: Name, b: Name)
    ensures EqFold(a, b) <==> |a| == |b| && forall i :: 0 <= i < |a| ==>
      a[i] == b[i] || (65 <= a[i] <= 90 && b[i] == a[i] + 32) || (65 <= b[i] <= 90 && a[i] == b[i] + 32)
  {
  }

  // ---------------------------------------------------------------- byte-wise order

  /** The order Rust gives to strings: lexicographic on bytes. */
  predicate LexLess(a: Name, b: Name) {
    if b == [] then false
    else if a == [] then true
    else a[0] < b[0] || (a[0] == b[0] && LexLess(a[1..], b[1..]))
  }

  lemma {:induction false} LexTotal(a: Name, b: Name)
    ensures LexLess(a, b) || a == b || LexLess(b, a)
    ensures !(LexLess(a, b) && LexLess(b, a)) && !LexLess(a, a)
  {
    if a != [] { LexTotal(a[1..], a[1..]); }
    if a != [] && b != [] {
      LexTotal(a[1..], b[1..]);
      assert a == [a[0]] + a[1..] && b == [b[0]] + b[1..];
    }
  }

  lemma {:induction false} LexTransitive(a: Name, b: Name, c: Name)
    requires LexLess(a, b) && LexLess(b, c)
    ensures LexLess(a, c)
  {
    if a != [] && a[0] == b[0] == c[0] {
      LexTransitive(a[1..], b[1..], c[1..]);
    }
  }

  /** Less: a proper prefix, or less at the first place where they differ. */
  lemma {:induction false} LexLessExactly(a: Name, b: Name)
    ensures LexLess(a, b) <==> exists k: nat ::
      k <= |a| && k < |b| && a[..k] == b[..k] && (k == |a| || a[k] < b[k])
  {
    if a == [] && b != [] {
      assert a[..0] == b[..0];
    } else if a != [] && b != [] {
      LexLessExactly(a[1..], b[1..]);
      if LexLess(a[1..], b[1..]) && a[0] == b[0] {
        var k: nat :| k <= |a[1..]| && k < |b[1..]| && a[1..][..k] == b[1..][..k]
                      && (k == |a[1..]| || a[1..][k] < b[1..][k]);
        assert a[..k + 1] == [a[0]] + a[1..][..k] && b[..k + 1] == [b[0]] + b[1..][..k];
      } else if a[0] < b[0] {
        assert a[..0] == b[..0];
      }
      forall k: nat | k <= |a| && k < |b| && a[..k] == b[..k] && (k == |a| || a[k] < b[k]) ensures LexLess(a, b) {
        if k > 0 {
          assert a[..k][0] == b[..k][0] && a[..k][1..] == a[1..][..k - 1] && b[..k][1..] == b[1..][..k - 1];
          assert k < |a| ==> a[1..][k - 1] < b[1..][k - 1];
        }
      }
    }
  }
}
