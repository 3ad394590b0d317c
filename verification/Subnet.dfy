/** The hosts a LAN scan visits.

    Addresses are 32-bit numbers; masking an address to its subnet clears its low bits, so it is
    written with remainders by powers of two. The network and the broadcast address are hosts only
    in subnets of one or two addresses. */
module Subnet {
  import opened Bytes

  /** 2 to the power `k`. */
  function Pow2(k: nat): (p: nat)
    ensures p >= 1
  {
    if k == 0 then 1 else 2 * Pow2(k - 1)
  }

  lemma {:induction false} Pow2Bounds(k: nat)
    requires k <= 32
    ensures Pow2(k) <= 0x1_0000_0000 && 0x1_0000_0000 % Pow2(k) == 0
    ensures k >= 2 ==> Pow2(k) >= 4
  {
    assert Pow2(1) == 2 && Pow2(2) == 4 && Pow2(3) == 8 && Pow2(4) == 16 && Pow2(5) == 32 && Pow2(6) == 64;
    assert Pow2(7) == 128 && Pow2(8) == 256 && Pow2(9) == 0x200 && Pow2(10) == 0x400 && Pow2(11) == 0x800;
    assert Pow2(12) == 0x1000 && Pow2(13) == 0x2000 && Pow2(14) == 0x4000 && Pow2(15) == 0x8000 && Pow2(16) == 0x1_0000;
    assert Pow2(17) == 0x2_0000 && Pow2(18) == 0x4_0000 && Pow2(19) == 0x8_0000 && Pow2(20) == 0x10_0000;
    assert Pow2(21) == 0x20_0000 && Pow2(22) == 0x40_0000 && Pow2(23) == 0x80_0000 && Pow2(24) == 0x100_0000;
    assert Pow2(25) == 0x200_0000 && Pow2(26) == 0x400_0000 && Pow2(27) == 0x800_0000 && Pow2(28) == 0x1000_0000;
    assert Pow2(29) == 0x2000_0000 && Pow2(30) == 0x4000_0000 && Pow2(31) == 0x8000_0000 && Pow2(32) == 0x1_0000_0000;
  }

  function Network(value: u32, prefix: nat): (n: nat)
    requires prefix <= 32
    ensures n <= value
  {
    var p := Pow2(32 - prefix);
    RemainderBounds(value, p);
    value - value % p
  }

  function Broadcast(value: u32, prefix: nat): nat
    requires prefix <= 32
  {
    Network(value, prefix) + Pow2(32 - prefix) - 1
  }

  /** Both are addresses with the same network part. */
  predicate SameSubnet(value: u32, other: nat, prefix: nat)
    requires prefix <= 32
  {
    other <= U32_MAX && Network(other, prefix) == Network(value, prefix)
  }

  function First(value: u32, prefix: nat): nat
    requires prefix <= 32
  {
    if prefix >= 31 then Network(value, prefix) else Network(value, prefix) + 1
  }

  function Last(value: u32, prefix: nat): int
    requires prefix <= 32
  {
    if prefix >= 31 then Broadcast(value, prefix) else Broadcast(value, prefix) - 1
  }

  predicate NotScanned(value: u32) {
    || 0x7F00_0000 <= value < 0x8000_0000
    || 0xA9FE_0000 <= value < 0xA9FF_0000
    || value == 0
  }

  ghost predicate Ascends(s: seq<nat>) { forall i, j :: 0 <= i < j < |s| ==> s[i] < s[j] }

  /** Where the scan starts: at the first host, or when the subnet has more than `cap` hosts, `cap / 2`
      before `value` if that is still a host. */
  function Start(value: u32, prefix: nat, cap: nat): nat
    requires prefix <= 32
  {
    var first := First(value, prefix);
    if Last(value, prefix) - first + 1 > cap then Max(Max(value - cap / 2, 0), first) else first
  }

  /** A subnet of at most `cap` hosts is scanned from its first host; in a larger one the window starts at
      the least host that is no more than `cap / 2` below `value`. */
  lemma WindowReachesValue(value: u32, prefix: nat, cap: nat, h: nat)
    requires prefix <= 32
    ensures var start, first, count := Start(value, prefix, cap), First(value, prefix),
        Last(value, prefix) - First(value, prefix) + 1;
      && first <= start
      && (count <= cap ==> start == first)
      && (count > cap ==> value <= start + cap / 2)
      && (first <= h && value <= h + cap / 2 ==> start <= h)
  {
    hide Network, Broadcast;
  }

  /** The neighbours to scan: the hosts of a window of min(cap, 254) addresses, without `value`. */
  method BoundedSubnetHosts(value: u32, prefix: nat, cap: nat) returns (hosts: seq<nat>)
    ensures prefix > 32 || NotScanned(value) ==> hosts == []
    ensures Ascends(hosts) && |hosts| <= cap && |hosts| <= 254
    ensures forall h :: h in hosts ==> h != value && h <= U32_MAX
    ensures prefix <= 32 ==> forall h :: h in hosts ==>
      First(value, prefix) <= h <= Last(value, prefix) && SameSubnet(value, h, prefix)
    ensures prefix <= 32 && !NotScanned(value) ==> forall h: nat :: h in hosts <==>
      && Start(value, prefix, cap) <= h < Start(value, prefix, cap) + Min(cap, 254)
      && h <= Last(value, prefix) && h != value
    ensures prefix <= 32 && !NotScanned(value) && Last(value, prefix) - First(value, prefix) + 1 <= Min(cap, 254)
      ==> forall h: nat :: h in hosts <==> First(value, prefix) <= h <= Last(value, prefix) && h != value
  {
    hosts := [];
    if prefix > 32 || NotScanned(value) { return; }
    EndsInRange(value, prefix);
    var first: nat := First(value, prefix);
    var last: nat := Last(value, prefix);
    var count := last - first + 1;
    var start := if count > cap then Max(Max(value - cap / 2, 0), first) else first;
    var take := Min(cap, 254);
    var n: nat := start;
    while n <= last && n < start + take
      invariant start <= n && (n == start || n <= last + 1) && n <= start + take
      invariant Ascends(hosts) && |hosts| <= n - start && forall i :: 0 <= i < |hosts| ==> hosts[i] < n
      invariant forall h :: h in hosts <==> start <= h < n && h != value
    {
      if n != value { hosts := hosts + [n]; }
      n := n + 1;
    }
    forall h | h in hosts ensures SameSubnet(value, h, prefix) { InsideIsSameSubnet(value, h, prefix); }
  }

  /** Everything from the network to the broadcast address masks to the network. */
  lemma InsideIsSameSubnet(value: u32, h: nat, prefix: nat)
    requires prefix <= 32 && Network(value, prefix) <= h <= Broadcast(value, prefix)
    ensures SameSubnet(value, h, prefix)
  {
    hide Pow2;
    var p := Pow2(32 - prefix);
    EndsInRange(value, prefix);
    RemainderBounds(value, p);
    QuotientUnique(h, p, value / p);
  }

  /** The hosts: the addresses with the subnet's network part, other than the one with host part zero
      and the one with host part all ones when the prefix is at most 30. */
  lemma HostsAreTheSubnet(value: u32, prefix: nat, h: u32)
    requires prefix <= 32
    ensures Pow2(32 - prefix) >= 1
    ensures var p := Pow2(32 - prefix);
      First(value, prefix) <= h <= Last(value, prefix) <==>
        h / p == value / p && (prefix <= 30 ==> h % p != 0 && h % p != p - 1)
  {
    var p := Pow2(32 - prefix);
    if prefix <= 30 { TwoAtLeast(32 - prefix); }
    if prefix == 31 { assert p == 2 * Pow2(0); }
    hide Pow2;
    BlockOf(value, h, p);
  }

  lemma BlockOf(value: nat, h: nat, p: nat)
    requires p >= 1
    ensures var base := value - value % p;
      && (base <= h < base + p <==> h / p == value / p)
      && (h / p == value / p ==> h % p == h - base)
  {
    RemainderBounds(value, p);
    RemainderBounds(h, p);
    var k, j := value / p, h / p;
    if j < k { MulMonotone(j + 1, k, p); }
    if k < j { MulMonotone(k + 1, j, p); }
  }

  lemma TwoAtLeast(k: nat)
    requires 2 <= k <= 32
    ensures Pow2(k) >= 4
  {
    Pow2Bounds(k);
  }

  /** 2 to the powers that end in a byte. */
  lemma Pow2OfBytes()
    ensures Pow2(0) == 1 && Pow2(8) == 0x100 && Pow2(16) == 0x1_0000 && Pow2(24) == 0x100_0000
  {
    assert Pow2(4) == 16 && Pow2(8) == 0x100 && Pow2(12) == 0x1000 && Pow2(16) == 0x1_0000 && Pow2(20) == 0x10_0000;
  }

  /** Nothing is scanned around 127.x.x.x, 169.254.x.x or 0.0.0.0. */
  lemma NotScannedRanges(value: u32)
    ensures NotScanned(value) <==> value / 0x100_0000 == 127 || value / 0x1_0000 == 256 * 169 + 254 || value == 0
  {
  }

  lemma RemainderBounds(n: nat, p: nat)
    requires p >= 1
    ensures 0 <= n % p <= n && n % p < p && n == n / p * p + n % p
  {
    var q := n / p;
    MulMonotone(0, q, p);
  }

  lemma QuotientUnique(h: nat, p: nat, k: nat)
    requires p >= 1 && k * p <= h < k * p + p
    ensures h - h % p == k * p
  {
    var q := h / p;
    RemainderBounds(h, p);
    if q < k { MulMonotone(q + 1, k, p); }
    if k < q { MulMonotone(k + 1, q, p); }
  }

  /** Both ends are 32-bit addresses in order, so no step of the arithmetic overflows. */
  lemma EndsInRange(value: u32, prefix: nat)
    requires prefix <= 32
    ensures 0 <= First(value, prefix) <= Last(value, prefix) <= U32_MAX
    ensures Network(value, prefix) <= value <= Broadcast(value, prefix) <= U32_MAX
  {
    var p := Pow2(32 - prefix);
    Pow2Bounds(32 - prefix);
    MultipleFits(value, p);
  }

  lemma MultipleFits(value: u32, p: nat)
    requires 1 <= p <= 0x1_0000_0000 && 0x1_0000_0000 % p == 0
    ensures value - value % p + p <= 0x1_0000_0000
  {
    var k := value / p;
    var m := 0x1_0000_0000 / p;
    RemainderBounds(value, p);
    RemainderBounds(0x1_0000_0000, p);
    if k + 1 <= m { MulMonotone(k + 1, m, p); } else { MulMonotone(m, k, p); }
  }

  lemma MulMonotone(a: nat, b: nat, p: nat)
    requires a <= b
    ensures a * p <= b * p
  {
  }
}
