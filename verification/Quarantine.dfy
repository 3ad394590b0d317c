/** MAC-bound DNS quarantine: entries bound to the owner seen in the passive ARP inventory, and
    released only on positive evidence. Addresses are 32-bit numbers; parsing their text is a
    library call and stays a parameter. */
module Quarantine {
  import opened Bytes
  import opened Time

  type Parser = string -> Option<u32>

  const MAX_ENTRIES: nat := 256

  datatype Rejection =
    | InvalidAddress | ReservedAddress | SelfAddress | GatewayAddress
    | IdentityUnknown | InventoryUnavailable | CapacityReached

  // ---------------------------------------------------------------- MAC text

  predicate IsDigit(c: char) { '0' <= c <= '9' }
  predicate IsHex(c: char) { IsDigit(c) || 'a' <= c <= 'f' || 'A' <= c <= 'F' }
  predicate IsAlphanumeric(c: char) { IsDigit(c) || 'a' <= c <= 'z' || 'A' <= c <= 'Z' }
  function Upper(c: char): char { if 'a' <= c <= 'z' then c - 'a' + 'A' else c }

  function Alphanumerics(s: string): string {
    if s == "" then ""
    else (if IsAlphanumeric(s[0]) then [Upper(s[0])] else "") + Alphanumerics(s[1..])
  }

  /** Twelve hex digits, upper-cased and colon-separated; neither all zero nor broadcast. */
  function NormalizeMac(mac: string): Option<string> {
    var u := Alphanumerics(mac);
    if |u| != 12 || (exists i :: 0 <= i < 12 && !IsHex(u[i])) || u == "000000000000" || u == "FFFFFFFFFFFF" then None
    else Some(u[0..2] + ":" + u[2..4] + ":" + u[4..6] + ":" + u[6..8] + ":" + u[8..10] + ":" + u[10..12])
  }

  // ---------------------------------------------------------------- what MAC text means

  function HexValue(c: char): Option<nat> {
    if '0' <= c <= '9' then Some(c as int - '0' as int)
    else if 'a' <= c <= 'f' then Some(c as int - 'a' as int + 10)
    else if 'A' <= c <= 'F' then Some(c as int - 'A' as int + 10)
    else None
  }

  /** The hex digits of a text without its punctuation; none if it has another letter. */
  function HexDigits(s: string): Option<seq<nat>> {
    if s == "" then Some([])
    else
      var c, rest := s[0], HexDigits(s[1..]);
      if HexValue(c).Some? then if rest.Some? then Some([HexValue(c).value] + rest.value) else None
      else if 'g' <= c <= 'z' || 'G' <= c <= 'Z' then None
      else rest
  }

  /** Twelve hex digits that name an owner: neither all zero nor all ones. */
  ghost predicate IsOwner(digits: Option<seq<nat>>) {
    && digits.Some? && |digits.value| == 12
    && (exists i :: 0 <= i < 12 && digits.value[i] != 0) && (exists i :: 0 <= i < 12 && digits.value[i] != 15)
  }

  lemma HexOfUpper(c: char)
    ensures (IsHex(c) <==> HexValue(c).Some?) && (IsHex(Upper(c)) <==> IsHex(c))
    ensures HexValue(Upper(c)) == HexValue(c) && Upper(Upper(c)) == Upper(c)
    ensures IsAlphanumeric(c) <==> HexValue(c).Some? || 'g' <= c <= 'z' || 'G' <= c <= 'Z'
  {
  }

  lemma SameValueSameUpper(a: char, b: char)
    requires HexValue(a).Some? && HexValue(a) == HexValue(b)
    ensures Upper(a) == Upper(b)
  {
  }

  /** `u` is upper-case and spells the digits, or some letter of it is no digit and there are none. */
  ghost predicate Spells(u: string, digits: Option<seq<nat>>) {
    && (forall i :: 0 <= i < |u| ==> Upper(u[i]) == u[i])
    && (digits.None? ==> exists i :: 0 <= i < |u| && !IsHex(u[i]))
    && (digits.Some? ==> |digits.value| == |u| && forall i :: 0 <= i < |u| ==> HexValue(u[i]) == Some(digits.value[i]))
  }

  lemma {:induction false} KeptSpellDigits(s: string)
    ensures Spells(Alphanumerics(s), HexDigits(s))
  {
    hide HexValue, IsHex, Upper, IsAlphanumeric;
    if s != "" {
      KeptSpellDigits(s[1..]);
      HexOfUpper(s[0]);
      assert "" + Alphanumerics(s[1..]) == Alphanumerics(s[1..]);
      if IsAlphanumeric(s[0]) { SpellsOneMore(s[0], Alphanumerics(s[1..]), HexDigits(s[1..])); }
    }
  }

  lemma SpellsOneMore(c: char, rest: string, digits: Option<seq<nat>>)
    requires Spells(rest, digits) && IsAlphanumeric(c)
    ensures Spells([Upper(c)] + rest,
                   if HexValue(c).Some? && digits.Some? then Some([HexValue(c).value] + digits.value) else None)
  {
    HexOfUpper(c);
    hide HexValue, IsHex, Upper, IsAlphanumeric;
    var u := [Upper(c)] + rest;
    assert u[0] == Upper(c) && forall i :: 0 < i < |u| ==> u[i] == rest[i - 1];
    if HexValue(c).None? {
      assert !IsHex(u[0]);
    } else if digits.None? {
      var j :| 0 <= j < |rest| && !IsHex(rest[j]);
      assert u[j + 1] == rest[j];
    }
  }

  lemma SpellingIsUnique(u: string, v: string, digits: Option<seq<nat>>)
    requires digits.Some? && Spells(u, digits) && Spells(v, digits)
    ensures u == v
  {
    forall i | 0 <= i < |u| ensures u[i] == v[i] { SameValueSameUpper(u[i], v[i]); }
  }

  lemma UniformSpelling(u: string, digits: seq<nat>, c: char, v: nat)
    requires Spells(u, Some(digits)) && |u| == 12 && Upper(c) == c && HexValue(c) == Some(v)
    ensures u == [c, c, c, c, c, c, c, c, c, c, c, c] <==> forall i :: 0 <= i < 12 ==> digits[i] == v
  {
    hide HexValue, Upper, IsHex;
    if forall i :: 0 <= i < 12 ==> digits[i] == v {
      forall i | 0 <= i < 12 ensures u[i] == c { SameValueSameUpper(u[i], c); }
    }
    assert u == [c, c, c, c, c, c, c, c, c, c, c, c] ==> forall i :: 0 <= i < 12 ==> u[i] == c;
  }

  /** A MAC text is accepted exactly when it has twelve hex digits that name an owner, and no other
      letter. */
  lemma AcceptedExactly(mac: string)
    ensures NormalizeMac(mac).Some? <==> IsOwner(HexDigits(mac))
  {
    var u, digits := Alphanumerics(mac), HexDigits(mac);
    KeptSpellDigits(mac);
    assert forall i :: 0 <= i < |u| && digits.Some? ==> IsHex(u[i]) by {
      forall i | 0 <= i < |u| && digits.Some? ensures IsHex(u[i]) { HexOfUpper(u[i]); }
    }
    if digits.Some? && |u| == 12 {
      UniformSpelling(u, digits.value, '0', 0);
      UniformSpelling(u, digits.value, 'F', 15);
    }
  }

  /** The characters of the normal form. */
  ghost predicate IsColonForm(m: string, u: string) {
    && |u| == 12 && |m| == 17 && (forall k :: 0 <= k < 5 ==> m[3 * k + 2] == ':')
    && forall i :: 0 <= i < 12 ==> m[i + i / 2] == u[i]
  }

  lemma Colons(u: string)
    requires |u| == 12
    ensures IsColonForm(u[0..2] + ":" + u[2..4] + ":" + u[4..6] + ":" + u[6..8] + ":" + u[8..10] + ":" + u[10..12], u)
  {
    var m := u[0..2] + ":" + u[2..4] + ":" + u[4..6] + ":" + u[6..8] + ":" + u[8..10] + ":" + u[10..12];
    assert forall k :: 0 <= k < 5 ==> m[3 * k + 2] == ':';
    assert forall i :: 0 <= i < 12 ==> m[i + i / 2] == u[i];
  }

  lemma NormalFormOf(mac: string)
    requires NormalizeMac(mac).Some?
    ensures IsColonForm(NormalizeMac(mac).value, Alphanumerics(mac))
  {
    hide Alphanumerics, IsHex, IsColonForm;
    Colons(Alphanumerics(mac));
  }

  lemma ColonFormIsUnique(m: string, u: string, n: string, v: string)
    requires IsColonForm(m, u) && IsColonForm(n, v)
    ensures m == n <==> u == v
  {
    if u == v {
      forall k | 0 <= k < 17 ensures m[k] == n[k] {
        if k % 3 == 2 {
          assert m[3 * (k / 3) + 2] == ':' && n[3 * (k / 3) + 2] == ':';
        } else {
          var i := 2 * (k / 3) + k % 3;
          assert i + i / 2 == k;
          assert m[i + i / 2] == u[i] && n[i + i / 2] == v[i];
        }
      }
    }
    if m == n {
      forall i | 0 <= i < 12 ensures u[i] == v[i] { assert m[i + i / 2] == u[i] && n[i + i / 2] == v[i]; }
    }
  }

  /** Two accepted texts have the same normal form exactly when they have the same hex digits. */
  lemma SameMacExactly(a: string, b: string)
    requires NormalizeMac(a).Some? && NormalizeMac(b).Some?
    ensures NormalizeMac(a) == NormalizeMac(b) <==> HexDigits(a) == HexDigits(b)
  {
    var u, v := Alphanumerics(a), Alphanumerics(b);
    AcceptedExactly(a);
    AcceptedExactly(b);
    NormalFormOf(a);
    NormalFormOf(b);
    KeptSpellDigits(a);
    KeptSpellDigits(b);
    hide NormalizeMac, Alphanumerics, HexDigits, HexValue, IsColonForm, Upper, IsHex;
    ColonFormIsUnique(NormalizeMac(a).value, u, NormalizeMac(b).value, v);
    if HexDigits(a) == HexDigits(b) { SpellingIsUnique(u, v, HexDigits(a)); }
    if u == v { assert HexDigits(a).value == HexDigits(b).value by { SpelledAlike(u, HexDigits(a), HexDigits(b)); } }
  }

  lemma SpelledAlike(u: string, a: Option<seq<nat>>, b: Option<seq<nat>>)
    requires a.Some? && b.Some? && Spells(u, a) && Spells(u, b)
    ensures a.value == b.value
  {
    forall i | 0 <= i < |u| ensures a.value[i] == b.value[i] {
      assert HexValue(u[i]) == Some(a.value[i]) && HexValue(u[i]) == Some(b.value[i]);
    }
  }

  lemma {:induction false} AlphanumericsOfBoth(a: string, b: string)
    ensures Alphanumerics(a + b) == Alphanumerics(a) + Alphanumerics(b)
  {
    hide IsAlphanumeric, Upper;
    if a == "" {
      assert a + b == b;
    } else {
      AlphanumericsOfBoth(a[1..], b);
      assert (a + b)[1..] == a[1..] + b;
      assert Alphanumerics(a + b) ==
        (if IsAlphanumeric(a[0]) then [Upper(a[0])] else "") + (Alphanumerics(a[1..]) + Alphanumerics(b));
    }
  }

  lemma {:induction false} AlphanumericsOfUpper(u: string)
    requires forall i :: 0 <= i < |u| ==> IsAlphanumeric(u[i]) && Upper(u[i]) == u[i]
    ensures Alphanumerics(u) == u
  {
    if u != "" { AlphanumericsOfUpper(u[1..]); }
  }

  lemma ColonHasNone()
    ensures Alphanumerics(":") == ""
  {
    assert ":"[1..] == "";
  }

  lemma PairsKeepAlphanumerics(a: string, b: string)
    requires forall i :: 0 <= i < |b| ==> IsAlphanumeric(b[i]) && Upper(b[i]) == b[i]
    ensures Alphanumerics(a + ":" + b) == Alphanumerics(a) + b
  {
    hide Alphanumerics, IsAlphanumeric, Upper;
    AlphanumericsOfBoth(a + ":", b);
    AlphanumericsOfBoth(a, ":");
    ColonHasNone();
    AlphanumericsOfUpper(b);
    assert Alphanumerics(a) + "" == Alphanumerics(a);
  }

  /** The normal form of an accepted text has 17 characters with a colon at every third place, spells
      the text's digits, and is its own normal form. */
  lemma NormalFormIsNormal(mac: string)
    requires NormalizeMac(mac).Some?
    ensures var m := NormalizeMac(mac).value;
      && |m| == 17 && (forall k :: 0 <= k < 5 ==> m[3 * k + 2] == ':')
      && HexDigits(mac).Some? && |HexDigits(mac).value| == 12
      && (forall i :: 0 <= i < 12 ==> HexValue(m[i + i / 2]) == Some(HexDigits(mac).value[i]))
      && NormalizeMac(m) == Some(m)
  {
    var u, m := Alphanumerics(mac), NormalizeMac(mac).value;
    AcceptedExactly(mac);
    NormalFormOf(mac);
    KeptSpellDigits(mac);
    forall i | 0 <= i < 12 ensures IsAlphanumeric(u[i]) && Upper(u[i]) == u[i] { HexOfUpper(u[i]); }
    NormalFormKeeps(u);
    assert Alphanumerics(m) == u;
  }

  lemma NormalFormKeeps(u: string)
    requires |u| == 12 && forall i :: 0 <= i < 12 ==> IsAlphanumeric(u[i]) && Upper(u[i]) == u[i]
    ensures var m := u[0..2] + ":" + u[2..4] + ":" + u[4..6] + ":" + u[6..8] + ":" + u[8..10] + ":" + u[10..12];
      Alphanumerics(m) == u
  {
    hide Alphanumerics, IsAlphanumeric, Upper;
    var a := u[0..2];
    var b := a + ":" + u[2..4];
    var c := b + ":" + u[4..6];
    var d := c + ":" + u[6..8];
    var e := d + ":" + u[8..10];
    AlphanumericsOfUpper(a);
    PairsKeepAlphanumerics(a, u[2..4]);
    PairsKeepAlphanumerics(b, u[4..6]);
    PairsKeepAlphanumerics(c, u[6..8]);
    PairsKeepAlphanumerics(d, u[8..10]);
    PairsKeepAlphanumerics(e, u[10..12]);
    assert a + u[2..4] + u[4..6] + u[6..8] + u[8..10] + u[10..12] == u;
  }

  // ---------------------------------------------------------------- state and operations

  datatype Inventory = Inventory(
    entries: map<u32, string>, observed: map<u32, string>, selfIps: set<u32>, gateways: set<u32>,
    observedAt: Option<Instant>)

  /** The bindings left by the first `n` observations; a later one overwrites an earlier. */
  function Observed(parse: Parser, observations: seq<(string, string)>, n: nat): map<u32, string>
    requires n <= |observations|
  {
    if n == 0 then map[]
    else
      var before := Observed(parse, observations, n - 1);
      var ip := parse(observations[n - 1].0);
      var mac := NormalizeMac(observations[n - 1].1);
      if ip.Some? && mac.Some? then before[ip.value := mac.value] else before
  }

  ghost function ParsedSet(parse: Parser, texts: seq<string>): set<u32> {
    set s | s in texts && parse(s).Some? :: parse(s).value
  }

  /** Positive evidence against keeping an entry. */
  ghost predicate MustRelease(q: Inventory, ip: u32) {
    || (ip in q.entries && ip in q.observed && q.observed[ip] != q.entries[ip])
    || ip in q.selfIps || ip in q.gateways
  }

  ghost function Update(parse: Parser, q: Inventory, observations: seq<(string, string)>, selfs: seq<string>,
          gateways: seq<string>, now: Instant): Inventory {
    var seen := q.(
      observed := Observed(parse, observations, Min(|observations|, 4096)),
      selfIps := ParsedSet(parse, selfs), gateways := ParsedSet(parse, gateways), observedAt := Some(now));
    seen.(entries := map ip | ip in q.entries && !MustRelease(seen, ip) :: q.entries[ip])
  }

  predicate IsReserved(ip: u32) {
    || 0x7F00_0000 <= ip < 0x8000_0000
    || ip == 0
    || 0xE000_0000 <= ip < 0xF000_0000
    || ip == 0xFFFF_FFFF
  }

  function Refusal(parse: Parser, q: Inventory, text: string, now: Instant): Option<Rejection> {
    match parse(text)
    case None => Some(InvalidAddress)
    case Some(ip) =>
      if IsReserved(ip) then Some(ReservedAddress)
      else if ip in q.selfIps then Some(SelfAddress)
      else if ip in q.gateways then Some(GatewayAddress)
      else if q.observedAt.None? || Since(now, q.observedAt.value) > Seconds(300) || q.selfIps == {} || q.gateways == {}
        then Some(InventoryUnavailable)
      else if ip !in q.observed then Some(IdentityUnknown)
      else if ip in q.entries then None
      else if |q.entries| >= MAX_ENTRIES then Some(CapacityReached)
      else None
  }

  function Isolate(parse: Parser, q: Inventory, text: string, now: Instant): (r: Inventory)
  {
    if Refusal(parse, q, text, now).Some? then q
    else
      var ip := parse(text).value;
      if ip in q.entries then q else q.(entries := q.entries[ip := q.observed[ip]])
  }

  function Release(parse: Parser, q: Inventory, text: string): Inventory {
    match parse(text) case None => q case Some(ip) => q.(entries := q.entries - {ip})
  }

  /** A request is accepted exactly when it names an address by text, outside 127.0.0.0/8, 224.0.0.0/4,
      0.0.0.0 and 255.255.255.255, that is no self or gateway address, while an inventory at most
      five minutes old knows both kinds and has seen the address, and there is room or it is
      already isolated. It is then bound to the owner seen; nothing else changes. */
  lemma AcceptedRequests(parse: Parser, q: Inventory, text: string, now: Instant)
    ensures Refusal(parse, q, text, now).None? <==>
      && parse(text).Some? && var ip := parse(text).value;
        && ip / 0x100_0000 != 127 && ip / 0x1000_0000 != 14 && ip != 0 && ip != 0xFFFF_FFFF
        && ip !in q.selfIps && ip !in q.gateways && q.selfIps != {} && q.gateways != {}
        && q.observedAt.Some? && now <= q.observedAt.value + 300_000_000_000
        && ip in q.observed && (ip in q.entries || |q.entries| < 256)
    ensures Refusal(parse, q, text, now).None? && parse(text).value !in q.entries ==>
      Isolate(parse, q, text, now) == q.(entries := q.entries[parse(text).value := q.observed[parse(text).value]])
    ensures Refusal(parse, q, text, now).Some? || (parse(text).Some? && parse(text).value in q.entries) ==>
      Isolate(parse, q, text, now) == q
  {
  }

  /** The reason given is the first that applies. */
  lemma RefusalReasons(parse: Parser, q: Inventory, text: string, now: Instant)
    requires Refusal(parse, q, text, now).Some?
    ensures match Refusal(parse, q, text, now).value
      case InvalidAddress => parse(text).None?
      case ReservedAddress => parse(text).Some? && var ip := parse(text).value;
        ip / 0x100_0000 == 127 || ip / 0x1000_0000 == 14 || ip == 0 || ip == 0xFFFF_FFFF
      case SelfAddress => parse(text).Some? && parse(text).value in q.selfIps
      case GatewayAddress => parse(text).Some? && parse(text).value in q.gateways && parse(text).value !in q.selfIps
      case InventoryUnavailable =>
        q.observedAt.None? || now > q.observedAt.value + 300_000_000_000 || q.selfIps == {} || q.gateways == {}
      case IdentityUnknown =>
        parse(text).Some? && parse(text).value !in q.observed && q.selfIps != {} && q.gateways != {}
      case CapacityReached => parse(text).Some? && parse(text).value in q.observed && |q.entries| >= 256
  {
  }

  /** An operator's release removes that address only. */
  lemma ReleasedByOperator(parse: Parser, q: Inventory, text: string, ip: u32)
    ensures var q' := Release(parse, q, text);
      && q' == q.(entries := q'.entries)
      && (ip in q'.entries <==> ip in q.entries && parse(text) != Some(ip))
      && (ip in q'.entries ==> q'.entries[ip] == q.entries[ip])
  {
  }

  // ---------------------------------------------------------------- the mutable store

  class QuarantineStore {
    const parse: Parser
    var entries: map<u32, string>
    var inventory: map<u32, string>
    var selfIps: set<u32>
    var gateways: set<u32>
    var observedAt: Option<Instant>

    constructor (parse: Parser)
      ensures this.parse == parse && Current() == Inventory(map[], map[], {}, {}, None)
    {
      this.parse := parse;
      entries, inventory, selfIps, gateways, observedAt := map[], map[], {}, {}, None;
    }

    function Current(): Inventory
      reads this
    {
      Inventory(entries, inventory, selfIps, gateways, observedAt)
    }

    method Observe(ip: string, mac: string) returns (isNew: bool)
      modifies this`inventory
      ensures var (i, m) := (parse(ip), NormalizeMac(mac));
        inventory == if i.Some? && m.Some? then old(inventory)[i.value := m.value] else old(inventory)
      ensures isNew <==> inventory != old(inventory)
    {
      var m := NormalizeMac(mac);
      if m.None? { return false; }
      var i := parse(ip);
      if i.None? { return false; }
      if i.value in inventory && inventory[i.value] == m.value { return false; }
      inventory := inventory[i.value := m.value];
      isNew := true;
    }

    method ParseAll(texts: seq<string>) returns (r: set<u32>)
      ensures r == ParsedSet(parse, texts)
    {
      r := {};
      for i := 0 to |texts|
        invariant r == ParsedSet(parse, texts[..i])
      {
        assert texts[..i + 1] == texts[..i] + [texts[i]];
        var p := parse(texts[i]);
        if p.Some? { r := r + {p.value}; }
      }
      assert texts[..|texts|] == texts;
    }

    method UpdateInventory(observations: seq<(string, string)>, selfs: seq<string>, gws: seq<string>, now: Instant)
      modifies this
      ensures Current() == Update(parse, old(Current()), observations, selfs, gws, now)
    {
      hide ParsedSet, NormalizeMac;
      inventory := map[];
      var s := ParseAll(selfs);
      var g := ParseAll(gws);
      selfIps, gateways := s, g;
      var limit := if |observations| <= 4096 then |observations| else 4096;
      for i := 0 to limit
        invariant inventory == Observed(parse, observations, i)
        invariant entries == old(entries) && selfIps == s && gateways == g
      {
        var isNew := Observe(observations[i].0, observations[i].1);
      }
      observedAt := Some(now);
      ReleaseOnEvidence();
    }

    method ReleaseOnEvidence()
      modifies this`entries
      ensures var q := old(Current());
        Current() == q.(entries := map ip | ip in q.entries && !MustRelease(q, ip) :: q.entries[ip])
    {
      var left := entries.Keys;
      var kept := entries;
      while left != {}
        invariant left <= entries.Keys
        invariant kept == map ip | ip in entries && (ip in left || !MustRelease(old(Current()), ip)) :: entries[ip]
        decreases |left|
      {
        var ip :| ip in left;
        left := left - {ip};
        if (ip in inventory && inventory[ip] != entries[ip]) || ip in selfIps || ip in gateways {
          kept := kept - {ip};
        }
      }
      entries := kept;
    }

    method QuarantineIp(text: string, now: Instant) returns (refusal: Option<Rejection>)
      modifies this`entries
      ensures refusal == Refusal(parse, old(Current()), text, now)
      ensures Current() == Isolate(parse, old(Current()), text, now)
    {
      var address := parse(text);
      if address.None? { return Some(InvalidAddress); }
      var ip := address.value;
      if IsReserved(ip) { return Some(ReservedAddress); }
      if ip in selfIps { return Some(SelfAddress); }
      if ip in gateways { return Some(GatewayAddress); }
      if observedAt.None? || Since(now, observedAt.value) > Seconds(300) || selfIps == {} || gateways == {} {
        return Some(InventoryUnavailable);
      }
      if ip !in inventory { return Some(IdentityUnknown); }
      if ip in entries { return None; }
      if |entries| >= MAX_ENTRIES { return Some(CapacityReached); }
      entries := entries[ip := inventory[ip]];
      refusal := None;
    }

    method UnquarantineIp(text: string)
      modifies this`entries
      ensures Current() == Release(parse, old(Current()), text)
    {
      var ip := parse(text);
      if ip.None? { return; }
      entries := entries - {ip.value};
    }
  }

  // ---------------------------------------------------------------- runs

  datatype Op =
    | Refresh(observations: seq<(string, string)>, selfs: seq<string>, gws: seq<string>, at: Instant)
    | Add(text: string, at: Instant)
    | Remove(text: string)

  ghost function Apply(parse: Parser, q: Inventory, op: Op): Inventory {
    match op
    case Refresh(o, s, g, at) => Update(parse, q, o, s, g, at)
    case Add(text, at) => Isolate(parse, q, text, at)
    case Remove(text) => Release(parse, q, text)
  }

  ghost function After(parse: Parser, q: Inventory, ops: seq<Op>, n: nat): Inventory
    requires n <= |ops|
  {
    if n == 0 then q else Apply(parse, After(parse, q, ops, n - 1), ops[n - 1])
  }

  /** No self or gateway address is quarantined, there are at most 256 entries, and any entry with
      a current observation is bound to the observed MAC. */
  ghost predicate Inv(q: Inventory) {
    && q.entries.Keys !! q.selfIps && q.entries.Keys !! q.gateways
    && |q.entries| <= MAX_ENTRIES
    && forall ip :: ip in q.entries && ip in q.observed ==> q.entries[ip] == q.observed[ip]
  }

  lemma {:induction false} SubmapSize<K, V>(a: map<K, V>, b: map<K, V>)
    requires a.Keys <= b.Keys
    ensures |a| <= |b|
    decreases a.Keys
  {
    if a.Keys != {} {
      var k :| k in a;
      assert (a - {k}).Keys == a.Keys - {k} && (b - {k}).Keys == b.Keys - {k};
      SubmapSize(a - {k}, b - {k});
    }
  }

  lemma UpdateKeepsInv(parse: Parser, q: Inventory, o: seq<(string, string)>, s: seq<string>, g: seq<string>,
          at: Instant)
    requires Inv(q)
    ensures Inv(Update(parse, q, o, s, g, at))
  {
    hide Observed, ParsedSet;
    var q' := Update(parse, q, o, s, g, at);
    SubmapSize(q'.entries, q.entries);
  }

  /** What an accepted request has established. */
  lemma AcceptedAddress(parse: Parser, q: Inventory, text: string, at: Instant)
    requires Refusal(parse, q, text, at).None?
    ensures parse(text).Some? && var ip := parse(text).value;
      ip !in q.selfIps && ip !in q.gateways && ip in q.observed && (ip in q.entries || |q.entries| < MAX_ENTRIES)
  {
  }

  lemma IsolateKeepsInv(parse: Parser, q: Inventory, text: string, at: Instant)
    requires Inv(q)
    ensures Inv(Isolate(parse, q, text, at))
  {
    hide IsReserved, Refusal;
    if Refusal(parse, q, text, at).None? {
      AcceptedAddress(parse, q, text, at);
      var ip := parse(text).value;
      if ip !in q.entries {
        assert q.entries[ip := q.observed[ip]].Keys == q.entries.Keys + {ip};
      }
    }
  }

  lemma ApplyKeepsInv(parse: Parser, q: Inventory, op: Op)
    requires Inv(q)
    ensures Inv(Apply(parse, q, op))
  {
    match op
    case Refresh(o, s, g, at) => UpdateKeepsInv(parse, q, o, s, g, at);
    case Add(text, at) => IsolateKeepsInv(parse, q, text, at);
    case Remove(text) => SubmapSize(Release(parse, q, text).entries, q.entries);
  }

  /** The invariant holds in every reachable state. */
  lemma {:induction false} InvAlways(parse: Parser, ops: seq<Op>, n: nat)
    requires n <= |ops|
    ensures Inv(After(parse, Inventory(map[], map[], {}, {}, None), ops, n))
  {
    if n > 0 {
      InvAlways(parse, ops, n - 1);
      ApplyKeepsInv(parse, After(parse, Inventory(map[], map[], {}, {}, None), ops, n - 1), ops[n - 1]);
    }
  }

  /** An inventory update releases an entry exactly when the address is now seen with a different
      MAC or has become a self or gateway address; absence never releases, and the MAC an entry is
      bound to never changes. */
  lemma ReleasedExactlyOnEvidence(parse: Parser, q: Inventory, o: seq<(string, string)>, s: seq<string>,
          g: seq<string>, at: Instant, ip: u32)
    requires ip in q.entries
    ensures var q' := Update(parse, q, o, s, g, at);
      && (ip !in q'.entries <==>
          (ip in q'.observed && q'.observed[ip] != q.entries[ip]) || ip in q'.selfIps || ip in q'.gateways)
      && (ip in q'.entries ==> q'.entries[ip] == q.entries[ip])
  {
    hide Observed, ParsedSet;
  }

  /** Observation `i` is the last of the first 4096 that gives `ip` an owner. */
  ghost predicate LastSighting(parse: Parser, o: seq<(string, string)>, ip: u32, i: int) {
    && 0 <= i < |o| && i < 4096 && parse(o[i].0) == Some(ip) && IsOwner(HexDigits(o[i].1))
    && forall j :: i < j < |o| && j < 4096 ==> !(parse(o[j].0) == Some(ip) && IsOwner(HexDigits(o[j].1)))
  }

  lemma {:induction false} ObservedIsLastSighting(parse: Parser, o: seq<(string, string)>, n: nat, ip: u32)
    requires n <= |o|
    ensures ip in Observed(parse, o, n) ==>
      exists i :: 0 <= i < n && parse(o[i].0) == Some(ip) && NormalizeMac(o[i].1) == Some(Observed(parse, o, n)[ip]) &&
        forall j :: i < j < n ==> !(parse(o[j].0) == Some(ip) && NormalizeMac(o[j].1).Some?)
    ensures ip !in Observed(parse, o, n) ==>
      forall j :: 0 <= j < n ==> !(parse(o[j].0) == Some(ip) && NormalizeMac(o[j].1).Some?)
  {
    hide NormalizeMac;
    if n > 0 { ObservedIsLastSighting(parse, o, n - 1, ip); }
  }

  /** What is known of an address is its last sighting. */
  lemma SeenIsLastSighting(parse: Parser, o: seq<(string, string)>, ip: u32)
    ensures var seen := Observed(parse, o, Min(|o|, 4096));
      && (ip in seen <==> exists i :: LastSighting(parse, o, ip, i))
      && (forall i :: LastSighting(parse, o, ip, i) ==> ip in seen && NormalizeMac(o[i].1) == Some(seen[ip]))
  {
    hide NormalizeMac, IsOwner, HexDigits, Observed;
    forall t: string ensures NormalizeMac(t).Some? <==> IsOwner(HexDigits(t)) { AcceptedExactly(t); }
    var n := Min(|o|, 4096);
    var seen := Observed(parse, o, n);
    ObservedIsLastSighting(parse, o, n, ip);
    if ip in seen {
      var i :| 0 <= i < n && parse(o[i].0) == Some(ip) && NormalizeMac(o[i].1) == Some(seen[ip]) &&
        forall j :: i < j < n ==> !(parse(o[j].0) == Some(ip) && NormalizeMac(o[j].1).Some?);
      assert LastSighting(parse, o, ip, i);
      assert forall k :: LastSighting(parse, o, ip, k) ==> k == i;
    }
  }

  lemma ParsedIn(parse: Parser, texts: seq<string>, ip: u32)
    ensures ip in ParsedSet(parse, texts) <==> exists t :: t in texts && parse(t) == Some(ip)
  {
  }

  /** On the texts observed: an entry bound to the owner of `bound` is released by an update exactly
      when the last sighting of its address among the first 4096 observations shows other hex digits,
      or one of the texts names it as a self or gateway address. */
  lemma ReleasedOnOtherDigits(parse: Parser, q: Inventory, o: seq<(string, string)>, s: seq<string>,
          g: seq<string>, at: Instant, ip: u32, bound: string)
    requires ip in q.entries && NormalizeMac(bound) == Some(q.entries[ip])
    ensures var q' := Update(parse, q, o, s, g, at);
      ip !in q'.entries <==>
        || (exists i :: LastSighting(parse, o, ip, i) && HexDigits(o[i].1) != HexDigits(bound))
        || (exists t :: t in s && parse(t) == Some(ip)) || (exists t :: t in g && parse(t) == Some(ip))
  {
    hide NormalizeMac, IsOwner, HexDigits, Observed, LastSighting, ParsedSet;
    ReleasedExactlyOnEvidence(parse, q, o, s, g, at, ip);
    SeenIsLastSighting(parse, o, ip);
    ParsedIn(parse, s, ip);
    ParsedIn(parse, g, ip);
    forall i | LastSighting(parse, o, ip, i)
      ensures 0 <= i < |o| && NormalizeMac(o[i].1).Some?
      ensures NormalizeMac(o[i].1) == NormalizeMac(bound) <==> HexDigits(o[i].1) == HexDigits(bound)
    {
      SightingIndex(parse, o, ip, i);
      SameMacExactly(o[i].1, bound);
    }
  }

  lemma SightingIndex(parse: Parser, o: seq<(string, string)>, ip: u32, i: int)
    requires LastSighting(parse, o, ip, i)
    ensures 0 <= i < |o| && NormalizeMac(o[i].1).Some?
  {
    AcceptedExactly(o[i].1);
  }

  /** What could release `ip` when it is bound to `mac`. */
  ghost predicate Evidence(parse: Parser, op: Op, ip: u32, mac: string) {
    match op
    case Refresh(o, s, g, _) =>
      var seen := Observed(parse, o, Min(|o|, 4096));
      (ip in seen && seen[ip] != mac) || ip in ParsedSet(parse, s) || ip in ParsedSet(parse, g)
    case Add(_, _) => false
    case Remove(text) => parse(text) == Some(ip)
  }

  /** Over any run an entry stays, with its MAC, until evidence or an operator removes it. */
  lemma {:induction false} QuarantineHolds(parse: Parser, q: Inventory, ops: seq<Op>, n: nat, ip: u32)
    requires ip in q.entries && n <= |ops|
    requires forall i :: 0 <= i < n ==> !Evidence(parse, ops[i], ip, q.entries[ip])
    ensures var q' := After(parse, q, ops, n); ip in q'.entries && q'.entries[ip] == q.entries[ip]
  {
    hide Observed, ParsedSet;
    if n > 0 {
      QuarantineHolds(parse, q, ops, n - 1, ip);
      assert !Evidence(parse, ops[n - 1], ip, q.entries[ip]);
    }
  }
}
