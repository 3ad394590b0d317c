/** Block accounting in `AdBlockControls`: a total, hourly buckets of the recorded day, and two
    capped top-lists.

    The clock may jump either way. A new day drops everything but the list of names, and a list
    that outgrows its cap is cut down to half the cap, the largest counts. */
module AdBlock {
  import opened Bytes
  import opened Eviction

  const U64_LIMIT: nat := 0x1_0000_0000_0000_0000

  datatype Bucket = Bucket(hour: nat, count: nat)

  /** A 64-bit counter. */
  function Wrap(n: nat): nat { n % 0x1_0000_0000_0000_0000 }

  function DayOf(ms: nat): nat { ms / 86_400_000 }
  function HourOf(ms: nat): nat { ms / 3_600_000 }

  function Sum(bs: seq<Bucket>): nat {
    if bs == [] then 0 else Sum(bs[..|bs| - 1]) + bs[|bs| - 1].count
  }

  /** Distinct hours, all of one day. */
  ghost predicate HoursOf(bs: seq<Bucket>, day: nat) {
    && (forall i :: 0 <= i < |bs| ==> 24 * day <= bs[i].hour < 24 * day + 24)
    && (forall i, j :: 0 <= i < j < |bs| ==> bs[i].hour != bs[j].hour)
  }

  lemma HourInDay(ms: nat)
    ensures 24 * DayOf(ms) <= HourOf(ms) < 24 * DayOf(ms) + 24
  {
  }

  /** A block counts for the day and hour its clock value falls in. */
  lemma ClockFallsInHour(ms: nat)
    ensures HourOf(ms) * 3_600_000 <= ms < (HourOf(ms) + 1) * 3_600_000
    ensures DayOf(ms) * 86_400_000 <= ms < (DayOf(ms) + 1) * 86_400_000
  {
  }

  function Range(lo: nat, n: nat): (r: set<nat>)
    ensures forall h :: h in r <==> lo <= h < lo + n
    ensures |r| == n
  {
    if n == 0 then {} else Range(lo, n - 1) + {lo + n - 1}
  }

  function Hours(bs: seq<Bucket>): (r: set<nat>)
    ensures forall h :: h in r <==> exists i :: 0 <= i < |bs| && bs[i].hour == h
    ensures (forall i, j :: 0 <= i < j < |bs| ==> bs[i].hour != bs[j].hour) ==> |r| == |bs|
  {
    if bs == [] then {} else Hours(bs[..|bs| - 1]) + {bs[|bs| - 1].hour}
  }

  /** A day has at most 24 buckets, so the cap of 48 never evicts one. */
  lemma AtMost24(bs: seq<Bucket>, day: nat)
    requires HoursOf(bs, day)
    ensures |bs| <= 24
  {
    SubsetSize(Hours(bs), Range(24 * day, 24));
  }

  lemma SumAppend(bs: seq<Bucket>, b: Bucket)
    ensures Sum(bs + [b]) == Sum(bs) + b.count
  {
    assert (bs + [b])[..|bs|] == bs;
  }

  lemma {:induction false} SumUpdate(bs: seq<Bucket>, i: nat, b: Bucket)
    requires i < |bs|
    ensures Sum(bs[i := b]) == Sum(bs) - bs[i].count + b.count
  {
    var n := |bs| - 1;
    if i < n {
      SumUpdate(bs[..n], i, b);
      assert bs[i := b][..n] == bs[..n][i := b];
    } else {
      assert bs[i := b][..n] == bs[..n];
    }
  }

  lemma {:induction false} BucketWithinSum(bs: seq<Bucket>, i: nat)
    requires i < |bs|
    ensures bs[i].count <= Sum(bs)
  {
    if i < |bs| - 1 { BucketWithinSum(bs[..|bs| - 1], i); }
  }

  function ByCount(): nat -> int { (n: nat) => n }

  /** After a bump: the key counted once more, then, above the cap, only the cap / 2 largest kept. */
  ghost predicate Bumped(m: map<string, nat>, key: string, cap: nat, m': map<string, nat>) {
    var counted := m[key := SatInc(if key in m then m[key] else 0)];
    if |counted| > cap then
      |counted| >= cap / 2 && ShedsOldest<string, nat>(counted, ByCount(), |counted| - cap / 2, m')
    else m' == counted
  }

  /** A bump counts the key once more, up to 2^64 - 1, and no other. */
  lemma BumpCountsOne(m: map<string, nat>, key: string, cap: nat, m': map<string, nat>, k: string)
    requires Bumped(m, key, cap, m') && (key in m ==> m[key] <= 0xFFFF_FFFF_FFFF_FFFF)
    ensures k in m' && k != key ==> k in m && m'[k] == m[k]
    ensures key in m' ==> m'[key] == if key !in m then 1 else Min(m[key] + 1, 0xFFFF_FFFF_FFFF_FFFF)
  {
    ghost var counted := m[key := SatInc(if key in m then m[key] else 0)];
    assert k in m' ==> k in counted && m'[k] == counted[k];
  }

  /** Nothing is dropped while the keys fit the cap; otherwise half of the cap remains, and nothing dropped was
      counted more often than what remains. */
  lemma BumpKeepsTheLargest(m: map<string, nat>, key: string, cap: nat, m': map<string, nat>, k: string, j: string)
    requires Bumped(m, key, cap, m')
    ensures |m.Keys + {key}| <= cap ==> m'.Keys == m.Keys + {key}
    ensures |m.Keys + {key}| > cap ==> |m'| == cap / 2 && (j in m && j != key && j !in m' && k in m' ==> m[j] <= m'[k])
  {
    hide SatInc;
    ghost var counted := m[key := SatInc(if key in m then m[key] else 0)];
    assert counted.Keys == m.Keys + {key} && |counted| == |counted.Keys|;
  }

  function SatInc(n: nat): nat { if n + 1 < U64_LIMIT then n + 1 else n }

  method BumpEntry(m: map<string, nat>, key: string, cap: nat) returns (m': map<string, nat>)
    ensures Bumped(m, key, cap, m') && |m'| <= cap
  {
    m' := m[key := SatInc(if key in m then m[key] else 0)];
    if |m'| > cap { m' := ShedOldest<string, nat>(m', ByCount(), |m'| - cap / 2); }
  }

  class AdBlockControls {
    var totalBlocked: nat
    var statsDay: nat
    var blockedDomains: map<string, nat>
    var blockedClients: map<string, nat>
    var hourly: seq<Bucket>
    /** Blocks recorded since the last reset. */
    ghost var recorded: nat

    /** The buckets are distinct hours of the recorded day, and unless 2^64 blocks were recorded
        they sum to the total: no block is lost. */
    ghost predicate Valid()
      reads this
    {
      && HoursOf(hourly, statsDay) && totalBlocked == Wrap(recorded)
      && (recorded < U64_LIMIT ==> Sum(hourly) == totalBlocked)
      && |blockedDomains| <= 512 && |blockedClients| <= 128
    }

    constructor ()
      ensures Valid() && totalBlocked == 0 && recorded == 0
    {
      totalBlocked, statsDay, hourly, recorded := 0, 0, [], 0;
      blockedDomains, blockedClients := map[], map[];
    }

    /** Count one block at clock value `now`; the clock may jump either way. */
    method RecordBlock(domain: string, client: string, now: nat)
      requires Valid()
      modifies this
      ensures Valid() && statsDay == DayOf(now) && |hourly| <= 24
      ensures recorded == (if old(statsDay) == DayOf(now) then old(recorded) else 0) + 1
      ensures Counted(if old(statsDay) == DayOf(now) then old(hourly) else [], HourOf(now), hourly)
      ensures Bumped(old(blockedDomains), domain, 512, blockedDomains)
      ensures var before := if old(statsDay) == DayOf(now) then old(blockedClients) else map[];
        Bumped(before, client, 128, blockedClients)
    {
      hide Bumped, Wrap, Counted, HoursOf, HourOf, DayOf;
      ResetIfNewDay(DayOf(now));
      HourInDay(now);
      WrapStep(recorded);
      totalBlocked := if totalBlocked + 1 == U64_LIMIT then 0 else totalBlocked + 1;
      recorded := recorded + 1;
      var buckets := CountHour(hourly, statsDay, HourOf(now));
      hourly := buckets;
      TrackNames(domain, client);
    }

    /** A new day drops everything but the domain list. */
    method ResetIfNewDay(day: nat)
      requires Valid()
      modifies this`statsDay, this`totalBlocked, this`hourly, this`blockedClients, this`recorded
      ensures Valid() && statsDay == day
      ensures old(statsDay) == day ==> unchanged(this)
      ensures old(statsDay) != day ==> recorded == 0 && hourly == [] && blockedClients == map[]
    {
      if statsDay != day {
        statsDay := day;
        totalBlocked, hourly, blockedClients, recorded := 0, [], map[], 0;
      }
    }

    method TrackNames(domain: string, client: string)
      modifies this`blockedDomains, this`blockedClients
      ensures Bumped(old(blockedDomains), domain, 512, blockedDomains)
      ensures Bumped(old(blockedClients), client, 128, blockedClients)
      ensures |blockedDomains| <= 512 && |blockedClients| <= 128
    {
      hide Bumped;
      var domains := BumpEntry(blockedDomains, domain, 512);
      blockedDomains := domains;
      var clients := BumpEntry(blockedClients, client, 128);
      blockedClients := clients;
    }

    method ClearStats()
      requires Valid()
      modifies this
      ensures Valid() && totalBlocked == 0 && hourly == [] && statsDay == old(statsDay)
      ensures blockedDomains == map[] && blockedClients == map[]
    {
      totalBlocked, recorded := 0, 0;
      blockedDomains, blockedClients := map[], map[];
      hourly := [];
    }
  }

  lemma WrapStep(n: nat)
    ensures Wrap(n + 1) == if Wrap(n) + 1 == U64_LIMIT then 0 else Wrap(n) + 1
    ensures n + 1 < U64_LIMIT ==> Wrap(n + 1) == n + 1 && Wrap(n) == n
  {
  }

  /** The hour's bucket counted once more, or started at one. */
  ghost predicate Counted(bs: seq<Bucket>, hour: nat, r: seq<Bucket>) {
    if exists i :: 0 <= i < |bs| && bs[i].hour == hour
    then exists i :: 0 <= i < |bs| && bs[i].hour == hour && r == bs[i := Bucket(hour, SatInc(bs[i].count))]
    else r == bs + [Bucket(hour, 1)]
  }

  // ---------------------------------------------------------------- a day's recordings

  /** Which of the first `n` clock values fall in an hour. */
  ghost function InHour(clock: seq<nat>, n: nat, hour: nat): set<nat>
    requires n <= |clock|
  {
    set i | 0 <= i < n && 3_600_000 * hour <= clock[i] < 3_600_000 * hour + 3_600_000
  }

  ghost predicate Tallies(bs: seq<Bucket>, clock: seq<nat>, n: nat)
    requires n <= |clock|
  {
    && (forall i :: 0 <= i < |bs| ==> bs[i].count == |InHour(clock, n, bs[i].hour)| <= n)
    && (forall i, j :: 0 <= i < j < |bs| ==> bs[i].hour != bs[j].hour)
    && (forall i :: 0 <= i < n ==> exists k :: 0 <= k < |bs| && bs[k].hour == HourOf(clock[i]))
  }

  lemma InHourSnoc(clock: seq<nat>, n: nat, hour: nat)
    requires n < |clock|
    ensures |InHour(clock, n + 1, hour)| == |InHour(clock, n, hour)| + if HourOf(clock[n]) == hour then 1 else 0
  {
    ClockFallsInHour(clock[n]);
    assert InHour(clock, n + 1, hour) == InHour(clock, n, hour) + if HourOf(clock[n]) == hour then {n} else {};
  }

  lemma NoneInHour(clock: seq<nat>, n: nat, hour: nat)
    requires n <= |clock| && forall i :: 0 <= i < n ==> HourOf(clock[i]) != hour
    ensures |InHour(clock, n, hour)| == 0
  {
    forall i | 0 <= i < n ensures i !in InHour(clock, n, hour) { ClockFallsInHour(clock[i]); }
    assert InHour(clock, n, hour) == {};
  }

  lemma CountKeepsTallies(bs: seq<Bucket>, clock: seq<nat>, n: nat, r: seq<Bucket>)
    requires n < |clock| < U64_LIMIT && Tallies(bs, clock, n) && Counted(bs, HourOf(clock[n]), r)
    ensures Tallies(r, clock, n + 1)
  {
    hide InHour, HourOf;
    var hour := HourOf(clock[n]);
    forall i | 0 <= i < |bs| ensures
      |InHour(clock, n + 1, bs[i].hour)| == |InHour(clock, n, bs[i].hour)| + if hour == bs[i].hour then 1 else 0
    {
      InHourSnoc(clock, n, bs[i].hour);
    }
    if exists i :: 0 <= i < |bs| && bs[i].hour == hour {
      var k :| 0 <= k < |bs| && bs[k].hour == hour && r == bs[k := Bucket(hour, SatInc(bs[k].count))];
      assert forall i :: 0 <= i < |bs| ==> r[i].hour == bs[i].hour;
    } else {
      InHourSnoc(clock, n, hour);
      NoneInHour(clock, n, hour);
      assert r[|bs|].hour == hour;
      assert forall i :: 0 <= i < |bs| ==> r[i] == bs[i];
    }
  }

  /** After any recordings of one day there is one bucket for each hour with a block, holding the number of
      blocks recorded in it. */
  lemma {:induction false} HourlyCountsTheBlocks(clock: seq<nat>, states: seq<seq<Bucket>>, n: nat)
    requires |clock| < U64_LIMIT && |states| == |clock| + 1 && states[0] == [] && n <= |clock|
    requires forall i :: 0 <= i < |clock| ==> Counted(states[i], HourOf(clock[i]), states[i + 1])
    ensures Tallies(states[n], clock, n)
  {
    if n > 0 {
      HourlyCountsTheBlocks(clock, states, n - 1);
      hide Tallies;
      CountKeepsTallies(states[n - 1], clock, n - 1, states[n]);
    }
  }

  /** Find the hour's bucket and add one, or append it; the cap on buckets never takes effect. */
  method CountHour(bs: seq<Bucket>, day: nat, hour: nat) returns (r: seq<Bucket>)
    requires HoursOf(bs, day) && 24 * day <= hour < 24 * day + 24
    ensures HoursOf(r, day) && |r| <= 24 && Counted(bs, hour, r)
    ensures Sum(bs) + 1 < U64_LIMIT ==> Sum(r) == Sum(bs) + 1
  {
    for i := 0 to |bs|
      invariant forall j :: 0 <= j < i ==> bs[j].hour != hour
    {
      if bs[i].hour == hour {
        BucketWithinSum(bs, i);
        r := bs[i := Bucket(hour, SatInc(bs[i].count))];
        SumUpdate(bs, i, Bucket(hour, SatInc(bs[i].count)));
        AtMost24(r, day);
        return;
      }
    }
    r := bs + [Bucket(hour, 1)];
    SumAppend(bs, Bucket(hour, 1));
    AtMost24(r, day);
    // The source drops the first bucket when there are more than 48; that branch is dead.
    assert |r| <= 48;
  }
}
