/** `SecurityEngine`'s rate-limit state as mutable maps; each method is one function of
    `RateGate`, up to the choice an eviction leaves open. */
module RateLimiter {
  import opened Bytes
  import opened Time
  import opened Eviction
  import opened RateGate

  class RateLimiter {
    var rateLimit: u32
    var hardQueryHistory: History
    var alertCooldown: map<Ip, Instant>
    var blockedIps: map<Ip, Instant>
    var hardDropCount: nat

    constructor ()
      ensures Current() == Gate(map[], map[], map[]) && rateLimit == 80 && hardDropCount == 0
    {
      rateLimit := 80;
      hardQueryHistory, alertCooldown, blockedIps := map[], map[], map[];
      hardDropCount := 0;
    }

    function Current(): Gate
      reads this
    {
      Gate(hardQueryHistory, alertCooldown, blockedIps)
    }

    /** Count one packet of `source`; true means drop it. `kept` is what eviction spared. */
    method EnforceHardRateLimit(source: Ip, now: Instant) returns (exceeded: bool, ghost kept: History)
      modifies this`hardQueryHistory, this`alertCooldown, this`blockedIps, this`hardDropCount
      ensures Trims(old(hardQueryHistory), now, kept)
      ensures (exceeded, Current()) == Enforce(old(Current()), rateLimit, source, now, kept)
      ensures hardDropCount == old(hardDropCount) + if exceeded then 1 else 0
    {
      hide HardLimit, Recent, Block, AnyRecent, Active, ByLatest, CoolingAt, Alerting;
      var hardLimit := HardLimit(rateLimit, source);
      var hist := hardQueryHistory;
      if |hist| > 1000 {
        hist := RetainIf(hist, Active(now));
        if |hist| > 1000 { hist := ShedOldest(hist, ByLatest(), 256); }
      }
      kept := hist;
      var timestamps := if source in hist then hist[source] else [];
      timestamps := Recent(timestamps, now);
      timestamps := timestamps + [now];
      exceeded := |timestamps| > hardLimit;
      if exceeded && |timestamps| > 10 { timestamps := timestamps[|timestamps| - 10..]; }
      hardQueryHistory := hist[source := timestamps];
      if exceeded {
        hardDropCount := hardDropCount + 1;
        if Alerting(alertCooldown, source, now) {
          var cd := alertCooldown;
          if |cd| > 1024 { cd := RetainIf<Ip, Instant>(cd, CoolingAt(now)); }
          alertCooldown := cd[source := now];
          BlockIpTemporarily(source, now, Seconds(60));
        }
      }
    }

    method BlockIpTemporarily(source: Ip, now: Instant, duration: nat)
      modifies this`blockedIps
      ensures blockedIps == Block(old(blockedIps), source, now, duration)
    {
      if IsLoopback(source) { return; }
      var m := blockedIps;
      if |m| > 500 { m := RetainIf<Ip, Instant>(m, Unexpired(now)); }
      blockedIps := m[source := now + duration];
    }

    method IsIpTemporarilyBlocked(source: Ip, now: Instant) returns (isBlocked: bool)
      modifies this`blockedIps
      ensures (isBlocked, Current()) == CheckBlocked(old(Current()), source, now)
    {
      if source !in blockedIps { return false; }
      if now < blockedIps[source] { return true; }
      blockedIps := blockedIps - {source};
      isBlocked := false;
    }

    /** The two gates at the head of every packet's handling. */
    method AdmitPacket(source: Ip, now: Instant) returns (passed: bool, ghost kept: History)
      modifies this`hardQueryHistory, this`alertCooldown, this`blockedIps, this`hardDropCount
      ensures Trims(old(hardQueryHistory), now, kept)
      ensures (passed, Current()) == Admit(old(Current()), rateLimit, source, now, kept)
    {
      hide Trims, Block, Alert, Drained, Pushed, HardLimit, Alerting;
      var exceeded;
      exceeded, kept := EnforceHardRateLimit(source, now);
      if exceeded { return false, kept; }
      var isBlocked := IsIpTemporarilyBlocked(source, now);
      passed := !isBlocked;
    }
  }
}
