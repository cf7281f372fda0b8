/**
 Token buckets: refill arithmetic that must not overflow, on 64-bit sizes and 32-bit tick numbers.
 */
module TokenBucket {
  import opened Common

  datatype Cfg = Cfg(readRate: nat, readMax: nat, writeRate: nat, writeMax: nat)

  // What ev_token_bucket_cfg_new lets through.
  predicate CfgOk(cfg: Cfg) {
    1 <= cfg.readRate <= cfg.readMax <= SSIZE_MAX && 1 <= cfg.writeRate <= cfg.writeMax <= SSIZE_MAX
  }

  function CfgNew(readRate: nat, readBurst: nat, writeRate: nat, writeBurst: nat): (r: Option<Cfg>)
    ensures r.Some? <==> CfgOk(Cfg(readRate, readBurst, writeRate, writeBurst))
    ensures r.Some? ==> r.value == Cfg(readRate, readBurst, writeRate, writeBurst)
  {
    if readRate > readBurst || writeRate > writeBurst || readRate < 1 || writeRate < 1 then None
    else if readRate > SSIZE_MAX || writeRate > SSIZE_MAX || readBurst > SSIZE_MAX || writeBurst > SSIZE_MAX then None
    else Some(Cfg(readRate, readBurst, writeRate, writeBurst))
  }

  /* ---------- arithmetic ---------- */

  // A size stored in a signed field.
  function Signed(x: nat): int
    requires x < TWO64
  {
    if x <= SSIZE_MAX then x else x - TWO64
  }

  // One bucket after n ticks, as computed: with unsigned 64-bit differences, products and sums.
  function Raise(limit: int, rate: nat, max: nat, n: nat): int
    requires n >= 1
  {
    if (max - limit) % TWO64 / n < rate then max
    else Signed((limit + n * rate % TWO64) % TWO64)
  }

  // What is meant: n ticks' worth more, but never above the maximum.
  function Refilled(limit: int, rate: nat, max: nat, n: nat): int {
    Min(limit + n * rate, max)
  }

  lemma RaiseIsRefilled(limit: int, rate: nat, max: nat, n: nat)
    requires n >= 1 && SSIZE_MIN <= limit <= max <= SSIZE_MAX
    ensures Raise(limit, rate, max, n) == Refilled(limit, rate, max, n)
  {
    var room := max - limit;
    assert 0 <= room < TWO64 && room % TWO64 == room;
    DivBelow(room, n, rate);
    var added := n * rate;
    hide Raise, Refilled;
    if room / n >= rate {
      assert added % TWO64 == added;
      SignedBack(limit + added);
    }
    RaiseSteps(limit, rate, max, n, added);
  }

  lemma RaiseSteps(limit: int, rate: nat, max: nat, n: nat, added: nat)
    requires n >= 1 && SSIZE_MIN <= limit <= max <= SSIZE_MAX && added == n * rate
    requires (max - limit) / n < rate <==> max - limit < added
    requires (max - limit) / n >= rate ==> added % TWO64 == added && Signed((limit + added) % TWO64) == limit + added
    ensures Raise(limit, rate, max, n) == Refilled(limit, rate, max, n)
  {
    hide Signed, Min;
    var room := max - limit;
    assert room % TWO64 == room;
    assert Refilled(limit, rate, max, n) == Min(limit + added, max);
    assert Raise(limit, rate, max, n) == if room / n < rate then max else Signed((limit + added % TWO64) % TWO64);
    MinIs(limit + added, max);
  }

  lemma MinIs(a: int, b: int)
    ensures Min(a, b) == if a < b then a else b
  {
  }

  lemma DivBelow(room: nat, n: nat, rate: nat)
    requires n >= 1
    ensures room / n < rate <==> room < n * rate
  {
    var q := room / n;
    assert room == n * q + room % n;
    if q < rate {
      assert n * (q + 1) <= n * rate by { MulMonotone(n, q + 1, rate); }
    } else {
      MulMonotone(n, rate, q);
    }
  }

  lemma SignedBack(x: int)
    requires SSIZE_MIN <= x <= SSIZE_MAX
    ensures Signed(x % TWO64) == x
  {
  }

  // Looking at the bucket in between makes no difference.
  lemma RefillInSteps(limit: int, rate: nat, max: nat, m: nat, n: nat)
    requires limit <= max
    ensures Refilled(Refilled(limit, rate, max, m), rate, max, n) == Refilled(limit, rate, max, m + n)
  {
    assert (m + n) * rate == m * rate + n * rate;
  }

  /* ---------- ticks ---------- */

  // Tick numbers wrap; a difference of more than INT_MAX means that time went backwards.
  function Elapsed(last: nat, now: nat): (n: nat)
    ensures n <= INT_MAX
  {
    var n := (now - last) % TWO32;
    if n > INT_MAX then 0 else n
  }

  // Whatever the tick numbers have wrapped to, the ticks in between are counted.
  lemma ElapsedAcrossWrap(t: nat, n: nat)
    ensures Elapsed(t % TWO32, (t + n) % TWO32) == if n % TWO32 > INT_MAX then 0 else n % TWO32
  {
    var a, b := t % TWO32, (t + n) % TWO32;
    assert (b - a) % TWO32 == n % TWO32 by { ModDifference(t, n); }
  }

  lemma ModDifference(t: nat, n: nat)
    ensures ((t + n) % TWO32 - t % TWO32) % TWO32 == n % TWO32
  {
    var q, r := t / TWO32, (t + n) / TWO32;
    assert (t + n) % TWO32 - t % TWO32 == n - (r - q) * TWO32;
    ModShift(n, r - q);
  }

  lemma ModShift(n: int, k: int)
    ensures (n - k * TWO32) % TWO32 == n % TWO32
  {
    var q := (n - k * TWO32) / TWO32;
    assert n == (q + k) * TWO32 + (n - k * TWO32) % TWO32;
  }

  /* ---------- the bucket ---------- */

  class Bucket {
    var readLimit: int
    var writeLimit: int
    var lastUpdated: nat

    ghost predicate Valid(cfg: Cfg)
      reads this
    {
      && CfgOk(cfg) && lastUpdated < TWO32
      && SSIZE_MIN <= readLimit <= cfg.readMax && SSIZE_MIN <= writeLimit <= cfg.writeMax
    }

    // ev_token_bucket_init for a new bucket
    constructor (cfg: Cfg, tick: nat)
      requires CfgOk(cfg) && tick < TWO32
      ensures Valid(cfg) && readLimit == cfg.readRate && writeLimit == cfg.writeRate && lastUpdated == tick
    {
      readLimit, writeLimit, lastUpdated := cfg.readRate, cfg.writeRate, tick;
    }

    // ev_token_bucket_init for a new configuration: clips, and adds nothing
    method Reinit(cfg: Cfg, ghost was: Cfg)
      requires Valid(was) && CfgOk(cfg)
      modifies this
      ensures Valid(cfg) && lastUpdated == old(lastUpdated)
      ensures readLimit == Min(old(readLimit), cfg.readMax) && writeLimit == Min(old(writeLimit), cfg.writeMax)
    {
      if readLimit > cfg.readMax {
        readLimit := cfg.readMax;
      }
      if writeLimit > cfg.writeMax {
        writeLimit := cfg.writeMax;
      }
    }

    // ev_token_bucket_update
    method Update(cfg: Cfg, tick: nat) returns (r: int)
      requires Valid(cfg) && tick < TWO32
      modifies this
      ensures Valid(cfg)
      ensures var n := Elapsed(old(lastUpdated), tick);
              && r == (if n == 0 then 0 else 1)
              && lastUpdated == (if n == 0 then old(lastUpdated) else tick)
              && readLimit == Refilled(old(readLimit), cfg.readRate, cfg.readMax, n)
              && writeLimit == Refilled(old(writeLimit), cfg.writeRate, cfg.writeMax, n)
    {
      var nTicks := (tick - lastUpdated) % TWO32;
      if nTicks == 0 || nTicks > INT_MAX {
        return 0;
      }
      RaiseIsRefilled(readLimit, cfg.readRate, cfg.readMax, nTicks);
      RaiseIsRefilled(writeLimit, cfg.writeRate, cfg.writeMax, nTicks);
      hide Raise;
      RefilledGrows(readLimit, cfg.readRate, cfg.readMax, nTicks);
      RefilledGrows(writeLimit, cfg.writeRate, cfg.writeMax, nTicks);
      readLimit := Raise(readLimit, cfg.readRate, cfg.readMax, nTicks);
      writeLimit := Raise(writeLimit, cfg.writeRate, cfg.writeMax, nTicks);
      lastUpdated := tick;
      return 1;
    }

    // ev_token_bucket_decrement_read; the limit may go below zero
    method DecrementRead(bytes: nat, ghost cfg: Cfg)
      requires Valid(cfg) && readLimit - bytes >= SSIZE_MIN
      modifies this
      ensures Valid(cfg) && readLimit == old(readLimit) - bytes
      ensures writeLimit == old(writeLimit) && lastUpdated == old(lastUpdated)
    {
      readLimit := readLimit - bytes;
    }
  }

  lemma RefilledGrows(limit: int, rate: nat, max: nat, n: nat)
    requires limit <= max
    ensures limit <= Refilled(limit, rate, max, n) <= max
    ensures Refilled(limit, rate, max, n) <= limit + n * rate
  {
    MulMonotone(n, 0, rate);
  }
}
