/**
 Rate-limit groups: one bucket shared by many members, whose reading is suspended and resumed
 together. Locks of members that are busy cannot be taken; `free` names the members whose can.
 */
module RateGroup {
  import opened Common
  import opened TokenBucket

  const MAX_TO_READ_EVER: int := 16384

  datatype Flag = Bandwidth | GroupBandwidth

  class Member {
    var cfg: Option<Cfg>  // a limit of its own, if it has one
    const bucket: Bucket
    var readSuspended: set<Flag>
    var group: Group?

    constructor (bucket: Bucket)
      ensures this.bucket == bucket && cfg.None? && readSuspended == {} && group == null
    {
      this.bucket := bucket;
      cfg, readSuspended, group := None, {}, null;
    }

    ghost function Home(): set<Group>
      reads this
    {
      if group == null then {} else {group}
    }

    // bufferevent_suspend_read and bufferevent_unsuspend_read, as far as the flags go
    method Suspend(what: Flag)
      modifies this`readSuspended
      ensures readSuspended == old(readSuspended) + {what}
    {
      readSuspended := readSuspended + {what};
    }

    method Unsuspend(what: Flag)
      modifies this`readSuspended
      ensures readSuspended == old(readSuspended) - {what}
    {
      readSuspended := readSuspended - {what};
    }

    // The member's own bucket in _bufferevent_decrement_read_buckets.
    method DecrementOwn(bytes: nat)
      requires cfg.Some? ==> bucket.Valid(cfg.value) && bucket.readLimit - bytes >= SSIZE_MIN
      modifies this`readSuspended, bucket
      ensures GroupBandwidth in readSuspended <==> GroupBandwidth in old(readSuspended)
      ensures cfg.Some? ==> bucket.Valid(cfg.value) && bucket.readLimit == old(bucket.readLimit) - bytes
      ensures cfg.Some? ==> (Bandwidth in readSuspended <==> bucket.readLimit <= 0)
      ensures cfg.None? ==> readSuspended == old(readSuspended)
    {
      if cfg.Some? {
        bucket.DecrementRead(bytes, cfg.value);
        if bucket.readLimit <= 0 {
          Suspend(Bandwidth);
        } else if Bandwidth in readSuspended {
          Unsuspend(Bandwidth);
        }
      }
    }
  }

  lemma Halves(ms: seq<Member>, k: nat)
    requires k <= |ms|
    ensures forall m :: m in ms <==> m in ms[0..k] || m in ms[k..|ms|]
  {
    assert ms == ms[0..k] + ms[k..|ms|];
  }

  // C division
  function Quotient(a: int, n: nat): int
    requires n > 0
  {
    if a >= 0 then a / n else -(-a / n)
  }

  lemma WithoutDistinct(ms: seq<Member>, k: nat)
    requires k < |ms| && Distinct(ms)
    ensures var rest := ms[..k] + ms[k + 1..];
            Distinct(rest) && ms[k] !in rest && forall m :: m in rest ==> m in ms
  {
  }

  ghost predicate Distinct(ms: seq<Member>) {
    forall i, j :: 0 <= i < j < |ms| ==> ms[i] != ms[j]
  }

  class Group {
    const rateLimit: Bucket
    var cfg: Cfg
    var members: seq<Member>
    var nMembers: nat
    var readSuspended: bool
    var pendingUnsuspendRead: bool
    var totalRead: nat
    var minShare: nat
    var configuredMinShare: nat

    ghost var bytesRead: nat  // totalRead without the wrap-around
    ghost var granted: nat    // tokens handed out: the first tick's and those of every refill
    ghost var ticks: nat      // ticks that have been paid out by refills
    ghost var topRate: nat    // the largest read rate there has been
    ghost var slack: nat      // the largest minimum share there has been
    ghost var floor: nat      // 0 once the minimum share has been 0, else 1

    // The most that a member may read now.
    function Share(): (r: int)
      requires nMembers > 0
      reads this, rateLimit
    {
      if readSuspended then 0 else Max(Quotient(rateLimit.readLimit, nMembers), minShare)
    }

    ghost predicate PaidOut()
      reads this`granted, this`topRate, this`ticks, this`cfg
    {
      granted <= topRate + topRate * ticks && cfg.readRate <= topRate
    }

    // The public counter wraps around.
    ghost predicate Counted()
      reads this`bytesRead, this`totalRead
    {
      totalRead == bytesRead % TWO64
    }

    // Everything about the bucket but whether the group is suspended.
    ghost predicate InBudget()
      reads this`bytesRead, this`totalRead, this`granted, this`topRate, this`ticks, this`cfg, this`floor, this`slack
      reads this`minShare, this`configuredMinShare, rateLimit
    {
      && rateLimit.Valid(cfg)
      && bytesRead + rateLimit.readLimit <= granted && PaidOut()
      && rateLimit.readLimit >= floor - slack
      && Counted()
      && floor <= 1 && floor <= minShare <= slack <= SSIZE_MAX && configuredMinShare <= SSIZE_MAX
    }

    // The bucket against what has been handed out and read.
    ghost predicate Balanced()
      reads this, rateLimit
    {
      InBudget() && (!readSuspended ==> rateLimit.readLimit >= floor)
    }

    // Members that are held back by the group are known to it.
    ghost predicate Remembered()
      reads this`members, this`nMembers, this`readSuspended, this`pendingUnsuspendRead, members
    {
      && nMembers == |members|
      && Distinct(members)
      && (pendingUnsuspendRead ==> !readSuspended)
      && forall m :: m in members ==>
           m.group == this && m.bucket != rateLimit &&
           (GroupBandwidth in m.readSuspended ==> readSuspended || pendingUnsuspendRead)
    }

    ghost predicate Valid()
      reads this, rateLimit, members
    {
      Balanced() && Remembered()
    }

    // bufferevent_rate_limit_group_new
    constructor (cfg: Cfg, tick: nat)
      requires CfgOk(cfg) && tick < TWO32
      ensures Valid() && fresh(rateLimit) && this.cfg == cfg && members == []
      ensures bytesRead == ticks == 0 && granted == topRate == cfg.readRate &&
              slack == minShare == Min(64, Min(cfg.readRate, cfg.writeRate)) && floor == 1
    {
      rateLimit := new Bucket(cfg, tick);
      this.cfg := cfg;
      members, nMembers := [], 0;
      readSuspended, pendingUnsuspendRead, totalRead := false, false, 0;
      var share := Min(64, Min(cfg.readRate, cfg.writeRate));
      configuredMinShare, minShare := 64, share;
      bytesRead, granted, ticks, topRate, slack, floor := 0, cfg.readRate, 0, cfg.readRate, share, 1;
    }

    /* ---------- suspending and resuming ---------- */

    // _bev_group_suspend_reading
    method SuspendReading(free: set<Member>)
      requires Remembered()
      modifies this`readSuspended, this`pendingUnsuspendRead, members`readSuspended
      ensures Remembered() && readSuspended && !pendingUnsuspendRead
      ensures forall m :: m in members ==>
                m.readSuspended == if m in free then old(m.readSuspended) + {GroupBandwidth} else old(m.readSuspended)
    {
      readSuspended, pendingUnsuspendRead := true, false;
      var i := 0;
      while i < |members|
        invariant 0 <= i <= |members| && readSuspended && !pendingUnsuspendRead
        invariant forall m :: m in members ==>
                    m.readSuspended == if m in members[..i] && m in free then old(m.readSuspended) + {GroupBandwidth}
                        else old(m.readSuspended)
      {
        assert members[..i + 1] == members[..i] + [members[i]];
        if members[i] in free {
          members[i].Suspend(GroupBandwidth);
        }
        i := i + 1;
      }
    }

    // The members from lo on and before hi: whoever is busy has to be tried again.
    method Resume(lo: nat, hi: nat, free: set<Member>) returns (again: bool)
      requires Distinct(members) && lo <= hi <= |members|
      modifies members`readSuspended
      ensures again <==> exists m :: m in members[lo..hi] && m !in free
      ensures forall m :: m in members ==>
                m.readSuspended == if m in members[lo..hi] && m in free then old(m.readSuspended) - {GroupBandwidth}
                    else old(m.readSuspended)
    {
      again := false;
      var i := lo;
      while i < hi
        invariant lo <= i <= hi
        invariant again <==> exists m :: m in members[lo..i] && m !in free
        invariant forall m :: m in members ==>
                    m.readSuspended == if m in members[lo..i] && m in free then old(m.readSuspended) - {GroupBandwidth}
                        else old(m.readSuspended)
      {
        assert members[lo..i + 1] == members[lo..i] + [members[i]];
        if members[i] in free {
          members[i].Unsuspend(GroupBandwidth);
        } else {
          again := true;
        }
        i := i + 1;
      }
    }

    // _bev_group_unsuspend_reading, from a random member on and round
    method UnsuspendReading(free: set<Member>, first: nat)
      requires Remembered() && first <= |members|
      modifies this`readSuspended, this`pendingUnsuspendRead, members`readSuspended
      ensures Remembered() && !readSuspended
      ensures pendingUnsuspendRead <==> exists m :: m in members && m !in free
      ensures forall m :: m in members ==>
                m.readSuspended == if m in free then old(m.readSuspended) - {GroupBandwidth} else old(m.readSuspended)
    {
      hide Distinct;
      readSuspended := false;
      pendingUnsuspendRead := ResumeAll(free, first);
    }

    method ResumeAll(free: set<Member>, first: nat) returns (again: bool)
      requires Distinct(members) && first <= |members|
      modifies members`readSuspended
      ensures again <==> exists m :: m in members && m !in free
      ensures forall m :: m in members ==>
                m.readSuspended == if m in free then old(m.readSuspended) - {GroupBandwidth} else old(m.readSuspended)
    {
      hide Distinct;
      Halves(members, first);
      again := Resume(first, |members|, free);
      var again' := Resume(0, first, free);
      again := again || again';
    }

    /* ---------- reading ---------- */

    // _bufferevent_get_rlim_max for reading
    method GetReadMax(bev: Member, tick: nat) returns (max: int)
      requires Valid() && bev in members && tick < TWO32
      requires bev.cfg.Some? ==> bev.bucket.Valid(bev.cfg.value)
      modifies bev`readSuspended, bev.bucket
      ensures Valid()
      ensures var own := bev.bucket;
              && (bev.cfg.None? ==> own.readLimit == old(own.readLimit))
              && (bev.cfg.Some? ==>
                    own.Valid(bev.cfg.value) &&
                    own.readLimit == Refilled(old(own.readLimit), bev.cfg.value.readRate, bev.cfg.value.readMax,
                        Elapsed(old(own.lastUpdated), tick)) &&
                    own.writeLimit == Refilled(old(own.writeLimit), bev.cfg.value.writeRate, bev.cfg.value.writeMax,
                        Elapsed(old(own.lastUpdated), tick)))
              && max == Max(0, Min(if bev.cfg.Some? then own.readLimit else MAX_TO_READ_EVER, Share()))
      ensures bev.readSuspended == if readSuspended then old(bev.readSuspended) + {GroupBandwidth}
              else old(bev.readSuspended)
      ensures readSuspended ==> max == 0
    {
      hide Quotient, Refilled, Elapsed;
      max := MAX_TO_READ_EVER;
      if bev.cfg.Some? {
        if tick != bev.bucket.lastUpdated {
          var _ := bev.bucket.Update(bev.cfg.value, tick);
        } else {
          SameTick(bev.bucket.readLimit, bev.cfg.value.readRate, bev.cfg.value.readMax, tick);
          SameTick(bev.bucket.writeLimit, bev.cfg.value.writeRate, bev.cfg.value.writeMax, tick);
        }
        max := bev.bucket.readLimit;
      }
      var share := 0;
      if readSuspended {
        bev.Suspend(GroupBandwidth);
      } else {
        share := Quotient(rateLimit.readLimit, nMembers);
        if share < minShare {
          share := minShare;
        }
      }
      if max > share {
        max := share;
      }
      if max < 0 {
        max := 0;
      }
    }

    // _bufferevent_decrement_read_buckets after a read of no more than was granted
    method DecrementReadBuckets(bev: Member, bytes: nat, free: set<Member>, first: nat)
      requires Valid() && bev in members && first <= |members|
      requires bytes <= Share()
      requires bev.cfg.Some? ==> bev.bucket.Valid(bev.cfg.value) && bev.bucket.readLimit - bytes >= SSIZE_MIN
      modifies this`readSuspended, this`pendingUnsuspendRead, this`totalRead, this`bytesRead
      modifies rateLimit, bev.bucket, members`readSuspended
      ensures Valid() && bytesRead == old(bytesRead) + bytes && rateLimit.readLimit == old(rateLimit.readLimit) - bytes
      ensures rateLimit.writeLimit == old(rateLimit.writeLimit) && rateLimit.lastUpdated == old(rateLimit.lastUpdated)
      ensures readSuspended <==> rateLimit.readLimit <= 0
      // only a change of the group's mind reaches a member, and only if its lock is free
      ensures forall m :: m in members && m in free && readSuspended ==> GroupBandwidth in m.readSuspended
      ensures forall m :: m in members && m in free && old(readSuspended) && !readSuspended ==>
                GroupBandwidth !in m.readSuspended
      ensures forall m :: m in members && (m !in free || (!old(readSuspended) && !readSuspended)) ==>
                (GroupBandwidth in m.readSuspended <==> GroupBandwidth in old(m.readSuspended))
      ensures bev.cfg.Some? ==> bev.bucket.readLimit == old(bev.bucket.readLimit) - bytes
      ensures bev.cfg.Some? ==> (Bandwidth in bev.readSuspended <==> bev.bucket.readLimit <= 0)
    {
      ShareLeaves(bytes);
      hide Distinct, Quotient, PaidOut;
      assert bev.bucket != rateLimit;
      bev.DecrementOwn(bytes);
      assert Remembered();
      Charge(bytes);
      assert Remembered();
      ResumeOrSuspend(free, first);
    }

    method Charge(bytes: nat)
      requires InBudget() && rateLimit.readLimit - bytes >= floor - slack
      modifies this`totalRead, this`bytesRead, rateLimit
      ensures InBudget() && bytesRead == old(bytesRead) + bytes &&
              rateLimit.readLimit == old(rateLimit.readLimit) - bytes
      ensures rateLimit.writeLimit == old(rateLimit.writeLimit) && rateLimit.lastUpdated == old(rateLimit.lastUpdated)
    {
      rateLimit.DecrementRead(bytes, cfg);
      WrapAdd(bytesRead, bytes);
      totalRead := (totalRead + bytes) % TWO64;
      bytesRead := bytesRead + bytes;
    }

    method ResumeOrSuspend(free: set<Member>, first: nat)
      requires Remembered() && first <= |members|
      modifies this`readSuspended, this`pendingUnsuspendRead, members`readSuspended
      ensures Remembered() && (readSuspended <==> rateLimit.readLimit <= 0)
      // only a change of the group's mind reaches a member, and only if its lock is free
      ensures forall m :: m in members && m in free && readSuspended ==> GroupBandwidth in m.readSuspended
      ensures forall m :: m in members && m in free && old(readSuspended) && !readSuspended ==>
                GroupBandwidth !in m.readSuspended
      ensures forall m :: m in members && (m !in free || (!old(readSuspended) && !readSuspended)) ==>
                (GroupBandwidth in m.readSuspended <==> GroupBandwidth in old(m.readSuspended))
      ensures forall m :: m in members ==> (Bandwidth in m.readSuspended <==> Bandwidth in old(m.readSuspended))
    {
      if rateLimit.readLimit <= 0 {
        SuspendReading(free);
      } else if readSuspended {
        UnsuspendReading(free, first);
      }
    }

    /** The bucket is divided evenly: the shares of all members together are what it holds, but for a
        remainder smaller than their number, unless that is less than the minimum share for each. */
    lemma ShareDivides()
      requires Balanced() && nMembers > 0
      ensures readSuspended ==> Share() == 0
      ensures !readSuspended && rateLimit.readLimit >= nMembers * minShare ==>
                nMembers * Share() <= rateLimit.readLimit < nMembers * (Share() + 1)
      ensures !readSuspended && rateLimit.readLimit < nMembers * minShare ==> Share() == minShare
    {
      hide PaidOut, Counted;
      if !readSuspended {
        Evenly(rateLimit.readLimit, nMembers, minShare);
      }
    }

    // A granted read overdraws the bucket by less than the minimum share.
    lemma ShareLeaves(bytes: nat)
      requires Balanced() && nMembers > 0 && bytes <= Share()
      ensures readSuspended ==> bytes == 0
      ensures rateLimit.readLimit - bytes >= floor - slack
    {
      hide PaidOut;
      if !readSuspended {
        QuotientBelow(rateLimit.readLimit, nMembers);
        hide Quotient;
      }
    }

    /* ---------- refilling ---------- */

    method RefillBucket(tick: nat)
      requires Balanced() && tick < TWO32
      modifies this`granted, this`ticks, rateLimit
      ensures Balanced()
      ensures var n := Elapsed(old(rateLimit.lastUpdated), tick);
              && ticks == old(ticks) + n && granted == old(granted) + n * cfg.readRate
              && rateLimit.readLimit == Refilled(old(rateLimit.readLimit), cfg.readRate, cfg.readMax, n)
              && rateLimit.writeLimit == Refilled(old(rateLimit.writeLimit), cfg.writeRate, cfg.writeMax, n)
    {
      hide Counted, Refilled, Elapsed;
      ghost var n := Elapsed(rateLimit.lastUpdated, tick);
      RefilledGrows(rateLimit.readLimit, cfg.readRate, cfg.readMax, n);
      Paid(granted, topRate, cfg.readRate, ticks, n);
      var _ := rateLimit.Update(cfg, tick);
      granted, ticks := granted + n * cfg.readRate, ticks + n;
    }

    // _bev_group_refill_callback, the reading half
    method Refill(tick: nat, free: set<Member>, first: nat)
      requires Valid() && tick < TWO32 && first <= |members|
      modifies this`readSuspended, this`pendingUnsuspendRead, this`granted, this`ticks, rateLimit, members`readSuspended
      ensures Valid()
      ensures var n := Elapsed(old(rateLimit.lastUpdated), tick);
              && ticks == old(ticks) + n && granted == old(granted) + n * cfg.readRate
              && rateLimit.readLimit == Refilled(old(rateLimit.readLimit), cfg.readRate, cfg.readMax, n)
      ensures rateLimit.writeLimit == Refilled(old(rateLimit.writeLimit), cfg.writeRate, cfg.writeMax,
              Elapsed(old(rateLimit.lastUpdated), tick))
      ensures var resumes := old(pendingUnsuspendRead) || (old(readSuspended) && rateLimit.readLimit >= minShare);
              && readSuspended == (old(readSuspended) && !resumes)
              && (pendingUnsuspendRead <==> resumes && exists m :: m in members && m !in free)
              && forall m :: m in members ==>
                   m.readSuspended == if resumes && m in free then old(m.readSuspended) - {GroupBandwidth}
                       else old(m.readSuspended)
    {
      hide PaidOut, Counted, Bucket.Valid, Distinct, Refilled, Elapsed;
      RefillBucket(tick);
      if pendingUnsuspendRead || (readSuspended && rateLimit.readLimit >= minShare) {
        UnsuspendReading(free, first);
      }
    }

    /* ---------- settings and members ---------- */

    // bufferevent_rate_limit_group_set_min_share
    method SetMinShare(share: nat) returns (r: int)
      requires Valid()
      modifies this`minShare, this`configuredMinShare, this`slack, this`floor
      ensures Valid() && slack == Max(old(slack), minShare) && floor == Min(old(floor), minShare)
      ensures if share > SSIZE_MAX then r == -1 && minShare == old(minShare)
              else r == 0 && minShare == Min(share, Min(cfg.readRate, cfg.writeRate))
    {
      hide PaidOut, Counted, Remembered, Bucket.Valid;
      if share > SSIZE_MAX {
        return -1;
      }
      configuredMinShare := share;
      minShare := Min(share, Min(cfg.readRate, cfg.writeRate));
      assert minShare <= share;
      slack, floor := Max(slack, minShare), Min(floor, minShare);
      return 0;
    }

    // bufferevent_rate_limit_group_set_cfg
    method SetCfg(newCfg: Cfg)
      requires Valid() && CfgOk(newCfg)
      modifies this`cfg, this`minShare, this`configuredMinShare, this`slack, this`floor, this`topRate, rateLimit
      ensures Valid() && cfg == newCfg && topRate == Max(old(topRate), newCfg.readRate)
      ensures rateLimit.readLimit == Min(old(rateLimit.readLimit), newCfg.readMax)
      ensures rateLimit.writeLimit == Min(old(rateLimit.writeLimit), newCfg.writeMax) &&
              rateLimit.lastUpdated == old(rateLimit.lastUpdated)
      ensures minShare == Min(old(configuredMinShare), Min(newCfg.readRate, newCfg.writeRate))
      ensures slack == Max(old(slack), minShare) && floor == Min(old(floor), minShare)
    {
      rateLimit.Reinit(newCfg, cfg);
      TopGrows(topRate, Max(topRate, newCfg.readRate), ticks);
      cfg, topRate := newCfg, Max(topRate, newCfg.readRate);
      var _ := SetMinShare(configuredMinShare);
    }

    // bufferevent_add_to_rate_limit_group: whoever is in another group leaves that one first
    method AddMember(bev: Member)
      requires Valid() && bev.bucket != rateLimit && (bev.group == this ==> bev in members)
      requires bev.group == null ==> GroupBandwidth !in bev.readSuspended
      requires bev.group != null ==> bev.group.Valid() && bev in bev.group.members
      modifies this`members, this`nMembers, bev`readSuspended, bev`group, bev.Home()`members, bev.Home()`nMembers
      ensures Valid() && bev.group == this
      ensures old(bev.group) == this ==> members == old(members) && bev.readSuspended == old(bev.readSuspended)
      ensures old(bev.group) != this ==>
                && members == old(members) + [bev]
                && bev.readSuspended - {GroupBandwidth} == old(bev.readSuspended) - {GroupBandwidth}
                && (GroupBandwidth in bev.readSuspended <==> readSuspended)
      ensures old(bev.group) != null && old(bev.group) != this ==>
                old(bev.group).Valid() && old(bev.group).members == Without(old(bev.group.members), bev)
    {
      if bev.group == this {
        return;
      }
      if bev.group != null {
        bev.group.RemoveMember(bev);
      }
      Join(bev);
    }

    method Join(bev: Member)
      requires Valid() && bev.group == null && bev.bucket != rateLimit && GroupBandwidth !in bev.readSuspended
      modifies this`members, this`nMembers, bev`readSuspended, bev`group
      ensures Valid() && members == old(members) + [bev] && bev.group == this
      ensures bev.readSuspended == old(bev.readSuspended) + if readSuspended then {GroupBandwidth} else {}
    {
      bev.group := this;
      members, nMembers := members + [bev], nMembers + 1;
      if readSuspended {
        bev.Suspend(GroupBandwidth);
      }
    }

    // bufferevent_remove_from_rate_limit_group
    method RemoveMember(bev: Member)
      requires Valid() && bev in members
      modifies this`members, this`nMembers, bev`readSuspended, bev`group
      ensures Valid() && members == Without(old(members), bev) && bev.group == null
      ensures bev.readSuspended == old(bev.readSuspended) - {GroupBandwidth}
    {
      hide Without, Distinct, PaidOut;
      var k := IndexOf(members, bev);
      WithoutAt(members, bev, k);
      WithoutDistinct(members, k);
      bev.group := null;
      members, nMembers := members[..k] + members[k + 1..], nMembers - 1;
      bev.Unsuspend(GroupBandwidth);
    }

    // All that was ever read: the tokens of the ticks, and less than one minimum share on top.
    lemma GroupBound()
      requires Valid()
      ensures bytesRead <= topRate + topRate * ticks + slack - floor
      ensures floor == 1 ==> bytesRead < topRate + topRate * ticks + slack && rateLimit.readLimit + slack > 0
    {
    }
  }

  method IndexOf(members: seq<Member>, bev: Member) returns (k: nat)
    requires bev in members
    ensures k < |members| && members[k] == bev && bev !in members[..k]
  {
    ghost var i :| 0 <= i < |members| && members[i] == bev;
    k := 0;
    while members[k] != bev
      invariant 0 <= k <= i && bev !in members[..k]
      decreases i - k
    {
      assert members[..k + 1] == members[..k] + [members[k]];
      k := k + 1;
    }
  }

  lemma Evenly(a: nat, n: nat, least: nat)
    requires n > 0
    ensures a >= n * least ==> least <= Quotient(a, n)
    ensures a < n * least ==> Quotient(a, n) < least
    ensures n * Quotient(a, n) <= a < n * (Quotient(a, n) + 1)
  {
    var q := a / n;
    assert a == n * q + a % n;
    if q < least {
      MulMonotone(n, q + 1, least);
    } else {
      MulMonotone(n, least, q);
    }
  }

  lemma QuotientBelow(a: nat, n: nat)
    requires n > 0
    ensures Quotient(a, n) <= a
  {
    assert a == n * (a / n) + a % n;
    MulMonotone(a / n, 1, n);
  }

  lemma WrapAdd(a: nat, b: nat)
    ensures (a % TWO64 + b) % TWO64 == (a + b) % TWO64
  {
  }

  lemma SameTick(limit: int, rate: nat, max: nat, tick: nat)
    requires limit <= max
    ensures Refilled(limit, rate, max, Elapsed(tick, tick)) == limit
  {
  }

  lemma TopGrows(top: nat, top': nat, ticks: nat)
    requires top <= top'
    ensures top * ticks <= top' * ticks
  {
  }

  lemma Paid(granted: nat, top: nat, rate: nat, ticks: nat, n: nat)
    requires granted <= top + top * ticks && rate <= top
    ensures granted + n * rate <= top + top * (ticks + n)
  {
    MulMonotone(n, rate, top);
    assert top * (ticks + n) == top * ticks + n * top;
  }
}
