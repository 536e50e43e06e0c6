/** When idle reaping is invisible: a run with its sweeps and the same run without them answer
    alike, and exactly what makes a sweep show. */
module ThrottleSweep {
  import opened Words
  import opened RateLimit
  import opened LoginThrottle
  import opened ThrottleBans
  import opened ThrottleClock

  // ---- Entries that answer alike from `floor` on: `a` has been swept, `b` has not

  predicate IpAlike(cfg: Config, a: IpEntry, b: IpEntry, floor: u64) {
    && Alike(cfg.ipShort, a.buckets.short, b.buckets.short, floor)
    && Alike(cfg.ipLong, a.buckets.long, b.buckets.long, floor)
    && a.inFlight == b.inFlight
  }

  predicate UserAlike(cfg: Config, a: UserEntry, b: UserEntry, floor: u64) {
    Alike(cfg.userLong, a.buckets, b.buckets, floor) && a.inFlight == b.inFlight
  }

  ghost predicate StatesAlike(cfg: Config, a: State, b: State, floor: u64) {
    && (forall k :: IpAlike(cfg, IpAt(a, k), IpAt(b, k), floor))
    && (forall k :: UserAlike(cfg, UserAt(a, k), UserAt(b, k), floor))
  }

  lemma StatesAlikeLater(cfg: Config, a: State, b: State, now: u64, later: u64)
    requires StatesAlike(cfg, a, b, now) && now <= later
    ensures StatesAlike(cfg, a, b, later)
  {
    forall k ensures IpAlike(cfg, IpAt(a, k), IpAt(b, k), later) {
      var x, y := IpAt(a, k).buckets, IpAt(b, k).buckets;
      assert IpAlike(cfg, IpAt(a, k), IpAt(b, k), now);
      AlikeLater(cfg.ipShort, x.short, y.short, now, later);
      AlikeLater(cfg.ipLong, x.long, y.long, now, later);
    }
    forall k ensures UserAlike(cfg, UserAt(a, k), UserAt(b, k), later) {
      assert UserAlike(cfg, UserAt(a, k), UserAt(b, k), now);
      AlikeLater(cfg.userLong, UserAt(a, k).buckets, UserAt(b, k).buckets, now, later);
    }
  }

  lemma CrowdAlike(c: Schedule, a: BucketState, b: BucketState, others: u32, floor: u64, now: u64)
    requires Alike(c, a, b, floor) && floor <= now
    ensures Crowd(c, a, others, now) == Crowd(c, b, others, now)
    ensures BanRemaining(a, now) == BanRemaining(b, now)
    ensures BudgetLeft(c, a, now) == BudgetLeft(c, b, now)
  {
    AlikeAnswers(c, a, b, floor, now);
  }

  lemma EntriesAnswerAlike(cfg: Config, a: IpEntry, b: IpEntry, u: UserEntry, v: UserEntry, floor: u64, now: u64)
    requires IpAlike(cfg, a, b, floor) && UserAlike(cfg, u, v, floor) && floor <= now
    ensures ReserveBan(cfg, a.buckets, a.inFlight, u.buckets, u.inFlight, now)
         == ReserveBan(cfg, b.buckets, b.inFlight, v.buckets, v.inFlight, now)
  {
    CrowdAlike(cfg.ipShort, a.buckets.short, b.buckets.short, a.inFlight, floor, now);
    CrowdAlike(cfg.ipLong, a.buckets.long, b.buckets.long, a.inFlight, floor, now);
    CrowdAlike(cfg.userLong, u.buckets, v.buckets, u.inFlight, floor, now);
  }

  lemma EntriesFailAlike(cfg: Config, a: IpEntry, b: IpEntry, u: UserEntry, v: UserEntry, floor: u64, now: u64)
    requires IpAlike(cfg, a, b, floor) && UserAlike(cfg, u, v, floor) && floor <= now
    ensures FailIp(cfg, a, now).1 == FailIp(cfg, b, now).1 && FailUser(cfg, u, now).1 == FailUser(cfg, v, now).1
    ensures IpAlike(cfg, FailIp(cfg, a, now).0, FailIp(cfg, b, now).0, floor)
    ensures UserAlike(cfg, FailUser(cfg, u, now).0, FailUser(cfg, v, now).0, floor)
  {
    AlikeAnswers(cfg.ipShort, a.buckets.short, b.buckets.short, floor, now);
    AlikeAnswers(cfg.ipLong, a.buckets.long, b.buckets.long, floor, now);
    AlikeAnswers(cfg.userLong, u.buckets, v.buckets, floor, now);
  }

  /** Only the entries of `ip` and `user` differ. */
  ghost predicate OnlyTouches(s: State, s': State, ip: string, user: string) {
    && (forall k :: k != ip ==> IpAt(s', k) == IpAt(s, k))
    && (forall k :: k != user ==> UserAt(s', k) == UserAt(s, k))
  }

  lemma IpTouchedAlike(cfg: Config, a: State, b: State, a': State, b': State, ip: string, k: string, floor: u64)
    requires IpAlike(cfg, IpAt(a, k), IpAt(b, k), floor) && IpAlike(cfg, IpAt(a', ip), IpAt(b', ip), floor)
    requires k != ip ==> IpAt(a', k) == IpAt(a, k) && IpAt(b', k) == IpAt(b, k)
    ensures IpAlike(cfg, IpAt(a', k), IpAt(b', k), floor)
  {
    if k != ip {
      assert IpAt(a', k) == IpAt(a, k) && IpAt(b', k) == IpAt(b, k);
    }
  }

  lemma UserTouchedAlike(cfg: Config, a: State, b: State, a': State, b': State, user: string, k: string, floor: u64)
    requires UserAlike(cfg, UserAt(a, k), UserAt(b, k), floor)
    requires UserAlike(cfg, UserAt(a', user), UserAt(b', user), floor)
    requires k != user ==> UserAt(a', k) == UserAt(a, k) && UserAt(b', k) == UserAt(b, k)
    ensures UserAlike(cfg, UserAt(a', k), UserAt(b', k), floor)
  {
    if k != user {
      assert UserAt(a', k) == UserAt(a, k) && UserAt(b', k) == UserAt(b, k);
    }
  }

  /** States stay alike if the two entries that change do. */
  lemma TouchedAlike(cfg: Config, a: State, b: State, a': State, b': State, ip: string, user: string, floor: u64)
    requires StatesAlike(cfg, a, b, floor) && OnlyTouches(a, a', ip, user) && OnlyTouches(b, b', ip, user)
    requires IpAlike(cfg, IpAt(a', ip), IpAt(b', ip), floor)
    requires UserAlike(cfg, UserAt(a', user), UserAt(b', user), floor)
    ensures StatesAlike(cfg, a', b', floor)
  {
    forall k ensures IpAlike(cfg, IpAt(a', k), IpAt(b', k), floor) {
      IpTouchedAlike(cfg, a, b, a', b', ip, k, floor);
    }
    forall k ensures UserAlike(cfg, UserAt(a', k), UserAt(b', k), floor) {
      UserTouchedAlike(cfg, a, b, a', b', user, k, floor);
    }
  }

  lemma FailTouches(cfg: Config, s: State, ip: string, user: string, now: u64)
    ensures var s' := Fail(cfg, s, ip, user, now).0;
      && OnlyTouches(s, s', ip, user)
      && IpAt(s', ip) == FailIp(cfg, IpAt(s, ip), now).0 && UserAt(s', user) == FailUser(cfg, UserAt(s, user), now).0
  {
  }

  lemma FailAlike(cfg: Config, a: State, b: State, ip: string, user: string, floor: u64, now: u64)
    requires StatesAlike(cfg, a, b, floor) && floor <= now
    ensures Fail(cfg, a, ip, user, now).1 == Fail(cfg, b, ip, user, now).1
    ensures StatesAlike(cfg, Fail(cfg, a, ip, user, now).0, Fail(cfg, b, ip, user, now).0, floor)
  {
    EntriesFailAlike(cfg, IpAt(a, ip), IpAt(b, ip), UserAt(a, user), UserAt(b, user), floor, now);
    FailTouches(cfg, a, ip, user, now);
    FailTouches(cfg, b, ip, user, now);
    TouchedAlike(cfg, a, b, Fail(cfg, a, ip, user, now).0, Fail(cfg, b, ip, user, now).0, ip, user, floor);
  }

  lemma TouchIpAlike(cfg: Config, a: IpEntry, b: IpEntry, floor: u64, now: u64, granted: bool)
    requires IpAlike(cfg, a, b, floor)
    ensures IpAlike(cfg, Touch(a, now, granted), Touch(b, now, granted), floor)
  {
  }

  lemma TouchUserAlike(cfg: Config, a: UserEntry, b: UserEntry, floor: u64, now: u64, granted: bool)
    requires UserAlike(cfg, a, b, floor)
    ensures UserAlike(cfg, Touch(a, now, granted), Touch(b, now, granted), floor)
  {
  }

  lemma TouchBothTouches(s: State, ip: string, user: string, now: u64, granted: bool)
    ensures var s' := TouchBoth(s, ip, user, now, granted);
      && OnlyTouches(s, s', ip, user)
      && IpAt(s', ip) == Touch(IpAt(s, ip), now, granted) && UserAt(s', user) == Touch(UserAt(s, user), now, granted)
  {
  }

  lemma TouchBothAlike(cfg: Config, a: State, b: State, ip: string, user: string, floor: u64, now: u64, granted: bool)
    requires StatesAlike(cfg, a, b, floor)
    ensures StatesAlike(cfg, TouchBoth(a, ip, user, now, granted), TouchBoth(b, ip, user, now, granted), floor)
  {
    var a', b' := TouchBoth(a, ip, user, now, granted), TouchBoth(b, ip, user, now, granted);
    TouchIpAlike(cfg, IpAt(a, ip), IpAt(b, ip), floor, now, granted);
    TouchUserAlike(cfg, UserAt(a, user), UserAt(b, user), floor, now, granted);
    TouchBothTouches(a, ip, user, now, granted);
    TouchBothTouches(b, ip, user, now, granted);
    TouchedAlike(cfg, a, b, a', b', ip, user, floor);
  }

  lemma ReserveAlike(cfg: Config, a: State, b: State, ip: string, user: string, floor: u64, now: u64)
    requires StatesAlike(cfg, a, b, floor) && floor <= now
    ensures Reserve(cfg, a, ip, user, now).1 == Reserve(cfg, b, ip, user, now).1
    ensures StatesAlike(cfg, Reserve(cfg, a, ip, user, now).0, Reserve(cfg, b, ip, user, now).0, floor)
  {
    EntriesAnswerAlike(cfg, IpAt(a, ip), IpAt(b, ip), UserAt(a, user), UserAt(b, user), floor, now);
    TouchBothAlike(cfg, a, b, ip, user, floor, now, Reserve(cfg, a, ip, user, now).1 == 0);
  }

  lemma QueryAlike(cfg: Config, a: State, b: State, ip: string, user: string, floor: u64, now: u64)
    requires StatesAlike(cfg, a, b, floor) && floor <= now
    ensures Check(a, ip, user, now) == Check(b, ip, user, now)
    ensures Remaining(cfg, a, ip, user, now) == Remaining(cfg, b, ip, user, now)
  {
    var x, y := IpAt(a, ip).buckets, IpAt(b, ip).buckets;
    assert IpAlike(cfg, IpAt(a, ip), IpAt(b, ip), floor) && UserAlike(cfg, UserAt(a, user), UserAt(b, user), floor);
    CrowdAlike(cfg.ipShort, x.short, y.short, 0, floor, now);
    CrowdAlike(cfg.ipLong, x.long, y.long, 0, floor, now);
    CrowdAlike(cfg.userLong, UserAt(a, user).buckets, UserAt(b, user).buckets, 0, floor, now);
  }

  lemma ReleaseTouches(s: State, ip: string, user: string)
    ensures var s' := Release(s, ip, user);
      && OnlyTouches(s, s', ip, user)
      && IpAt(s', ip) == FreeSlot(IpAt(s, ip)) && UserAt(s', user) == FreeSlot(UserAt(s, user))
  {
  }

  lemma FreeIpAlike(cfg: Config, a: IpEntry, b: IpEntry, floor: u64)
    requires IpAlike(cfg, a, b, floor)
    ensures IpAlike(cfg, FreeSlot(a), FreeSlot(b), floor)
  {
  }

  lemma FreeUserAlike(cfg: Config, a: UserEntry, b: UserEntry, floor: u64)
    requires UserAlike(cfg, a, b, floor)
    ensures UserAlike(cfg, FreeSlot(a), FreeSlot(b), floor)
  {
  }

  lemma ReleaseAlike(cfg: Config, a: State, b: State, ip: string, user: string, floor: u64)
    requires StatesAlike(cfg, a, b, floor)
    ensures StatesAlike(cfg, Release(a, ip, user), Release(b, ip, user), floor)
  {
    FreeIpAlike(cfg, IpAt(a, ip), IpAt(b, ip), floor);
    FreeUserAlike(cfg, UserAt(a, user), UserAt(b, user), floor);
    ReleaseTouches(a, ip, user);
    ReleaseTouches(b, ip, user);
    TouchedAlike(cfg, a, b, Release(a, ip, user), Release(b, ip, user), ip, user, floor);
  }

  lemma SucceedTouches(s: State, ip: string, user: string, now: u64)
    ensures var s', e := Succeed(s, ip, user, now), IpAt(s, ip);
      && OnlyTouches(s, s', ip, user)
      && IpAt(s', ip).buckets == IpBuckets(FRESH, e.buckets.long) && IpAt(s', ip).inFlight == Max(e.inFlight - 1, 0)
      && UserAt(s', user) == FRESH_USER
  {
  }

  lemma ForgivenAlike(cfg: Config, a: IpEntry, b: IpEntry, a': IpEntry, b': IpEntry, floor: u64)
    requires IpAlike(cfg, a, b, floor)
    requires a'.buckets == IpBuckets(FRESH, a.buckets.long) && a'.inFlight == Max(a.inFlight - 1, 0)
    requires b'.buckets == IpBuckets(FRESH, b.buckets.long) && b'.inFlight == Max(b.inFlight - 1, 0)
    ensures IpAlike(cfg, a', b', floor)
  {
    TrailsItself(cfg.ipShort, [], floor);
  }

  lemma SucceedAlike(cfg: Config, a: State, b: State, ip: string, user: string, floor: u64, now: u64)
    requires StatesAlike(cfg, a, b, floor)
    ensures StatesAlike(cfg, Succeed(a, ip, user, now), Succeed(b, ip, user, now), floor)
  {
    var a', b' := Succeed(a, ip, user, now), Succeed(b, ip, user, now);
    SucceedTouches(a, ip, user, now);
    SucceedTouches(b, ip, user, now);
    ForgivenAlike(cfg, IpAt(a, ip), IpAt(b, ip), IpAt(a', ip), IpAt(b', ip), floor);
    FreshUserAlike(cfg, floor);
    TouchedAlike(cfg, a, b, a', b', ip, user, floor);
  }

  lemma FreshUserAlike(cfg: Config, floor: u64)
    ensures UserAlike(cfg, FRESH_USER, FRESH_USER, floor)
  {
    TrailsItself(cfg.userLong, [], floor);
  }

  /** The call gives the same answer in both states and leaves them alike. */
  ghost predicate SameEffect(cfg: Config, a: State, b: State, op: Op, floor: u64) {
    && Effect(cfg, a, op).1 == Effect(cfg, b, op).1
    && StatesAlike(cfg, Effect(cfg, a, op).0, Effect(cfg, b, op).0, floor)
  }

  lemma QueryEffect(cfg: Config, a: State, b: State, op: Op, floor: u64)
    requires StatesAlike(cfg, a, b, floor) && (op.DoCheck? || op.DoRemaining?) && floor <= op.at
    ensures SameEffect(cfg, a, b, op, floor)
  {
    QueryAlike(cfg, a, b, op.ip, op.user, floor, op.at);
  }

  lemma AttemptEffect(cfg: Config, a: State, b: State, op: Op, floor: u64)
    requires StatesAlike(cfg, a, b, floor) && (op.DoReserve? || op.DoFail?) && floor <= op.at
    ensures SameEffect(cfg, a, b, op, floor)
  {
    if op.DoReserve? {
      ReserveAlike(cfg, a, b, op.ip, op.user, floor, op.at);
    } else {
      FailAlike(cfg, a, b, op.ip, op.user, floor, op.at);
    }
  }

  lemma SettlingEffect(cfg: Config, a: State, b: State, op: Op, floor: u64)
    requires StatesAlike(cfg, a, b, floor) && (op.DoRelease? || op.DoSucceed?)
    ensures SameEffect(cfg, a, b, op, floor)
  {
    if op.DoRelease? {
      ReleaseAlike(cfg, a, b, op.ip, op.user, floor);
    } else {
      SucceedAlike(cfg, a, b, op.ip, op.user, floor, op.at);
    }
  }

  /** Alike states answer every call dated from `floor` on alike, and stay alike. */
  lemma EffectAlike(cfg: Config, a: State, b: State, op: Op, floor: u64)
    requires StatesAlike(cfg, a, b, floor) && !op.DoSweep? && (op.DoRelease? || floor <= op.at)
    ensures SameEffect(cfg, a, b, op, floor)
  {
    if op.DoCheck? || op.DoRemaining? {
      QueryEffect(cfg, a, b, op, floor);
    } else if op.DoReserve? || op.DoFail? {
      AttemptEffect(cfg, a, b, op, floor);
    } else {
      SettlingEffect(cfg, a, b, op, floor);
    }
  }

  // ---- When reaping is exact

  /** None of the bucket's failures is in window. */
  predicate Quiet(c: Schedule, b: BucketState, now: u64) {
    forall i :: 0 <= i < |b.failures| ==> !InWindow(c, b.failures[i], now)
  }

  predicate IpSpent(cfg: Config, e: IpEntry, now: u64) {
    e.inFlight == 0 && Quiet(cfg.ipShort, e.buckets.short, now) && Quiet(cfg.ipLong, e.buckets.long, now)
  }

  predicate UserSpent(cfg: Config, e: UserEntry, now: u64) {
    e.inFlight == 0 && Quiet(cfg.userLong, e.buckets, now)
  }

  /** Every entry the sweep would reap holds no slot and has no failure in window. */
  predicate CleanSweep(cfg: Config, s: State, now: u64) {
    && (forall k :: k in s.ip && Idle(s.ip[k], LongestWindow(cfg), now) ==> IpSpent(cfg, s.ip[k], now))
    && (forall k :: k in s.user && Idle(s.user[k], LongestWindow(cfg), now) ==> UserSpent(cfg, s.user[k], now))
  }

  lemma QuietIsFresh(c: Schedule, b: BucketState, now: u64)
    requires Quiet(c, b, now) && b.banUntil <= now
    ensures Alike(c, FRESH, b, now)
  {
  }

  lemma AlikeItself(c: Schedule, b: BucketState, now: u64)
    ensures Alike(c, b, b, now)
  {
    TrailsItself(c, b.failures, now);
  }

  lemma CleanSweepAlike(cfg: Config, s: State, now: u64)
    requires Covered(s) && CleanSweep(cfg, s, now)
    ensures StatesAlike(cfg, SweepIdle(cfg, s, now), s, now)
  {
    var swept := SweepIdle(cfg, s, now);
    forall k ensures IpAlike(cfg, IpAt(swept, k), IpAt(s, k), now) {
      var e := IpAt(s, k);
      if IpAt(swept, k) == e {
        AlikeItself(cfg.ipShort, e.buckets.short, now);
        AlikeItself(cfg.ipLong, e.buckets.long, now);
      } else {
        QuietIsFresh(cfg.ipShort, e.buckets.short, now);
        QuietIsFresh(cfg.ipLong, e.buckets.long, now);
      }
    }
    forall k ensures UserAlike(cfg, UserAt(swept, k), UserAt(s, k), now) {
      var e := UserAt(s, k);
      if UserAt(swept, k) == e {
        AlikeItself(cfg.userLong, e.buckets, now);
      } else {
        QuietIsFresh(cfg.userLong, e.buckets, now);
      }
    }
  }

  /** Two buckets give the same count and the same ban at `t`. */
  predicate SameAt(c: Schedule, a: BucketState, b: BucketState, t: u64) {
    FailureCount(c, a, t) == FailureCount(c, b, t) && BanRemaining(a, t) == BanRemaining(b, t)
  }

  predicate IpSameAt(cfg: Config, a: IpEntry, b: IpEntry, t: u64) {
    && SameAt(cfg.ipShort, a.buckets.short, b.buckets.short, t)
    && SameAt(cfg.ipLong, a.buckets.long, b.buckets.long, t)
    && a.inFlight == b.inFlight
  }

  predicate UserSameAt(cfg: Config, a: UserEntry, b: UserEntry, t: u64) {
    SameAt(cfg.userLong, a.buckets, b.buckets, t) && a.inFlight == b.inFlight
  }

  /** Every count, every ban and every slot agrees at every time from `now` on. */
  ghost predicate SameFrom(cfg: Config, a: State, b: State, now: u64) {
    && (forall k, t: u64 :: now <= t ==> IpSameAt(cfg, IpAt(a, k), IpAt(b, k), t))
    && (forall k, t: u64 :: now <= t ==> UserSameAt(cfg, UserAt(a, k), UserAt(b, k), t))
  }

  lemma AlikeIsSame(cfg: Config, a: State, b: State, now: u64)
    requires StatesAlike(cfg, a, b, now)
    ensures SameFrom(cfg, a, b, now)
  {
    forall k, t: u64 | now <= t ensures IpSameAt(cfg, IpAt(a, k), IpAt(b, k), t) {
      assert IpAlike(cfg, IpAt(a, k), IpAt(b, k), now);
      AlikeAnswers(cfg.ipShort, IpAt(a, k).buckets.short, IpAt(b, k).buckets.short, now, t);
      AlikeAnswers(cfg.ipLong, IpAt(a, k).buckets.long, IpAt(b, k).buckets.long, now, t);
    }
    forall k, t: u64 | now <= t ensures UserSameAt(cfg, UserAt(a, k), UserAt(b, k), t) {
      assert UserAlike(cfg, UserAt(a, k), UserAt(b, k), now);
      AlikeAnswers(cfg.userLong, UserAt(a, k).buckets, UserAt(b, k).buckets, now, t);
    }
  }

  lemma {:induction false} NothingCounted(c: Schedule, failures: seq<u64>, now: u64)
    requires CountInWindow(c, failures, now) == 0
    ensures forall i :: 0 <= i < |failures| ==> !InWindow(c, failures[i], now)
  {
    if failures != [] {
      NothingCounted(c, failures[1..], now);
      assert forall i :: 1 <= i < |failures| ==> failures[i] == failures[1..][i - 1];
    }
  }

  lemma SameAsFreshIsQuiet(c: Schedule, b: BucketState, now: u64)
    requires SameAt(c, FRESH, b, now)
    ensures Quiet(c, b, now)
  {
    NothingCounted(c, b.failures, now);
  }

  /** Under any clock: a sweep keeps every count, ban and slot at every time from then on if and only
      if every entry it reaps holds no slot and has no failure in window. */
  lemma SweepExactIff(cfg: Config, s: State, now: u64)
    requires Covered(s)
    ensures SameFrom(cfg, SweepIdle(cfg, s, now), s, now) <==> CleanSweep(cfg, s, now)
  {
    var swept := SweepIdle(cfg, s, now);
    if CleanSweep(cfg, s, now) {
      CleanSweepAlike(cfg, s, now);
      AlikeIsSame(cfg, swept, s, now);
    }
    if SameFrom(cfg, swept, s, now) {
      forall k | k in s.ip && Idle(s.ip[k], LongestWindow(cfg), now) ensures IpSpent(cfg, s.ip[k], now) {
        assert IpSameAt(cfg, IpAt(swept, k), IpAt(s, k), now);
        SameAsFreshIsQuiet(cfg.ipShort, s.ip[k].buckets.short, now);
        SameAsFreshIsQuiet(cfg.ipLong, s.ip[k].buckets.long, now);
      }
      forall k | k in s.user && Idle(s.user[k], LongestWindow(cfg), now) ensures UserSpent(cfg, s.user[k], now) {
        assert UserSameAt(cfg, UserAt(swept, k), UserAt(s, k), now);
        SameAsFreshIsQuiet(cfg.userLong, s.user[k].buckets, now);
      }
    }
  }

  /** No entry about to be reaped still holds a slot. */
  predicate NoSlotReaped(cfg: Config, s: State, now: u64) {
    && (forall k :: k in s.ip && Idle(s.ip[k], LongestWindow(cfg), now) ==> s.ip[k].inFlight == 0)
    && (forall k :: k in s.user && Idle(s.user[k], LongestWindow(cfg), now) ==> s.user[k].inFlight == 0)
  }

  lemma UnseenIsQuiet(c: Schedule, b: BucketState, lastSeen: u64, now: u64)
    requires Chronological(b.failures, lastSeen) && SatSub(now, lastSeen) >= c.window >= 1
    ensures Quiet(c, b, now)
  {
  }

  /** With a clock that never goes back only slots can be lost: an entry unseen for the longest
      window has no failure in window. */
  lemma CleanIffNoSlotReaped(cfg: Config, s: State, clock: u64, now: u64)
    requires ValidConfig(cfg) && Dated(cfg, s, clock) && clock <= now
    ensures CleanSweep(cfg, s, now) <==> NoSlotReaped(cfg, s, now)
  {
    forall k | k in s.ip && Idle(s.ip[k], LongestWindow(cfg), now)
      ensures Quiet(cfg.ipShort, s.ip[k].buckets.short, now) && Quiet(cfg.ipLong, s.ip[k].buckets.long, now)
    {
      assert IpDated(cfg, IpAt(s, k), clock);
      UnseenIsQuiet(cfg.ipShort, s.ip[k].buckets.short, s.ip[k].lastSeen, now);
      UnseenIsQuiet(cfg.ipLong, s.ip[k].buckets.long, s.ip[k].lastSeen, now);
    }
    forall k | k in s.user && Idle(s.user[k], LongestWindow(cfg), now)
      ensures Quiet(cfg.userLong, s.user[k].buckets, now)
    {
      assert UserDated(cfg, UserAt(s, k), clock);
      UnseenIsQuiet(cfg.userLong, s.user[k].buckets, s.user[k].lastSeen, now);
    }
  }

  lemma TrailsTransitive(c: Schedule, x: seq<u64>, y: seq<u64>, z: seq<u64>, floor: u64)
    requires Trails(c, x, y, floor) && Trails(c, y, z, floor)
    ensures Trails(c, x, z, floor)
  {
    var m, n := |y| - |x|, |z| - |y|;
    assert z[n..][m..] == z[n + m..];
    forall i | 0 <= i < n + m ensures !InWindow(c, z[i], floor) {
      if i >= n {
        assert z[i] == y[i - n];
      }
    }
  }

  lemma StatesAlikeTransitive(cfg: Config, a: State, b: State, c: State, floor: u64)
    requires StatesAlike(cfg, a, b, floor) && StatesAlike(cfg, b, c, floor)
    ensures StatesAlike(cfg, a, c, floor)
  {
    forall k ensures IpAlike(cfg, IpAt(a, k), IpAt(c, k), floor) {
      assert IpAlike(cfg, IpAt(a, k), IpAt(b, k), floor) && IpAlike(cfg, IpAt(b, k), IpAt(c, k), floor);
      var x, y, z := IpAt(a, k).buckets, IpAt(b, k).buckets, IpAt(c, k).buckets;
      TrailsTransitive(cfg.ipShort, x.short.failures, y.short.failures, z.short.failures, floor);
      TrailsTransitive(cfg.ipLong, x.long.failures, y.long.failures, z.long.failures, floor);
    }
    forall k ensures UserAlike(cfg, UserAt(a, k), UserAt(c, k), floor) {
      assert UserAlike(cfg, UserAt(a, k), UserAt(b, k), floor) && UserAlike(cfg, UserAt(b, k), UserAt(c, k), floor);
      var x, y, z := UserAt(a, k).buckets, UserAt(b, k).buckets, UserAt(c, k).buckets;
      TrailsTransitive(cfg.userLong, x.failures, y.failures, z.failures, floor);
    }
  }

  // ---- Runs with and without their sweeps

  /** The latest time any sweep of `ops` is dated. */
  function LastSweep(ops: seq<Op>): u64 {
    if ops == [] then 0
    else
      var op, earlier := ops[|ops| - 1], LastSweep(ops[..|ops| - 1]);
      if op.DoSweep? then Max(op.at, earlier) else earlier
  }

  lemma LastSweepStep(ops: seq<Op>, n: nat)
    requires n < |ops|
    ensures var earlier := LastSweep(ops[..n]);
      LastSweep(ops[..n + 1]) == if ops[n].DoSweep? then Max(ops[n].at, earlier) else earlier
  {
    assert ops[..n + 1][..n] == ops[..n];
  }

  ghost predicate SweeplessStepAt(cfg: Config, states: seq<State>, ops: seq<Op>, answers: seq<u64>, i: nat)
    requires |states| == |ops| + 1 && |answers| == |ops| && i < |ops|
  {
    if ops[i].DoSweep? then states[i + 1] == states[i] && answers[i] == 0
    else StepAt(cfg, states, ops, answers, i)
  }

  /** As `IsRun`, with every sweep left out. */
  ghost predicate IsSweeplessRun(cfg: Config, states: seq<State>, ops: seq<Op>, answers: seq<u64>) {
    && |states| == |ops| + 1 && |answers| == |ops|
    && states[0] == EMPTY
    && forall i :: 0 <= i < |ops| ==>
         SweeplessStepAt(cfg, states, ops, answers, i)
  }

  predicate UnderCaps(s: State) {
    |s.ip| <= MAX_IP_ENTRIES && |s.user| <= MAX_USER_ENTRIES
  }

  predicate KeysWithin(a: State, b: State) {
    a.ip.Keys <= b.ip.Keys && a.user.Keys <= b.user.Keys
  }

  lemma KeysWithinCaps(a: State, b: State)
    requires KeysWithin(a, b) && UnderCaps(b)
    ensures UnderCaps(a)
  {
    SubsetSize(a.ip.Keys, b.ip.Keys);
    SubsetSize(a.user.Keys, b.user.Keys);
  }

  lemma {:induction false} SubsetSize<T>(a: set<T>, b: set<T>)
    requires a <= b
    ensures |a| <= |b|
    ensures |a| == |b| ==> a == b
  {
    if a != {} {
      var x :| x in a;
      SubsetSize(a - {x}, b - {x});
    } 
  }

  lemma NothingTrimmed<B>(all: map<string, Tracked<B>>, kept: map<string, Tracked<B>>, cap: nat, now: u64)
    requires Trimmed(all, kept, cap, now) && |all| <= cap
    ensures kept == all
  {
    SubsetSize(kept.Keys, all.Keys);
    assert |kept| == |kept.Keys| && |all| == |all.Keys|;
  }

  lemma NextUnderCaps(cfg: Config, s: State, op: Op, s': State, answer: u64)
    requires Next(cfg, s, op, s', answer) && UnderCaps(Effect(cfg, s, op).0)
    ensures s' == Effect(cfg, s, op).0
  {
    if op.DoFail? || op.DoSweep? {
      var mid := Effect(cfg, s, op).0;
      NothingTrimmed(mid.ip, s'.ip, MAX_IP_ENTRIES, op.at);
      NothingTrimmed(mid.user, s'.user, MAX_USER_ENTRIES, op.at);
    }
  }

  lemma EffectKeysWithin(cfg: Config, a: State, b: State, op: Op)
    requires KeysWithin(a, b)
    ensures if op.DoSweep? then KeysWithin(Effect(cfg, a, op).0, b)
            else KeysWithin(Effect(cfg, a, op).0, Effect(cfg, b, op).0)
  {
    match op {
      case DoReserve(ip, user, at) =>
        assert Effect(cfg, a, op).0.ip.Keys == a.ip.Keys + {ip};
      case DoFail(ip, user, at) =>
        assert Effect(cfg, a, op).0.ip.Keys == a.ip.Keys + {ip};
      case _ =>
    }
  }

  /** What ties the swept state to the unswept one at every point of the two runs. */
  ghost predicate InStep(cfg: Config, swept: State, unswept: State, floor: u64) {
    Covered(swept) && KeysWithin(swept, unswept) && StatesAlike(cfg, swept, unswept, floor)
  }

  /** One step of a run taken with its sweeps (`a` to `a'`) and without (`b` to `b'`). */
  ghost predicate SideBySide(cfg: Config, op: Op, a: State, a': State, x: u64, b: State, b': State, y: u64) {
    && Next(cfg, a, op, a', x)
    && if op.DoSweep? then b' == b && y == 0 else Next(cfg, b, op, b', y)
  }

  /** A call is dated from the last sweep on, the maps have room under their caps without sweeping,
      and a sweep reaps only spent entries. */
  ghost predicate Benign(cfg: Config, op: Op, a: State, b: State, floor: u64) {
    && UnderCaps(b) && UnderCaps(Effect(cfg, b, op).0)
    && (op.DoRelease? || op.DoSweep? || floor <= op.at)
    && (op.DoSweep? ==> CleanSweep(cfg, a, op.at))
  }

  lemma SweepInStep(cfg: Config, a: State, b: State, at: u64, floor: u64)
    requires InStep(cfg, a, b, floor) && CleanSweep(cfg, a, at)
    ensures StatesAlike(cfg, SweepIdle(cfg, a, at), b, Max(at, floor))
  {
    var now := Max(at, floor);
    CleanSweepAlike(cfg, a, at);
    StatesAlikeLater(cfg, SweepIdle(cfg, a, at), a, at, now);
    StatesAlikeLater(cfg, a, b, floor, now);
    StatesAlikeTransitive(cfg, SweepIdle(cfg, a, at), a, b, now);
  }

  lemma StepInStep(cfg: Config, a: State, b: State, op: Op, a': State, x: u64, b': State, y: u64, floor: u64)
    requires InStep(cfg, a, b, floor) && Benign(cfg, op, a, b, floor) && SideBySide(cfg, op, a, a', x, b, b', y)
    ensures x == y && InStep(cfg, a', b', if op.DoSweep? then Max(op.at, floor) else floor)
  {
    EffectKeysWithin(cfg, a, b, op);
    KeysWithinCaps(Effect(cfg, a, op).0, if op.DoSweep? then b else Effect(cfg, b, op).0);
    NextUnderCaps(cfg, a, op, a', x);
    NextKeepsCover(cfg, a, op, a', x);
    if op.DoSweep? {
      SweepInStep(cfg, a, b, op.at, floor);
    } else {
      NextUnderCaps(cfg, b, op, b', y);
      EffectAlike(cfg, a, b, op, floor);
    }
  }

  ghost predicate BenignAt(cfg: Config, ops: seq<Op>, swept: seq<State>, unswept: seq<State>, i: nat)
    requires i < |ops| < |swept| && |ops| < |unswept|
  {
    Benign(cfg, ops[i], swept[i], unswept[i], LastSweep(ops[..i]))
  }

  lemma NthInStep(cfg: Config, ops: seq<Op>, swept: seq<State>, x: seq<u64>,
                  unswept: seq<State>, y: seq<u64>, n: nat)
    requires |swept| == |unswept| == |ops| + 1 && |x| == |y| == |ops| && n < |ops|
    requires StepAt(cfg, swept, ops, x, n) && SweeplessStepAt(cfg, unswept, ops, y, n)
    requires BenignAt(cfg, ops, swept, unswept, n)
    requires InStep(cfg, swept[n], unswept[n], LastSweep(ops[..n]))
    ensures InStep(cfg, swept[n + 1], unswept[n + 1], LastSweep(ops[..n + 1])) && x[n] == y[n]
  {
    LastSweepStep(ops, n);
    StepInStep(cfg, swept[n], unswept[n], ops[n], swept[n + 1], x[n], unswept[n + 1], y[n], LastSweep(ops[..n]));
  }

  lemma StartInStep(cfg: Config)
    ensures InStep(cfg, EMPTY, EMPTY, 0)
  {
    TrailsItself(cfg.ipShort, [], 0);
  }

  lemma AgreeOneMore(x: seq<u64>, y: seq<u64>, n: nat)
    requires n < |x| && n < |y| && x[..n] == y[..n] && x[n] == y[n]
    ensures x[..n + 1] == y[..n + 1]
  {
    assert x[..n + 1] == x[..n] + [x[n]] && y[..n + 1] == y[..n] + [y[n]];
  }

  /** Over every run, under any clock, sweeping changes no answer, provided every sweep is exact, no
      call after a sweep is dated before it, and the maps stay under their caps. */
  lemma SweepsAreInvisible(cfg: Config, ops: seq<Op>, swept: seq<State>, x: seq<u64>,
                           unswept: seq<State>, y: seq<u64>)
    requires IsRun(cfg, swept, ops, x) && IsSweeplessRun(cfg, unswept, ops, y)
    requires forall i :: 0 <= i < |ops| ==> BenignAt(cfg, ops, swept, unswept, i)
    ensures x == y
  {
    StartInStep(cfg);
    for n := 0 to |ops|
      invariant InStep(cfg, swept[n], unswept[n], LastSweep(ops[..n]))
      invariant x[..n] == y[..n]
    {
      NthInStep(cfg, ops, swept, x, unswept, y, n);
      AgreeOneMore(x, y, n);
    }
    assert x[..|ops|] == x && y[..|ops|] == y;
  }

  // ---- Runs whose clock never goes back

  lemma {:induction false} SweepsNotAhead(ops: seq<Op>, n: nat)
    requires Ascending(ops) && n <= |ops|
    ensures LastSweep(ops[..n]) <= ClockAfter(ops[..n])
  {
    if n > 0 {
      SweepsNotAhead(ops, n - 1);
      LastSweepStep(ops, n - 1);
      ClockOfPrefix(ops, n - 1);
    }
  }

  /** The maps stay under their caps without sweeping, and a sweep reaps no slot. */
  ghost predicate RoomyAt(cfg: Config, ops: seq<Op>, swept: seq<State>, unswept: seq<State>, i: nat)
    requires i < |ops| < |swept| && |ops| < |unswept|
  {
    && UnderCaps(unswept[i]) && UnderCaps(Effect(cfg, unswept[i], ops[i]).0)
    && (ops[i].DoSweep? ==> NoSlotReaped(cfg, swept[i], ops[i].at))
  }

  /** Over every run with non-decreasing timestamps, sweeping changes no answer, provided no reaped
      entry held a slot and the maps stay under their caps. */
  lemma AscendingSweepsAreInvisible(cfg: Config, ops: seq<Op>, swept: seq<State>, x: seq<u64>,
                                    unswept: seq<State>, y: seq<u64>)
    requires ValidConfig(cfg) && Ascending(ops)
    requires IsRun(cfg, swept, ops, x) && IsSweeplessRun(cfg, unswept, ops, y)
    requires forall i :: 0 <= i < |ops| ==> RoomyAt(cfg, ops, swept, unswept, i)
    ensures x == y
  {
    forall i | 0 <= i < |ops| ensures BenignAt(cfg, ops, swept, unswept, i) {
      assert RoomyAt(cfg, ops, swept, unswept, i);
      ReachableIsDated(cfg, swept, ops, x, i);
      ClockOfPrefix(ops, i);
      SweepsNotAhead(ops, i);
      if ops[i].DoSweep? {
        CleanIffNoSlotReaped(cfg, swept[i], ClockAfter(ops[..i]), ops[i].at);
      }
    }
    SweepsAreInvisible(cfg, ops, swept, x, unswept, y);
  }

  // ---- A clock that goes back

  lemma UntrimmedUnderCap<B>(m: map<string, Tracked<B>>, cap: nat, now: u64)
    requires |m| <= cap
    ensures Trimmed(m, m, cap, now)
  {
  }

  lemma FirstFailure(c: Schedule, t: u64)
    requires ValidSchedule(c)
    ensures RecordFailure(c, FRESH, t) == (BucketState([t], 0), 0)
    ensures FailureCount(c, BucketState([t], 0), t) == 1
  {
    assert [] + [t] == [t];
    assert [t][1..] == [] && CountInWindow(c, [], t) == 0;
    assert CountInWindow(c, [t], t) == 1;
  }

  /** The address after a failure at `t`, then an attempt that read the clock at 0 and gave its
      slot back. */
  function LateIp(t: u64): IpEntry {
    Tracked(IpBuckets(BucketState([t], 0), BucketState([t], 0)), 0, 0, t)
  }

  function LateUser(t: u64): UserEntry {
    Tracked(BucketState([t], 0), 0, 0, t)
  }

  lemma LateGrant(cfg: Config, s: State, ip: string, user: string, t: u64)
    requires s == State(map[ip := LateIp(t).(lastSeen := t)], map[user := LateUser(t).(lastSeen := t)])
    ensures Reserve(cfg, s, ip, user, 0)
         == (State(map[ip := LateIp(t).(inFlight := 1)], map[user := LateUser(t).(inFlight := 1)]), 0)
  {
    var e, u := IpAt(s, ip), UserAt(s, user);
    assert ReserveBan(cfg, e.buckets, 0, u.buckets, 0, 0) == 0;
    assert Touch(e, 0, true) == LateIp(t).(inFlight := 1) && Touch(u, 0, true) == LateUser(t).(inFlight := 1);
    assert s.ip[ip := Touch(e, 0, true)] == map[ip := Touch(e, 0, true)];
    assert s.user[user := Touch(u, 0, true)] == map[user := Touch(u, 0, true)];
  }

  lemma LateStates(cfg: Config, ip: string, user: string, t: u64)
    returns (failed: State, held: State, late: State)
    requires ValidConfig(cfg)
    ensures late == State(map[ip := LateIp(t)], map[user := LateUser(t)])
    ensures Next(cfg, EMPTY, DoFail(ip, user, t), failed, 0)
    ensures Next(cfg, failed, DoReserve(ip, user, 0), held, 0)
    ensures Next(cfg, held, DoRelease(ip, user), late, 0)
  {
    FirstFailure(cfg.ipShort, t);
    FirstFailure(cfg.ipLong, t);
    FirstFailure(cfg.userLong, t);
    failed := State(map[ip := LateIp(t).(lastSeen := t)], map[user := LateUser(t).(lastSeen := t)]);
    assert Fail(cfg, EMPTY, ip, user, t) == (failed, 0);
    UntrimmedUnderCap(failed.ip, MAX_IP_ENTRIES, t);
    UntrimmedUnderCap(failed.user, MAX_USER_ENTRIES, t);
    held := State(map[ip := LateIp(t).(inFlight := 1)], map[user := LateUser(t).(inFlight := 1)]);
    LateGrant(cfg, failed, ip, user, t);
    late := State(map[ip := LateIp(t)], map[user := LateUser(t)]);
    assert Release(held, ip, user) == late;
  }

  lemma SweepReapsLate(cfg: Config, ip: string, user: string, late: State)
    requires late == State(map[ip := LateIp(LongestWindow(cfg))], map[user := LateUser(LongestWindow(cfg))])
    ensures Next(cfg, late, DoSweep(LongestWindow(cfg)), EMPTY, 0)
  {
    var t := LongestWindow(cfg);
    assert SweepIdle(cfg, late, t) == EMPTY;
    UntrimmedUnderCap(EMPTY.ip, MAX_IP_ENTRIES, t);
    UntrimmedUnderCap(EMPTY.user, MAX_USER_ENTRIES, t);
  }

  lemma LateBudget(cfg: Config, ip: string, user: string, late: State, t: u64)
    requires ValidConfig(cfg) && late == State(map[ip := LateIp(t)], map[user := LateUser(t)])
    ensures Remaining(cfg, EMPTY, ip, user, t) > Remaining(cfg, late, ip, user, t)
  {
    FirstFailure(cfg.ipShort, t);
    FirstFailure(cfg.ipLong, t);
    FirstFailure(cfg.userLong, t);
  }

  lemma Query(cfg: Config, s: State, ip: string, user: string, t: u64) returns (left: u64)
    ensures left == Remaining(cfg, s, ip, user, t) && Next(cfg, s, DoRemaining(ip, user, t), s, left)
  {
    left := Remaining(cfg, s, ip, user, t);
  }

  /** Under every valid configuration a clock that goes back makes a sweep show. From the empty
      tracker: a failure at `t`, an attempt that read the clock at 0 and leaves `lastSeen` before that
      failure, its release, and a query at `t`. With a sweep at `t` before the query, which reaps the
      failure while it is still in window, the query reports more attempts left than without it. */
  lemma BackwardClockShowsSweep(cfg: Config, ip: string, user: string, t: u64)
    returns (failed: State, held: State, late: State, swept: State, x: u64, y: u64)
    requires ValidConfig(cfg) && t == LongestWindow(cfg)
    ensures Next(cfg, EMPTY, DoFail(ip, user, t), failed, 0)
    ensures Next(cfg, failed, DoReserve(ip, user, 0), held, 0)
    ensures Next(cfg, held, DoRelease(ip, user), late, 0)
    ensures Next(cfg, late, DoSweep(t), swept, 0)
    ensures Next(cfg, swept, DoRemaining(ip, user, t), swept, x) && Next(cfg, late, DoRemaining(ip, user, t), late, y)
    ensures x > y
  {
    failed, held, late := LateStates(cfg, ip, user, t);
    swept := EMPTY;
    SweepReapsLate(cfg, ip, user, late);
    LateBudget(cfg, ip, user, late, t);
    x := Query(cfg, swept, ip, user, t);
    y := Query(cfg, late, ip, user, t);
  }
}
