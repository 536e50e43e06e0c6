/** How long the tracker remembers: an entry nobody has used for the longest window and the longest
    ban is gone after the next sweep. */
module ThrottleRetention {
  import opened Words
  import opened RateLimit
  import opened LoginThrottle
  import opened ThrottleBans
  import opened ThrottleClock

  function LongestBan(cfg: Config): u64 {
    Max3(cfg.ipShort.maxBan, cfg.ipLong.maxBan, cfg.userLong.maxBan)
  }

  /** The ban snapshot reaches no further than the longest ban from when the entry was last seen. */
  predicate Bounded<B>(cfg: Config, e: Tracked<B>) {
    e.bannedUntil <= SatAdd(e.lastSeen, LongestBan(cfg))
  }

  ghost predicate AllBounded(cfg: Config, s: State) {
    && (forall k :: Bounded(cfg, IpAt(s, k)))
    && (forall k :: Bounded(cfg, UserAt(s, k)))
  }

  /** A ban returned now ends no later than the cap from now, or than the ban already running. */
  lemma ReturnedBanIsBounded(c: Schedule, b: BucketState, now: u64)
    ensures SatAdd(now, RecordFailure(c, b, now).1) <= Max(SatAdd(now, c.maxBan), b.banUntil)
  {
  }

  lemma FailIsBounded(cfg: Config, e: IpEntry, u: UserEntry, now: u64)
    requires IpCovered(e) && UserCovered(u) && e.lastSeen <= now && u.lastSeen <= now
    requires Bounded(cfg, e) && Bounded(cfg, u)
    ensures Bounded(cfg, FailIp(cfg, e, now).0) && Bounded(cfg, FailUser(cfg, u, now).0)
  {
    ReturnedBanIsBounded(cfg.ipShort, e.buckets.short, now);
    ReturnedBanIsBounded(cfg.ipLong, e.buckets.long, now);
    ReturnedBanIsBounded(cfg.userLong, u.buckets, now);
  }

  lemma ForgiveIsBounded(cfg: Config, e: IpEntry, now: u64)
    requires IpCovered(e) && e.lastSeen <= now && Bounded(cfg, e)
    ensures Bounded(cfg, Forgive(e, now))
  {
  }

  lemma CoveredAt(s: State, k: string)
    requires Covered(s)
    ensures IpCovered(IpAt(s, k)) && UserCovered(UserAt(s, k))
  {
  }

  lemma FailKeepsBounds(cfg: Config, s: State, ip: string, user: string, now: u64)
    requires Covered(s) && Dated(cfg, s, now) && AllBounded(cfg, s)
    ensures AllBounded(cfg, Fail(cfg, s, ip, user, now).0)
  {
    var s' := Fail(cfg, s, ip, user, now).0;
    CoveredAt(s, ip);
    CoveredAt(s, user);
    assert IpDated(cfg, IpAt(s, ip), now) && UserDated(cfg, UserAt(s, user), now);
    FailIsBounded(cfg, IpAt(s, ip), UserAt(s, user), now);
    forall k ensures Bounded(cfg, IpAt(s', k)) && Bounded(cfg, UserAt(s', k)) {
      FailAt(cfg, s, ip, user, now, k);
    }
  }

  lemma ReserveKeepsBounds(cfg: Config, s: State, ip: string, user: string, now: u64)
    requires Dated(cfg, s, now) && AllBounded(cfg, s)
    ensures AllBounded(cfg, Reserve(cfg, s, ip, user, now).0)
  {
    var s' := Reserve(cfg, s, ip, user, now).0;
    forall k ensures Bounded(cfg, IpAt(s', k)) && Bounded(cfg, UserAt(s', k)) {
      assert IpDated(cfg, IpAt(s, k), now) && UserDated(cfg, UserAt(s, k), now);
      assert Bounded(cfg, IpAt(s, k)) && Bounded(cfg, UserAt(s, k));
      ReserveAt(cfg, s, ip, user, now, k);
    }
  }

  lemma SucceedKeepsBounds(cfg: Config, s: State, ip: string, user: string, now: u64)
    requires Covered(s) && Dated(cfg, s, now) && AllBounded(cfg, s)
    ensures AllBounded(cfg, Succeed(s, ip, user, now))
  {
    var s' := Succeed(s, ip, user, now);
    CoveredAt(s, ip);
    assert IpDated(cfg, IpAt(s, ip), now);
    assert Bounded(cfg, IpAt(s, ip));
    ForgiveIsBounded(cfg, IpAt(s, ip), now);
    forall k ensures Bounded(cfg, IpAt(s', k)) && Bounded(cfg, UserAt(s', k)) {
      assert Bounded(cfg, IpAt(s, k)) && Bounded(cfg, UserAt(s, k));
    }
  }

  lemma OtherKeepsBounds(cfg: Config, s: State, op: Op)
    requires AllBounded(cfg, s) && !op.DoFail? && !op.DoReserve? && !op.DoSucceed?
    ensures AllBounded(cfg, Effect(cfg, s, op).0)
  {
    var s' := Effect(cfg, s, op).0;
    forall k ensures Bounded(cfg, IpAt(s', k)) && Bounded(cfg, UserAt(s', k)) {
      assert Bounded(cfg, IpAt(s, k)) && Bounded(cfg, UserAt(s, k));
    }
  }

  lemma EffectKeepsBounds(cfg: Config, s: State, op: Op, clock: u64)
    requires Covered(s) && Dated(cfg, s, clock) && AllBounded(cfg, s) && clock <= TimeOf(op, clock)
    ensures AllBounded(cfg, Effect(cfg, s, op).0)
  {
    assert Dated(cfg, s, TimeOf(op, clock));
    match op {
      case DoFail(ip, user, at) => FailKeepsBounds(cfg, s, ip, user, at);
      case DoReserve(ip, user, at) => ReserveKeepsBounds(cfg, s, ip, user, at);
      case DoSucceed(ip, user, at) => SucceedKeepsBounds(cfg, s, ip, user, at);
      case _ => OtherKeepsBounds(cfg, s, op);
    }
  }

  lemma NextKeepsBounds(cfg: Config, s: State, op: Op, s': State, answer: u64, clock: u64)
    requires Covered(s) && Dated(cfg, s, clock) && AllBounded(cfg, s) && clock <= TimeOf(op, clock)
    requires Next(cfg, s, op, s', answer)
    ensures AllBounded(cfg, s')
  {
    EffectKeepsBounds(cfg, s, op, clock);
    var mid := Effect(cfg, s, op).0;
    forall k ensures Bounded(cfg, IpAt(s', k)) && Bounded(cfg, UserAt(s', k)) {
      assert Bounded(cfg, IpAt(mid, k)) && Bounded(cfg, UserAt(mid, k));
    }
  }

  lemma NthIsBounded(cfg: Config, states: seq<State>, ops: seq<Op>, answers: seq<u64>, i: nat, clock: u64)
    requires |states| == |ops| + 1 && |answers| == |ops| && i < |ops| && StepAt(cfg, states, ops, answers, i)
    requires Covered(states[i]) && Dated(cfg, states[i], clock) && AllBounded(cfg, states[i])
    requires clock <= TimeOf(ops[i], clock)
    ensures AllBounded(cfg, states[i + 1])
  {
    NextKeepsBounds(cfg, states[i], ops[i], states[i + 1], answers[i], clock);
  }

  lemma ReachableIsBounded(cfg: Config, states: seq<State>, ops: seq<Op>, answers: seq<u64>, n: nat)
    requires IsRun(cfg, states, ops, answers) && Ascending(ops) && n <= |ops|
    ensures AllBounded(cfg, states[n])
  {
    for i := 0 to n
      invariant AllBounded(cfg, states[i])
    {
      ReachableIsDated(cfg, states, ops, answers, i);
      ReachableIsCovered(cfg, states, ops, answers, i);
      ClockOfPrefix(ops, i);
      NthIsBounded(cfg, states, ops, answers, i, ClockAfter(ops[..i]));
    }
  }

  /** Nobody has used the entry for the longest window and the longest ban. */
  predicate Unused<B>(cfg: Config, e: Tracked<B>, now: u64) {
    SatSub(now, e.lastSeen) >= Max(LongestWindow(cfg), LongestBan(cfg))
  }

  lemma UnusedIsIdle<B>(cfg: Config, e: Tracked<B>, now: u64)
    requires Bounded(cfg, e) && Unused(cfg, e, now) && ValidConfig(cfg)
    ensures Idle(e, LongestWindow(cfg), now)
  {
  }

  /** In every run with non-decreasing timestamps a sweep leaves no entry that nobody has used for the
      longest window and the longest ban, whatever was recorded, banned or forgiven under it. */
  lemma UnusedEntriesAreReaped(cfg: Config, states: seq<State>, ops: seq<Op>, answers: seq<u64>, i: nat, k: string)
    requires ValidConfig(cfg) && IsRun(cfg, states, ops, answers) && Ascending(ops) && i < |ops| && ops[i].DoSweep?
    ensures k in states[i + 1].ip ==> !Unused(cfg, states[i + 1].ip[k], ops[i].at)
    ensures k in states[i + 1].user ==> !Unused(cfg, states[i + 1].user[k], ops[i].at)
  {
    assert StepAt(cfg, states, ops, answers, i);
    ReachableIsBounded(cfg, states, ops, answers, i);
    var s, s' := states[i], states[i + 1];
    if k in s'.ip && Unused(cfg, s'.ip[k], ops[i].at) {
      assert Bounded(cfg, IpAt(s, k));
      UnusedIsIdle(cfg, s.ip[k], ops[i].at);
    }
    if k in s'.user && Unused(cfg, s'.user[k], ops[i].at) {
      assert Bounded(cfg, UserAt(s, k));
      UnusedIsIdle(cfg, s.user[k], ops[i].at);
    }
  }
}
