/** Bans survive reaping and eviction, whatever the order of the timestamps. */
module ThrottleBans {
  import opened Words
  import opened RateLimit
  import opened LoginThrottle

  /** The ban snapshot is at least the real ban end of every bucket of the entry. */
  predicate IpCovered(e: IpEntry) {
    e.buckets.short.banUntil <= e.bannedUntil && e.buckets.long.banUntil <= e.bannedUntil
  }

  predicate UserCovered(e: UserEntry) {
    e.buckets.banUntil <= e.bannedUntil
  }

  predicate Covered(s: State) {
    && (forall k :: k in s.ip ==> IpCovered(s.ip[k]))
    && (forall k :: k in s.user ==> UserCovered(s.user[k]))
  }

  lemma FailKeepsCover(cfg: Config, e: IpEntry, u: UserEntry, now: u64)
    requires IpCovered(e) && UserCovered(u)
    ensures IpCovered(FailIp(cfg, e, now).0) && UserCovered(FailUser(cfg, u, now).0)
  {
  }

  lemma FailEffectKeepsCover(cfg: Config, s: State, ip: string, user: string, now: u64)
    requires Covered(s)
    ensures Covered(Fail(cfg, s, ip, user, now).0)
  {
    FailKeepsCover(cfg, IpAt(s, ip), UserAt(s, user), now);
    var e, u := FailIp(cfg, IpAt(s, ip), now).0, FailUser(cfg, UserAt(s, user), now).0;
    assert Fail(cfg, s, ip, user, now).0 == State(s.ip[ip := e], s.user[user := u]);
  }

  lemma ReserveKeepsCover(cfg: Config, s: State, ip: string, user: string, now: u64)
    requires Covered(s)
    ensures Covered(Reserve(cfg, s, ip, user, now).0)
  {
    var (s', ban) := Reserve(cfg, s, ip, user, now);
    assert s' == TouchBoth(s, ip, user, now, ban == 0);
  }

  lemma EffectKeepsCover(cfg: Config, s: State, op: Op)
    requires Covered(s)
    ensures Covered(Effect(cfg, s, op).0)
  {
    match op {
      case DoReserve(ip, user, at) => ReserveKeepsCover(cfg, s, ip, user, at);
      case DoFail(ip, user, at) => FailEffectKeepsCover(cfg, s, ip, user, at);
      case _ =>
    }
  }

  lemma NextKeepsCover(cfg: Config, s: State, op: Op, s': State, answer: u64)
    requires Covered(s) && Next(cfg, s, op, s', answer)
    ensures Covered(s')
  {
    EffectKeepsCover(cfg, s, op);
  }

  /** Call `i` leads from state `i` to state `i + 1` and gives answer `i`. */
  ghost predicate StepAt(cfg: Config, states: seq<State>, ops: seq<Op>, answers: seq<u64>, i: nat)
    requires |states| == |ops| + 1 && |answers| == |ops| && i < |ops|
  {
    Next(cfg, states[i], ops[i], states[i + 1], answers[i])
  }

  /** A run of calls from the empty tracker: the states passed through and the answers given. */
  ghost predicate IsRun(cfg: Config, states: seq<State>, ops: seq<Op>, answers: seq<u64>) {
    && |states| == |ops| + 1 && |answers| == |ops|
    && states[0] == EMPTY
    && forall i :: 0 <= i < |ops| ==> StepAt(cfg, states, ops, answers, i)
  }

  lemma {:induction false} ReachableIsCovered(cfg: Config, states: seq<State>, ops: seq<Op>, answers: seq<u64>, i: nat)
    requires IsRun(cfg, states, ops, answers) && i <= |ops|
    ensures Covered(states[i])
  {
    if i > 0 {
      ReachableIsCovered(cfg, states, ops, answers, i - 1);
      assert StepAt(cfg, states, ops, answers, i - 1);
      NextKeepsCover(cfg, states[i - 1], ops[i - 1], states[i], answers[i - 1]);
    }
  }

  lemma TrimKeepsCheck(s: State, s': State, now: u64, ip: string, user: string, t: u64)
    requires Covered(s) && now <= t
    requires Trimmed(s.ip, s'.ip, MAX_IP_ENTRIES, now) && Trimmed(s.user, s'.user, MAX_USER_ENTRIES, now)
    ensures Check(s', ip, user, t) == Check(s, ip, user, t)
  {
  }

  lemma ReapKeepsCheck(cfg: Config, s: State, now: u64, ip: string, user: string, t: u64)
    requires Covered(s) && now <= t
    ensures Check(SweepIdle(cfg, s, now), ip, user, t) == Check(s, ip, user, t)
  {
  }

  /** In every run, a sweep leaves every ban as it was, for every key and every later time; a
      recorded failure changes bans only by what it records, never by whom it evicts. */
  lemma NoBanIsEverEvicted(cfg: Config, states: seq<State>, ops: seq<Op>, answers: seq<u64>, i: nat,
                           ip: string, user: string, t: u64)
    requires IsRun(cfg, states, ops, answers) && i < |ops|
    ensures ops[i].DoSweep? && ops[i].at <= t ==>
      Check(states[i + 1], ip, user, t) == Check(states[i], ip, user, t)
    ensures ops[i].DoFail? && ops[i].at <= t ==>
      Check(states[i + 1], ip, user, t) == Check(Fail(cfg, states[i], ops[i].ip, ops[i].user, ops[i].at).0, ip, user, t)
  {
    var op := ops[i];
    assert StepAt(cfg, states, ops, answers, i);
    ReachableIsCovered(cfg, states, ops, answers, i);
    if (op.DoSweep? || op.DoFail?) && op.at <= t {
      var mid := Effect(cfg, states[i], op).0;
      EffectKeepsCover(cfg, states[i], op);
      TrimKeepsCheck(mid, states[i + 1], op.at, ip, user, t);
      if op.DoSweep? {
        ReapKeepsCheck(cfg, states[i], op.at, ip, user, t);
      }
    }
  }

  // ---- What a recorded attempt does to later checks

  /** The ban a bucket returns for a failure is the ban it then counts down, up to the end of the clock. */
  lemma BucketEnforcesReturnedBan(c: Schedule, b: BucketState, now: u64, t: u64)
    requires now <= t
    ensures var (b', ban) := RecordFailure(c, b, now);
      BanRemaining(b', t) == SatSub(SatAdd(now, ban), t)
  {
  }

  lemma FailureBansBeforeEviction(cfg: Config, s: State, ip: string, user: string, now: u64, t: u64)
    requires now <= t
    ensures var (s', ban) := Fail(cfg, s, ip, user, now);
      Check(s', ip, user, t) == SatSub(SatAdd(now, ban), t)
  {
    var e, u := IpAt(s, ip).buckets, UserAt(s, user).buckets;
    BucketEnforcesReturnedBan(cfg.ipShort, e.short, now, t);
    BucketEnforcesReturnedBan(cfg.ipLong, e.long, now, t);
    BucketEnforcesReturnedBan(cfg.userLong, u, now, t);
    FailAt(cfg, s, ip, user, now, ip);
    FailAt(cfg, s, ip, user, now, user);
  }

  lemma OthersKeepTheirBans(cfg: Config, s: State, ip: string, user: string, now: u64,
                            otherIp: string, otherUser: string, t: u64)
    requires otherIp != ip && otherUser != user
    ensures Check(Fail(cfg, s, ip, user, now).0, otherIp, otherUser, t) == Check(s, otherIp, otherUser, t)
  {
    FailAt(cfg, s, ip, user, now, otherIp);
    FailAt(cfg, s, ip, user, now, otherUser);
  }

  lemma FailureTrims(cfg: Config, s: State, ip: string, user: string, now: u64, s': State, ban: u64)
    requires Next(cfg, s, DoFail(ip, user, now), s', ban)
    ensures var (mid, answer) := Fail(cfg, s, ip, user, now);
      && ban == answer
      && Trimmed(mid.ip, s'.ip, MAX_IP_ENTRIES, now) && Trimmed(mid.user, s'.user, MAX_USER_ENTRIES, now)
  {
  }

  /** What the call evicts changes no later check. */
  lemma FailureKeepsLaterChecks(cfg: Config, s: State, ip: string, user: string, now: u64, s': State, ban: u64,
                                atIp: string, atUser: string, t: u64)
    requires Covered(s) && Next(cfg, s, DoFail(ip, user, now), s', ban) && now <= t
    ensures ban == Fail(cfg, s, ip, user, now).1
    ensures Check(s', atIp, atUser, t) == Check(Fail(cfg, s, ip, user, now).0, atIp, atUser, t)
  {
    FailEffectKeepsCover(cfg, s, ip, user, now);
    FailureTrims(cfg, s, ip, user, now, s', ban);
    TrimKeepsCheck(Fail(cfg, s, ip, user, now).0, s', now, atIp, atUser, t);
  }

  /** The whole call, evictions included: every check from a failure on counts down exactly the ban the
      failure returned (cut off only by the end of the clock), and what any other address and user
      are told from then on is what they were told before. */
  lemma FailureBanIsEnforced(cfg: Config, s: State, ip: string, user: string, now: u64, s': State, ban: u64,
                             otherIp: string, otherUser: string, t: u64)
    requires Covered(s) && Next(cfg, s, DoFail(ip, user, now), s', ban) && now <= t
    ensures Check(s', ip, user, t) == SatSub(SatAdd(now, ban), t)
    ensures otherIp != ip && otherUser != user ==>
      Check(s', otherIp, otherUser, t) == Check(s, otherIp, otherUser, t)
  {
    FailureBansBeforeEviction(cfg, s, ip, user, now, t);
    FailureKeepsLaterChecks(cfg, s, ip, user, now, s', ban, ip, user, t);
    if otherIp != ip && otherUser != user {
      OthersKeepTheirBans(cfg, s, ip, user, now, otherIp, otherUser, t);
      FailureKeepsLaterChecks(cfg, s, ip, user, now, s', ban, otherIp, otherUser, t);
    }
  }

  lemma SlotCallsKeepBuckets(cfg: Config, s: State, op: Op, k: string)
    requires op.DoReserve? || op.DoRelease? || op.DoCheck? || op.DoRemaining?
    ensures IpAt(Effect(cfg, s, op).0, k).buckets == IpAt(s, k).buckets
    ensures UserAt(Effect(cfg, s, op).0, k).buckets == UserAt(s, k).buckets
  {
    if op.DoReserve? {
      ReserveAt(cfg, s, op.ip, op.user, op.at, k);
    }
  }

  lemma SameBucketsSameAnswers(cfg: Config, a: State, b: State, ip: string, user: string, t: u64)
    requires IpAt(a, ip).buckets == IpAt(b, ip).buckets && UserAt(a, user).buckets == UserAt(b, user).buckets
    ensures Check(a, ip, user, t) == Check(b, ip, user, t)
    ensures Remaining(cfg, a, ip, user, t) == Remaining(cfg, b, ip, user, t)
  {
  }

  /** Reserving and releasing move slots and last-seen times only: nobody's ban or budget changes, at
      any time. */
  lemma SlotCallsChangeNoAnswer(cfg: Config, s: State, op: Op, ip: string, user: string, t: u64)
    requires op.DoReserve? || op.DoRelease? || op.DoCheck? || op.DoRemaining?
    ensures var s' := Effect(cfg, s, op).0;
      && Check(s', ip, user, t) == Check(s, ip, user, t)
      && Remaining(cfg, s', ip, user, t) == Remaining(cfg, s, ip, user, t)
  {
    SlotCallsKeepBuckets(cfg, s, op, ip);
    SlotCallsKeepBuckets(cfg, s, op, user);
    SameBucketsSameAnswers(cfg, Effect(cfg, s, op).0, s, ip, user, t);
  }

  /** A call for one address and user leaves the entries of every other as they were, before the caps. */
  lemma CallsTouchOnlyTheirKeys(cfg: Config, s: State, op: Op, k: string)
    requires !op.DoSweep?
    ensures k != op.ip ==> IpAt(Effect(cfg, s, op).0, k) == IpAt(s, k)
    ensures k != op.user ==> UserAt(Effect(cfg, s, op).0, k) == UserAt(s, k)
  {
    match op {
      case DoReserve(ip, user, at) => ReserveAt(cfg, s, ip, user, at, k);
      case DoFail(ip, user, at) => FailAt(cfg, s, ip, user, at, k);
      case _ =>
    }
  }

  /** Only reservations and failures make entries, each in both maps; a success drops its user's; the
      rest of the calls but sweeps keep the keys, before the caps. */
  lemma OnlyAttemptsMakeEntries(cfg: Config, s: State, op: Op)
    requires !op.DoSweep?
    ensures var s' := Effect(cfg, s, op).0;
      && s'.ip.Keys == (if op.DoReserve? || op.DoFail? then s.ip.Keys + {op.ip} else s.ip.Keys)
      && s'.user.Keys == (if op.DoReserve? || op.DoFail? then s.user.Keys + {op.user}
                          else if op.DoSucceed? then s.user.Keys - {op.user}
                          else s.user.Keys)
  {
  }

  /** A success forgives the user and the address's burst bucket but not its daily one: afterwards
      only the daily ban and the daily budget of the address still count, at every time. */
  lemma SuccessKeepsOnlyTheDailyBucket(cfg: Config, s: State, ip: string, user: string, now: u64, t: u64)
    ensures var s', long := Succeed(s, ip, user, now), IpAt(s, ip).buckets.long;
      && Check(s', ip, user, t) == BanRemaining(long, t)
      && Remaining(cfg, s', ip, user, t)
         == Min(Min(cfg.ipShort.maxFailures, BudgetLeft(cfg.ipLong, long, t)), cfg.userLong.maxFailures)
  {
    var s' := Succeed(s, ip, user, now);
    assert IpAt(s', ip).buckets == IpBuckets(FRESH, IpAt(s, ip).buckets.long);
    assert UserAt(s', user) == FRESH_USER;
  }
}
