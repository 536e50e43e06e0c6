/** What a clock that never goes back guarantees about every tracker state. */
module ThrottleClock {
  import opened Words
  import opened RateLimit
  import opened LoginThrottle
  import opened ThrottleBans

  /** The time a call happens at: its own, or the clock for a call that takes none. */
  function TimeOf(op: Op, clock: u64): u64 {
    if op.DoRelease? then clock else op.at
  }

  function ClockAfter(ops: seq<Op>): u64 {
    if ops == [] then 0 else TimeOf(ops[|ops| - 1], ClockAfter(ops[..|ops| - 1]))
  }

  /** Timestamps never decrease. */
  predicate Ascending(ops: seq<Op>) {
    ops != [] ==>
      && Ascending(ops[..|ops| - 1])
      && ClockAfter(ops[..|ops| - 1]) <= TimeOf(ops[|ops| - 1], ClockAfter(ops[..|ops| - 1]))
  }

  /** The stored failures ascend up to `seen`, and a ban live at `clock` was opened by more failures
      than the threshold, all still stored. */
  predicate Orderly(c: Schedule, b: BucketState, seen: u64, clock: u64) {
    && Chronological(b.failures, seen)
    && (clock < b.banUntil ==> |b.failures| > c.maxFailures)
  }

  lemma RecordIsOrderly(c: Schedule, b: BucketState, seen: u64, clock: u64, now: u64)
    requires Orderly(c, b, seen, clock) && seen <= clock <= now
    ensures Orderly(c, RecordFailure(c, b, now).0, now, now)
  {
    RecordKeepsChronology(c, b, now);
  }

  predicate IpDated(cfg: Config, e: IpEntry, clock: u64) {
    && e.lastSeen <= clock
    && Orderly(cfg.ipShort, e.buckets.short, e.lastSeen, clock)
    && Orderly(cfg.ipLong, e.buckets.long, e.lastSeen, clock)
  }

  predicate UserDated(cfg: Config, e: UserEntry, clock: u64) {
    e.lastSeen <= clock && Orderly(cfg.userLong, e.buckets, e.lastSeen, clock)
  }

  ghost predicate Dated(cfg: Config, s: State, clock: u64) {
    && (forall k :: IpDated(cfg, IpAt(s, k), clock))
    && (forall k :: UserDated(cfg, UserAt(s, k), clock))
  }

  lemma FailKeepsDates(cfg: Config, e: IpEntry, u: UserEntry, now: u64)
    requires IpDated(cfg, e, now) && UserDated(cfg, u, now)
    ensures IpDated(cfg, FailIp(cfg, e, now).0, now) && UserDated(cfg, FailUser(cfg, u, now).0, now)
  {
    RecordIsOrderly(cfg.ipShort, e.buckets.short, e.lastSeen, now, now);
    RecordIsOrderly(cfg.ipLong, e.buckets.long, e.lastSeen, now, now);
    RecordIsOrderly(cfg.userLong, u.buckets, u.lastSeen, now, now);
  }

  lemma FailEffectKeepsDates(cfg: Config, s: State, ip: string, user: string, now: u64)
    requires Dated(cfg, s, now)
    ensures Dated(cfg, Fail(cfg, s, ip, user, now).0, now)
  {
    FailKeepsDates(cfg, IpAt(s, ip), UserAt(s, user), now);
    var s' := Fail(cfg, s, ip, user, now).0;
    forall k ensures IpDated(cfg, IpAt(s', k), now) && UserDated(cfg, UserAt(s', k), now) {
      FailAt(cfg, s, ip, user, now, k);
    }
  }

  lemma ReserveKeepsDates(cfg: Config, s: State, ip: string, user: string, now: u64)
    requires Dated(cfg, s, now)
    ensures Dated(cfg, Reserve(cfg, s, ip, user, now).0, now)
  {
    var s' := Reserve(cfg, s, ip, user, now).0;
    forall k ensures IpDated(cfg, IpAt(s', k), now) && UserDated(cfg, UserAt(s', k), now) {
      ReserveAt(cfg, s, ip, user, now, k);
    }
  }

  lemma OtherEffectKeepsDates(cfg: Config, s: State, op: Op, now: u64)
    requires Dated(cfg, s, now) && !op.DoFail? && !op.DoReserve?
    requires now == TimeOf(op, now)
    ensures Dated(cfg, Effect(cfg, s, op).0, now)
  {
    var s' := Effect(cfg, s, op).0;
    forall k ensures IpDated(cfg, IpAt(s', k), now) && UserDated(cfg, UserAt(s', k), now) {
      assert IpDated(cfg, IpAt(s, k), now) && UserDated(cfg, UserAt(s, k), now);
    }
  }

  lemma EffectKeepsDates(cfg: Config, s: State, op: Op, clock: u64)
    requires Dated(cfg, s, clock) && clock <= TimeOf(op, clock)
    ensures Dated(cfg, Effect(cfg, s, op).0, TimeOf(op, clock))
  {
    var now := TimeOf(op, clock);
    assert Dated(cfg, s, now);
    match op {
      case DoReserve(ip, user, at) => ReserveKeepsDates(cfg, s, ip, user, at);
      case DoFail(ip, user, at) => FailEffectKeepsDates(cfg, s, ip, user, at);
      case _ => OtherEffectKeepsDates(cfg, s, op, now);
    }
  }

  lemma TrimKeepsDates(cfg: Config, s: State, s': State, now: u64)
    requires Dated(cfg, s, now)
    requires Trimmed(s.ip, s'.ip, MAX_IP_ENTRIES, now) && Trimmed(s.user, s'.user, MAX_USER_ENTRIES, now)
    ensures Dated(cfg, s', now)
  {
    forall k ensures IpDated(cfg, IpAt(s', k), now) && UserDated(cfg, UserAt(s', k), now) {
      assert IpDated(cfg, IpAt(s, k), now) && UserDated(cfg, UserAt(s, k), now);
    }
  }

  lemma NextKeepsDates(cfg: Config, s: State, op: Op, s': State, answer: u64, clock: u64)
    requires Dated(cfg, s, clock) && clock <= TimeOf(op, clock) && Next(cfg, s, op, s', answer)
    ensures Dated(cfg, s', TimeOf(op, clock))
  {
    EffectKeepsDates(cfg, s, op, clock);
    if op.DoFail? || op.DoSweep? {
      TrimKeepsDates(cfg, Effect(cfg, s, op).0, s', op.at);
    }
  }

  lemma {:induction false} AscendingPrefix(ops: seq<Op>, n: nat)
    requires Ascending(ops) && n <= |ops|
    ensures Ascending(ops[..n])
    decreases |ops|
  {
    if n < |ops| {
      assert ops[..|ops| - 1][..n] == ops[..n];
      AscendingPrefix(ops[..|ops| - 1], n);
    } else {
      assert ops[..n] == ops;
    }
  }

  lemma ClockOfPrefix(ops: seq<Op>, n: nat)
    requires Ascending(ops) && n < |ops|
    ensures ClockAfter(ops[..n]) <= ClockAfter(ops[..n + 1]) == TimeOf(ops[n], ClockAfter(ops[..n]))
  {
    assert ops[..n + 1][..n] == ops[..n];
    AscendingPrefix(ops, n + 1);
  }

  lemma NthIsDated(cfg: Config, states: seq<State>, ops: seq<Op>, answers: seq<u64>, i: nat, clock: u64)
    requires |states| == |ops| + 1 && |answers| == |ops| && i < |ops| && StepAt(cfg, states, ops, answers, i)
    requires Dated(cfg, states[i], clock) && clock <= TimeOf(ops[i], clock)
    ensures Dated(cfg, states[i + 1], TimeOf(ops[i], clock))
  {
    NextKeepsDates(cfg, states[i], ops[i], states[i + 1], answers[i], clock);
  }

  /** Every state of every run with non-decreasing timestamps is dated, through sweeps and evictions. */
  lemma ReachableIsDated(cfg: Config, states: seq<State>, ops: seq<Op>, answers: seq<u64>, n: nat)
    requires IsRun(cfg, states, ops, answers) && Ascending(ops) && n <= |ops|
    ensures Dated(cfg, states[n], ClockAfter(ops[..n]))
  {
    for i := 0 to n
      invariant Dated(cfg, states[i], ClockAfter(ops[..i]))
    {
      ClockOfPrefix(ops, i);
      NthIsDated(cfg, states, ops, answers, i, ClockAfter(ops[..i]));
    }
  }
}
