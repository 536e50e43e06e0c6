/** Slot accounting: the slots the login throttle counts against the grants it has made. */
module ThrottleSlots {
  import opened Words
  import opened LoginThrottle
  import opened ThrottleBans

  // ---- Slots against outstanding grants

  /** Grants not yet given back, counted per IP and per user. */
  datatype Ledger = Ledger(ip: multiset<string>, user: multiset<string>)

  const NOTHING_OWED := Ledger(multiset{}, multiset{})

  /** Slots are given back only by holders of a grant. */
  predicate Settles(l: Ledger, op: Op) {
    op.DoRelease? || op.DoSucceed? ==> op.ip in l.ip && op.user in l.user
  }

  function Post(l: Ledger, op: Op, answer: u64): Ledger {
    if op.DoReserve? && answer == 0 then Ledger(l.ip + multiset{op.ip}, l.user + multiset{op.user})
    else if op.DoRelease? || op.DoSucceed? then Ledger(l.ip - multiset{op.ip}, l.user - multiset{op.user})
    else l
  }

  /** No map counts more slots than there are outstanding grants. */
  ghost predicate SlotsBacked(s: State, l: Ledger) {
    && (forall k :: IpAt(s, k).inFlight <= l.ip[k])
    && (forall k :: UserAt(s, k).inFlight <= l.user[k])
  }

  lemma FailKeepsSlots(cfg: Config, s: State, ip: string, user: string, now: u64, k: string)
    ensures IpAt(Fail(cfg, s, ip, user, now).0, k).inFlight == IpAt(s, k).inFlight
    ensures UserAt(Fail(cfg, s, ip, user, now).0, k).inFlight == UserAt(s, k).inFlight
  {
    FailAt(cfg, s, ip, user, now, k);
  }

  /** The slots an IP holds after a call, from those it held before. */
  function IpSlotsAfter(cfg: Config, s: State, op: Op, answer: u64, k: string): u32 {
    var held := IpAt(s, k).inFlight;
    if op.DoReserve? && answer == 0 && k == op.ip then Min(held + 1, U32_MAX)
    else if (op.DoRelease? || op.DoSucceed?) && k == op.ip then Max(held - 1, 0)
    else if op.DoSweep? && Idle(IpAt(s, k), LongestWindow(cfg), op.at) then 0
    else held
  }

  function UserSlotsAfter(cfg: Config, s: State, op: Op, answer: u64, k: string): u32 {
    var held := UserAt(s, k).inFlight;
    if op.DoReserve? && answer == 0 && k == op.user then Min(held + 1, U32_MAX)
    else if op.DoRelease? && k == op.user then Max(held - 1, 0)
    else if op.DoSucceed? && k == op.user then 0
    else if op.DoSweep? && Idle(UserAt(s, k), LongestWindow(cfg), op.at) then 0
    else held
  }

  lemma SettlingMovesSlots(cfg: Config, s: State, op: Op, k: string)
    requires op.DoRelease? || op.DoSucceed?
    ensures IpAt(Effect(cfg, s, op).0, k).inFlight == IpSlotsAfter(cfg, s, op, 0, k)
    ensures UserAt(Effect(cfg, s, op).0, k).inFlight == UserSlotsAfter(cfg, s, op, 0, k)
  {
  }

  lemma EffectMovesSlots(cfg: Config, s: State, op: Op, k: string)
    ensures var (s', answer) := Effect(cfg, s, op);
      && IpAt(s', k).inFlight == IpSlotsAfter(cfg, s, op, answer, k)
      && UserAt(s', k).inFlight == UserSlotsAfter(cfg, s, op, answer, k)
  {
    match op {
      case DoFail(ip, user, at) => FailKeepsSlots(cfg, s, ip, user, at, k);
      case DoReserve(ip, user, at) => ReserveTouchesOnlySlots(cfg, s, ip, user, at, k);
      case DoRelease(_, _) => SettlingMovesSlots(cfg, s, op, k);
      case DoSucceed(_, _, _) => SettlingMovesSlots(cfg, s, op, k);
      case _ =>
    }
  }

  lemma NextMovesSlots(cfg: Config, s: State, op: Op, s': State, answer: u64, k: string)
    requires Next(cfg, s, op, s', answer)
    ensures IpAt(s', k).inFlight == IpSlotsAfter(cfg, s, op, answer, k)
    ensures UserAt(s', k).inFlight == UserSlotsAfter(cfg, s, op, answer, k)
  {
    EffectMovesSlots(cfg, s, op, k);
    TrimKeepsSlots(cfg, s, op, s', answer, k);
  }

  lemma IpSlotsBacked(cfg: Config, s: State, l: Ledger, op: Op, answer: u64, k: string)
    requires IpAt(s, k).inFlight <= l.ip[k] && Settles(l, op)
    ensures IpSlotsAfter(cfg, s, op, answer, k) <= Post(l, op, answer).ip[k]
  {
  }

  lemma UserSlotsBacked(cfg: Config, s: State, l: Ledger, op: Op, answer: u64, k: string)
    requires UserAt(s, k).inFlight <= l.user[k] && Settles(l, op)
    ensures UserSlotsAfter(cfg, s, op, answer, k) <= Post(l, op, answer).user[k]
  {
  }

  lemma IpSlotsExactIff(cfg: Config, s: State, l: Ledger, op: Op, answer: u64, ip: string)
    requires IpAt(s, ip).inFlight == l.ip[ip] && Settles(l, op)
    ensures IpSlotsAfter(cfg, s, op, answer, ip) == Post(l, op, answer).ip[ip] <==>
      !ReapsSlots(cfg, s, op, ip) && Post(l, op, answer).ip[ip] <= U32_MAX
  {
  }

  lemma NextKeepsBacking(cfg: Config, s: State, l: Ledger, op: Op, s': State, answer: u64)
    requires SlotsBacked(s, l) && Settles(l, op) && Next(cfg, s, op, s', answer)
    ensures SlotsBacked(s', Post(l, op, answer))
  {
    var l' := Post(l, op, answer);
    forall k ensures IpAt(s', k).inFlight <= l'.ip[k] {
      NextMovesSlots(cfg, s, op, s', answer, k);
      IpSlotsBacked(cfg, s, l, op, answer, k);
    }
    forall k ensures UserAt(s', k).inFlight <= l'.user[k] {
      NextMovesSlots(cfg, s, op, s', answer, k);
      UserSlotsBacked(cfg, s, l, op, answer, k);
    }
  }

  /** Evicting never drops a held slot. */
  lemma TrimKeepsSlots(cfg: Config, s: State, op: Op, s': State, answer: u64, k: string)
    requires Next(cfg, s, op, s', answer)
    ensures IpAt(s', k).inFlight == IpAt(Effect(cfg, s, op).0, k).inFlight
    ensures UserAt(s', k).inFlight == UserAt(Effect(cfg, s, op).0, k).inFlight
  {
  }

  /** For one IP: the slots counted are exactly the grants outstanding. */
  predicate SlotsExact(s: State, l: Ledger, ip: string) {
    IpAt(s, ip).inFlight == l.ip[ip]
  }

  /** A sweep drops this IP's entry while it holds slots. */
  predicate ReapsSlots(cfg: Config, s: State, op: Op, ip: string) {
    op.DoSweep? && IpAt(s, ip).inFlight > 0 && Idle(IpAt(s, ip), LongestWindow(cfg), op.at)
  }

  /** The count stays exact through a call if and only if no sweep drops held slots and the
      32-bit counter has room. */
  lemma ExactUnlessReapedOrFull(cfg: Config, s: State, l: Ledger, op: Op, s': State, answer: u64, ip: string)
    requires SlotsExact(s, l, ip) && Settles(l, op) && Next(cfg, s, op, s', answer)
    ensures SlotsExact(s', Post(l, op, answer), ip) <==>
      !ReapsSlots(cfg, s, op, ip) && Post(l, op, answer).ip[ip] <= U32_MAX
  {
    NextMovesSlots(cfg, s, op, s', answer, ip);
    IpSlotsExactIff(cfg, s, l, op, answer, ip);
  }

  /** The call drops this user's entry while it counts slots of attempts still under way: a sweep
      reaps it, or one attempt succeeds beside others. */
  predicate DropsUserSlots(cfg: Config, s: State, op: Op, user: string) {
    var e := UserAt(s, user);
    || (op.DoSweep? && e.inFlight > 0 && Idle(e, LongestWindow(cfg), op.at))
    || (op.DoSucceed? && op.user == user && e.inFlight > 1)
  }

  lemma UserSlotsExactIff(cfg: Config, s: State, l: Ledger, op: Op, answer: u64, user: string)
    requires UserAt(s, user).inFlight == l.user[user] && Settles(l, op)
    ensures UserSlotsAfter(cfg, s, op, answer, user) == Post(l, op, answer).user[user] <==>
      !DropsUserSlots(cfg, s, op, user) && Post(l, op, answer).user[user] <= U32_MAX
  {
  }

  /** The same for a user: exact if and only if no call drops slots still held and the 32-bit counter
      has room. */
  lemma UserExactUnlessDroppedOrFull(cfg: Config, s: State, l: Ledger, op: Op, s': State, answer: u64, user: string)
    requires UserAt(s, user).inFlight == l.user[user] && Settles(l, op) && Next(cfg, s, op, s', answer)
    ensures UserAt(s', user).inFlight == Post(l, op, answer).user[user] <==>
      !DropsUserSlots(cfg, s, op, user) && Post(l, op, answer).user[user] <= U32_MAX
  {
    NextMovesSlots(cfg, s, op, s', answer, user);
    UserSlotsExactIff(cfg, s, l, op, answer, user);
  }

  function Ledgers(ops: seq<Op>, answers: seq<u64>): Ledger
    requires |ops| == |answers|
  {
    if ops == [] then NOTHING_OWED
    else
      var n := |ops| - 1;
      Post(Ledgers(ops[..n], answers[..n]), ops[n], answers[n])
  }

  lemma LedgerStep(ops: seq<Op>, answers: seq<u64>, i: nat)
    requires |ops| == |answers| && i < |ops|
    ensures Ledgers(ops[..i + 1], answers[..i + 1]) == Post(Ledgers(ops[..i], answers[..i]), ops[i], answers[i])
  {
    assert ops[..i + 1][..i] == ops[..i] && answers[..i + 1][..i] == answers[..i];
  }

  /** In every run whose grants are each settled at most once, neither map ever counts more
      slots than there are grants outstanding. */
  lemma SlotsNeverExceedGrants(cfg: Config, states: seq<State>, ops: seq<Op>, answers: seq<u64>, n: nat)
    requires IsRun(cfg, states, ops, answers) && n <= |ops|
    requires forall i :: 0 <= i < |ops| ==> Settles(Ledgers(ops[..i], answers[..i]), ops[i])
    ensures SlotsBacked(states[n], Ledgers(ops[..n], answers[..n]))
  {
    for i := 0 to n
      invariant SlotsBacked(states[i], Ledgers(ops[..i], answers[..i]))
    {
      assert StepAt(cfg, states, ops, answers, i);
      NextKeepsBacking(cfg, states[i], Ledgers(ops[..i], answers[..i]), ops[i], states[i + 1], answers[i]);
      LedgerStep(ops, answers, i);
    }
  }

  /** For an IP whose entry is never reaped while it holds slots, and that never has more than
      2^32 - 1 grants outstanding, the count is exact throughout. */
  lemma SlotsEqualGrants(cfg: Config, states: seq<State>, ops: seq<Op>, answers: seq<u64>, ip: string, n: nat)
    requires IsRun(cfg, states, ops, answers) && n <= |ops|
    requires forall i :: 0 <= i < |ops| ==> Settles(Ledgers(ops[..i], answers[..i]), ops[i])
    requires forall i :: 0 <= i < |ops| ==> !ReapsSlots(cfg, states[i], ops[i], ip)
    requires forall i :: 0 <= i <= |ops| ==> Ledgers(ops[..i], answers[..i]).ip[ip] <= U32_MAX
    ensures SlotsExact(states[n], Ledgers(ops[..n], answers[..n]), ip)
  {
    for i := 0 to n
      invariant SlotsExact(states[i], Ledgers(ops[..i], answers[..i]), ip)
    {
      assert StepAt(cfg, states, ops, answers, i);
      LedgerStep(ops, answers, i);
      ExactUnlessReapedOrFull(cfg, states[i], Ledgers(ops[..i], answers[..i]), ops[i], states[i + 1], answers[i], ip);
    }
  }

  lemma FirstGrant(cfg: Config, ip: string, user: string)
    ensures Reserve(cfg, EMPTY, ip, user, 0)
         == (State(map[ip := FRESH_IP.(inFlight := 1)], map[user := FRESH_USER.(inFlight := 1)]), 0)
  {
    assert ReserveBan(cfg, FRESH_IP.buckets, 0, FRESH_USER.buckets, 0, 0) == 0;
    assert Touch(FRESH_IP, 0, true) == FRESH_IP.(inFlight := 1);
    assert Touch(FRESH_USER, 0, true) == FRESH_USER.(inFlight := 1);
  }

  lemma GrantIsReaped(cfg: Config, ip: string, user: string, now: u64, held: State)
    requires LongestWindow(cfg) <= now
    requires held == State(map[ip := FRESH_IP.(inFlight := 1)], map[user := FRESH_USER.(inFlight := 1)])
    ensures Next(cfg, held, DoSweep(now), EMPTY, 0) && ReapsSlots(cfg, held, DoSweep(now), ip)
  {
    assert SweepIdle(cfg, held, now) == EMPTY;
  }

  lemma TwoSteps(cfg: Config, ops: seq<Op>, s: seq<State>, answers: seq<u64>)
    requires |ops| == |answers| == 2 && |s| == 3 && s[0] == EMPTY
    requires StepAt(cfg, s, ops, answers, 0) && StepAt(cfg, s, ops, answers, 1)
    ensures IsRun(cfg, s, ops, answers)
  {
  }

  /** The first exception happens: an attempt still being evaluated when a sweep comes a whole window
      later loses its slot, so the count says none while one grant is outstanding. */
  lemma SlowAttemptLosesItsSlot(cfg: Config, ip: string, user: string, now: u64) returns (states: seq<State>)
    requires LongestWindow(cfg) <= now
    ensures var ops := [DoReserve(ip, user, 0), DoSweep(now)];
      && IsRun(cfg, states, ops, [0, 0]) && ReapsSlots(cfg, states[1], ops[1], ip)
      && IpAt(states[2], ip).inFlight == 0 && Ledgers(ops, [0, 0]).ip[ip] == 1
  {
    var ops := [DoReserve(ip, user, 0), DoSweep(now)];
    FirstGrant(cfg, ip, user);
    var held := Reserve(cfg, EMPTY, ip, user, 0).0;
    GrantIsReaped(cfg, ip, user, now, held);
    states := [EMPTY, held, EMPTY];
    TwoSteps(cfg, ops, states, [0, 0]);
    LedgerStep(ops, [0, 0], 0);
    LedgerStep(ops, [0, 0], 1);
    assert ops[..2] == ops && [0, 0][..2] == [0, 0];
  }

  lemma SecondGrant(cfg: Config, s: State, a: string, b: string, user: string)
    requires ValidConfig(cfg) && a != b
    requires s == State(map[a := FRESH_IP.(inFlight := 1)], map[user := FRESH_USER.(inFlight := 1)])
    ensures Reserve(cfg, s, b, user, 0).1 == 0
    ensures UserAt(Reserve(cfg, s, b, user, 0).0, user).inFlight == 2
  {
    assert IpAt(s, b) == FRESH_IP && UserAt(s, user) == FRESH_USER.(inFlight := 1);
    ReserveTouchesOnlySlots(cfg, s, b, user, 0, user);
  }

  /** The user's exception happens: of two attempts under way from different addresses one succeeds,
      and the other's slot is no longer counted. */
  lemma SuccessDropsTheOtherSlot(cfg: Config, a: string, b: string, user: string)
    returns (one: State, two: State, done: State)
    requires ValidConfig(cfg) && a != b
    ensures Next(cfg, EMPTY, DoReserve(a, user, 0), one, 0) && Next(cfg, one, DoReserve(b, user, 0), two, 0)
    ensures Next(cfg, two, DoSucceed(a, user, 0), done, 0) && DropsUserSlots(cfg, two, DoSucceed(a, user, 0), user)
    ensures var granted := Post(Post(NOTHING_OWED, DoReserve(a, user, 0), 0), DoReserve(b, user, 0), 0);
      UserAt(done, user).inFlight == 0 && Post(granted, DoSucceed(a, user, 0), 0).user[user] == 1
  {
    FirstGrant(cfg, a, user);
    one := Reserve(cfg, EMPTY, a, user, 0).0;
    SecondGrant(cfg, one, a, b, user);
    two := Reserve(cfg, one, b, user, 0).0;
    done := Succeed(two, a, user, 0);
  }
}
