/** How many attempts the throttle lets through: parallel bursts, and the reported budget. */
module ThrottleBudget {
  import opened Words
  import opened RateLimit
  import opened LoginThrottle
  import opened ThrottleBans
  import opened ThrottleClock

  /** The most 8-byte elements one allocation can hold: `isize::MAX / 8`. */
  const DEQUE_CAPACITY: nat := 0x0FFF_FFFF_FFFF_FFFF

  lemma {:induction false} CountAtMostStored(c: Schedule, failures: seq<u64>, now: u64)
    ensures CountInWindow(c, failures, now) <= |failures|
  {
    if failures != [] {
      CountAtMostStored(c, failures[1..], now);
    }
  }

  // ---- Parallel bursts

  /** The admission rule of a bucket with limit `m` and `n` failures in window, beside `k` attempts in
      flight: alone, or the flight fits, or the projected count is a free one. */
  predicate Admits(m: u32, n: u64, k: u32) {
    k == 0 || n + k <= m || (n + k + 1 - m) % 2 == 0
  }

  lemma CrowdAdmitsIff(c: Schedule, b: BucketState, k: u32, now: u64)
    requires ValidSchedule(c) && |b.failures| <= DEQUE_CAPACITY && BanRemaining(b, now) == 0
    ensures Crowd(c, b, k, now) == 0 <==> Admits(c.maxFailures, FailureCount(c, b, now), k)
  {
    CountAtMostStored(c, b.failures, now);
    var n, m := FailureCount(c, b, now), c.maxFailures;
    if k > 0 && n + k > m {
      BansIff(c, n + k + 1);
      var over := n + k + 1 - m;
      assert over % 2 == 0 || over % 2 == 1;
    }
  }

  /** The parallel attempts a bucket with limit `m` and `n` failures in window admits. */
  function GrantLimit(m: u32, n: u64): (limit: nat)
    ensures 1 <= limit <= Max(2, m + 2 - n)
  {
    if n <= m then m + 2 - n
    else if (n - m) % 2 == 1 then 1
    else 2
  }

  lemma AdmitsUpToLimit(m: u32, n: u64, k: u32)
    ensures k < GrantLimit(m, n) ==> Admits(m, n, k)
    ensures k == GrantLimit(m, n) ==> !Admits(m, n, k)
  {
    if n > m {
      Parity(n, m);
      Parity(n + 1, m);
    }
  }

  lemma GrantLimitIsExact(c: Schedule, b: BucketState, k: u32, now: u64)
    requires ValidSchedule(c) && |b.failures| <= DEQUE_CAPACITY && BanRemaining(b, now) == 0
    ensures k < GrantLimit(c.maxFailures, FailureCount(c, b, now)) ==> Crowd(c, b, k, now) == 0
    ensures k == GrantLimit(c.maxFailures, FailureCount(c, b, now)) ==> Crowd(c, b, k, now) > 0
  {
    CrowdAdmitsIff(c, b, k, now);
    AdmitsUpToLimit(c.maxFailures, FailureCount(c, b, now), k);
  }

  lemma Parity(n: int, m: int)
    ensures (n + 1 - m) % 2 == 1 <==> (n - m) % 2 == 0
  {
  }

  /** A burst of reservations at one instant, from any addresses for any users: the state it
      leaves and the grants it makes. */
  function Burst(cfg: Config, s: State, requests: seq<(string, string)>, now: u64)
    : (State, multiset<string>, multiset<string>)
  {
    if requests == [] then (s, multiset{}, multiset{})
    else
      var n := |requests| - 1;
      var (before, ips, users) := Burst(cfg, s, requests[..n], now);
      var (ip, user) := requests[n];
      var (after, ban) := Reserve(cfg, before, ip, user, now);
      if ban == 0 then (after, ips + multiset{ip}, users + multiset{user}) else (after, ips, users)
  }

  lemma GrantMeansAdmitted(cfg: Config, s: State, ip: string, user: string, now: u64)
    requires Reserve(cfg, s, ip, user, now).1 == 0
    ensures var e, u := IpAt(s, ip), UserAt(s, user);
      && BanRemaining(e.buckets.short, now) == BanRemaining(e.buckets.long, now) == BanRemaining(u.buckets, now) == 0
      && Crowd(cfg.ipShort, e.buckets.short, e.inFlight, now) == 0
      && Crowd(cfg.ipLong, e.buckets.long, e.inFlight, now) == 0
      && Crowd(cfg.userLong, u.buckets, u.inFlight, now) == 0
  {
  }

  predicate Storable(b: BucketState) {
    |b.failures| <= DEQUE_CAPACITY
  }

  /** `grants` respects the bucket's limit, if the 32-bit slot counter can reach that limit at all. */
  predicate WithinLimit(c: Schedule, b: BucketState, grants: nat, now: u64) {
    var limit := GrantLimit(c.maxFailures, FailureCount(c, b, now));
    limit <= U32_MAX ==> grants <= limit
  }

  lemma GrantStaysWithinLimit(c: Schedule, b: BucketState, grants: nat, now: u64)
    requires ValidSchedule(c) && Storable(b) && BanRemaining(b, now) == 0 && WithinLimit(c, b, grants, now)
    requires Crowd(c, b, Min(grants, U32_MAX), now) == 0
    ensures WithinLimit(c, b, grants + 1, now)
  {
    if GrantLimit(c.maxFailures, FailureCount(c, b, now)) <= U32_MAX {
      GrantLimitIsExact(c, b, grants, now);
    }
  }

  /** A limit the counter cannot reach never blocks: the bucket admits beside any number in flight. */
  lemma UnreachableLimitNeverBlocks(c: Schedule, b: BucketState, k: u32, now: u64)
    requires ValidSchedule(c) && Storable(b) && BanRemaining(b, now) == 0
    requires GrantLimit(c.maxFailures, FailureCount(c, b, now)) > U32_MAX
    ensures Crowd(c, b, k, now) == 0
  {
    GrantLimitIsExact(c, b, k, now);
  }

  /** The rung a crowded bucket answers with: the ban that the whole flight and one more would open. */
  function Projected(c: Schedule, b: BucketState, others: u32, now: u64): u64 {
    var n := FailureCount(c, b, now);
    if others > 0 && SatAdd(n, others) > c.maxFailures then BanForCount(c, SatAdd(n, others + 1)) else 0
  }

  predicate AttemptStorable(s: State, ip: string, user: string) {
    Storable(IpAt(s, ip).buckets.short) && Storable(IpAt(s, ip).buckets.long) && Storable(UserAt(s, user).buckets)
  }

  lemma CrowdIsProjected(c: Schedule, b: BucketState, others: u32, now: u64)
    requires BanRemaining(b, now) == 0
    ensures Crowd(c, b, others, now) == Projected(c, b, others, now)
  {
  }

  /** A live ban is answered as it stands; a crowded flight with the largest rung that any of the three
      buckets projects. */
  lemma ReserveAnswers(cfg: Config, s: State, ip: string, user: string, now: u64)
    ensures var e, u, ban := IpAt(s, ip), UserAt(s, user), Reserve(cfg, s, ip, user, now).1;
      ban == if Check(s, ip, user, now) > 0 then Check(s, ip, user, now)
             else Max3(Projected(cfg.ipShort, e.buckets.short, e.inFlight, now),
                       Projected(cfg.ipLong, e.buckets.long, e.inFlight, now),
                       Projected(cfg.userLong, u.buckets, u.inFlight, now))
  {
    if Check(s, ip, user, now) == 0 {
      CrowdIsProjected(cfg.ipShort, IpAt(s, ip).buckets.short, IpAt(s, ip).inFlight, now);
      CrowdIsProjected(cfg.ipLong, IpAt(s, ip).buckets.long, IpAt(s, ip).inFlight, now);
      CrowdIsProjected(cfg.userLong, UserAt(s, user).buckets, UserAt(s, user).inFlight, now);
    }
  }

  lemma AdmitsIffNothingProjected(c: Schedule, b: BucketState, others: u32, now: u64)
    requires ValidSchedule(c) && Storable(b) && BanRemaining(b, now) == 0
    ensures Projected(c, b, others, now) == 0 <==> Admits(c.maxFailures, FailureCount(c, b, now), others)
  {
    CrowdIsProjected(c, b, others, now);
    CrowdAdmitsIff(c, b, others, now);
  }

  /** All three buckets admit the attempt beside what is in flight. */
  predicate AttemptAdmitted(cfg: Config, s: State, ip: string, user: string, now: u64) {
    var e, u := IpAt(s, ip), UserAt(s, user);
    && Admits(cfg.ipShort.maxFailures, FailureCount(cfg.ipShort, e.buckets.short, now), e.inFlight)
    && Admits(cfg.ipLong.maxFailures, FailureCount(cfg.ipLong, e.buckets.long, now), e.inFlight)
    && Admits(cfg.userLong.maxFailures, FailureCount(cfg.userLong, u.buckets, now), u.inFlight)
  }

  /** A reservation is granted exactly when no ban is live and all three buckets admit it. */
  lemma ReserveGrantsIff(cfg: Config, s: State, ip: string, user: string, now: u64)
    requires ValidConfig(cfg) && AttemptStorable(s, ip, user)
    ensures Reserve(cfg, s, ip, user, now).1 == 0 <==>
      Check(s, ip, user, now) == 0 && AttemptAdmitted(cfg, s, ip, user, now)
  {
    ReserveAnswers(cfg, s, ip, user, now);
    if Check(s, ip, user, now) == 0 {
      AdmitsIffNothingProjected(cfg.ipShort, IpAt(s, ip).buckets.short, IpAt(s, ip).inFlight, now);
      AdmitsIffNothingProjected(cfg.ipLong, IpAt(s, ip).buckets.long, IpAt(s, ip).inFlight, now);
      AdmitsIffNothingProjected(cfg.userLong, UserAt(s, user).buckets, UserAt(s, user).inFlight, now);
    }
  }

  /** Whatever a burst holds, an address with no slot held gets at most `GrantLimit` grants out of it
      from each of its buckets, hence at most `max(2, m + 2 - n)`. */
  lemma {:induction false} IpBurstIsLimited(cfg: Config, s: State, requests: seq<(string, string)>, now: u64,
                                            ip: string)
    requires ValidConfig(cfg) && IpAt(s, ip).inFlight == 0
    requires Storable(IpAt(s, ip).buckets.short) && Storable(IpAt(s, ip).buckets.long)
    ensures var (s', ips, _) := Burst(cfg, s, requests, now);
      && IpAt(s', ip).buckets == IpAt(s, ip).buckets && IpAt(s', ip).inFlight == Min(ips[ip], U32_MAX)
      && WithinLimit(cfg.ipShort, IpAt(s, ip).buckets.short, ips[ip], now)
      && WithinLimit(cfg.ipLong, IpAt(s, ip).buckets.long, ips[ip], now)
  {
    if requests != [] {
      var n := |requests| - 1;
      IpBurstIsLimited(cfg, s, requests[..n], now, ip);
      var (before, ips, users) := Burst(cfg, s, requests[..n], now);
      var (i, u) := requests[n];
      ReserveTouchesOnlySlots(cfg, before, i, u, now, ip);
      if Reserve(cfg, before, i, u, now).1 == 0 && i == ip {
        GrantMeansAdmitted(cfg, before, i, u, now);
        GrantStaysWithinLimit(cfg.ipShort, IpAt(s, ip).buckets.short, ips[ip], now);
        GrantStaysWithinLimit(cfg.ipLong, IpAt(s, ip).buckets.long, ips[ip], now);
      }
    }
  }

  lemma {:induction false} UserBurstIsLimited(cfg: Config, s: State, requests: seq<(string, string)>, now: u64,
                                              user: string)
    requires ValidConfig(cfg) && UserAt(s, user).inFlight == 0 && Storable(UserAt(s, user).buckets)
    ensures var (s', _, users) := Burst(cfg, s, requests, now);
      && UserAt(s', user).buckets == UserAt(s, user).buckets && UserAt(s', user).inFlight == Min(users[user], U32_MAX)
      && WithinLimit(cfg.userLong, UserAt(s, user).buckets, users[user], now)
  {
    if requests != [] {
      var n := |requests| - 1;
      UserBurstIsLimited(cfg, s, requests[..n], now, user);
      var (before, ips, users) := Burst(cfg, s, requests[..n], now);
      var (i, u) := requests[n];
      ReserveTouchesOnlySlots(cfg, before, i, u, now, user);
      if Reserve(cfg, before, i, u, now).1 == 0 && u == user {
        GrantMeansAdmitted(cfg, before, i, u, now);
        GrantStaysWithinLimit(cfg.userLong, UserAt(s, user).buckets, users[user], now);
      }
    }
  }

  /** After `grants` of a burst the bucket admits one more: its limit is not used up, or is one the
      32-bit slot counter cannot reach. */
  predicate HasRoom(c: Schedule, b: BucketState, grants: nat, now: u64) {
    var limit := GrantLimit(c.maxFailures, FailureCount(c, b, now));
    limit > U32_MAX || grants < limit
  }

  lemma AdmitsIffRoom(c: Schedule, b: BucketState, grants: nat, now: u64)
    requires WithinLimit(c, b, grants, now)
    ensures Admits(c.maxFailures, FailureCount(c, b, now), Min(grants, U32_MAX)) <==> HasRoom(c, b, grants, now)
  {
    AdmitsUpToLimit(c.maxFailures, FailureCount(c, b, now), Min(grants, U32_MAX));
  }

  predicate AttemptHasRoom(cfg: Config, s: State, ip: string, user: string, ipGrants: nat, userGrants: nat, now: u64) {
    && HasRoom(cfg.ipShort, IpAt(s, ip).buckets.short, ipGrants, now)
    && HasRoom(cfg.ipLong, IpAt(s, ip).buckets.long, ipGrants, now)
    && HasRoom(cfg.userLong, UserAt(s, user).buckets, userGrants, now)
  }

  lemma GrantedInBurstIff(cfg: Config, s: State, before: State, ip: string, user: string,
                          ipGrants: nat, userGrants: nat, now: u64)
    requires ValidConfig(cfg) && AttemptStorable(s, ip, user)
    requires IpAt(before, ip).buckets == IpAt(s, ip).buckets && UserAt(before, user).buckets == UserAt(s, user).buckets
    requires IpAt(before, ip).inFlight == Min(ipGrants, U32_MAX)
    requires UserAt(before, user).inFlight == Min(userGrants, U32_MAX)
    requires WithinLimit(cfg.ipShort, IpAt(s, ip).buckets.short, ipGrants, now)
    requires WithinLimit(cfg.ipLong, IpAt(s, ip).buckets.long, ipGrants, now)
    requires WithinLimit(cfg.userLong, UserAt(s, user).buckets, userGrants, now)
    ensures Reserve(cfg, before, ip, user, now).1 == 0 <==>
      Check(s, ip, user, now) == 0 && AttemptHasRoom(cfg, s, ip, user, ipGrants, userGrants, now)
  {
    ReserveGrantsIff(cfg, before, ip, user, now);
    AdmitsIffRoom(cfg.ipShort, IpAt(s, ip).buckets.short, ipGrants, now);
    AdmitsIffRoom(cfg.ipLong, IpAt(s, ip).buckets.long, ipGrants, now);
    AdmitsIffRoom(cfg.userLong, UserAt(s, user).buckets, userGrants, now);
  }

  /** Exactly which requests of a burst are granted, whoever else is in it: request `i` is, if and only
      if no ban is live for it and the grants before it leave room in all three of its buckets. */
  lemma BurstGrantsIff(cfg: Config, s: State, requests: seq<(string, string)>, now: u64, i: nat)
    requires ValidConfig(cfg) && i < |requests| && AttemptStorable(s, requests[i].0, requests[i].1)
    requires IpAt(s, requests[i].0).inFlight == 0 && UserAt(s, requests[i].1).inFlight == 0
    ensures var (ip, user) := requests[i];
      var (before, ips, users) := Burst(cfg, s, requests[..i], now);
      Reserve(cfg, before, ip, user, now).1 == 0 <==>
        Check(s, ip, user, now) == 0 && AttemptHasRoom(cfg, s, ip, user, ips[ip], users[user], now)
  {
    var (ip, user) := requests[i];
    IpBurstIsLimited(cfg, s, requests[..i], now, ip);
    UserBurstIsLimited(cfg, s, requests[..i], now, user);
    var (before, ips, users) := Burst(cfg, s, requests[..i], now);
    GrantedInBurstIff(cfg, s, before, ip, user, ips[ip], users[user], now);
  }

  /** `asked` attempts, cut down to the bucket's limit where the slot counter can reach it. */
  function UpToLimit(c: Schedule, b: BucketState, asked: nat, now: u64): nat {
    var limit := GrantLimit(c.maxFailures, FailureCount(c, b, now));
    if limit > U32_MAX then asked else Min(asked, limit)
  }

  function AttemptUpToLimit(cfg: Config, s: State, ip: string, user: string, asked: nat, now: u64): nat {
    Min(Min(UpToLimit(cfg.ipShort, IpAt(s, ip).buckets.short, asked, now),
            UpToLimit(cfg.ipLong, IpAt(s, ip).buckets.long, asked, now)),
        UpToLimit(cfg.userLong, UserAt(s, user).buckets, asked, now))
  }

  lemma OneMoreUpToLimit(cfg: Config, s: State, ip: string, user: string, asked: nat, now: u64)
    ensures var had := AttemptUpToLimit(cfg, s, ip, user, asked, now);
      AttemptUpToLimit(cfg, s, ip, user, asked + 1, now)
      == if AttemptHasRoom(cfg, s, ip, user, had, had, now) then had + 1 else had
  {
  }

  /** Parallel attempts of one address for one user: exactly the smallest of the three limits are
      granted, all of them if they are fewer, and none while a ban is live. */
  lemma {:induction false} SoloBurstGrants(cfg: Config, s: State, ip: string, user: string, asked: nat, now: u64)
    requires ValidConfig(cfg) && AttemptStorable(s, ip, user)
    requires IpAt(s, ip).inFlight == 0 && UserAt(s, user).inFlight == 0
    ensures var (_, ips, users) := Burst(cfg, s, seq(asked, _ => (ip, user)), now);
      ips[ip] == users[user] ==
        if Check(s, ip, user, now) > 0 then 0 else AttemptUpToLimit(cfg, s, ip, user, asked, now)
  {
    if asked > 0 {
      var requests := seq(asked, _ => (ip, user));
      assert requests[..asked - 1] == seq(asked - 1, _ => (ip, user));
      SoloBurstGrants(cfg, s, ip, user, asked - 1, now);
      BurstGrantsIff(cfg, s, requests, now, asked - 1);
      OneMoreUpToLimit(cfg, s, ip, user, asked - 1, now);
    }
  }

  // ---- What the next failure does to the reported budget

  /** The bucket is not banned and one more failure lands an odd distance past its threshold. */
  predicate Trips(c: Schedule, b: BucketState, now: u64) {
    var next := SatAdd(FailureCount(c, b, now), 1);
    BanRemaining(b, now) == 0 && next > c.maxFailures && (next - c.maxFailures) % 2 == 1
  }

  /** A banned bucket records nothing; any other spends one attempt. */
  function Spent(c: Schedule, b: BucketState, now: u64): u64 {
    if BanRemaining(b, now) > 0 then BudgetLeft(c, b, now) else Max(BudgetLeft(c, b, now) - 1, 0)
  }

  lemma RecordCountsOne(c: Schedule, b: BucketState, now: u64)
    requires c.window >= 1 && Chronological(b.failures, now) && BanRemaining(b, now) == 0
    ensures RecordFailure(c, b, now).1 == BanForCount(c, SatAdd(FailureCount(c, b, now), 1))
    ensures FailureCount(c, RecordFailure(c, b, now).0, now) == SatAdd(FailureCount(c, b, now), 1)
  {
    var kept := Prune(c, b.failures, now);
    PruneCounts(c, b.failures, now);
    PruneIsChronological(c, b.failures, now);
    AppendIsChronological(kept, now);
    PruneTwice(c, b.failures, now, now);
    PruneAppend(c, kept, now);
    PruneCounts(c, kept + [now], now);
  }

  lemma RecordBansIff(c: Schedule, b: BucketState, now: u64)
    requires ValidSchedule(c) && Chronological(b.failures, now)
    ensures RecordFailure(c, b, now).1 > 0 <==> BanRemaining(b, now) > 0 || Trips(c, b, now)
    ensures Trips(c, b, now) ==> BudgetLeft(c, b, now) == 0
    ensures BudgetLeft(c, RecordFailure(c, b, now).0, now) == Spent(c, b, now)
  {
    if BanRemaining(b, now) == 0 {
      RecordCountsOne(c, b, now);
      BansIff(c, SatAdd(FailureCount(c, b, now), 1));
    }
  }

  /** The failures behind an attempt are in chronological order. */
  predicate AttemptChronological(s: State, ip: string, user: string, now: u64) {
    && Chronological(IpAt(s, ip).buckets.short.failures, now) && Chronological(IpAt(s, ip).buckets.long.failures, now)
    && Chronological(UserAt(s, user).buckets.failures, now)
  }

  predicate AttemptTrips(cfg: Config, s: State, ip: string, user: string, now: u64) {
    || Trips(cfg.ipShort, IpAt(s, ip).buckets.short, now)
    || Trips(cfg.ipLong, IpAt(s, ip).buckets.long, now)
    || Trips(cfg.userLong, UserAt(s, user).buckets, now)
  }

  lemma FailIsMaxOfBuckets(cfg: Config, s: State, ip: string, user: string, now: u64)
    ensures var e, u := IpAt(s, ip).buckets, UserAt(s, user).buckets;
      var short, long := RecordFailure(cfg.ipShort, e.short, now), RecordFailure(cfg.ipLong, e.long, now);
      var drip := RecordFailure(cfg.userLong, u, now);
      var (s', ban) := Fail(cfg, s, ip, user, now);
      && ban == Max3(short.1, long.1, drip.1)
      && IpAt(s', ip).buckets == IpBuckets(short.0, long.0) && UserAt(s', user).buckets == drip.0
  {
  }

  /** What is left of an attempt's budget once every unbanned bucket has spent one. */
  function AttemptSpent(cfg: Config, s: State, ip: string, user: string, now: u64): u64 {
    Min(Min(Spent(cfg.ipShort, IpAt(s, ip).buckets.short, now), Spent(cfg.ipLong, IpAt(s, ip).buckets.long, now)),
        Spent(cfg.userLong, UserAt(s, user).buckets, now))
  }

  lemma NextFailureBansIff(cfg: Config, s: State, ip: string, user: string, now: u64)
    requires ValidConfig(cfg) && AttemptChronological(s, ip, user, now)
    ensures Fail(cfg, s, ip, user, now).1 > 0 <==>
      Check(s, ip, user, now) > 0 || AttemptTrips(cfg, s, ip, user, now)
    ensures AttemptTrips(cfg, s, ip, user, now) ==> Remaining(cfg, s, ip, user, now) == 0
  {
    FailIsMaxOfBuckets(cfg, s, ip, user, now);
    RecordBansIff(cfg.ipShort, IpAt(s, ip).buckets.short, now);
    RecordBansIff(cfg.ipLong, IpAt(s, ip).buckets.long, now);
    RecordBansIff(cfg.userLong, UserAt(s, user).buckets, now);
  }

  lemma UnbannedSpendsOne(cfg: Config, s: State, ip: string, user: string, now: u64)
    requires Check(s, ip, user, now) == 0
    ensures AttemptSpent(cfg, s, ip, user, now) == Max(Remaining(cfg, s, ip, user, now) - 1, 0)
  {
  }

  /** What a map entry reports after the call: the budget it has left, or all of it if it was evicted. */
  function Reported(kept: bool, c: Schedule, b: BucketState, now: u64): u64 {
    if kept then Spent(c, b, now) else c.maxFailures
  }

  lemma NextFailureReports(cfg: Config, s: State, ip: string, user: string, now: u64, s': State, ban: u64)
    requires ValidConfig(cfg) && AttemptChronological(s, ip, user, now)
    requires Next(cfg, s, DoFail(ip, user, now), s', ban)
    ensures ban == Fail(cfg, s, ip, user, now).1
    ensures Remaining(cfg, s', ip, user, now)
         == Min(Min(Reported(ip in s'.ip, cfg.ipShort, IpAt(s, ip).buckets.short, now),
                    Reported(ip in s'.ip, cfg.ipLong, IpAt(s, ip).buckets.long, now)),
                Reported(user in s'.user, cfg.userLong, UserAt(s, user).buckets, now))
  {
    FailIsMaxOfBuckets(cfg, s, ip, user, now);
    RecordBansIff(cfg.ipShort, IpAt(s, ip).buckets.short, now);
    RecordBansIff(cfg.ipLong, IpAt(s, ip).buckets.long, now);
    RecordBansIff(cfg.userLong, UserAt(s, user).buckets, now);
    CapsKeepOrDrop(cfg, s, ip, user, now, s', ban);
    FreshBudget(cfg, now);
  }

  lemma FreshBudget(cfg: Config, now: u64)
    ensures BudgetLeft(cfg.ipShort, FRESH, now) == cfg.ipShort.maxFailures
    ensures BudgetLeft(cfg.ipLong, FRESH, now) == cfg.ipLong.maxFailures
    ensures BudgetLeft(cfg.userLong, FRESH, now) == cfg.userLong.maxFailures
  {
  }

  lemma CapsKeepOrDrop(cfg: Config, s: State, ip: string, user: string, now: u64, s': State, ban: u64)
    requires Next(cfg, s, DoFail(ip, user, now), s', ban)
    ensures var mid := Fail(cfg, s, ip, user, now).0;
      && IpAt(s', ip) == (if ip in s'.ip then IpAt(mid, ip) else FRESH_IP)
      && UserAt(s', user) == (if user in s'.user then UserAt(mid, user) else FRESH_USER)
      && (ip !in s'.ip ==> |s'.ip| >= MAX_IP_ENTRIES && !Shielded(IpAt(mid, ip), now))
      && (user !in s'.user ==> |s'.user| >= MAX_USER_ENTRIES && !Shielded(UserAt(mid, user), now))
  {
  }

  /** The whole call. It bans if and only if a ban is live or some unbanned bucket lands an odd distance
      past its threshold. Every unbanned bucket spends one attempt, so with no live ban the reported
      budget counts down by one and a positive budget means the failure is free. Only when a map is
      full can the caps evict an entry that has just failed, never a banned one, and its buckets then
      report their whole budget. */
  lemma BudgetCountsDown(cfg: Config, s: State, ip: string, user: string, now: u64, s': State, ban: u64)
    requires ValidConfig(cfg) && AttemptChronological(s, ip, user, now)
    requires Next(cfg, s, DoFail(ip, user, now), s', ban)
    ensures ban > 0 <==> Check(s, ip, user, now) > 0 || AttemptTrips(cfg, s, ip, user, now)
    ensures Check(s, ip, user, now) == 0 && Remaining(cfg, s, ip, user, now) > 0 ==> ban == 0
    ensures Remaining(cfg, s', ip, user, now)
         == Min(Min(Reported(ip in s'.ip, cfg.ipShort, IpAt(s, ip).buckets.short, now),
                    Reported(ip in s'.ip, cfg.ipLong, IpAt(s, ip).buckets.long, now)),
                Reported(user in s'.user, cfg.userLong, UserAt(s, user).buckets, now))
    ensures ip in s'.ip && user in s'.user && Check(s, ip, user, now) == 0 ==>
      Remaining(cfg, s', ip, user, now) == Max(Remaining(cfg, s, ip, user, now) - 1, 0)
    ensures ip !in s'.ip ==> |s'.ip| >= MAX_IP_ENTRIES && !Shielded(FailIp(cfg, IpAt(s, ip), now).0, now)
    ensures user !in s'.user ==> |s'.user| >= MAX_USER_ENTRIES && !Shielded(FailUser(cfg, UserAt(s, user), now).0, now)
  {
    NextFailureBansIff(cfg, s, ip, user, now);
    NextFailureReports(cfg, s, ip, user, now, s', ban);
    CapsKeepOrDrop(cfg, s, ip, user, now, s', ban);
    FailAt(cfg, s, ip, user, now, ip);
    FailAt(cfg, s, ip, user, now, user);
    if Check(s, ip, user, now) == 0 {
      UnbannedSpendsOne(cfg, s, ip, user, now);
    }
  }

  /** Every state reached with non-decreasing timestamps meets that condition for every attempt. */
  lemma ReachableIsChronological(cfg: Config, states: seq<State>, ops: seq<Op>, answers: seq<u64>, n: nat,
                                 ip: string, user: string, now: u64)
    requires IsRun(cfg, states, ops, answers) && Ascending(ops) && n <= |ops| && ClockAfter(ops[..n]) <= now
    ensures AttemptChronological(states[n], ip, user, now)
  {
    ReachableIsDated(cfg, states, ops, answers, n);
    assert IpDated(cfg, IpAt(states[n], ip), ClockAfter(ops[..n]));
    assert UserDated(cfg, UserAt(states[n], user), ClockAfter(ops[..n]));
  }

  // ---- What a reported budget of zero means

  lemma {:induction false} CountReachesIff(c: Schedule, failures: seq<u64>, m: nat, now: u64)
    requires Chronological(failures, now) && 1 <= m <= |failures|
    ensures CountInWindow(c, failures, now) >= m <==> InWindow(c, failures[|failures| - m], now)
  {
    if InWindow(c, failures[0], now) {
      AllInWindowCount(c, failures, now);
    } else {
      CountAtMostStored(c, failures[1..], now);
      if m < |failures| {
        SuffixIsChronological(failures, 1, now);
        CountReachesIff(c, failures[1..], m, now);
      }
    }
  }

  /** The `maxFailures`-th most recent stored failure is still in window. */
  predicate Exhausted(c: Schedule, b: BucketState, now: u64) {
    1 <= c.maxFailures <= |b.failures| && InWindow(c, b.failures[|b.failures| - c.maxFailures], now)
  }

  lemma BudgetIsZeroIff(c: Schedule, b: BucketState, now: u64)
    requires ValidSchedule(c) && Chronological(b.failures, now)
    ensures BudgetLeft(c, b, now) == 0 <==> Exhausted(c, b, now)
  {
    CountAtMostStored(c, b.failures, now);
    if c.maxFailures <= |b.failures| {
      CountReachesIff(c, b.failures, c.maxFailures, now);
    }
  }

  lemma {:induction false} RunIsOrderly(c: Schedule, events: seq<Event>)
    requires ValidSchedule(c) && Ordered(events)
    ensures Orderly(c, Run(c, events), Clock(events), Clock(events))
  {
    if events != [] {
      var before, last := events[..|events| - 1], events[|events| - 1];
      RunIsOrderly(c, before);
      if last.Failure? {
        RecordIsOrderly(c, Run(c, before), Clock(before), Clock(before), last.at);
      }
    }
  }

  /** While a ban lasts, the budget its bucket reports is zero if and only if the `maxFailures`-th most
      recent failure is still in window: an instant known when the ban opens. */
  lemma LiveBanReportsZeroIff(c: Schedule, events: seq<Event>, t: u64)
    requires ValidSchedule(c) && Ordered(events) && Clock(events) <= t && BanRemaining(Run(c, events), t) > 0
    ensures var b := Run(c, events);
      && |b.failures| > c.maxFailures
      && (BudgetLeft(c, b, t) == 0 <==> InWindow(c, b.failures[|b.failures| - c.maxFailures], t))
  {
    RunIsOrderly(c, events);
    BudgetIsZeroIff(c, Run(c, events), t);
  }

  predicate AttemptExhausted(cfg: Config, s: State, ip: string, user: string, now: u64) {
    || Exhausted(cfg.ipShort, IpAt(s, ip).buckets.short, now)
    || Exhausted(cfg.ipLong, IpAt(s, ip).buckets.long, now)
    || Exhausted(cfg.userLong, UserAt(s, user).buckets, now)
  }

  /** A banned bucket stores more failures than its threshold. */
  predicate BanIsStored(c: Schedule, b: BucketState, now: u64) {
    BanRemaining(b, now) > 0 ==> |b.failures| > c.maxFailures
  }

  /** In every state reached with non-decreasing timestamps, banned or not, the tracker reports zero
      if and only if some bucket's `maxFailures`-th most recent failure is in window; a banned bucket
      always stores that many. */
  lemma RemainingIsZeroIff(cfg: Config, states: seq<State>, ops: seq<Op>, answers: seq<u64>, n: nat,
                           ip: string, user: string, t: u64)
    requires ValidConfig(cfg) && IsRun(cfg, states, ops, answers) && Ascending(ops)
    requires n <= |ops| && ClockAfter(ops[..n]) <= t
    ensures Remaining(cfg, states[n], ip, user, t) == 0 <==> AttemptExhausted(cfg, states[n], ip, user, t)
    ensures BanIsStored(cfg.ipShort, IpAt(states[n], ip).buckets.short, t)
    ensures BanIsStored(cfg.ipLong, IpAt(states[n], ip).buckets.long, t)
    ensures BanIsStored(cfg.userLong, UserAt(states[n], user).buckets, t)
  {
    ReachableIsDated(cfg, states, ops, answers, n);
    assert IpDated(cfg, IpAt(states[n], ip), ClockAfter(ops[..n]));
    assert UserDated(cfg, UserAt(states[n], user), ClockAfter(ops[..n]));
    BudgetIsZeroIff(cfg.ipShort, IpAt(states[n], ip).buckets.short, t);
    BudgetIsZeroIff(cfg.ipLong, IpAt(states[n], ip).buckets.long, t);
    BudgetIsZeroIff(cfg.userLong, UserAt(states[n], user).buckets, t);
  }

  // ---- The shipped schedules mislead

  const SHIPPED := Config(IP_SHORT, IP_LONG, USER_LONG)

  /** Three failures at time 0 and a fourth at `t`. */
  function AfterFour(cfg: Config, ip: string, user: string, t: u64): State {
    var three := Fail(cfg, Fail(cfg, Fail(cfg, EMPTY, ip, user, 0).0, ip, user, 0).0, ip, user, 0).0;
    Fail(cfg, three, ip, user, t).0
  }

  /** The bucket then: only a threshold of three opens a ban. */
  function FourStored(c: Schedule, t: u64): BucketState {
    BucketState([0, 0, 0, t], if c.maxFailures == 3 then SatAdd(t, c.baseBan) else 0)
  }

  lemma UpToThree(c: Schedule, stored: seq<u64>)
    requires ValidSchedule(c) && c.maxFailures >= 3 && (stored == [] || stored == [0] || stored == [0, 0])
    ensures RecordFailure(c, BucketState(stored, 0), 0).0 == BucketState(stored + [0], 0)
  {
  }

  lemma FourthFailure(c: Schedule, t: u64)
    requires ValidSchedule(c) && c.maxFailures >= 3 && t < c.window
    ensures RecordFailure(c, BucketState([0, 0, 0], 0), t).0 == FourStored(c, t)
  {
    assert Prune(c, [0, 0, 0], t) == [0, 0, 0];
    assert [0, 0, 0] + [t] == [0, 0, 0, t];
    assert BanDelay(c.baseBan, c.maxBan, 0) == c.baseBan;
  }

  lemma FourInWindow(c: Schedule, b: BucketState, t: u64, now: u64)
    requires b.failures == [0, 0, 0, t]
    ensures FailureCount(c, b, now)
         == (if InWindow(c, 0, now) then 3 else 0) + (if InWindow(c, t, now) then 1 else 0)
  {
    assert b.failures[1..] == [0, 0, t] && [0, 0, t][1..] == [0, t] && [0, t][1..] == [t] && [t][1..] == [];
    assert CountInWindow(c, [t], now) == if InWindow(c, t, now) then 1 else 0;
    assert CountInWindow(c, [0, t], now) == (if InWindow(c, 0, now) then 1 else 0) + CountInWindow(c, [t], now);
    assert CountInWindow(c, [0, 0, t], now) == (if InWindow(c, 0, now) then 1 else 0) + CountInWindow(c, [0, t], now);
  }

  predicate StoresAll(s: State, ip: string, user: string, stored: seq<u64>) {
    && IpAt(s, ip).buckets == IpBuckets(BucketState(stored, 0), BucketState(stored, 0))
    && UserAt(s, user).buckets == BucketState(stored, 0)
  }

  predicate LooseEnough(cfg: Config) {
    ValidConfig(cfg) && cfg.ipShort.maxFailures >= 3 && cfg.ipLong.maxFailures >= 3 && cfg.userLong.maxFailures >= 3
  }

  lemma EarlyFail(cfg: Config, s: State, ip: string, user: string, stored: seq<u64>)
    requires LooseEnough(cfg) && StoresAll(s, ip, user, stored)
    requires stored == [] || stored == [0] || stored == [0, 0]
    ensures StoresAll(Fail(cfg, s, ip, user, 0).0, ip, user, stored + [0])
  {
    FailIsMaxOfBuckets(cfg, s, ip, user, 0);
    UpToThree(cfg.ipShort, stored);
    UpToThree(cfg.ipLong, stored);
    UpToThree(cfg.userLong, stored);
  }

  lemma FourFailures(cfg: Config, ip: string, user: string, t: u64)
    requires LooseEnough(cfg)
    requires t < cfg.ipShort.window && t < cfg.ipLong.window && t < cfg.userLong.window
    ensures var s := AfterFour(cfg, ip, user, t);
      && IpAt(s, ip).buckets == IpBuckets(FourStored(cfg.ipShort, t), FourStored(cfg.ipLong, t))
      && UserAt(s, user).buckets == FourStored(cfg.userLong, t)
  {
    var one := Fail(cfg, EMPTY, ip, user, 0).0;
    var two := Fail(cfg, one, ip, user, 0).0;
    var three := Fail(cfg, two, ip, user, 0).0;
    EarlyFail(cfg, EMPTY, ip, user, []);
    EarlyFail(cfg, one, ip, user, [0]);
    assert [0] + [0] == [0, 0] && [0, 0] + [0] == [0, 0, 0];
    EarlyFail(cfg, two, ip, user, [0, 0]);
    FailIsMaxOfBuckets(cfg, three, ip, user, t);
    FourthFailure(cfg.ipShort, t);
    FourthFailure(cfg.ipLong, t);
    FourthFailure(cfg.userLong, t);
  }

  lemma FourthBudget(cfg: Config, s: State, ip: string, user: string, t: u64, now: u64)
    requires IpAt(s, ip).buckets == IpBuckets(FourStored(cfg.ipShort, t), FourStored(cfg.ipLong, t))
    requires UserAt(s, user).buckets == FourStored(cfg.userLong, t)
    requires cfg.ipShort.maxFailures == 3 && cfg.ipLong.maxFailures >= 6 && cfg.userLong.maxFailures >= 6
    ensures Check(s, ip, user, now) == SatSub(SatAdd(t, cfg.ipShort.baseBan), now)
    ensures !InWindow(cfg.ipShort, 0, now) && InWindow(cfg.ipShort, t, now) ==> Remaining(cfg, s, ip, user, now) == 2
    ensures InWindow(cfg.ipShort, 0, now) ==> Remaining(cfg, s, ip, user, now) == 0
  {
    FourInWindow(cfg.ipShort, IpAt(s, ip).buckets.short, t, now);
    FourInWindow(cfg.ipLong, IpAt(s, ip).buckets.long, t, now);
    FourInWindow(cfg.userLong, UserAt(s, user).buckets, t, now);
  }

  /** One past the threshold the next failure is free: four in the short window lead to a fifth, and
      no daily bucket is near its own threshold. */
  lemma FifthIsFree(cfg: Config, s: State, ip: string, user: string, now: u64)
    requires LooseEnough(cfg) && cfg.ipShort.maxFailures == 3
    requires cfg.ipLong.maxFailures >= 5 && cfg.userLong.maxFailures >= 5
    requires IpAt(s, ip).buckets == IpBuckets(FourStored(cfg.ipShort, 0), FourStored(cfg.ipLong, 0))
    requires UserAt(s, user).buckets == FourStored(cfg.userLong, 0)
    requires cfg.ipShort.baseBan <= now && InWindow(cfg.ipShort, 0, now)
    ensures Fail(cfg, s, ip, user, now).1 == 0
  {
    FourInWindow(cfg.ipShort, IpAt(s, ip).buckets.short, 0, now);
    FourInWindow(cfg.ipLong, IpAt(s, ip).buckets.long, 0, now);
    FourInWindow(cfg.userLong, UserAt(s, user).buckets, 0, now);
    NextFailureBansIff(cfg, s, ip, user, now);
  }

  /** Both readings of the budget fail on the shipped schedules. After four failures at 0 the ban is
      served at 10: the budget is zero and yet the next failure is free. After failures at 0, 0, 0 and
      599 a ban of nine more seconds is live at 600 and yet the budget is two, because the first three
      have just left the window. */
  lemma BudgetMisleads(ip: string, user: string)
    ensures Remaining(SHIPPED, AfterFour(SHIPPED, ip, user, 0), ip, user, 10) == 0
    ensures Fail(SHIPPED, AfterFour(SHIPPED, ip, user, 0), ip, user, 10).1 == 0
    ensures Check(AfterFour(SHIPPED, ip, user, 599), ip, user, 600) == 9
    ensures Remaining(SHIPPED, AfterFour(SHIPPED, ip, user, 599), ip, user, 600) == 2
  {
    FourFailures(SHIPPED, ip, user, 0);
    FourthBudget(SHIPPED, AfterFour(SHIPPED, ip, user, 0), ip, user, 0, 10);
    FifthIsFree(SHIPPED, AfterFour(SHIPPED, ip, user, 0), ip, user, 10);
    FourFailures(SHIPPED, ip, user, 599);
    FourthBudget(SHIPPED, AfterFour(SHIPPED, ip, user, 599), ip, user, 599, 600);
  }
}
