/** The per-IP / per-user login throttle (backend/src/auth/login_throttle.rs): operations on
    tracker states, and the class that performs them in place. */
module LoginThrottle {
  import opened Words
  import opened Wrappers
  import opened RateLimit

  const MAX_IP_ENTRIES: nat := 10_000
  const MAX_USER_ENTRIES: nat := 10_000

  datatype Config = Config(ipShort: Schedule, ipLong: Schedule, userLong: Schedule)

  predicate ValidConfig(cfg: Config) {
    ValidSchedule(cfg.ipShort) && ValidSchedule(cfg.ipLong) && ValidSchedule(cfg.userLong)
  }

  function LongestWindow(cfg: Config): u64 {
    Max(Max(cfg.ipShort.window, cfg.ipLong.window), cfg.userLong.window)
  }

  /** A map entry: its buckets plus the bookkeeping both maps share. */
  datatype Tracked<B> = Tracked(buckets: B, inFlight: u32, lastSeen: u64, bannedUntil: u64)
  datatype IpBuckets = IpBuckets(short: BucketState, long: BucketState)
  type IpEntry = Tracked<IpBuckets>
  type UserEntry = Tracked<BucketState>

  const FRESH_IP: IpEntry := Tracked(IpBuckets(FRESH, FRESH), 0, 0, 0)
  const FRESH_USER: UserEntry := Tracked(FRESH, 0, 0, 0)

  datatype State = State(ip: map<string, IpEntry>, user: map<string, UserEntry>)

  const EMPTY := State(map[], map[])

  /** The entry an operation starts from: the stored one, or the one it would create. */
  function IpAt(s: State, ip: string): IpEntry {
    if ip in s.ip then s.ip[ip] else FRESH_IP
  }

  function UserAt(s: State, user: string): UserEntry {
    if user in s.user then s.user[user] else FRESH_USER
  }

  function Max3(a: int, b: int, c: int): int {
    Max(Max(a, b), c)
  }

  // ---- Operations

  function Check(s: State, ip: string, user: string, now: u64): u64 {
    var e := IpAt(s, ip).buckets;
    Max3(BanRemaining(e.short, now), BanRemaining(e.long, now), BanRemaining(UserAt(s, user).buckets, now))
  }

  /** The ban a bucket projects for one more attempt on top of `others` in flight. */
  function Crowd(c: Schedule, b: BucketState, others: u32, now: u64): u64 {
    if others > 0 && SatAdd(FailureCount(c, b, now), others) > c.maxFailures
    then PeekBan(c, b, now, others + 1)
    else 0
  }

  /** A live ban blocks outright; otherwise a crowded flight blocks at the rung it projects. */
  function ReserveBan(cfg: Config, b: IpBuckets, ipFlight: u32, u: BucketState, userFlight: u32, now: u64): u64 {
    var live := Max3(BanRemaining(b.short, now), BanRemaining(b.long, now), BanRemaining(u, now));
    if live > 0 then live
    else Max3(Crowd(cfg.ipShort, b.short, ipFlight, now),
              Crowd(cfg.ipLong, b.long, ipFlight, now),
              Crowd(cfg.userLong, u, userFlight, now))
  }

  function SlotsAfterGrant(held: u32, granted: bool): u32 {
    if granted then Min(held + 1, U32_MAX) else held
  }

  /** Refresh an entry; a granted reservation also takes a slot. */
  function Touch<B>(e: Tracked<B>, now: u64, granted: bool): Tracked<B> {
    e.(lastSeen := now, inFlight := SlotsAfterGrant(e.inFlight, granted))
  }

  function TouchBoth(s: State, ip: string, user: string, now: u64, granted: bool): State {
    State(s.ip[ip := Touch(IpAt(s, ip), now, granted)], s.user[user := Touch(UserAt(s, user), now, granted)])
  }

  function Reserve(cfg: Config, s: State, ip: string, user: string, now: u64): (State, u64) {
    var e, u := IpAt(s, ip), UserAt(s, user);
    var ban := ReserveBan(cfg, e.buckets, e.inFlight, u.buckets, u.inFlight, now);
    (TouchBoth(s, ip, user, now, ban == 0), ban)
  }

  function FreeSlot<B>(e: Tracked<B>): Tracked<B> {
    e.(inFlight := Max(e.inFlight - 1, 0))
  }

  function Release(s: State, ip: string, user: string): State {
    State(if ip in s.ip then s.ip[ip := FreeSlot(s.ip[ip])] else s.ip,
          if user in s.user then s.user[user := FreeSlot(s.user[user])] else s.user)
  }

  function FailIp(cfg: Config, e: IpEntry, now: u64): (IpEntry, u64) {
    var (short, shortBan) := RecordFailure(cfg.ipShort, e.buckets.short, now);
    var (long, longBan) := RecordFailure(cfg.ipLong, e.buckets.long, now);
    (Tracked(IpBuckets(short, long), e.inFlight, now,
             Max3(e.bannedUntil, SatAdd(now, shortBan), SatAdd(now, longBan))),
     Max(shortBan, longBan))
  }

  function FailUser(cfg: Config, e: UserEntry, now: u64): (UserEntry, u64) {
    var (long, ban) := RecordFailure(cfg.userLong, e.buckets, now);
    (Tracked(long, e.inFlight, now, Max(e.bannedUntil, SatAdd(now, ban))), ban)
  }

  /** An evaluated failure, before the caps are enforced. */
  function Fail(cfg: Config, s: State, ip: string, user: string, now: u64): (State, u64) {
    var (e, ipBan) := FailIp(cfg, IpAt(s, ip), now);
    var (u, userBan) := FailUser(cfg, UserAt(s, user), now);
    (State(s.ip[ip := e], s.user[user := u]), Max(ipBan, userBan))
  }

  function BudgetLeft(c: Schedule, b: BucketState, now: u64): u64 {
    SatSub(c.maxFailures, FailureCount(c, b, now))
  }

  function Remaining(cfg: Config, s: State, ip: string, user: string, now: u64): u64 {
    var e := IpAt(s, ip).buckets;
    Min(Min(BudgetLeft(cfg.ipShort, e.short, now), BudgetLeft(cfg.ipLong, e.long, now)),
        BudgetLeft(cfg.userLong, UserAt(s, user).buckets, now))
  }

  function Forgive(e: IpEntry, now: u64): IpEntry {
    Tracked(IpBuckets(FRESH, e.buckets.long), Max(e.inFlight - 1, 0), now,
            SatAdd(now, BanRemaining(e.buckets.long, now)))
  }

  function Succeed(s: State, ip: string, user: string, now: u64): State {
    State(if ip in s.ip then s.ip[ip := Forgive(s.ip[ip], now)] else s.ip, s.user - {user})
  }

  predicate Idle<B>(e: Tracked<B>, longest: u64, now: u64) {
    e.bannedUntil <= now && SatSub(now, e.lastSeen) >= longest
  }

  function Reap<B>(m: map<string, Tracked<B>>, longest: u64, now: u64): map<string, Tracked<B>> {
    map k | k in m && !Idle(m[k], longest, now) :: m[k]
  }

  /** Sweeping, before the caps are enforced. */
  function SweepIdle(cfg: Config, s: State, now: u64): State {
    State(Reap(s.ip, LongestWindow(cfg), now), Reap(s.user, LongestWindow(cfg), now))
  }

  /** A live ban or a held reservation shields an entry from eviction. */
  predicate Shielded<B>(e: Tracked<B>, now: u64) {
    now < e.bannedUntil || e.inFlight > 0
  }

  /** `kept` is `all` after least-recently-seen eviction of unshielded entries, down to `cap`
      when enough of them exist and never below it. */
  ghost predicate Trimmed<B>(all: map<string, Tracked<B>>, kept: map<string, Tracked<B>>, cap: nat, now: u64) {
    && kept.Keys <= all.Keys
    && (forall k :: k in kept ==> kept[k] == all[k])
    && (forall k :: k in all && k !in kept ==> !Shielded(all[k], now))
    && (forall k, q :: k in all && k !in kept && q in kept && !Shielded(kept[q], now) ==>
          all[k].lastSeen <= kept[q].lastSeen)
    && (|kept| <= cap || forall k :: k in kept ==> Shielded(kept[k], now))
    && (kept != all ==> |kept| >= cap)
  }

  /** A recorded failure replaces exactly the two entries it names. */
  lemma FailAt(cfg: Config, s: State, ip: string, user: string, now: u64, k: string)
    ensures var s' := Fail(cfg, s, ip, user, now).0;
      && IpAt(s', k) == (if k == ip then FailIp(cfg, IpAt(s, ip), now).0 else IpAt(s, k))
      && UserAt(s', k) == (if k == user then FailUser(cfg, UserAt(s, user), now).0 else UserAt(s, k))
  {
  }

  /** So does a reservation. */
  lemma ReserveAt(cfg: Config, s: State, ip: string, user: string, now: u64, k: string)
    ensures var (s', ban) := Reserve(cfg, s, ip, user, now);
      && IpAt(s', k) == (if k == ip then Touch(IpAt(s, k), now, ban == 0) else IpAt(s, k))
      && UserAt(s', k) == (if k == user then Touch(UserAt(s, k), now, ban == 0) else UserAt(s, k))
  {
  }

  lemma ReserveTouchesOnlySlots(cfg: Config, s: State, ip: string, user: string, now: u64, k: string)
    ensures var (s', ban) := Reserve(cfg, s, ip, user, now);
      && IpAt(s', k).buckets == IpAt(s, k).buckets && UserAt(s', k).buckets == UserAt(s, k).buckets
      && IpAt(s', k).inFlight == SlotsAfterGrant(IpAt(s, k).inFlight, ban == 0 && k == ip)
      && UserAt(s', k).inFlight == SlotsAfterGrant(UserAt(s, k).inFlight, ban == 0 && k == user)
  {
    ReserveAt(cfg, s, ip, user, now, k);
  }

  datatype Op =
    | DoCheck(ip: string, user: string, at: u64)
    | DoRemaining(ip: string, user: string, at: u64)
    | DoReserve(ip: string, user: string, at: u64)
    | DoRelease(ip: string, user: string)
    | DoFail(ip: string, user: string, at: u64)
    | DoSucceed(ip: string, user: string, at: u64)
    | DoSweep(at: u64)

  /** The effect of an operation before caps, and its answer (0 where it returns nothing). */
  function Effect(cfg: Config, s: State, op: Op): (State, u64) {
    match op
    case DoCheck(ip, user, at) => (s, Check(s, ip, user, at))
    case DoRemaining(ip, user, at) => (s, Remaining(cfg, s, ip, user, at))
    case DoReserve(ip, user, at) => Reserve(cfg, s, ip, user, at)
    case DoRelease(ip, user) => (Release(s, ip, user), 0)
    case DoFail(ip, user, at) => Fail(cfg, s, ip, user, at)
    case DoSucceed(ip, user, at) => (Succeed(s, ip, user, at), 0)
    case DoSweep(at) => (SweepIdle(cfg, s, at), 0)
  }

  /** One atomic call: failures and sweeps also enforce the caps. */
  ghost predicate Next(cfg: Config, s: State, op: Op, s': State, answer: u64) {
    var (mid, ans) := Effect(cfg, s, op);
    && answer == ans
    && if op.DoFail? || op.DoSweep?
       then Trimmed(mid.ip, s'.ip, MAX_IP_ENTRIES, op.at) && Trimmed(mid.user, s'.user, MAX_USER_ENTRIES, op.at)
       else s' == mid
  }

  // ---- The tracker, updated in place

  class LoginThrottle {
    const cfg: Config
    const longestWindow: u64
    var ip: map<string, IpEntry>
    var user: map<string, UserEntry>

    ghost predicate Valid() {
      ValidConfig(cfg) && longestWindow == LongestWindow(cfg)
    }

    function View(): State
      reads this
    {
      State(ip, user)
    }

    /** Rejects a configuration with any degenerate schedule. */
    static method New(cfg: Config) returns (r: Result<LoginThrottle, Defect>)
      ensures r.Ok? <==> ValidConfig(cfg)
      ensures r.Ok? ==> fresh(r.value) && r.value.Valid() && r.value.cfg == cfg && r.value.View() == EMPTY
    {
      var short := Bucket.New(cfg.ipShort);
      if short.Err? {
        return Err(short.error);
      }
      var long := Bucket.New(cfg.ipLong);
      if long.Err? {
        return Err(long.error);
      }
      var drip := Bucket.New(cfg.userLong);
      if drip.Err? {
        return Err(drip.error);
      }
      var t := new LoginThrottle.Init(cfg);
      return Ok(t);
    }

    constructor Init(cfg: Config)
      requires ValidConfig(cfg)
      ensures Valid() && this.cfg == cfg && View() == EMPTY
    {
      this.cfg := cfg;
      longestWindow := LongestWindow(cfg);
      ip, user := map[], map[];
    }

    method CheckBan(ipKey: string, userKey: string, now: u64) returns (ban: u64)
      ensures Next(cfg, View(), DoCheck(ipKey, userKey, now), View(), ban)
    {
      ban := 0;
      if ipKey in ip {
        var e := ip[ipKey];
        ban := Max3(ban, BanRemaining(e.buckets.short, now), BanRemaining(e.buckets.long, now));
      }
      if userKey in user {
        ban := Max(ban, BanRemaining(user[userKey].buckets, now));
      }
    }

    /** Create or refresh both entries; a grant takes a slot in each. */
    method TouchEntries(ipKey: string, userKey: string, now: u64, granted: bool)
      modifies this
      ensures View() == TouchBoth(old(View()), ipKey, userKey, now, granted)
    {
      ip := ip[ipKey := Touch(if ipKey in ip then ip[ipKey] else FRESH_IP, now, granted)];
      user := user[userKey := Touch(if userKey in user then user[userKey] else FRESH_USER, now, granted)];
    }

    method ReserveSlot(ipKey: string, userKey: string, now: u64) returns (ban: u64)
      modifies this
      ensures Next(cfg, old(View()), DoReserve(ipKey, userKey, now), View(), ban)
    {
      var e := if ipKey in ip then ip[ipKey] else FRESH_IP;
      var u := if userKey in user then user[userKey] else FRESH_USER;
      ban := ReserveBan(cfg, e.buckets, e.inFlight, u.buckets, u.inFlight, now);
      TouchEntries(ipKey, userKey, now, ban == 0);
    }

    method ReleaseSlot(ipKey: string, userKey: string)
      modifies this
      ensures Next(cfg, old(View()), DoRelease(ipKey, userKey), View(), 0)
    {
      if ipKey in ip {
        ip := ip[ipKey := FreeSlot(ip[ipKey])];
      }
      if userKey in user {
        user := user[userKey := FreeSlot(user[userKey])];
      }
    }

    method FailEntries(ipKey: string, userKey: string, now: u64) returns (ban: u64)
      modifies this
      ensures (View(), ban) == Fail(cfg, old(View()), ipKey, userKey, now)
    {
      var (e, ipBan) := FailIp(cfg, if ipKey in ip then ip[ipKey] else FRESH_IP, now);
      ip := ip[ipKey := e];
      var (u, userBan) := FailUser(cfg, if userKey in user then user[userKey] else FRESH_USER, now);
      user := user[userKey := u];
      ban := Max(ipBan, userBan);
    }

    method RecordFailedLogin(ipKey: string, userKey: string, now: u64) returns (ban: u64)
      modifies this
      ensures Next(cfg, old(View()), DoFail(ipKey, userKey, now), View(), ban)
    {
      ban := FailEntries(ipKey, userKey, now);
      EnforceCaps(now);
    }

    method RemainingAttempts(ipKey: string, userKey: string, now: u64) returns (left: u64)
      ensures Next(cfg, View(), DoRemaining(ipKey, userKey, now), View(), left)
    {
      var short, long, drip := cfg.ipShort.maxFailures, cfg.ipLong.maxFailures, cfg.userLong.maxFailures;
      if ipKey in ip {
        short := SatSub(short, FailureCount(cfg.ipShort, ip[ipKey].buckets.short, now));
        long := SatSub(long, FailureCount(cfg.ipLong, ip[ipKey].buckets.long, now));
      }
      if userKey in user {
        drip := SatSub(drip, FailureCount(cfg.userLong, user[userKey].buckets, now));
      }
      left := Min(Min(short, long), drip);
    }

    method RecordSuccess(ipKey: string, userKey: string, now: u64)
      modifies this
      ensures Next(cfg, old(View()), DoSucceed(ipKey, userKey, now), View(), 0)
    {
      user := user - {userKey};
      if ipKey in ip {
        ip := ip[ipKey := Forgive(ip[ipKey], now)];
      }
    }

    method Sweep(now: u64)
      requires Valid()
      modifies this
      ensures Next(cfg, old(View()), DoSweep(now), View(), 0)
    {
      ip := Reap(ip, longestWindow, now);
      user := Reap(user, longestWindow, now);
      EnforceCaps(now);
    }

    method EnforceCaps(now: u64)
      modifies this
      ensures Trimmed(old(ip), ip, MAX_IP_ENTRIES, now)
      ensures Trimmed(old(user), user, MAX_USER_ENTRIES, now)
    {
      ip := EvictOver(ip, MAX_IP_ENTRIES, now);
      user := EvictOver(user, MAX_USER_ENTRIES, now);
    }
  }

  /** The key of a least recently seen unshielded entry, if there is one. */
  method OldestUnshielded<B>(m: map<string, Tracked<B>>, now: u64) returns (r: Option<string>)
    ensures r.None? ==> forall k :: k in m ==> Shielded(m[k], now)
    ensures r.Some? ==> r.value in m && !Shielded(m[r.value], now)
    ensures r.Some? ==> forall k :: k in m && !Shielded(m[k], now) ==> m[r.value].lastSeen <= m[k].lastSeen
  {
    r := None;
    var todo := m.Keys;
    while todo != {}
      invariant todo <= m.Keys
      invariant r.None? ==> forall k :: k in m && k !in todo ==> Shielded(m[k], now)
      invariant r.Some? ==> r.value in m && !Shielded(m[r.value], now)
      invariant r.Some? ==> forall k :: k in m && k !in todo && !Shielded(m[k], now) ==>
        m[r.value].lastSeen <= m[k].lastSeen
      decreases |todo|
    {
      var k :| k in todo;
      todo := todo - {k};
      if !Shielded(m[k], now) && (r.None? || m[k].lastSeen < m[r.value].lastSeen) {
        r := Some(k);
      }
    }
  }

  method EvictOver<B>(m: map<string, Tracked<B>>, cap: nat, now: u64) returns (kept: map<string, Tracked<B>>)
    ensures Trimmed(m, kept, cap, now)
  {
    kept := m;
    while |kept| > cap
      invariant kept.Keys <= m.Keys
      invariant forall k :: k in kept ==> kept[k] == m[k]
      invariant forall k :: k in m && k !in kept ==> !Shielded(m[k], now)
      invariant forall k, q :: k in m && k !in kept && q in kept && !Shielded(kept[q], now) ==>
        m[k].lastSeen <= kept[q].lastSeen
      invariant kept != m ==> |kept| >= cap
      decreases |kept|
    {
      var oldest := OldestUnshielded(kept, now);
      if oldest.None? {
        break;
      }
      ghost var before := kept;
      kept := kept - {oldest.value};
      assert kept.Keys == before.Keys - {oldest.value};
    }
  }
}
