/** The sliding-window failure bucket with capped exponential bans
    (backend/src/auth/rate_limit.rs). */
module RateLimit {
  import opened Words
  import opened Wrappers

  function Pow2(n: nat): (p: nat)
    ensures p >= 1
  {
    if n == 0 then 1 else 2 * Pow2(n - 1)
  }

  lemma {:induction false} Pow2Monotone(m: nat, n: nat)
    requires m <= n
    ensures Pow2(m) <= Pow2(n)
    decreases n
  {
    if m < n {
      Pow2Monotone(m, n - 1);
    }
  }

  lemma MulMonotone(k: nat, x: nat, y: nat)
    requires x <= y
    ensures k * x <= k * y
  {
  }

  lemma Pow2At64()
    ensures Pow2(64) == U64_MAX + 1
  {
    assert Pow2(8) == 256;
    assert Pow2(16) == 0x1_0000;
    assert Pow2(24) == 0x100_0000;
    assert Pow2(32) == 0x1_0000_0000;
    assert Pow2(40) == 0x100_0000_0000;
    assert Pow2(48) == 0x1_0000_0000_0000;
    assert Pow2(56) == 0x100_0000_0000_0000;
  }

  /** The delay the schedule promises for a ban generation, over unbounded integers. */
  function BanDelay(base: u64, cap: u64, generation: nat): (delay: u64) {
    if base * Pow2(generation) <= cap then base * Pow2(generation) else cap
  }

  /** Once doubling has reached the cap it stays there. */
  lemma CappedStaysCapped(base: u64, cap: u64, m: nat, n: nat)
    requires m <= n && cap <= base * Pow2(m)
    ensures BanDelay(base, cap, n) == cap
  {
    Pow2Monotone(m, n);
    MulMonotone(base, Pow2(m), Pow2(n));
  }

  /** A positive base can double at most 63 times within 64 bits. */
  lemma FewDoublings(base: u64, n: nat)
    requires base >= 1 && base * Pow2(n) <= U64_MAX
    ensures n <= 63
  {
    if n >= 64 {
      Pow2Monotone(64, n);
      Pow2At64();
      MulMonotone(Pow2(n), 1, base);
      assert false;
    }
  }

  /** The doubling loop. `steps` counts the iterations begun. */
  method ComputeBanDelay(base: u64, cap: u64, generation: u32) returns (delay: u64, ghost steps: nat)
    ensures delay == BanDelay(base, cap, generation)
    ensures steps <= generation
    ensures base >= 1 ==> steps <= 64
  {
    delay := base;
    steps := 0;
    for i := 0 to generation
      invariant steps == i
      invariant delay == base * Pow2(i)
      invariant i > 0 ==> delay < cap
      invariant base >= 1 ==> i <= 64
    {
      steps := i + 1;
      if base >= 1 {
        FewDoublings(base, i);
      }
      assert base * Pow2(i + 1) == 2 * delay;
      delay := SatAdd(delay, delay);
      if delay >= cap {
        CappedStaysCapped(base, cap, i + 1, generation);
        return cap, steps;
      }
    }
    delay := Min(delay, cap);
  }

  /** The four parameters of a bucket. */
  datatype Schedule = Schedule(window: u64, maxFailures: u32, baseBan: u64, maxBan: u64)

  predicate ValidSchedule(c: Schedule) {
    c.window >= 1 && c.maxFailures >= 1 && c.baseBan >= 1 && c.maxBan >= c.baseBan
  }

  /** Why a schedule is rejected: nothing could count, the first failure would ban, bans would be
      no-ops, or the cap would invert the schedule. */
  datatype Defect = NoWindow | NoFreeFailure | NoBan | CapBelowBase

  predicate HasDefect(c: Schedule, d: Defect) {
    match d
    case NoWindow => c.window == 0
    case NoFreeFailure => c.maxFailures == 0
    case NoBan => c.baseBan == 0
    case CapBelowBase => c.maxBan < c.baseBan
  }

  const IP_SHORT := Schedule(600, 3, 10, 28_800)
  const IP_LONG := Schedule(86_400, 16, 1_800, 28_800)
  const USER_LONG := Schedule(86_400, 18, 1_800, 7_200)

  /** The mutable part of a bucket: the stored failure times and the ban end. */
  datatype BucketState = BucketState(failures: seq<u64>, banUntil: u64)

  const FRESH := BucketState([], 0)

  predicate InWindow(c: Schedule, at: u64, now: u64) {
    SatSub(now, at) < c.window
  }

  /** Drop expired failures from the front, stopping at the first live one. */
  function Prune(c: Schedule, failures: seq<u64>, now: u64): seq<u64> {
    if failures != [] && !InWindow(c, failures[0], now)
    then Prune(c, failures[1..], now)
    else failures
  }

  /** How many of `failures` are in window: the naive count over the whole sequence. */
  function CountInWindow(c: Schedule, failures: seq<u64>, now: u64): nat {
    if failures == [] then 0
    else (if InWindow(c, failures[0], now) then 1 else 0) + CountInWindow(c, failures[1..], now)
  }

  /** A length seen as a 64-bit count. */
  function Count64(n: nat): u64 {
    Min(n, U64_MAX)
  }

  function FailureCount(c: Schedule, b: BucketState, now: u64): u64 {
    Count64(CountInWindow(c, b.failures, now))
  }

  function BanRemaining(b: BucketState, now: u64): u64 {
    SatSub(b.banUntil, now)
  }

  /** Only odd over-threshold counts ban; each opens the next generation. */
  function BanForCount(c: Schedule, count: u64): u64 {
    if count <= c.maxFailures then 0
    else
      var over := count - c.maxFailures;
      if over % 2 == 0 then 0
      else BanDelay(c.baseBan, c.maxBan, Min((over - 1) / 2, U32_MAX))
  }

  function PeekBan(c: Schedule, b: BucketState, now: u64, extra: u64): u64 {
    var remaining := BanRemaining(b, now);
    if remaining > 0 then remaining
    else BanForCount(c, SatAdd(FailureCount(c, b, now), extra))
  }

  /** The state after an evaluated failure at `now`, and the ban returned. */
  function RecordFailure(c: Schedule, b: BucketState, now: u64): (BucketState, u64) {
    if now < b.banUntil then (b, b.banUntil - now)
    else
      var failures := Prune(c, b.failures, now) + [now];
      var delay := BanForCount(c, Count64(|failures|));
      (BucketState(failures, if delay == 0 then b.banUntil else SatAdd(now, delay)), delay)
  }

  /** One bucket, updated in place. */
  class Bucket {
    const schedule: Schedule
    var failures: seq<u64>
    var banUntil: u64

    function State(): BucketState
      reads this
    {
      BucketState(failures, banUntil)
    }

    constructor Init(schedule: Schedule)
      ensures this.schedule == schedule && State() == FRESH
    {
      this.schedule := schedule;
      failures, banUntil := [], 0;
    }

    /** Degenerate parameters are rejected. */
    static method New(c: Schedule) returns (r: Result<Bucket, Defect>)
      ensures r.Ok? <==> ValidSchedule(c)
      ensures r.Ok? ==> fresh(r.value) && r.value.schedule == c && r.value.State() == FRESH
      ensures r.Err? ==> HasDefect(c, r.error)
    {
      if c.window == 0 {
        return Err(NoWindow);
      }
      if c.maxFailures == 0 {
        return Err(NoFreeFailure);
      }
      if c.baseBan == 0 {
        return Err(NoBan);
      }
      if c.maxBan < c.baseBan {
        return Err(CapBelowBase);
      }
      var b := new Bucket.Init(c);
      return Ok(b);
    }

    method Record(now: u64) returns (ban: u64)
      modifies this
      ensures (State(), ban) == RecordFailure(schedule, old(State()), now)
    {
      if now < banUntil {
        return banUntil - now;
      }
      while failures != [] && !InWindow(schedule, failures[0], now)
        invariant banUntil == old(banUntil)
        invariant Prune(schedule, failures, now) == Prune(schedule, old(failures), now)
        decreases |failures|
      {
        failures := failures[1..];
      }
      failures := failures + [now];
      ban := BanForCount(schedule, Count64(|failures|));
      if ban != 0 {
        banUntil := SatAdd(now, ban);
      }
    }

    method Clear()
      modifies this
      ensures State() == FRESH
    {
      failures, banUntil := [], 0;
    }
  }

  // ---- Chronological buckets: what pruning the front preserves

  /** Stored times ascend and none is later than `now`. */
  predicate Chronological(failures: seq<u64>, now: u64) {
    && (forall i, j :: 0 <= i < j < |failures| ==> failures[i] <= failures[j])
    && (forall i :: 0 <= i < |failures| ==> failures[i] <= now)
  }

  lemma {:induction false} PruneIsSuffix(c: Schedule, failures: seq<u64>, now: u64)
    ensures |Prune(c, failures, now)| <= |failures|
    ensures Prune(c, failures, now) == failures[|failures| - |Prune(c, failures, now)|..]
  {
    if failures != [] && !InWindow(c, failures[0], now) {
      PruneIsSuffix(c, failures[1..], now);
    }
  }

  lemma {:induction false} AllInWindowCount(c: Schedule, failures: seq<u64>, now: u64)
    requires forall i :: 0 <= i < |failures| ==> InWindow(c, failures[i], now)
    ensures CountInWindow(c, failures, now) == |failures|
  {
    if failures != [] {
      AllInWindowCount(c, failures[1..], now);
    }
  }

  /** Over ascending times, front-pruning keeps exactly the in-window failures. */
  lemma {:induction false} PruneCounts(c: Schedule, failures: seq<u64>, now: u64)
    requires Chronological(failures, now)
    ensures CountInWindow(c, failures, now) == |Prune(c, failures, now)|
  {
    if failures != [] {
      if InWindow(c, failures[0], now) {
        AllInWindowCount(c, failures, now);
      } else {
        PruneCounts(c, failures[1..], now);
      }
    }
  }

  /** Pruning early changes nothing for a later prune. */
  lemma {:induction false} PruneTwice(c: Schedule, failures: seq<u64>, now: u64, later: u64)
    requires now <= later
    ensures Prune(c, Prune(c, failures, now), later) == Prune(c, failures, later)
  {
    if failures != [] && !InWindow(c, failures[0], now) {
      PruneTwice(c, failures[1..], now, later);
    }
  }

  lemma {:induction false} PrunedIsExpired(c: Schedule, failures: seq<u64>, now: u64)
    ensures |Prune(c, failures, now)| <= |failures|
    ensures forall i :: 0 <= i < |failures| - |Prune(c, failures, now)| ==> !InWindow(c, failures[i], now)
  {
    if failures != [] && !InWindow(c, failures[0], now) {
      PrunedIsExpired(c, failures[1..], now);
    }
  }

  // ---- Buckets that answer alike

  /** `kept` is `full` without some first failures, all of them out of window from `floor` on. */
  predicate Trails(c: Schedule, kept: seq<u64>, full: seq<u64>, floor: u64) {
    && |kept| <= |full| && kept == full[|full| - |kept|..]
    && forall i :: 0 <= i < |full| - |kept| ==> !InWindow(c, full[i], floor)
  }

  lemma TrailsLater(c: Schedule, kept: seq<u64>, full: seq<u64>, floor: u64, now: u64)
    requires Trails(c, kept, full, floor) && floor <= now
    ensures Trails(c, kept, full, now)
  {
  }

  /** Failures out of window count for nothing and are the first to be pruned. */
  lemma {:induction false} TrailsAnswers(c: Schedule, kept: seq<u64>, full: seq<u64>, now: u64)
    requires Trails(c, kept, full, now)
    ensures CountInWindow(c, kept, now) == CountInWindow(c, full, now)
    ensures Prune(c, kept, now) == Prune(c, full, now)
    decreases |full|
  {
    if |kept| < |full| {
      assert full[1..][|full[1..]| - |kept|..] == kept;
      TrailsAnswers(c, kept, full[1..], now);
    }
  }

  /** All that a bucket's answers from `floor` on depend on is the same: its failures that can still
      be in window, and any ban that can still be live. No order of the times is assumed. */
  predicate Alike(c: Schedule, kept: BucketState, full: BucketState, floor: u64) {
    && Trails(c, kept.failures, full.failures, floor)
    && (kept.banUntil == full.banUntil || (kept.banUntil <= floor && full.banUntil <= floor))
  }

  lemma AlikeLater(c: Schedule, a: BucketState, b: BucketState, floor: u64, now: u64)
    requires Alike(c, a, b, floor) && floor <= now
    ensures Alike(c, a, b, now)
  {
    TrailsLater(c, a.failures, b.failures, floor, now);
  }

  /** Alike buckets answer alike at every later time, and stay alike after the same failure. */
  lemma AlikeAnswers(c: Schedule, a: BucketState, b: BucketState, floor: u64, now: u64)
    requires Alike(c, a, b, floor) && floor <= now
    ensures BanRemaining(a, now) == BanRemaining(b, now)
    ensures FailureCount(c, a, now) == FailureCount(c, b, now)
    ensures RecordFailure(c, a, now).1 == RecordFailure(c, b, now).1
    ensures Alike(c, RecordFailure(c, a, now).0, RecordFailure(c, b, now).0, floor)
  {
    TrailsLater(c, a.failures, b.failures, floor, now);
    TrailsAnswers(c, a.failures, b.failures, now);
    if now >= a.banUntil {
      var failures := Prune(c, a.failures, now) + [now];
      assert RecordFailure(c, a, now).0.failures == failures;
      assert RecordFailure(c, b, now).0.failures == failures;
      TrailsItself(c, failures, floor);
    }
  }

  lemma TrailsItself(c: Schedule, failures: seq<u64>, floor: u64)
    ensures Trails(c, failures, failures, floor)
  {
  }

  lemma SuffixIsChronological(failures: seq<u64>, k: nat, now: u64)
    requires Chronological(failures, now) && k <= |failures|
    ensures Chronological(failures[k..], now)
  {
  }

  lemma AppendIsChronological(failures: seq<u64>, now: u64)
    requires Chronological(failures, now)
    ensures Chronological(failures + [now], now)
  {
  }

  lemma PruneIsChronological(c: Schedule, failures: seq<u64>, now: u64)
    requires Chronological(failures, now)
    ensures Chronological(Prune(c, failures, now), now)
  {
    PruneIsSuffix(c, failures, now);
    SuffixIsChronological(failures, |failures| - |Prune(c, failures, now)|, now);
  }

  lemma RecordKeepsChronology(c: Schedule, b: BucketState, now: u64)
    requires Chronological(b.failures, now)
    ensures Chronological(RecordFailure(c, b, now).0.failures, now)
  {
    PruneIsChronological(c, b.failures, now);
    AppendIsChronological(Prune(c, b.failures, now), now);
  }

  // ---- Runs

  datatype Event = Failure(at: u64) | Success

  function Step(c: Schedule, b: BucketState, e: Event): BucketState {
    match e
    case Failure(at) => RecordFailure(c, b, at).0
    case Success => FRESH
  }

  function Run(c: Schedule, events: seq<Event>): BucketState {
    if events == [] then FRESH
    else Step(c, Run(c, events[..|events| - 1]), events[|events| - 1])
  }

  /** The latest time in a run. */
  function Clock(events: seq<Event>): u64 {
    if events == [] then 0
    else match events[|events| - 1]
      case Failure(at) => Max(at, Clock(events[..|events| - 1]))
      case Success => Clock(events[..|events| - 1])
  }

  predicate Ordered(events: seq<Event>) {
    events != [] ==>
      && Ordered(events[..|events| - 1])
      && (events[|events| - 1].Failure? ==> Clock(events[..|events| - 1]) <= events[|events| - 1].at)
  }

  /** One step of the reference bucket: it never prunes, and counts by filtering its whole
      history since the last success. */
  function HistoryStep(c: Schedule, h: BucketState, e: Event): BucketState {
    match e
    case Success => FRESH
    case Failure(at) =>
      if at < h.banUntil then h
      else
        var recorded := h.failures + [at];
        var delay := BanForCount(c, Count64(CountInWindow(c, recorded, at)));
        BucketState(recorded, if delay == 0 then h.banUntil else SatAdd(at, delay))
  }

  function FullHistory(c: Schedule, events: seq<Event>): BucketState {
    if events == [] then FRESH
    else HistoryStep(c, FullHistory(c, events[..|events| - 1]), events[|events| - 1])
  }

  lemma {:induction false} PruneAppend(c: Schedule, failures: seq<u64>, now: u64)
    requires c.window >= 1
    ensures Prune(c, failures + [now], now) == Prune(c, failures, now) + [now]
  {
    if failures != [] && !InWindow(c, failures[0], now) {
      assert (failures + [now])[1..] == failures[1..] + [now];
      PruneAppend(c, failures[1..], now);
    }
  }

  /** Recording prunes what the history keeps, and counts the same. */
  lemma RecordTrails(c: Schedule, kept: seq<u64>, full: seq<u64>, at: u64)
    requires c.window >= 1 && Trails(c, kept, full, at) && Chronological(full, at)
    ensures Trails(c, Prune(c, kept, at) + [at], full + [at], at)
    ensures |Prune(c, kept, at) + [at]| == CountInWindow(c, full + [at], at)
  {
    TrailsAnswers(c, kept, full, at);
    var pruned := Prune(c, full, at);
    PruneIsSuffix(c, full, at);
    PrunedIsExpired(c, full, at);
    AppendIsChronological(full, at);
    PruneCounts(c, full + [at], at);
    PruneAppend(c, full, at);
    assert (full + [at])[|full| - |pruned|..] == pruned + [at];
  }

  /** What ties the pruned bucket to the reference one. */
  predicate MatchesHistory(c: Schedule, b: BucketState, h: BucketState, clock: u64) {
    Trails(c, b.failures, h.failures, clock) && b.banUntil == h.banUntil && Chronological(h.failures, clock)
  }

  lemma StepMatchesHistory(c: Schedule, b: BucketState, h: BucketState, clock: u64, at: u64)
    requires ValidSchedule(c) && MatchesHistory(c, b, h, clock) && clock <= at
    ensures MatchesHistory(c, Step(c, b, Failure(at)), HistoryStep(c, h, Failure(at)), at)
  {
    TrailsLater(c, b.failures, h.failures, clock, at);
    if at >= b.banUntil {
      RecordTrails(c, b.failures, h.failures, at);
      AppendIsChronological(h.failures, at);
    }
  }

  lemma {:induction false} RunMatchesHistory(c: Schedule, events: seq<Event>)
    requires ValidSchedule(c) && Ordered(events)
    ensures MatchesHistory(c, Run(c, events), FullHistory(c, events), Clock(events))
  {
    if events != [] {
      var before, last := events[..|events| - 1], events[|events| - 1];
      RunMatchesHistory(c, before);
      if last.Failure? {
        StepMatchesHistory(c, Run(c, before), FullHistory(c, before), Clock(before), last.at);
      }
    }
  }

  lemma RunIsChronological(c: Schedule, events: seq<Event>)
    requires ValidSchedule(c) && Ordered(events)
    ensures Chronological(Run(c, events).failures, Clock(events))
  {
    RunMatchesHistory(c, events);
    var kept, full := Run(c, events).failures, FullHistory(c, events).failures;
    SuffixIsChronological(full, |full| - |kept|, Clock(events));
  }

  /** The pruned deque agrees with the full history since the last success: the same in-window
      count and the same ban at every later time. */
  lemma PrunedDequeMatchesFullHistory(c: Schedule, events: seq<Event>, t: u64)
    requires ValidSchedule(c) && Ordered(events) && Clock(events) <= t
    ensures FailureCount(c, Run(c, events), t) == Count64(CountInWindow(c, FullHistory(c, events).failures, t))
    ensures BanRemaining(Run(c, events), t) == BanRemaining(FullHistory(c, events), t)
  {
    var kept, full := Run(c, events).failures, FullHistory(c, events).failures;
    RunMatchesHistory(c, events);
    TrailsLater(c, kept, full, Clock(events), t);
    TrailsAnswers(c, kept, full, t);
  }

  /** Peeking one failure ahead predicts exactly what recording it returns. */
  lemma PeekPredictsRecord(c: Schedule, events: seq<Event>, t: u64)
    requires ValidSchedule(c) && Ordered(events) && Clock(events) <= t
    ensures PeekBan(c, Run(c, events), t, 1) == RecordFailure(c, Run(c, events), t).1
  {
    RunIsChronological(c, events);
    PruneCounts(c, Run(c, events).failures, t);
  }

  // ---- Generations

  lemma GenerationsPast64(c: Schedule, g: nat, k: nat)
    requires ValidSchedule(c) && 64 <= g <= k
    ensures BanDelay(c.baseBan, c.maxBan, g) == BanDelay(c.baseBan, c.maxBan, k)
  {
    if c.baseBan * Pow2(g) <= U64_MAX {
      FewDoublings(c.baseBan, g);
    }
    CappedStaysCapped(c.baseBan, c.maxBan, g, k);
  }

  lemma GenerationDelay(c: Schedule, k: nat)
    requires ValidSchedule(c) && c.maxFailures + 2 * k + 1 <= U64_MAX
    ensures BanForCount(c, c.maxFailures + 2 * k + 1) == BanDelay(c.baseBan, c.maxBan, k)
  {
    assert (2 * k + 1 - 1) / 2 == k;
    var g := Min(k, U32_MAX);
    if g < k {
      GenerationsPast64(c, g, k);
    }
  }

  lemma FreeBetweenBans(c: Schedule, k: nat)
    requires c.maxFailures + 2 * k + 2 <= U64_MAX
    ensures BanForCount(c, c.maxFailures + 2 * k + 2) == 0
  {
    assert (2 * k + 2) % 2 == 0;
  }

  lemma DelayIsPositive(c: Schedule, k: nat)
    requires ValidSchedule(c)
    ensures BanDelay(c.baseBan, c.maxBan, k) > 0
  {
    MulMonotone(c.baseBan, 1, Pow2(k));
  }

  /** Exactly the counts an odd distance past the threshold open a ban. */
  lemma BansIff(c: Schedule, count: u64)
    requires ValidSchedule(c)
    ensures BanForCount(c, count) > 0 <==> count > c.maxFailures && (count - c.maxFailures) % 2 == 1
  {
    if count > c.maxFailures {
      DelayIsPositive(c, Min((count - c.maxFailures - 1) / 2, U32_MAX));
    }
  }

  // ---- The rung bound

  /** Every failure leaves room for a whole window before the end of the clock. */
  predicate ClockHasRoom(c: Schedule, events: seq<Event>) {
    forall i :: 0 <= i < |events| && events[i].Failure? ==> events[i].at + c.window <= U64_MAX
  }

  lemma {:induction false} PruneAllExpired(c: Schedule, failures: seq<u64>, now: u64)
    requires forall i :: 0 <= i < |failures| ==> !InWindow(c, failures[i], now)
    ensures Prune(c, failures, now) == []
  {
    if failures != [] {
      PruneAllExpired(c, failures[1..], now);
    }
  }

  /** At most `level` failures are stored, and that many only under a ban that outlives them all. */
  predicate WithinLevel(c: Schedule, level: nat, b: BucketState) {
    && |b.failures| <= level
    && (|b.failures| == level ==> forall i :: 0 <= i < |b.failures| ==> b.failures[i] + c.window <= b.banUntil)
  }

  lemma FullLevelStep(c: Schedule, level: u64, b: BucketState, at: u64)
    requires WithinLevel(c, level, b) && b.banUntil <= at && level >= 1
    ensures |Prune(c, b.failures, at)| < level
  {
    PruneIsSuffix(c, b.failures, at);
    if |b.failures| == level {
      PruneAllExpired(c, b.failures, at);
    }
  }

  lemma BanCoversLevel(c: Schedule, failures: seq<u64>, at: u64, delay: u64)
    requires Chronological(failures, at) && at + c.window <= U64_MAX && c.window <= delay
    ensures forall i :: 0 <= i < |failures| ==> failures[i] + c.window <= SatAdd(at, delay)
  {
  }

  /** The count `level` opens the ban of that count. */
  lemma LevelBans(c: Schedule, level: u64, b: BucketState, at: u64)
    requires b.banUntil <= at && BanForCount(c, level) > 0 && |Prune(c, b.failures, at)| + 1 == level
    ensures RecordFailure(c, b, at).0.banUntil == SatAdd(at, BanForCount(c, level))
  {
  }

  lemma LevelStep(c: Schedule, level: u64, b: BucketState, at: u64)
    requires c.window >= 1 && level >= 1 && WithinLevel(c, level, b)
    requires Chronological(b.failures, at) && at + c.window <= U64_MAX
    requires BanForCount(c, level) >= c.window && b.banUntil <= at
    ensures WithinLevel(c, level, RecordFailure(c, b, at).0)
  {
    var b' := RecordFailure(c, b, at).0;
    assert |b'.failures| == |Prune(c, b.failures, at)| + 1;
    FullLevelStep(c, level, b, at);
    if |b'.failures| == level {
      RecordKeepsChronology(c, b, at);
      LevelBans(c, level, b, at);
      BanCoversLevel(c, b'.failures, at, BanForCount(c, level));
    }
  }

  lemma {:induction false} RunWithinLevel(c: Schedule, level: u64, events: seq<Event>)
    requires ValidSchedule(c) && Ordered(events) && ClockHasRoom(c, events)
    requires level >= 2 && BanForCount(c, level) >= c.window
    ensures WithinLevel(c, level, Run(c, events))
  {
    if events != [] {
      var before, last := events[..|events| - 1], events[|events| - 1];
      RunWithinLevel(c, level, before);
      RunIsChronological(c, before);
      if last.Failure? && Run(c, before).banUntil <= last.at {
        LevelStep(c, level, Run(c, before), last.at);
      }
    }
  }

  /** If the delay of rung `j` covers the window, no run stores more than
      `maxFailures + 2j + 1` failures: reaching that many bans until all of them have expired. */
  lemma RungBoundsStoredFailures(c: Schedule, j: u32, events: seq<Event>)
    requires ValidSchedule(c) && Ordered(events) && ClockHasRoom(c, events)
    requires BanDelay(c.baseBan, c.maxBan, j) >= c.window
    ensures |Run(c, events).failures| <= c.maxFailures + 2 * j + 1
  {
    GenerationDelay(c, j);
    RunWithinLevel(c, c.maxFailures + 2 * j + 1, events);
  }

  /** The shipped IP-short bucket never holds more than sixteen failures. */
  lemma IpShortHoldsAtMostSixteen(events: seq<Event>)
    requires Ordered(events) && ClockHasRoom(IP_SHORT, events)
    ensures |Run(IP_SHORT, events).failures| <= 16
  {
    assert Pow2(6) == 64;
    RungBoundsStoredFailures(IP_SHORT, 6, events);
  }

  // ---- The ban ladder

  /** The bans returned for the failures that were recorded (attempts during a ban are not). */
  function RecordedBans(c: Schedule, events: seq<Event>): seq<u64> {
    if events == [] then []
    else
      var before := events[..|events| - 1];
      match events[|events| - 1]
      case Success => []
      case Failure(at) =>
        if at < Run(c, before).banUntil then RecordedBans(c, before)
        else RecordedBans(c, before) + [RecordFailure(c, Run(c, before), at).1]
  }

  /** The events after the last success. */
  function SinceSuccess(events: seq<Event>): seq<Event> {
    if events == [] || events[|events| - 1].Success? then []
    else SinceSuccess(events[..|events| - 1]) + [events[|events| - 1]]
  }

  /** No failure since the last success has left the window by the end of the run. */
  predicate NothingAgesOut(c: Schedule, events: seq<Event>) {
    forall e :: e in SinceSuccess(events) && e.Failure? ==> InWindow(c, e.at, Clock(events))
  }

  lemma {:induction false} StoredAreSinceSuccess(c: Schedule, events: seq<Event>)
    ensures forall t :: t in Run(c, events).failures ==> Failure(t) in SinceSuccess(events)
  {
    if events != [] {
      var before, last := events[..|events| - 1], events[|events| - 1];
      StoredAreSinceSuccess(c, before);
      if last.Failure? {
        PruneIsSuffix(c, Run(c, before).failures, last.at);
      }
    }
  }

  lemma NothingAgesOutBefore(c: Schedule, events: seq<Event>)
    requires Ordered(events) && NothingAgesOut(c, events) && events != [] && events[|events| - 1].Failure?
    ensures NothingAgesOut(c, events[..|events| - 1])
    ensures forall e :: e in SinceSuccess(events[..|events| - 1]) && e.Failure? ==>
      InWindow(c, e.at, events[|events| - 1].at)
  {
    var before := events[..|events| - 1];
    forall e | e in SinceSuccess(before) && e.Failure?
      ensures InWindow(c, e.at, Clock(before)) && InWindow(c, e.at, Clock(events))
    {
      assert e in SinceSuccess(events);
    }
  }

  lemma {:induction false} EveryBanFollowsCount(c: Schedule, events: seq<Event>)
    requires ValidSchedule(c) && Ordered(events) && NothingAgesOut(c, events)
    ensures |RecordedBans(c, events)| == |Run(c, events).failures|
    ensures forall i :: 0 <= i < |RecordedBans(c, events)| ==>
      RecordedBans(c, events)[i] == BanForCount(c, Count64(i + 1))
  {
    if events != [] && events[|events| - 1].Failure? {
      var before, at := events[..|events| - 1], events[|events| - 1].at;
      NothingAgesOutBefore(c, events);
      EveryBanFollowsCount(c, before);
      StoredAreSinceSuccess(c, before);
      var stored := Run(c, before).failures;
      if stored != [] {
        assert Failure(stored[0]) in SinceSuccess(before);
      }
      assert Prune(c, stored, at) == stored;
    }
  }

  /** While no failure since the last success ages out, the first `maxFailures` failures are free, the
      `k`-th ban lasts `min(base * 2^k, cap)`, and exactly one free failure separates consecutive bans. */
  lemma BanLadder(c: Schedule, events: seq<Event>, k: nat)
    requires ValidSchedule(c) && Ordered(events) && NothingAgesOut(c, events)
    requires |SinceSuccess(events)| <= U64_MAX
    ensures forall i :: 0 <= i < c.maxFailures && i < |RecordedBans(c, events)| ==> RecordedBans(c, events)[i] == 0
    ensures c.maxFailures + 2 * k < |RecordedBans(c, events)| ==>
      RecordedBans(c, events)[c.maxFailures + 2 * k] == BanDelay(c.baseBan, c.maxBan, k) > 0
    ensures c.maxFailures + 2 * k + 1 < |RecordedBans(c, events)| ==>
      RecordedBans(c, events)[c.maxFailures + 2 * k + 1] == 0
  {
    EveryBanFollowsCount(c, events);
    RecordedAtMostEvents(c, events);
    var bans, m := RecordedBans(c, events), c.maxFailures;
    if m + 2 * k < |bans| {
      assert bans[m + 2 * k] == BanForCount(c, Count64(m + 2 * k + 1));
      GenerationDelay(c, k);
      DelayIsPositive(c, k);
    }
    if m + 2 * k + 1 < |bans| {
      assert bans[m + 2 * k + 1] == BanForCount(c, Count64(m + 2 * k + 2));
      FreeBetweenBans(c, k);
    }
  }

  lemma {:induction false} RecordedAtMostEvents(c: Schedule, events: seq<Event>)
    ensures |RecordedBans(c, events)| <= |SinceSuccess(events)|
  {
    if events != [] {
      RecordedAtMostEvents(c, events[..|events| - 1]);
    }
  }
}
