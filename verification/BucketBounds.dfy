/** How many failures a bucket can ever store, whatever its schedule. */
module BucketBounds {
  import opened Words
  import opened RateLimit

  /** Every stored failure is still in window when the last one is recorded. */
  predicate Live(c: Schedule, failures: seq<u64>) {
    failures != [] ==> forall i :: 0 <= i < |failures| ==> InWindow(c, failures[i], failures[|failures| - 1])
  }

  /** From index `m` on, no three failures share a second. */
  predicate Apart(failures: seq<u64>, m: nat) {
    forall i :: m <= i < |failures| - 2 ==> failures[i] < failures[i + 2]
  }

  predicate Sorted(failures: seq<u64>) {
    forall i, j :: 0 <= i < j < |failures| ==> failures[i] <= failures[j]
  }

  predicate OddOver(m: nat, n: nat) {
    n > m && (n - m) % 2 == 1
  }

  predicate EvenOver(m: nat, n: nat) {
    n > m && (n - m) % 2 == 0
  }

  /** Past the threshold the failures are spread out: an odd count has banned past its own second,
      so the failure after it came later. */
  predicate Spaced(c: Schedule, b: BucketState) {
    var f, n := b.failures, |b.failures|;
    && Sorted(f) && Live(c, f) && Apart(f, c.maxFailures)
    && (OddOver(c.maxFailures, n) ==> f[n - 1] < b.banUntil)
    && (EvenOver(c.maxFailures, n) ==> f[n - 2] < f[n - 1])
  }

  lemma OneMoreParity(m: nat, n: nat)
    ensures OddOver(m, n + 1) <==> n == m || EvenOver(m, n)
    ensures EvenOver(m, n + 1) <==> OddOver(m, n)
    ensures n > m ==> OddOver(m, n) != EvenOver(m, n)
  {
  }

  lemma {:induction false} ApartGrows(f: seq<u64>, m: nat, i: nat)
    requires m <= i < |f| && Apart(f, m) && Sorted(f)
    ensures f[i] - f[m] >= (i - m) / 2
    decreases i
  {
    if i >= m + 2 {
      ApartGrows(f, m, i - 2);
    }
  }

  lemma SpacedIsShort(c: Schedule, b: BucketState)
    requires Spaced(c, b) && c.window >= 1
    ensures |b.failures| <= c.maxFailures + 2 * c.window
  {
    var f, m := b.failures, c.maxFailures;
    if |f| > m {
      ApartGrows(f, m, |f| - 1);
      assert f[|f| - 1] - f[m] < c.window;
    }
  }

  lemma ApartSuffix(f: seq<u64>, k: nat, m: nat)
    requires Apart(f, m) && Sorted(f) && k <= |f|
    ensures Apart(f[k..], m) && Sorted(f[k..])
  {
    var g := f[k..];
    forall i | m <= i < |g| - 2 ensures g[i] < g[i + 2] {
      assert g[i] == f[k + i] && g[i + 2] == f[k + i + 2];
    }
  }

  lemma ApartAppend(g: seq<u64>, m: nat, at: u64)
    requires Apart(g, m) && Sorted(g) && forall i :: 0 <= i < |g| ==> g[i] <= at
    requires |g| >= m + 2 ==> g[|g| - 2] < at
    ensures Apart(g + [at], m) && Sorted(g + [at])
  {
  }

  lemma {:induction false} PrunedIsLive(c: Schedule, f: seq<u64>, at: u64)
    requires Sorted(f)
    ensures forall i :: 0 <= i < |Prune(c, f, at)| ==> InWindow(c, Prune(c, f, at)[i], at)
  {
    if f != [] && !InWindow(c, f[0], at) {
      PrunedIsLive(c, f[1..], at);
    }
  }

  lemma LiveAppend(c: Schedule, g: seq<u64>, at: u64)
    requires c.window >= 1 && forall i :: 0 <= i < |g| ==> InWindow(c, g[i], at)
    ensures Live(c, g + [at])
  {
  }

  /** After an unbanned failure the ban covers its second if the count is an odd distance past the
      threshold. */
  lemma OddBans(c: Schedule, b: BucketState, at: u64)
    requires ValidSchedule(c) && b.banUntil <= at < U64_MAX && |Prune(c, b.failures, at)| < U64_MAX
    ensures var b' := RecordFailure(c, b, at).0;
      OddOver(c.maxFailures, |b'.failures|) ==> at < b'.banUntil
  {
    BansIff(c, |Prune(c, b.failures, at)| + 1);
  }

  /** In the second of the last failure nothing is pruned, and no odd count was left behind. */
  lemma SameSecond(c: Schedule, b: BucketState, at: u64)
    requires Spaced(c, b) && b.failures != [] && b.failures[|b.failures| - 1] == at && b.banUntil <= at
    ensures Prune(c, b.failures, at) == b.failures && !OddOver(c.maxFailures, |b.failures|)
    ensures |b.failures| >= c.maxFailures + 2 ==> b.failures[|b.failures| - 2] < at
  {
    OneMoreParity(c.maxFailures, |b.failures|);
  }

  /** What `ApartAppend` and the parity clauses ask of the failures kept before `at`. */
  predicate Ready(g: seq<u64>, m: nat, at: u64) {
    && Apart(g, m) && Sorted(g) && (forall i :: 0 <= i < |g| ==> g[i] <= at)
    && (|g| >= m + 2 ==> g[|g| - 2] < at)
    && (OddOver(m, |g|) ==> g[|g| - 1] < at)
  }

  lemma EarlierSuffixIsReady(f: seq<u64>, k: nat, m: nat, at: u64)
    requires Apart(f, m) && Sorted(f) && k <= |f| && (f != [] ==> f[|f| - 1] < at)
    ensures Ready(f[k..], m, at)
  {
    ApartSuffix(f, k, m);
    assert forall i :: 0 <= i < |f| ==> f[i] < at;
  }

  lemma SameSecondIsReady(c: Schedule, b: BucketState, at: u64)
    requires Spaced(c, b) && b.failures != [] && b.failures[|b.failures| - 1] == at && b.banUntil <= at
    ensures Prune(c, b.failures, at) == b.failures && Ready(b.failures, c.maxFailures, at)
  {
    SameSecond(c, b, at);
  }

  lemma KeptIsReady(c: Schedule, b: BucketState, at: u64)
    requires Spaced(c, b) && b.banUntil <= at
    requires b.failures != [] ==> b.failures[|b.failures| - 1] <= at
    ensures |Prune(c, b.failures, at)| <= |b.failures| && Ready(Prune(c, b.failures, at), c.maxFailures, at)
  {
    PruneIsSuffix(c, b.failures, at);
    if b.failures != [] && b.failures[|b.failures| - 1] == at {
      SameSecondIsReady(c, b, at);
    } else {
      var k := |b.failures| - |Prune(c, b.failures, at)|;
      EarlierSuffixIsReady(b.failures, k, c.maxFailures, at);
    }
  }

  lemma StepIsSpaced(c: Schedule, b: BucketState, at: u64)
    requires ValidSchedule(c) && Spaced(c, b) && b.banUntil <= at < U64_MAX && |b.failures| < U64_MAX
    requires b.failures != [] ==> b.failures[|b.failures| - 1] <= at
    ensures Spaced(c, RecordFailure(c, b, at).0)
  {
    var kept := Prune(c, b.failures, at);
    KeptIsReady(c, b, at);
    PrunedIsLive(c, b.failures, at);
    ApartAppend(kept, c.maxFailures, at);
    LiveAppend(c, kept, at);
    OddBans(c, b, at);
    OneMoreParity(c.maxFailures, |kept|);
    assert RecordFailure(c, b, at).0.failures == kept + [at];
  }

  /** The clock never reads its last second. */
  predicate BeforeTheEnd(events: seq<Event>) {
    forall i :: 0 <= i < |events| && events[i].Failure? ==> events[i].at < U64_MAX
  }

  lemma {:induction false} StoredAtMostEvents(c: Schedule, events: seq<Event>)
    ensures |Run(c, events).failures| <= |events|
  {
    if events != [] {
      var before, last := events[..|events| - 1], events[|events| - 1];
      StoredAtMostEvents(c, before);
      if last.Failure? {
        PruneIsSuffix(c, Run(c, before).failures, last.at);
      }
    }
  }

  /** The stored count stays below where a 64-bit count saturates: the window is short enough, or the
      run is. */
  predicate Countable(c: Schedule, events: seq<Event>) {
    c.maxFailures + 2 * c.window < U64_MAX || |events| <= U64_MAX
  }

  lemma {:induction false} RunIsSpaced(c: Schedule, events: seq<Event>)
    requires ValidSchedule(c) && Ordered(events) && BeforeTheEnd(events) && Countable(c, events)
    ensures Spaced(c, Run(c, events))
  {
    if events != [] {
      var before, last := events[..|events| - 1], events[|events| - 1];
      RunIsSpaced(c, before);
      RunIsChronological(c, before);
      SpacedIsShort(c, Run(c, before));
      StoredAtMostEvents(c, before);
      if last.Failure? && Run(c, before).banUntil <= last.at {
        StepIsSpaced(c, Run(c, before), last.at);
      }
    }
  }

  /** Whatever the cap, no run stores more than `maxFailures` plus two failures per second of the
      window. */
  lemma WindowBoundsStoredFailures(c: Schedule, events: seq<Event>)
    requires ValidSchedule(c) && Ordered(events) && BeforeTheEnd(events) && Countable(c, events)
    ensures |Run(c, events).failures| <= c.maxFailures + 2 * c.window
  {
    RunIsSpaced(c, events);
    SpacedIsShort(c, Run(c, events));
  }

  /** At the last second of the clock a ban end saturates to that second, so no ban holds and any
      number of failures is stored: the bound needs the clock to stop short of it. */
  lemma {:induction false} LastSecondStoresEverything(c: Schedule, n: nat)
    requires ValidSchedule(c)
    ensures var events := seq(n, i => Failure(U64_MAX));
      Ordered(events) && Run(c, events).failures == seq(n, i => U64_MAX) && Run(c, events).banUntil <= U64_MAX
    ensures Clock(seq(n, i => Failure(U64_MAX))) == if n == 0 then 0 else U64_MAX
  {
    if n > 0 {
      var events, before := seq(n, i => Failure(U64_MAX)), seq(n - 1, i => Failure(U64_MAX));
      assert events[..n - 1] == before && events[n - 1] == Failure(U64_MAX);
      LastSecondStoresEverything(c, n - 1);
      var stored := seq(n - 1, i => U64_MAX);
      assert Prune(c, stored, U64_MAX) == stored;
      assert stored + [U64_MAX] == seq(n, i => U64_MAX);
    }
  }
}
