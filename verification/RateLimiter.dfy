/** The limiter in front of Artifact Hub: a counter behind a mutex, and a sleep under that mutex before
    every hundredth pass. Time is counted in nanoseconds. */
module RateLimiter {

  const RATE_LIMIT := 100
  const RATE_LIMIT_DURATION := 5 * 60 * 1_000_000_000

  /** How the scheduler treats one caller: the time from the last release of the mutex to its lock, and
      the time it sleeps beyond what it asked for. */
  datatype Call = Call(waited: nat, overslept: nat)

  predicate Sleeps(count: nat) {
    count > 0 && count % RATE_LIMIT == 0
  }

  /** Times of passes one mutex holder after the other lets through: in order, and each sleeper is a whole
      duration behind the pass before it. */
  ghost predicate Legal(passes: seq<int>) {
    && (forall i, j :: 0 <= i <= j < |passes| ==> passes[i] <= passes[j])
    && (forall i, k :: 0 <= i < k < |passes| && Sleeps(k) ==> passes[i] + RATE_LIMIT_DURATION <= passes[k])
  }

  /** The passes of the half-open window of the limiter's duration that begins at `start`. */
  function Window(passes: seq<int>, start: int): (inside: set<nat>)
    ensures forall i :: i in inside <==> 0 <= i < |passes| && start <= passes[i] < start + RATE_LIMIT_DURATION
  {
    set i: nat | i < |passes| && start <= passes[i] < start + RATE_LIMIT_DURATION
  }

  /** Passes a hundred apart are a whole duration apart. */
  lemma Spacing(passes: seq<int>, i: nat, j: nat)
    requires Legal(passes) && i + RATE_LIMIT <= j < |passes|
    ensures passes[i] + RATE_LIMIT_DURATION <= passes[j]
  {
    var sleeper := (i / RATE_LIMIT + 1) * RATE_LIMIT;
    assert Sleeps(sleeper) && i < sleeper <= j;
  }

  lemma {:induction false} BoundedSet(s: set<nat>, low: nat, n: nat)
    requires forall i :: i in s ==> low <= i < low + n
    ensures |s| <= n
    decreases n
  {
    if n == 0 {
      assert s == {};
    } else {
      BoundedSet(s - {low + n - 1}, low, n - 1);
      assert s <= (s - {low + n - 1}) + {low + n - 1};
    }
  }

  /** The number of passes before `start`. */
  function FirstFrom(passes: seq<int>, start: int): (first: nat)
    ensures first <= |passes|
    ensures forall i :: 0 <= i < first ==> passes[i] < start
    ensures first < |passes| ==> start <= passes[first]
  {
    if passes == [] || start <= passes[0] then 0 else 1 + FirstFrom(passes[1..], start)
  }

  lemma WindowSpan(passes: seq<int>, start: int, i: nat)
    requires Legal(passes) && i in Window(passes, start)
    ensures FirstFrom(passes, start) <= i < FirstFrom(passes, start) + RATE_LIMIT
  {
    var first := FirstFrom(passes, start);
    if first + RATE_LIMIT <= i {
      Spacing(passes, first, i);
    }
  }

  /** No half-open window of the limiter's duration holds more than a hundred passes. */
  lemma NoBurst(passes: seq<int>, start: int)
    requires Legal(passes)
    ensures |Window(passes, start)| <= RATE_LIMIT
  {
    forall i | i in Window(passes, start)
      ensures FirstFrom(passes, start) <= i < FirstFrom(passes, start) + RATE_LIMIT
    {
      WindowSpan(passes, start, i);
    }
    BoundedSet(Window(passes, start), FirstFrom(passes, start), RATE_LIMIT);
  }

  /** The bound is met: the first hundred passes may all be inside one window. */
  lemma FullWindow(passes: seq<int>, start: int)
    requires |passes| == RATE_LIMIT && forall i :: 0 <= i < |passes| ==> passes[i] == start
    ensures Legal(passes) && |Window(passes, start)| == RATE_LIMIT
  {
    var inside := Window(passes, start);
    FullSet(inside, RATE_LIMIT);
  }

  lemma {:induction false} FullSet(s: set<nat>, n: nat)
    requires forall i :: i in s <==> 0 <= i < n
    ensures |s| == n
    decreases n
  {
    if n == 0 {
      assert s == {};
    } else {
      FullSet(s - {n - 1}, n - 1);
      assert s == (s - {n - 1}) + {n - 1};
    }
  }

  // ---------- no more sleep than needed ----------

  /** Nobody waits for the mutex or oversleeps. */
  predicate Prompt(calls: seq<Call>) {
    forall c :: c in calls ==> c.waited == 0 && c.overslept == 0
  }

  /** Every pass is as early as the limit allows: five minutes for each hundred passes before it. */
  ghost predicate OnTime(passes: seq<int>, start: int, clock: int) {
    && (forall i :: 0 <= i < |passes| ==> passes[i] == start + i / 100 * 300_000_000_000)
    && clock == if passes == [] then start else passes[|passes| - 1]
  }

  lemma OnTimeNext(passes: seq<int>, start: int, clock: int, clock': int)
    requires OnTime(passes, start, clock)
    requires clock' == clock + if Sleeps(|passes|) then RATE_LIMIT_DURATION else 0
    ensures OnTime(passes + [clock'], start, clock')
  {
    var n := |passes|;
    if n > 0 {
      assert n / 100 == (n - 1) / 100 + if n % 100 == 0 then 1 else 0;
    }
  }

  class Limiter {
    var artifactHubCount: nat
    /** The time of the last release of the mutex. */
    var clock: int
    ghost var passes: seq<int>

    ghost predicate Valid()
      reads this
    {
      && artifactHubCount == |passes|
      && Legal(passes)
      && forall i :: 0 <= i < |passes| ==> passes[i] <= clock
    }

    constructor (start: int)
      ensures Valid() && passes == [] && clock == start
    {
      artifactHubCount, clock, passes := 0, start, [];
    }

    /** One call, from lock to unlock. */
    method RateLimitArtifactHub(call: Call)
      requires Valid()
      modifies this
      ensures Valid() && passes == old(passes) + [clock]
      ensures clock == old(clock) + call.waited
                       + if Sleeps(old(|passes|)) then RATE_LIMIT_DURATION + call.overslept else 0
    {
      clock := clock + call.waited;
      if artifactHubCount > 0 && artifactHubCount % RATE_LIMIT == 0 {
        clock := clock + RATE_LIMIT_DURATION + call.overslept;
      }
      artifactHubCount := artifactHubCount + 1;
      passes := passes + [clock];
    }

    /** Any callers, in the order in which they get the mutex. */
    method Run(calls: seq<Call>)
      requires Valid() && passes == []
      modifies this
      ensures Valid() && |passes| == |calls|
      ensures forall i, j :: 0 <= i && i + RATE_LIMIT <= j < |passes| ==> passes[i] + RATE_LIMIT_DURATION <= passes[j]
      ensures forall start :: |Window(passes, start)| <= RATE_LIMIT
      ensures Prompt(calls) ==> forall i :: 0 <= i < |passes| ==> passes[i] == old(clock) + i / 100 * 300_000_000_000
    {
      for k := 0 to |calls|
        invariant Valid() && |passes| == k
        invariant Prompt(calls) ==> OnTime(passes, old(clock), clock)
      {
        ghost var before, clock0 := passes, clock;
        RateLimitArtifactHub(calls[k]);
        if Prompt(calls) {
          OnTimeNext(before, old(clock), clock0, clock);
        }
      }
      forall i, j | 0 <= i && i + RATE_LIMIT <= j < |passes|
        ensures passes[i] + RATE_LIMIT_DURATION <= passes[j]
      {
        Spacing(passes, i, j);
      }
      forall start
        ensures |Window(passes, start)| <= RATE_LIMIT
      {
        NoBurst(passes, start);
      }
    }
  }
}
