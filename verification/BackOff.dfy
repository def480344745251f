// Waiting between two attempts: the doubling, capped wait of the min-max polling logic, the
// randomised wait of the old logic, and the deadline that both share.
module BackOff {
  import opened Common
  import opened StatusCodes
  import opened TimeUtils
  import opened Wire

  const LAST_CHANCE: int := 2     // seconds before the end

  datatype PollingLogic = Old | MinMaxExp

  datatype CallStatus = SUCCESS | FAILURE | TIMEOUT | QUEUED | INTERNAL_ERROR

  // srm_context_extension and srm_context, as far as waiting goes. The client only reads them.
  datatype SrmExtension = SrmExtension(pollingLogic: PollingLogic, minWaittime: TimeVal, maxWaittime: TimeVal)

  datatype SrmContext = SrmContext(timeout: CInt, ext: Option<SrmExtension>) {
    // The polling parameters are lengths of time.
    predicate WellFormed() {
      ext.Some? ==>
        && ext.value.minWaittime.Loose() && ext.value.maxWaittime.Loose()
        && 0 <= MinNs() && 0 <= MaxNs()
    }

    // No wait of the min-max logic is empty. The interface has no function that changes the defaults, which
    // are like this.
    predicate Sane() {
      WellFormed() && (UsesMinMax() ==> 0 < MinNs() && 0 < MaxNs())
    }

    // The choice that wait_switch_auto makes
    predicate UsesMinMax() {
      ext.Some? && ext.value.pollingLogic != Old
    }

    function MinNs(): int {
      if ext.Some? then ext.value.minWaittime.Nanos() else 0
    }

    function MaxNs(): int {
      if ext.Some? then ext.value.maxWaittime.Nanos() else 0
    }

    // A wait is never shorter than this.
    function LeastNs(): int {
      Min(MinNs(), MaxNs())
    }

    // A wait is never longer than this.
    function LongestNs(): int {
      if MinNs() > MaxNs() then MinNs() else MaxNs()
    }

    lemma LengthsOfTime()
      requires UsesMinMax() && WellFormed()
      ensures 0 <= MinNs() && 0 <= LeastNs() <= MaxNs() && LeastNs() == Min(MinNs(), MaxNs())
      ensures Sane() <==> 0 < MinNs() && 0 < MaxNs()
      ensures Sane() ==> 0 < LeastNs()
    {
    }
  }

  // The timeout that a context asks for, in seconds
  function TimeoutOf(context: SrmContext): int {
    if context.timeout > 0 then context.timeout else 180
  }

  // srm_context_extension_new and srm_context_new
  const DEFAULT_EXTENSION := SrmExtension(MinMaxExp, TimeVal(0, 200_000_000), TimeVal(5, 0))
  const DEFAULT_CONTEXT := SrmContext(60, Some(DEFAULT_EXTENSION))

  // ---------------------------------------------------------------- the waits of the min-max logic

  function Min(x: int, y: int): int {
    if x <= y then x else y
  }

  // The wait that call number k uses: each doubles the one before, up to the maximum.
  ghost function WaitAt(min: int, max: int, k: nat): int
  {
    if k == 0 then min else Min(2 * WaitAt(min, max, k - 1), max)
  }

  ghost function SumWaits(min: int, max: int, k: nat): int {
    if k == 0 then 0 else SumWaits(min, max, k - 1) + WaitAt(min, max, k - 1)
  }

  function Pow2(k: nat): (p: nat)
    ensures p >= 1
  {
    if k == 0 then 1 else 2 * Pow2(k - 1)
  }

  lemma PowersUpToTen(k: nat)
    requires k <= 10
    ensures Pow2(k) == [1, 2, 4, 8, 16, 32, 64, 128, 256, 512, 1024][k]
  {
    assert Pow2(2) == 4 && Pow2(4) == 16 && Pow2(6) == 64 && Pow2(8) == 256;
  }

  lemma TwiceProduct(p: nat, min: int)
    requires p >= 1 && min >= 0
    ensures (2 * p) * min == 2 * (p * min) && p * min >= min
  {
    assert (p - 1) * min >= 0;
  }

  lemma {:induction false} WaitClosedForm(min: int, max: int, k: nat)
    requires 0 <= min && 0 <= max && (min <= max || k > 0)
    ensures WaitAt(min, max, k) == Min(Pow2(k) * min, max)
  {
    if k == 1 {
      assert Pow2(1) == 2 && WaitAt(min, max, 0) == min;
    } else if k > 1 {
      WaitClosedForm(min, max, k - 1);
      TwiceProduct(Pow2(k - 1), min);
    }
  }

  lemma {:induction false} WaitsGrow(min: int, max: int, j: nat, k: nat)
    requires 0 <= min <= max && j <= k
    ensures min <= WaitAt(min, max, j) <= WaitAt(min, max, k) <= max
    decreases k
  {
    if k > j {
      WaitsGrow(min, max, j, k - 1);
    } else if k > 0 {
      WaitsGrow(min, max, j - 1, k - 1);
    }
  }

  // A minimum above the maximum is waited for once.
  lemma {:induction false} ThenTheMaximum(min: int, max: int, k: nat)
    requires 0 <= max <= min && k > 0
    ensures WaitAt(min, max, k) == max
  {
    if k > 1 {
      ThenTheMaximum(min, max, k - 1);
    } else {
      assert WaitAt(min, max, 0) == min;
    }
  }

  lemma NoWaitIsLonger(context: SrmContext, k: nat)
    requires context.UsesMinMax() && context.WellFormed()
    ensures WaitAt(context.MinNs(), context.MaxNs(), k) <= context.LongestNs()
  {
    var min, max := context.MinNs(), context.MaxNs();
    if min <= max {
      WaitsGrow(min, max, 0, k);
    } else if k > 0 {
      ThenTheMaximum(min, max, k);
    }
  }

  // No wait is shorter than the least one would be by then.
  lemma LeastWait(min: int, max: int, j: nat, k: nat)
    requires 0 <= min && 0 <= max && j <= k
    ensures Min(min, max) <= WaitAt(Min(min, max), max, j) <= WaitAt(min, max, k)
  {
    WaitsGrow(Min(min, max), max, j, k);
    if min > max {
      WaitsGrow(max, max, 0, j);
      if k > 0 {
        ThenTheMaximum(min, max, k);
      }
    }
  }

  // The waits never shrink exactly if the minimum is not above the maximum.
  lemma WaitsNeverShrink(min: int, max: int)
    requires 0 <= min && 0 <= max
    ensures (forall k: nat :: WaitAt(min, max, k) <= WaitAt(min, max, k + 1)) <==> min <= max
  {
    if min <= max {
      forall k: nat
        ensures WaitAt(min, max, k) <= WaitAt(min, max, k + 1)
      {
        WaitsGrow(min, max, k, k + 1);
      }
    } else {
      var k: nat := 0;
      ThenTheMaximum(min, max, k + 1);
      assert WaitAt(min, max, k) == min && WaitAt(min, max, k + 1) == max;
    }
  }

  // If the minimum is above the maximum by more than the two ends of the deadline, the first wait can be refused
  // and the second be granted, one moment later.
  lemma RefusedThenGranted(min: int, max: int)
    requires 0 <= max && max + 2 < min
    ensures var deadline := max + 2;
            0 + WaitAt(min, max, 0) > deadline && 1 + WaitAt(min, max, 1) < deadline
  {
    ThenTheMaximum(min, max, 1);
  }

  lemma NextWait(min: int, max: int, k: nat)
    requires 0 <= min && 0 <= max
    ensures WaitAt(min, max, k + 1) == Min(2 * WaitAt(min, max, k), max)
    ensures SumWaits(min, max, k + 1) == SumWaits(min, max, k) + WaitAt(min, max, k)
    ensures Min(min, max) <= WaitAt(min, max, k) && (0 < min && 0 < max ==> 0 < WaitAt(min, max, k))
    ensures min <= max ==> WaitAt(min, max, k) <= WaitAt(min, max, k + 1)
  {
    LeastWait(min, max, 0, k);
    if min <= max {
      WaitsGrow(min, max, k, k + 1);
    }
  }

  lemma ProductStep(k: nat, x: int)
    requires k > 0
    ensures k * x == (k - 1) * x + x
  {
  }

  lemma ProductExceeds(k: nat, x: int)
    requires x > 0
    ensures k * x >= k
  {
    assert k * (x - 1) >= 0;
  }

  // One more wait, when as many were granted
  lemma WaitStep(min: int, max: int, granted: nat, waits: nat)
    requires 0 <= min && 0 <= max && granted <= waits
    ensures var least, wait := Min(min, max), WaitAt(min, max, waits);
            && WaitAt(min, max, waits + 1) == Min(2 * wait, max)
            && 0 <= wait && (0 < min && 0 < max ==> 0 < wait) && (min <= max ==> wait <= WaitAt(min, max, waits + 1))
            && SumWaits(least, max, granted + 1) <= SumWaits(least, max, granted) + wait
  {
    LeastWait(min, max, granted, waits);
    NextWait(min, max, waits);
    NextWait(Min(min, max), max, granted);
  }

  // The sum of the waits grows in proportion to their number.
  lemma {:induction false} SumsAreUnbounded(min: int, max: int, k: nat)
    requires 0 <= min && 0 <= max
    ensures SumWaits(min, max, k) >= k * Min(min, max)
  {
    hide Min, WaitAt;
    if k > 0 {
      SumsAreUnbounded(min, max, k - 1);
      NextWait(min, max, k - 1);
      ProductStep(k, Min(min, max));
    }
  }

  lemma {:induction false} SumsGrow(min: int, max: int, j: nat, k: nat)
    requires 0 <= min && 0 <= max && j <= k
    ensures SumWaits(min, max, j) <= SumWaits(min, max, k)
    decreases k
  {
    if j < k {
      SumsGrow(min, max, j, k - 1);
      NextWait(min, max, k - 1);
    }
  }

  // Without a minimum or a maximum there is no more than the first wait.
  lemma {:induction false} NoProgress(min: int, max: int, k: nat)
    requires 0 <= min && 0 <= max && (min == 0 || max == 0)
    ensures k > 0 ==> WaitAt(min, max, k) == 0
    ensures SumWaits(min, max, k) == if k == 0 then 0 else min
  {
    if k > 0 {
      NoProgress(min, max, k - 1);
    }
  }

  ghost predicate Exceeded(min: int, max: int, bound: int) {
    exists k: nat :: SumWaits(min, max, k) > bound
  }

  lemma SumsExceed(min: int, max: int, bound: int)
    requires 0 < min && 0 < max
    ensures Exceeded(min, max, bound)
  {
    var k: nat := if bound < 0 then 0 else bound + 1;
    SumsAreUnbounded(min, max, k);
    ProductExceeds(k, Min(min, max));
    assert SumWaits(min, max, k) > bound;
  }

  // The waits add up to more than any bound exactly if neither the minimum nor the maximum is 0.
  lemma SumsExceedEveryBound(min: int, max: int)
    requires 0 <= min && 0 <= max
    ensures (forall bound: int :: Exceeded(min, max, bound)) <==> 0 < min && 0 < max
  {
    if 0 < min && 0 < max {
      forall bound: int
        ensures Exceeded(min, max, bound)
      {
        SumsExceed(min, max, bound);
      }
    } else {
      forall k: nat
        ensures SumWaits(min, max, k) <= min
      {
        NoProgress(min, max, k);
      }
      assert !Exceeded(min, max, min);
    }
  }

  // With the default parameters (0.2 s, 5 s) and the default timeout (60 s), in nanoseconds, exactly
  // fifteen waits fit.
  lemma DefaultsAllowFifteenWaits(k: nat)
    ensures SumWaits(DEFAULT_CONTEXT.MinNs(), DEFAULT_CONTEXT.MaxNs(), k) <= 60_000_000_000 <==> k <= 15
  {
    var min, max := 200_000_000, 5_000_000_000;
    assert WaitAt(min, max, 4) == 3_200_000_000 && SumWaits(min, max, 5) == 6_200_000_000;
    LongWaits(min, max, 5, 10);
    LongWaits(min, max, 5, 11);
    if k <= 15 {
      SumsGrow(min, max, k, 15);
    } else {
      SumsGrow(min, max, 16, k);
    }
  }

  lemma {:induction false} LongWaits(min: int, max: int, from: nat, more: nat)
    requires 0 < min <= max && from > 0 && 2 * WaitAt(min, max, from - 1) >= max
    ensures WaitAt(min, max, from + more) == max
    ensures SumWaits(min, max, from + more) == SumWaits(min, max, from) + more * max
  {
    if more > 0 {
      LongWaits(min, max, from, more - 1);
      assert more * max == (more - 1) * max + max;
    }
  }

  // Whether time(NULL) reads t0 and then t1 around the end time in such a way that the old logic takes
  // its marker for "no estimate" for an estimate, and sleeps for as many seconds as an unsigned int holds.
  predicate Overslept(estimate: int, endTime: int, t0: int, t1: int) {
    estimate == -1 && t0 <= endTime < t1
  }

  // It happens: one second passes between the readings, at the end time.
  lemma OversleepExample()
    ensures Overslept(-1, 1_700_000_000, 1_700_000_000, 1_700_000_001) && ToUnsigned(-1) == 4_294_967_295
  {
  }

  // ---------------------------------------------------------------- srm_internal_context

  class InternalContext {
    var currentStatus: CallStatus
    var endTime: int
    var relativeTimeout: int
    const endTimeSpec: Timespec
    const currentWaittimeSpec: Timespec
    var attempt: nat
    var estimatedWaitTime: int
    var randomSeed: nat

    ghost const startNs: nat           // the monotone clock when the context was set up
    ghost const startWall: nat         // the wall clock then
    ghost var waits: nat               // how many times the min-max wait was called
    ghost var granted: nat             // how many waits of either logic ended before the deadline
    ghost var failedAt: Option<nat>    // the last reading that made the min-max wait give up
    ghost var exhausted: bool          // whether the old logic has given up after ten attempts

    ghost function DeadlineNs(): int
      reads this`relativeTimeout
    {
      startNs + relativeTimeout * 1_000_000_000
    }

    ghost predicate Valid(context: SrmContext, world: World)
      reads this`relativeTimeout, this`endTime, this`estimatedWaitTime, this`attempt
      reads this`waits, this`granted, this`failedAt, endTimeSpec, currentWaittimeSpec
      reads world`now, world`wall
    {
      && Settings(context)
      && 1 <= attempt <= 11
      && startNs <= world.now && startWall <= world.wall
      && (if context.UsesMinMax() then MinMaxValid(context, world) else OldValid(world))
    }

    // What no wait changes: both deadlines, and the estimate of the server
    ghost predicate Settings(context: SrmContext)
      reads this`relativeTimeout, this`endTime, this`estimatedWaitTime, endTimeSpec
    {
      && endTimeSpec != currentWaittimeSpec
      && context.WellFormed()
      && 0 < relativeTimeout < 0x8000_0000
      && endTimeSpec.tv.Loose() && endTimeSpec.tv.Nanos() == DeadlineNs()
      && endTime == startWall + relativeTimeout
      && (estimatedWaitTime == -1 || 0 < estimatedWaitTime < relativeTimeout)
    }

    lemma SettingsFacts(context: SrmContext)
      requires Settings(context)
      ensures endTimeSpec != currentWaittimeSpec && context.WellFormed()
      ensures 0 < relativeTimeout < 0x8000_0000 && endTime == startWall + relativeTimeout
      ensures endTimeSpec.tv.Loose() && endTimeSpec.tv.Nanos() == DeadlineNs()
      ensures estimatedWaitTime == -1 || 0 < estimatedWaitTime < relativeTimeout
    {
    }

    ghost predicate MinMaxValid(context: SrmContext, world: World)
      reads this`waits, this`granted, this`failedAt, this`relativeTimeout, currentWaittimeSpec, world`now
    {
      var min, max, least := context.MinNs(), context.MaxNs(), context.LeastNs();
      && currentWaittimeSpec.tv.Loose()
      && currentWaittimeSpec.tv.Nanos() == WaitAt(min, max, waits)
      && granted <= waits
      && startNs + SumWaits(least, max, granted) <= world.now
      && startNs + SumWaits(least, max, granted) <= DeadlineNs()
      && (failedAt.Some? && min <= max ==> failedAt.value + WaitAt(min, max, waits) >= DeadlineNs())
    }

    ghost predicate OldValid(world: World)
      reads this`granted, this`relativeTimeout, world`wall
    {
      && startWall + granted <= world.wall
      && granted <= relativeTimeout + 1
    }

    // What is left until the deadline, on the clock that the polling logic goes by. Every wait that is
    // granted is granted while this is not negative, and makes it smaller.
    ghost function Left(context: SrmContext, world: World): int
      reads this`relativeTimeout, this`endTime, world`now, world`wall
    {
      if context.UsesMinMax() then DeadlineNs() - world.now else endTime - world.wall
    }

    // The old logic goes by no estimate of the server.
    ghost predicate Unguided(context: SrmContext)
      reads this`estimatedWaitTime
    {
      !context.UsesMinMax() && estimatedWaitTime == -1
    }

    // How many waits there can be by then, until the attempts start afresh: those that were granted, the
    // exponential ones that are left, and the mishap at the end time.
    ghost function Limit(world: World): int
      reads this`granted, this`attempt, this`endTime, world`wall
    {
      granted + 11 - attempt + if world.wall <= endTime then 1 else 0
    }

    // No more than the longest wait is left before the deadline. By the old logic, there are no more than two
    // seconds left, or the attempts are exhausted.
    ghost predicate TimeIsUp(context: SrmContext, world: World)
      reads this`relativeTimeout, this`endTime, this`exhausted, world`now, world`wall
    {
      if context.UsesMinMax() then
        world.now + context.LongestNs() >= startNs + relativeTimeout * 1_000_000_000
      else
        exhausted || world.wall + 2 >= endTime
    }

    // back_off_logic_init
    constructor (context: SrmContext, world: World)
      requires context.WellFormed()
      modifies world`now, world`wall
      ensures Valid(context, world)
      ensures fresh(endTimeSpec) && fresh(currentWaittimeSpec)
      ensures relativeTimeout == TimeoutOf(context) == if context.timeout > 0 then context.timeout else 180
      ensures DeadlineNs() == startNs + (if context.timeout > 0 then context.timeout else 180) * 1_000_000_000
      ensures endTime == startWall + if context.timeout > 0 then context.timeout else 180
      ensures old(world.now) <= startNs <= world.now && old(world.wall) <= startWall <= world.wall
      ensures currentStatus == SUCCESS && attempt == 1 && estimatedWaitTime == -1
      ensures waits == 0 && granted == 0 && failedAt == None && !exhausted
      ensures (Unguided(context) <==> !context.UsesMinMax()) && Limit(world) <= 11
    {
      hide TimeVal.Nanos;
      var end := new Timespec(TimeVal(0, 0));
      var wait := new Timespec(TimeVal(0, 0));
      world.GetTime(end);
      startNs := world.now;
      var timeout: int := if context.timeout > 0 then context.timeout else 180;
      var t := world.Time();
      startWall := t;
      relativeTimeout, endTime := timeout, t + timeout;
      SecondsLater(end.tv, timeout);
      end.tv := end.tv.(sec := end.tv.sec + timeout);
      estimatedWaitTime, attempt := -1, 1;
      if context.ext.Some? {
        var minWaittime := new Timespec(context.ext.value.minWaittime);
        wait.Add(wait, minWaittime);
      }
      var seed := world.Time();
      randomSeed := seed;
      currentStatus := SUCCESS;
      endTimeSpec, currentWaittimeSpec := end, wait;
      waits, granted, failedAt, exhausted := 0, 0, None, false;
    }

    // The waits that were granted fit into the time that the context allows.
    lemma GrantedWaitsFit(context: SrmContext, world: World)
      requires Valid(context, world)
      ensures context.WellFormed()
      ensures if context.UsesMinMax() then
                SumWaits(context.LeastNs(), context.MaxNs(), granted) <= relativeTimeout * 1_000_000_000
              else
                granted <= relativeTimeout + 1
    {
    }

    // set_estimated_wait_time
    method SetEstimatedWaitTime(context: SrmContext, ghost world: World, myTime: int)
      requires Valid(context, world)
      modifies this`estimatedWaitTime
      ensures Valid(context, world)
      ensures estimatedWaitTime == -1 || 0 < estimatedWaitTime == myTime < relativeTimeout
      ensures 0 < myTime < relativeTimeout ==> estimatedWaitTime == myTime
    {
      estimatedWaitTime := if myTime > 0 && myTime < relativeTimeout then myTime else -1;
    }

    // The sleeping loop of wait_for_new_attempt_min_max_ng: whole ticks, until the planned moment has come.
    static method SleepUntil(wake: Timespec, currentTime: Timespec, world: World)
      requires wake.tv.Loose() && wake != currentTime
      requires currentTime.tv.Loose() && currentTime.tv.Nanos() == world.now
      modifies currentTime, world`now, world`wall, world`naps
      ensures world.now >= wake.tv.Nanos() && world.now >= old(world.now)
      ensures world.wall >= old(world.wall)
      ensures world.now <= wake.tv.Nanos() + 500_000_000 + 2 * world.jitter || world.now == old(world.now)
      ensures |world.naps| >= |old(world.naps)| && world.naps[..|old(world.naps)|] == old(world.naps)
      ensures forall i :: |old(world.naps)| <= i < |world.naps| ==> world.naps[i] == 500_000_000
      ensures wake.tv.Nanos() <= old(world.now) && old(currentTime.tv.nsec) < NANOS ==>
                world.now == old(world.now) && world.naps == old(world.naps)
    {
      ghost var end, early := wake.tv.Nanos(), currentTime.tv.Less(wake.tv);
      LessIsRealOrderUpToCarry(currentTime.tv, wake.tv);
      while currentTime.tv.Less(wake.tv)
        invariant currentTime.tv.Loose() && currentTime.tv.Nanos() == world.now >= old(world.now)
        invariant world.wall >= old(world.wall)
        invariant |world.naps| >= |old(world.naps)| && world.naps[..|old(world.naps)|] == old(world.naps)
        invariant forall i :: |old(world.naps)| <= i < |world.naps| ==> world.naps[i] == 500_000_000
        invariant currentTime.tv.Less(wake.tv) ==> world.now <= end
        invariant world.now < end ==> currentTime.tv.Less(wake.tv)
        invariant !early ==>
                    && world.now == old(world.now) && world.naps == old(world.naps)
                    && !currentTime.tv.Less(wake.tv)
        invariant world.now <= end + 500_000_000 + 2 * world.jitter || world.now == old(world.now)
        decreases end - world.now
      {
        world.Usleep(500_000);
        world.GetTime(currentTime);
        LessIsRealOrderUpToCarry(currentTime.tv, wake.tv);
      }
    }

    // The last step of wait_for_new_attempt_min_max_ng: the next wait is twice as long, up to the maximum.
    method DoubleWait(context: SrmContext)
      requires context.ext.Some? && context.WellFormed() && currentWaittimeSpec.tv.Loose()
      modifies currentWaittimeSpec
      ensures currentWaittimeSpec.tv.Loose()
      ensures currentWaittimeSpec.tv.Nanos() ==
              Min(2 * old(currentWaittimeSpec.tv.Nanos()), context.MaxNs())
    {
      var sleepTime := new Timespec(TimeVal(0, 0));
      var maxWaittime := new Timespec(context.ext.value.maxWaittime);
      sleepTime.Add(currentWaittimeSpec, currentWaittimeSpec);
      LessIsRealOrderUpToCarry(sleepTime.tv, maxWaittime.tv);
      if sleepTime.tv.Less(maxWaittime.tv) {
        currentWaittimeSpec.Copy(sleepTime);
      } else {
        currentWaittimeSpec.Copy(maxWaittime);
      }
    }

    // wait_for_new_attempt_min_max_ng
    method WaitMinMax(context: SrmContext, world: World) returns (ret: int, ghost start: nat)
      requires context.UsesMinMax() && Valid(context, world)
      modifies this`waits, this`granted, this`failedAt, currentWaittimeSpec
      modifies world`now, world`wall, world`naps
      ensures Valid(context, world) && waits == old(waits) + 1
      ensures old(world.now) <= start <= world.now && old(world.wall) <= world.wall
      ensures ret == 0 || ret == -1
      // The decision, up to the two representations of one instant
      ensures var wake := start + WaitAt(context.MinNs(), context.MaxNs(), old(waits));
              && (wake < DeadlineNs() ==> ret == 0)
              && (wake > DeadlineNs() ==> ret == -1)
      // A granted wait lasts until the planned moment, which the deadline allows, and not much longer
      ensures ret == 0 ==>
                var wake := start + WaitAt(context.MinNs(), context.MaxNs(), old(waits));
                && granted == old(granted) + 1 && failedAt == old(failedAt)
                && wake <= DeadlineNs() && wake <= world.now <= wake + 500_000_000 + 2 * world.jitter
                && 0 <= old(Left(context, world)) && Left(context, world) <= old(Left(context, world))
                && (context.Sane() ==> Left(context, world) < old(Left(context, world)))
                && (wake == start ==> world.now == start && world.naps == old(world.naps))
      // A refused wait only looks at the clock
      ensures ret == -1 ==>
                granted == old(granted) && failedAt == Some(start) && world.now == start
                    && world.naps == old(world.naps)
      // It sleeps in ticks of half a second.
      ensures |world.naps| >= |old(world.naps)| && world.naps[..|old(world.naps)|] == old(world.naps)
      ensures forall i :: |old(world.naps)| <= i < |world.naps| ==> world.naps[i] == 500_000_000
      // Once refused, always refused, if the waits never shrink
      ensures context.MinNs() <= context.MaxNs() && old(failedAt).Some? && old(failedAt).value < start ==> ret == -1
    {
      hide TimeVal.Nanos, InternalContext.DeadlineNs, InternalContext.OldValid, InternalContext.Settings;
      hide SrmContext.MinNs, SrmContext.MaxNs, SrmContext.LeastNs, SrmContext.WellFormed, SrmContext.Sane;
      hide WaitAt, SumWaits, Min;
      SettingsFacts(context);
      ret := -1;
      var currentTime := new Timespec(TimeVal(0, 0));
      var endSleepTime := new Timespec(TimeVal(0, 0));
      world.GetTime(currentTime);
      start := world.now;
      assert currentTime.tv.Loose();
      hide TimeVal.Loose, TimeVal.Less;
      endSleepTime.Add(currentWaittimeSpec, currentTime);
      LessIsRealOrderUpToCarry(endSleepTime.tv, endTimeSpec.tv);
      context.LengthsOfTime();
      WaitStep(context.MinNs(), context.MaxNs(), granted, waits);
      if endSleepTime.tv.Less(endTimeSpec.tv) {
        SleepUntil(endSleepTime, currentTime, world);
        ret := 0;
      }
      granted, failedAt, waits :=
        if ret == 0 then granted + 1 else granted, if ret == 0 then failedAt else Some(start), waits + 1;
      DoubleWait(context);
      assert Settings(context);
      assert MinMaxValid(context, world);
    }

    // A random number of seconds, below the limit of the current attempt
    method RandomWait(world: World) returns (seconds: nat)
      requires 1 <= attempt <= 10
      modifies world`draws
      ensures 1 <= seconds <= [1, 2, 4, 8, 16, 32, 64, 128, 256, 512, 1024][attempt]
      ensures |world.draws| == |old(world.draws)| + 1 && world.draws[..|old(world.draws)|] == old(world.draws)
      ensures seconds == world.draws[|old(world.draws)|] % Pow2(attempt) + 1
    {
      PowersUpToTen(attempt);
      var r := world.Random();
      seconds := r % Pow2(attempt) + 1;
    }

    // The end of wait_for_new_attempt: sleep for the given length, or up to two seconds before the end when
    // the length is too long, or not at all when that moment has passed.
    static method SleepWithin(endTime: int, first: nat, length: int, world: World)
      returns (ret: int, ghost third: nat, ghost nap: nat)
      requires -1 <= length < 0x8000_0000 && length != 0
      requires endTime - first < 0x8000_0000 && first <= world.wall
      modifies world`now, world`wall, world`naps
      ensures ret == 0 || ret == -1
      ensures old(world.wall) <= third <= world.wall && old(world.now) <= world.now
      // The whole length if that ends in time, where -1 is a number without sign; else the last chance
      ensures first + length < endTime ==> ret == 0 && nap == if length > 0 then length else 0xFFFF_FFFF
      ensures first + length >= endTime ==>
                if endTime - third - 2 > 0 then ret == 0 && nap == endTime - third - 2 else ret == -1
      ensures ret == -1 ==> world.naps == old(world.naps)
      ensures ret == 0 ==> world.naps == old(world.naps) + [1_000_000_000 * nap] && world.wall >= first + nap
    {
      third, nap := world.wall, 0;
      var asked := length;
      if first + length >= endTime {
        var now := world.Time();
        third := now;
        asked := endTime - now - LAST_CHANCE;
        if asked <= 0 {
          return -1, third, nap;
        }
      }
      nap := ToUnsigned(asked);
      world.Sleep(ToUnsigned(asked));
      return 0, third, nap;
    }

    // The old logic goes by an exponential wait: there is no estimate, and the end time has not passed.
    ghost predicate Exponential(t1: int)
      reads this`estimatedWaitTime, this`endTime
    {
      estimatedWaitTime == -1 && t1 <= endTime
    }

    // How long wait_for_new_attempt wants to wait: as long as the estimate, or a random time below a doubling limit,
    // ten times; then not at all.
    method ChooseLength(context: SrmContext, world: World) returns (length: Option<int>, ghost t1: nat)
      requires !context.UsesMinMax() && Valid(context, world)
      modifies this`attempt, this`randomSeed, this`exhausted, world`now, world`wall, world`draws
      ensures Valid(context, world)
      ensures old(world.wall) <= t1 <= world.wall && old(world.now) <= world.now
      ensures !Exponential(t1) ==>
                && length == Some(estimatedWaitTime) && attempt == old(attempt)
                && world.draws == old(world.draws) && exhausted == old(exhausted)
      ensures Exponential(t1) && old(attempt) <= 10 ==>
                && attempt == old(attempt) + 1 && |world.draws| == |old(world.draws)| + 1
                && length == Some(world.draws[|old(world.draws)|] % Pow2(old(attempt)) + 1)
                && 1 <= length.value <= [1, 2, 4, 8, 16, 32, 64, 128, 256, 512, 1024][old(attempt)]
                && exhausted == old(exhausted)
      ensures Exponential(t1) && old(attempt) > 10 ==> length == None && attempt == old(attempt) && exhausted
    {
      hide InternalContext.MinMaxValid, InternalContext.Settings, Pow2;
      SettingsFacts(context);
      t1 := world.wall;
      var noEstimate := estimatedWaitTime <= 0;
      if noEstimate {
        var second := world.Time();
        t1 := second;
        noEstimate := estimatedWaitTime < endTime - second;
      }
      if !noEstimate {
        return Some(estimatedWaitTime), t1;
      }
      if attempt > 10 {
        exhausted := true;
        return None, t1;
      }
      var wait := RandomWait(world);
      attempt := attempt + 1;
      return Some(wait), t1;
    }

    // wait_for_new_attempt. The three readings of the clock that it bases its decision on are returned, with the
    // length of the wait that it wants, and of the sleep that it asks for.
    method WaitForNewAttempt(context: SrmContext, world: World)
      returns (ret: int, ghost t0: nat, ghost t1: nat, ghost t2: nat, ghost length: int, ghost nap: nat)
      requires !context.UsesMinMax() && Valid(context, world)
      modifies this`granted, this`attempt, this`randomSeed, this`exhausted
      modifies world`now, world`wall, world`naps, world`draws
      ensures Valid(context, world)
      ensures old(world.wall) <= t0 <= t1 <= t2 <= world.wall && old(world.now) <= world.now
      ensures ret == 0 || ret == -1
      ensures ret == -1 ==> granted == old(granted) && world.naps == old(world.naps)
      ensures ret == 0 ==>
                && granted == old(granted) + 1 && world.naps == old(world.naps) + [1_000_000_000 * nap]
                && 0 <= old(Left(context, world)) && Left(context, world) < old(Left(context, world))
      // The length: that of the estimate, or a random one below a doubling limit, ten times
      ensures !Exponential(t1) ==>
                length == estimatedWaitTime && attempt == old(attempt) && world.draws == old(world.draws)
      ensures Exponential(t1) && old(attempt) <= 10 ==>
                && attempt == old(attempt) + 1 && |world.draws| == |old(world.draws)| + 1
                && length == world.draws[|old(world.draws)|] % Pow2(old(attempt)) + 1
                && 1 <= length <= [1, 2, 4, 8, 16, 32, 64, 128, 256, 512, 1024][old(attempt)]
      ensures Exponential(t1) && old(attempt) > 10 ==> ret == -1 && attempt == old(attempt) && exhausted
      ensures !(Exponential(t1) && old(attempt) > 10) ==> exhausted == old(exhausted)
      // The sleep: the whole length if that ends in time, or else up to two seconds before the end
      ensures !(Exponential(t1) && old(attempt) > 10) && t0 + length < endTime ==>
                ret == 0 && nap == if length > 0 then length else 0xFFFF_FFFF
      ensures !(Exponential(t1) && old(attempt) > 10) && t0 + length >= endTime ==>
                if endTime - t2 - 2 > 0 then ret == 0 && nap == endTime - t2 - 2 else ret == -1
      // Every sleep is positive and planned to end before the deadline, but for the one mishap
      ensures ret == 0 && !Overslept(estimatedWaitTime, endTime, t0, t1) ==> nap > 0 && t0 + nap < endTime
      ensures Overslept(estimatedWaitTime, endTime, t0, t1) ==> ret == 0 && nap == 0xFFFF_FFFF
      ensures Unguided(context) ==> Limit(world) <= old(Limit(world))
      ensures ret == -1 ==> TimeIsUp(context, world)
    {
      hide TimeVal.Nanos, InternalContext.DeadlineNs, InternalContext.MinMaxValid, InternalContext.Settings, Pow2;
      SettingsFacts(context);
      var first := world.Time();
      t0, t2, nap, length := first, first, 0, 0;
      var wanted;
      wanted, t1 := ChooseLength(context, world);
      if wanted == None {
        t2 := t1;
        return -1, t0, t1, t2, length, nap;
      }
      length := wanted.value;
      ret, t2, nap := SleepWithin(endTime, first, wanted.value, world);
      if ret == 0 {
        granted := granted + 1;
      }
    }

    // wait_switch_auto
    method WaitSwitchAuto(context: SrmContext, world: World) returns (ret: int)
      requires Valid(context, world)
      modifies this`waits, this`granted, this`failedAt, this`exhausted, this`attempt, this`randomSeed
      modifies currentWaittimeSpec
      modifies world`now, world`wall, world`naps, world`draws
      ensures Valid(context, world)
      ensures ret == 0 || ret == -1
      ensures ret == -1 ==> granted == old(granted) && TimeIsUp(context, world)
      ensures old(world.now) <= world.now && old(world.wall) <= world.wall
      ensures Unguided(context) ==> Limit(world) <= old(Limit(world))
      ensures ret == 0 ==>
                && granted == old(granted) + 1
                && 0 <= old(Left(context, world))
                && (context.Sane() ==> Left(context, world) < old(Left(context, world)))
    {
      if context.ext == None {
        var waited, _, _, _, _, _ := WaitForNewAttempt(context, world);
        return waited;
      } else {
        match context.ext.value.pollingLogic
        case Old =>
          var waited, _, _, _, _, _ := WaitForNewAttempt(context, world);
          return waited;
        case MinMaxExp =>
          NoWaitIsLonger(context, waits);
          var waited, _ := WaitMinMax(context, world);
          return waited;
      }
    }

    // back_off_logic
    method BackOffLogic(context: SrmContext, world: World, retstatus: Option<StatusCode>)
      returns (status: CallStatus)
      requires Valid(context, world)
      modifies this`waits, this`granted, this`failedAt, this`exhausted, this`attempt, this`randomSeed
      modifies currentWaittimeSpec
      modifies world`now, world`wall, world`naps, world`draws
      ensures Valid(context, world)
      ensures old(world.now) <= world.now && old(world.wall) <= world.wall
      ensures Left(context, world) <= old(Left(context, world))
      ensures status == Classify(retstatus, status == TIMEOUT)
      ensures status == TIMEOUT ==> TimeIsUp(context, world)
      ensures granted == old(granted) + if status == QUEUED || status == INTERNAL_ERROR then 1 else 0
      ensures status == QUEUED || status == INTERNAL_ERROR ==>
                && 0 <= old(Left(context, world))
                && (context.Sane() ==> Left(context, world) < old(Left(context, world)))
      ensures !Waits(retstatus) ==> world.now == old(world.now) && world.naps == old(world.naps)
      ensures Unguided(context) ==> Limit(world) <= old(Limit(world))
    {
      if retstatus == None {
        return FAILURE;
      }
      match retstatus.value
      case SrmInternalError =>
        var ret := WaitSwitchAuto(context, world);
        return if ret != 0 then TIMEOUT else INTERNAL_ERROR;
      case SrmRequestQueued =>
        var ret := WaitSwitchAuto(context, world);
        return if ret != 0 then TIMEOUT else QUEUED;
      case SrmRequestInProgress =>
        var ret := WaitSwitchAuto(context, world);
        return if ret != 0 then TIMEOUT else QUEUED;
      case SrmSuccess => return SUCCESS;
      case SrmPartialSuccess => return SUCCESS;
      case _ => return FAILURE;
    }
  }

  // The answers that are waited for
  predicate Waits(retstatus: Option<StatusCode>) {
    retstatus.Some? && retstatus.value in {SrmInternalError, SrmRequestQueued, SrmRequestInProgress}
  }

  // What an answer means for the attempt, given whether the deadline cut the wait after it short.
  function Classify(retstatus: Option<StatusCode>, expired: bool): CallStatus {
    if Waits(retstatus) then
      if expired then TIMEOUT else if retstatus == Some(SrmInternalError) then INTERNAL_ERROR else QUEUED
    else if retstatus == Some(SrmSuccess) || retstatus == Some(SrmPartialSuccess) then SUCCESS
    else FAILURE
  }

  // What a code means for an attempt, given whether the wait after it was refused
  lemma WhatACodeMeans(code: StatusCode, expired: bool)
    ensures var status := Classify(Some(code), expired);
            && (status == TIMEOUT <==> expired && code in {SrmInternalError, SrmRequestQueued, SrmRequestInProgress})
            && (status == INTERNAL_ERROR <==> !expired && code == SrmInternalError)
            && (status == QUEUED <==> !expired && code in {SrmRequestQueued, SrmRequestInProgress})
            && (status == SUCCESS <==> code in {SrmSuccess, SrmPartialSuccess})
    ensures Classify(None, expired) == FAILURE
  {
  }
}
