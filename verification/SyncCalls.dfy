// The synchronous calls: make a request, poll it while it is queued, abort it when that fails.
module SyncCalls {
  import opened Common
  import opened StatusCodes
  import opened Wire
  import opened BackOff
  import opened Requests
  import opened Transfers

  // What one synchronous call sends, in this order, and the status it ends in
  datatype Run = Run(call: RequestTrace, polls: seq<Event>, aborts: seq<Event>, final: CallStatus)

  // A call aborts after polling when it timed out, and bring-online whenever it failed.
  predicate Aborts(op: Operation, polled: bool, final: CallStatus) {
    polled && if op == BringOnline then final != SUCCESS else final == TIMEOUT
  }

  // The shape of a run: Ask+ StatusOf* AbortRequest?, with one token throughout, and its outcome.
  ghost predicate WellRun(op: Operation, run: Run, ret: int) {
    && (exists last :: Underway(op, run.call, run.polls, run.final, last))
    && run.final in {SUCCESS, FAILURE, TIMEOUT}
    && (run.final != SUCCESS ==> ret == -1)
    && (run.call.events == [] ==> ret == -1)
    && (run.call.events != [] && run.final == SUCCESS ==> ret == Delivered(op, LastAnswer(run.call, run.polls)) >= 1)
    && Aborted(op, run)
  }

  // The abort carries the token of the queued answer, and is only sent if the call aborts.
  ghost predicate Aborted(op: Operation, run: Run) {
    if Aborts(op, run.polls != [], run.final) then
      && |run.aborts| == 1 && run.aborts[0].Exchange?
      && TokenOf(LastReply(run.call.events)).Some?
      && run.aborts[0].rpc == AbortRequest(TokenOf(LastReply(run.call.events)).value)
    else
      run.aborts == []
  }

  // The last answer decides how a run ends: what it returns, and whether it aborts. A request that is
  // polled is aborted exactly if the server still asks to wait in the end, and by bring-online exactly if
  // nothing was delivered; one that is never polled is never aborted.
  lemma LastAnswerDecides(op: Operation, run: Run, ret: int)
    requires WellRun(op, run, ret) && run.call.events != []
    ensures var last := LastAnswer(run.call, run.polls);
            var files :=
              if !last.Body? then 0 else if op == Ls then |last.details.GetOr([])| else |last.files.GetOr([])|;
            var waiting := last.Answered() && last.Code() in {SrmInternalError, SrmRequestQueued, SrmRequestInProgress};
            && (ret >= 1 <==>
                  && last.Answered() && !waiting && files >= 1
                  && (op == Put ==>
                        if run.polls == [] then last.token.Some? else last.Code() != SrmSpaceLifetimeExpired))
            && ret == (if ret >= 1 then files else -1)
            && (run.aborts != [] <==> run.polls != [] && if op == BringOnline then ret == -1 else waiting)
  {
    var phase := if run.polls == [] then Asking else Polling;
    WhatAnAnswerMeans(op, phase, LastAnswer(run.call, run.polls), run.final == TIMEOUT);
  }

  // Only a request that was queued is polled, with the token of its answer, as long as the server asks to
  // wait; and only that token is ever aborted, once and last.
  lemma OneTokenThroughout(op: Operation, run: Run, ret: int)
    requires WellRun(op, run, ret)
    ensures run.polls == [] ==> run.aborts == []
    ensures run.polls != [] ==>
              && run.call.events != []
              && var asked := LastReply(run.call.events);
              && asked.Answered() && asked.Code() in {SrmRequestQueued, SrmRequestInProgress} && asked.token.Some?
              && (forall i :: 0 <= i < |run.polls| ==>
                    && run.polls[i].Exchange?
                    && run.polls[i].rpc == StatusOf(op, asked.token,
                        if op == BringOnline then SurlsOf(run.call.events) else []))
              && (forall i :: 0 <= i < |run.polls| - 1 ==>
                    run.polls[i].reply.Answered()
                    && run.polls[i].reply.Code() in {SrmInternalError, SrmRequestQueued, SrmRequestInProgress})
              && |run.aborts| <= 1
              && (forall i :: 0 <= i < |run.aborts| ==>
                    run.aborts[i].Exchange? && run.aborts[i].rpc == AbortRequest(asked.token.value))
  {
    var last :| Underway(op, run.call, run.polls, run.final, last);
  }

  // As many requests and polls as the timeout leaves room for: the waits between them add up to no more.
  ghost predicate WithinTimeout(context: SrmContext, requests: nat) {
    requests > 0 ==>
      if context.UsesMinMax() then
        SumWaits(context.LeastNs(), context.MaxNs(), requests - 1) <= TimeoutOf(context) * 1_000_000_000
      else
        requests - 1 <= TimeoutOf(context) + 1
  }

  // The number of requests and polls is bounded for every context, whatever the server answers.
  lemma RequestsAreBounded(context: SrmContext, requests: nat)
    requires context.Sane() && WithinTimeout(context, requests) && requests > 0
    ensures if context.UsesMinMax() then (requests - 1) * context.LeastNs() <= TimeoutOf(context) * 1_000_000_000
            else requests <= TimeoutOf(context) + 2
  {
    if context.UsesMinMax() {
      context.LengthsOfTime();
      SumsAreUnbounded(context.LeastNs(), context.MaxNs(), requests - 1);
    }
  }

  ghost predicate Bounded(context: SrmContext) {
    exists n: nat :: AtMost(context, n)
  }

  ghost predicate AtMost(context: SrmContext, n: nat) {
    forall requests: nat :: WithinTimeout(context, requests) ==> requests <= n
  }

  // The timeout bounds the number of requests and polls exactly if the context is sane.
  lemma BoundedExactlyIfSane(context: SrmContext)
    requires context.WellFormed()
    ensures Bounded(context) <==> context.Sane()
  {
    if context.Sane() {
      var n := TimeoutOf(context) * 1_000_000_000 + 2;
      forall requests: nat | WithinTimeout(context, requests)
        ensures requests <= n
      {
        if requests > 0 {
          RequestsAreBounded(context, requests);
          if context.UsesMinMax() {
            context.LengthsOfTime();
            ProductExceeds(requests - 1, context.LeastNs());
          }
        }
      }
      assert AtMost(context, n);
    } else {
      context.LengthsOfTime();
      forall n: nat
        ensures !AtMost(context, n)
      {
        NoProgress(context.LeastNs(), context.MaxNs(), n);
        assert WithinTimeout(context, n + 1);
      }
    }
  }

  // With the default context a call sends at most 16 requests and polls.
  lemma SixteenByDefault(requests: nat)
    ensures WithinTimeout(DEFAULT_CONTEXT, requests) <==> requests <= 16
  {
    if requests > 0 {
      DefaultsAllowFifteenWaits(requests - 1);
    }
  }

  // A synchronous call between two polls
  ghost predicate Going(op: Operation, context: SrmContext, pace: Pace, call: RequestTrace, polls: seq<Event>,
                        status: CallStatus, ret: int)
  {
    && pace.timeout == TimeoutOf(context)
    && Underway(op, call, polls, status, ret)
    && (call.events == [] ==> status == SUCCESS) && (status == TIMEOUT ==> pace.up)
    && |call.events| + |polls| <= pace.granted + if status == QUEUED then 0 else 1
  }

  lemma PaceStarts(context: SrmContext, internal: InternalContext, world: World)
    ensures var pace := PaceOf(context, internal, world);
            && pace.timeout == internal.relativeTimeout
            && pace.unguided == internal.Unguided(context) && pace.limit == internal.Limit(world)
  {
  }

  // A request has been made, and the attempts start afresh, which may change the limit of the old logic.
  lemma RequestStarts(op: Operation, context: SrmContext, before: Pace, after: Pace, limit: int, call: RequestTrace,
                      status: CallStatus, ret: int)
    requires before.timeout == TimeoutOf(context) && Paced(before, after, status, |call.events|)
    requires Underway(op, call, [], status, ret)
    requires call.events == [] ==> status == SUCCESS
    ensures Going(op, context, after.(limit := limit), call, [], status, ret)
    ensures status == QUEUED ==> ret >= 0
  {
  }

  lemma PollAdvances(op: Operation, context: SrmContext, before: Pace, after: Pace, call: RequestTrace,
                     polls: seq<Event>, ret: int, more: seq<Event>, status': CallStatus, ret': int)
    requires Going(op, context, before, call, polls, QUEUED, ret)
    requires Paced(before, after, status', |more|)
    requires Settled(op, Polling, PollOf(op, call.events), more, status', ret')
    ensures Going(op, context, after, call, polls + more, status', ret')
    ensures LastAnswer(call, polls + more) == LastReply(more) && polls + more != []
    ensures TokenOf(LastReply(call.events)).Some?
    ensures ret' >= 0 <==> status' == SUCCESS || status' == QUEUED
    ensures status' == QUEUED ==> 0 <= before.left && after.left < before.left
  {
    PollsExtend(op, call, polls, ret, more, status', ret');
  }

  // The counter of the exponential waits starts again before the first poll, so that there can be ten more.
  method FreshAttempts(context: SrmContext, internal: InternalContext, ghost world: World)
    requires internal.Valid(context, world)
    modifies internal`attempt
    ensures internal.Valid(context, world)
    ensures var before, after := old(PaceOf(context, internal, world)), PaceOf(context, internal, world);
            after == before.(limit := after.limit) && after.limit <= before.limit + 10
    ensures internal.attempt == 1
  {
    internal.attempt := 1;
  }

  // The waits that were granted fit into the timeout.
  ghost predicate WaitsFit(context: SrmContext, pace: Pace) {
    && context.WellFormed()
    && if context.UsesMinMax() then
         SumWaits(context.LeastNs(), context.MaxNs(), pace.granted) <= pace.timeout * 1_000_000_000
       else
         pace.granted <= pace.timeout + 1
  }

  lemma PaceFits(context: SrmContext, internal: InternalContext, world: World)
    requires internal.Valid(context, world)
    ensures WaitsFit(context, PaceOf(context, internal, world))
  {
    internal.GrantedWaitsFit(context, world);
  }

  lemma RequestsFit(op: Operation, context: SrmContext, pace: Pace, run: Run, last: int)
    requires Going(op, context, pace, run.call, run.polls, run.final, last) && WaitsFit(context, pace)
    ensures WithinTimeout(context, |run.call.events| + |run.polls|)
  {
    hide SumWaits, Underway;
    var requests := |run.call.events| + |run.polls|;
    if requests > 0 && context.UsesMinMax() {
      SumsGrow(context.LeastNs(), context.MaxNs(), requests - 1, pace.granted);
    }
  }

  // A call that is no longer queued is over.
  lemma RunEnds(op: Operation, context: SrmContext, pace: Pace, run: Run, last: int)
    requires Going(op, context, pace, run.call, run.polls, run.final, last) && WaitsFit(context, pace)
    requires run.final == QUEUED ==> last < 0
    requires Aborted(op, run)
    ensures WellRun(op, run, if run.final == SUCCESS then last else -1)
    ensures WithinTimeout(context, |run.call.events| + |run.polls|)
  {
    hide Polled, PollOf, LastReply, TokenOf, Delivered, Aborted, WaitsFit, WithinTimeout;
    RequestsFit(op, context, pace, run, last);
    assert Underway(op, run.call, run.polls, run.final, last);
  }

  // There are no more requests and polls than the old logic allows without estimates.
  lemma NoMoreThanTheLimit(op: Operation, context: SrmContext, internal: InternalContext, world: World,
                               pace: Pace, call: RequestTrace, polls: seq<Event>, last: int)
    requires internal.Valid(context, world) && pace == PaceOf(context, internal, world)
    requires Going(op, context, pace, call, polls, internal.currentStatus, last)
    ensures |call.events| + |polls| <= pace.limit + 1
  {
    hide Underway;
  }

  // A call that times out has come as close to the deadline as the longest wait.
  ghost predicate NotTooSoon(context: SrmContext, world: World, start: int, final: CallStatus)
    reads world`now
  {
    final == TIMEOUT && context.UsesMinMax() ==>
      world.now + context.LongestNs() >= start + TimeoutOf(context) * 1_000_000_000
  }

  lemma TimeoutIsNotTooSoon(op: Operation, context: SrmContext, internal: InternalContext, world: World,
                            pace: Pace, call: RequestTrace, polls: seq<Event>, last: int)
    requires pace == PaceOf(context, internal, world)
    requires Going(op, context, pace, call, polls, internal.currentStatus, last)
    ensures NotTooSoon(context, world, internal.startNs, internal.currentStatus)
  {
    hide Underway;
  }

  // The end of a call that is not aborted
  lemma EndsWithoutAbort(op: Operation, context: SrmContext, internal: InternalContext, world: World,
                         pace: Pace, call: RequestTrace, polls: seq<Event>, last: int) returns (run: Run)
    requires internal.Valid(context, world) && pace == PaceOf(context, internal, world)
    requires Going(op, context, pace, call, polls, internal.currentStatus, last)
    requires internal.currentStatus == QUEUED ==> last < 0
    requires !Aborts(op, polls != [], internal.currentStatus)
    ensures run == Run(call, polls, [], internal.currentStatus)
    ensures WellRun(op, run, if run.final == SUCCESS then last else -1)
    ensures WithinTimeout(context, |call.events| + |polls|) && |call.events| + |polls| <= pace.limit + 1
    ensures NotTooSoon(context, world, internal.startNs, internal.currentStatus)
  {
    hide InternalContext.Valid, Going, PaceOf, WellRun, WithinTimeout, WaitsFit;
    NoMoreThanTheLimit(op, context, internal, world, pace, call, polls, last);
    TimeoutIsNotTooSoon(op, context, internal, world, pace, call, polls, last);
    PaceFits(context, internal, world);
    run := Run(call, polls, [], internal.currentStatus);
    RunEnds(op, context, pace, run, last);
  }

  // The end of a call that was polled in vain: the abort
  method AbortAtTheEnd(ghost op: Operation, context: SrmContext, internal: InternalContext, world: World,
                       token: Option<string>, ghost pace: Pace, ghost call: RequestTrace, ghost polls: seq<Event>,
                       ghost last: int)
    returns (ghost run: Run)
    requires internal.Valid(context, world) && pace == PaceOf(context, internal, world)
    requires Going(op, context, pace, call, polls, internal.currentStatus, last)
    requires internal.currentStatus !in {SUCCESS, QUEUED} && Aborts(op, polls != [], internal.currentStatus)
    requires token.Some? && token == TokenOf(LastReply(call.events))
    modifies world`now, world`wall, world`log
    ensures world.log == old(world.log) + run.aborts
    ensures run == Run(call, polls, run.aborts, internal.currentStatus)
    ensures WellRun(op, run, -1)
    ensures WithinTimeout(context, |call.events| + |polls|) && |call.events| + |polls| <= pace.limit + 1
    ensures NotTooSoon(context, world, internal.startNs, internal.currentStatus)
  {
    hide InternalContext.Valid, Going, PaceOf, WellRun, WithinTimeout, WaitsFit;
    NoMoreThanTheLimit(op, context, internal, world, pace, call, polls, last);
    TimeoutIsNotTooSoon(op, context, internal, world, pace, call, polls, last);
    PaceFits(context, internal, world);
    var _, sent := SendAbort(world, token);
    run := Run(call, polls, sent, internal.currentStatus);
    RunEnds(op, context, pace, run, last);
  }

  // srmv2_prepare_to_get_sync
  method PrepareToGetSync(context: SrmContext, input: TransferInput, output: TransferOutput, world: World)
    returns (ret: int, ghost run: Run)
    requires context.Sane()
    modifies output, world`now, world`wall, world`naps, world`draws, world`log
    ensures world.log == old(world.log) + run.call.lookup + run.call.events + run.polls + run.aborts
    ensures Requested(Get, input, run.call)
    ensures WellRun(Get, run, ret)
    ensures WithinTimeout(context, |run.call.events| + |run.polls|)
    ensures run.final == TIMEOUT && context.UsesMinMax() ==>
              world.now + context.LongestNs() >= old(world.now) + TimeoutOf(context) * 1_000_000_000
    ensures ret >= 1 ==>
              && run.call.events != [] && output.Holds(Get, LastAnswer(run.call, run.polls))
              && output.token == TokenOf(LastReply(run.call.events))
  {
    hide InternalContext.Valid, InternalContext.Left, Requested, Going, Paced, Settled, WellRun;
    hide WithinTimeout, Underway, WaitsFit, PaceOf, Settle, Repeated, TransferOutput.Holds, LastReply, TokenOf, Polled;
    var internal := new InternalContext(context, world);
    output.token := None;
    ghost var call, polls, more;
    ghost var pace := PaceOf(context, internal, world);
    PaceStarts(context, internal, world);
    ret, call := PrepareToGet(context, input, output, internal, world);
    ghost var asked := PaceOf(context, internal, world);
    FreshAttempts(context, internal, world);
    RequestStarts(Get, context, pace, asked, PaceOf(context, internal, world).limit, call, internal.currentStatus, ret);
    pace := PaceOf(context, internal, world);
    polls := [];
    while internal.currentStatus == QUEUED && ret >= 0
      invariant internal.Valid(context, world)
      invariant pace == PaceOf(context, internal, world)
      invariant Going(Get, context, pace, call, polls, internal.currentStatus, ret)
      invariant world.log == old(world.log) + call.lookup + call.events + polls
      invariant Aborts(Get, polls != [], internal.currentStatus) ==> internal.currentStatus == QUEUED
      invariant ret >= 0 ==> call.events != [] && PollOf(Get, call.events) == StatusOf(Get, output.token, [])
      invariant ret >= 1 ==> output.Holds(Get, LastAnswer(call, polls))
      decreases internal.currentStatus == QUEUED, pace.left
    {
      ghost var before, last := pace, ret;
      ret, more := StatusOfGetRequest(context, output, internal, world);
      pace := PaceOf(context, internal, world);
      PollAdvances(Get, context, before, pace, call, polls, last, more, internal.currentStatus, ret);
      Append(old(world.log) + call.lookup + call.events, polls, more);
      polls := polls + more;
      if internal.currentStatus == TIMEOUT {
        run := AbortAtTheEnd(Get, context, internal, world, output.token, pace, call, polls, ret);
        return -1, run;
      }
    }
    run := EndsWithoutAbort(Get, context, internal, world, pace, call, polls, ret);
    Append(world.log, [], []);
    if internal.currentStatus != SUCCESS {
      return -1, run;
    }
  }

  // srmv2_prepare_to_put_sync
  method PrepareToPutSync(context: SrmContext, input: TransferInput, output: TransferOutput, world: World)
    returns (ret: int, ghost run: Run)
    requires context.Sane()
    requires input.filesizes.Some? ==> |input.filesizes.value| == |input.surls| && NoOverflow(input.filesizes.value)
    modifies output, world`now, world`wall, world`naps, world`draws, world`log
    ensures world.log == old(world.log) + run.call.lookup + run.call.events + run.polls + run.aborts
    ensures Requested(Put, input, run.call)
    ensures WellRun(Put, run, ret)
    ensures WithinTimeout(context, |run.call.events| + |run.polls|)
    ensures run.final == TIMEOUT && context.UsesMinMax() ==>
              world.now + context.LongestNs() >= old(world.now) + TimeoutOf(context) * 1_000_000_000
    ensures ret >= 1 ==>
              && run.call.events != [] && output.Holds(Put, LastAnswer(run.call, run.polls))
              && output.token == TokenOf(LastReply(run.call.events))
  {
    hide InternalContext.Valid, InternalContext.Left, Requested, Going, Paced, Settled, WellRun;
    hide WithinTimeout, Underway, WaitsFit, PaceOf, Settle, Repeated, TransferOutput.Holds, LastReply, TokenOf, Polled;
    var internal := new InternalContext(context, world);
    output.token := None;
    ghost var call, polls, more;
    ghost var pace := PaceOf(context, internal, world);
    PaceStarts(context, internal, world);
    ret, call := PrepareToPut(context, input, output, internal, world);
    ghost var asked := PaceOf(context, internal, world);
    FreshAttempts(context, internal, world);
    RequestStarts(Put, context, pace, asked, PaceOf(context, internal, world).limit, call, internal.currentStatus, ret);
    pace := PaceOf(context, internal, world);
    polls := [];
    while internal.currentStatus == QUEUED && ret >= 0
      invariant internal.Valid(context, world)
      invariant pace == PaceOf(context, internal, world)
      invariant Going(Put, context, pace, call, polls, internal.currentStatus, ret)
      invariant world.log == old(world.log) + call.lookup + call.events + polls
      invariant Aborts(Put, polls != [], internal.currentStatus) ==> internal.currentStatus == QUEUED
      invariant ret >= 0 ==> call.events != [] && PollOf(Put, call.events) == StatusOf(Put, output.token, [])
      invariant ret >= 1 ==> output.Holds(Put, LastAnswer(call, polls))
      decreases internal.currentStatus == QUEUED, pace.left
    {
      ghost var before, last := pace, ret;
      ret, more := StatusOfPutRequest(context, output, internal, world);
      pace := PaceOf(context, internal, world);
      PollAdvances(Put, context, before, pace, call, polls, last, more, internal.currentStatus, ret);
      Append(old(world.log) + call.lookup + call.events, polls, more);
      polls := polls + more;
      if internal.currentStatus == TIMEOUT {
        run := AbortAtTheEnd(Put, context, internal, world, output.token, pace, call, polls, ret);
        return -1, run;
      }
    }
    run := EndsWithoutAbort(Put, context, internal, world, pace, call, polls, ret);
    Append(world.log, [], []);
    if internal.currentStatus != SUCCESS {
      return -1, run;
    }
  }

  // srmv2_bring_online_sync
  method BringOnlineSync(context: SrmContext, input: TransferInput, output: TransferOutput, world: World)
    returns (ret: int, ghost run: Run)
    requires context.Sane()
    modifies output, world`now, world`wall, world`naps, world`draws, world`log
    ensures world.log == old(world.log) + run.call.lookup + run.call.events + run.polls + run.aborts
    ensures Requested(BringOnline, input, run.call)
    ensures WellRun(BringOnline, run, ret)
    ensures WithinTimeout(context, |run.call.events| + |run.polls|)
    ensures run.final == TIMEOUT && context.UsesMinMax() ==>
              world.now + context.LongestNs() >= old(world.now) + TimeoutOf(context) * 1_000_000_000
    ensures ret >= 1 ==>
              && run.call.events != [] && output.Holds(BringOnline, LastAnswer(run.call, run.polls))
              && output.token == TokenOf(LastReply(run.call.events))
  {
    hide InternalContext.Valid, InternalContext.Left, Requested, Going, Paced, Settled, WellRun;
    hide WithinTimeout, Underway, WaitsFit, PaceOf, Settle, Repeated, TransferOutput.Holds, LastReply, TokenOf, Polled;
    var internal := new InternalContext(context, world);
    output.token := None;
    ghost var call, polls, more;
    ghost var pace := PaceOf(context, internal, world);
    PaceStarts(context, internal, world);
    ret, call := BringOnlineRequest(context, input, output, internal, world);
    ghost var asked := PaceOf(context, internal, world);
    FreshAttempts(context, internal, world);
    RequestStarts(BringOnline, context, pace, asked, PaceOf(context, internal, world).limit, call,
        internal.currentStatus, ret);
    pace := PaceOf(context, internal, world);
    polls := [];
    while internal.currentStatus == QUEUED && ret >= 0
      invariant internal.Valid(context, world)
      invariant pace == PaceOf(context, internal, world)
      invariant Going(BringOnline, context, pace, call, polls, internal.currentStatus, ret)
      invariant world.log == old(world.log) + call.lookup + call.events + polls
      invariant internal.currentStatus == QUEUED ==> ret >= 0
      invariant Aborts(BringOnline, polls != [], internal.currentStatus) ==> internal.currentStatus == QUEUED
      invariant ret >= 0 ==>
                  && call.events != []
                  && PollOf(BringOnline, call.events) == StatusOf(BringOnline, output.token, input.surls)
      invariant ret >= 1 ==> output.Holds(BringOnline, LastAnswer(call, polls))
      decreases internal.currentStatus == QUEUED, pace.left
    {
      ghost var before, last := pace, ret;
      ret, more := StatusOfBringOnlineRequest(context, input, output, internal, world);
      pace := PaceOf(context, internal, world);
      PollAdvances(BringOnline, context, before, pace, call, polls, last, more, internal.currentStatus, ret);
      Append(old(world.log) + call.lookup + call.events, polls, more);
      polls := polls + more;
      if internal.currentStatus != SUCCESS && internal.currentStatus != QUEUED && ret < 0 {
        run := AbortAtTheEnd(BringOnline, context, internal, world, output.token, pace, call, polls, ret);
        return -1, run;
      }
    }
    run := EndsWithoutAbort(BringOnline, context, internal, world, pace, call, polls, ret);
    Append(world.log, [], []);
    if internal.currentStatus != SUCCESS {
      return -1, run;
    }
  }
}
