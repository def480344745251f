// What the asynchronous requests share: the table that decides how an answer settles a call, the loop
// that repeats a request while the server reports an internal error, and the abort.
module Requests {
  import opened Common
  import opened StatusCodes
  import opened Wire
  import opened BackOff

  // A request is first made, and then polled.
  datatype Phase = Asking | Polling

  // The number of entries an answer delivers
  function Delivered(op: Operation, r: Reply): nat
    requires r.Body?
  {
    match op
    case Ls => if r.details.Some? then |r.details.value| else 0
    case _ => if r.files.Some? then |r.files.value| else 0
  }

  // The status a call is left with, and its result, after its last answer. `expired` says that the wait
  // after that answer was refused.
  function Settle(op: Operation, phase: Phase, r: Reply, expired: bool): (CallStatus, int) {
    if !r.Answered() then
      (FAILURE, -1)
    else if Waits(Some(r.Code())) then
      if expired || r.Code() == SrmInternalError then (TIMEOUT, -1)
      else if phase == Asking && r.token == None then (FAILURE, -1)
      else (QUEUED, if op == Get || op == BringOnline then Delivered(op, r) else 0)
    else if op == Put && phase == Polling && r.Code() == SrmSpaceLifetimeExpired then
      (FAILURE, -1)
    else if Delivered(op, r) == 0 || (op == Put && phase == Asking && r.token == None) then
      (FAILURE, -1)
    else
      (SUCCESS, Delivered(op, r))
  }

  // What an answer means for a call, by its code and what it brings. A call succeeds by what is delivered, whatever
  // the code, but for the codes that are waited for and two cases of put. It is queued as long as there is time
  // and, at first, a token.
  lemma WhatAnAnswerMeans(op: Operation, phase: Phase, r: Reply, expired: bool)
    ensures var (status, result) := Settle(op, phase, r, expired);
            var files := if !r.Body? then 0 else if op == Ls then |r.details.GetOr([])| else |r.files.GetOr([])|;
            && status != INTERNAL_ERROR
            && (status == SUCCESS <==>
                  && r.Answered() && files > 0
                  && r.Code() !in {SrmInternalError, SrmRequestQueued, SrmRequestInProgress}
                  && (op == Put ==>
                        match phase
                        case Asking => r.token.Some?
                        case Polling => r.Code() != SrmSpaceLifetimeExpired))
            && (status == QUEUED <==>
                  && r.Answered() && r.Code() in {SrmRequestQueued, SrmRequestInProgress} && !expired
                  && (phase == Asking ==> r.token.Some?))
            && (status == TIMEOUT <==>
                  && r.Answered()
                  && (r.Code() == SrmInternalError
                      || (expired && r.Code() in {SrmRequestQueued, SrmRequestInProgress})))
            && (status == SUCCESS ==> result == files)
            && (status == QUEUED ==> result == if op == Get || op == BringOnline then files else 0)
            && (status != SUCCESS && status != QUEUED ==> result == -1)
  {
  }

  // The events of one request that was repeated while the server answered with an internal error
  ghost predicate Repeated(events: seq<Event>, rpc: Rpc) {
    && |events| >= 1
    && (forall i :: 0 <= i < |events| ==> events[i].Exchange? && events[i].rpc == rpc)
    && (forall i :: 0 <= i < |events| - 1 ==>
          events[i].reply.Answered() && events[i].reply.Code() == SrmInternalError)
  }

  // The last answer of such events
  ghost function LastReply(events: seq<Event>): Reply {
    if |events| >= 1 && events[|events| - 1].Exchange? then events[|events| - 1].reply else NoBody
  }

  function TokenOf(r: Reply): Option<string> {
    if r.Body? then r.token else None
  }

  // The estimate of the server for the first file, or -1
  function EstimateOf(r: Reply): int
    requires r.Body?
  {
    if r.files.Some? && |r.files.value| > 0 && r.files.value[0].Some? && r.files.value[0].value.estimatedWait.Some?
    then r.files.value[0].value.estimatedWait.value
    else -1
  }

  // The context goes by the estimate of the answer for its first file, if it is positive and within the timeout,
  // and else by none.
  ghost predicate GoesBy(internal: InternalContext, r: Reply)
    reads internal`estimatedWaitTime, internal`relativeTimeout
  {
    if && r.Body? && r.files.Some? && r.files.value != [] && r.files.value[0].Some?
       && 0 < r.files.value[0].value.estimatedWait.GetOr(-1) < internal.relativeTimeout
    then internal.estimatedWaitTime == r.files.value[0].value.estimatedWait.value
    else internal.estimatedWaitTime == -1
  }

  // What making a request sends: the lookup of a space token, and the request itself
  datatype RequestTrace = RequestTrace(lookup: seq<Event>, space: Option<string>, events: seq<Event>)

  // The poll of a request: it carries the token of the answer, and for bring-online the SURLs again.
  ghost function PollOf(op: Operation, asked: seq<Event>): Rpc {
    StatusOf(op, TokenOf(LastReply(asked)), if op == BringOnline then SurlsOf(asked) else [])
  }

  ghost function SurlsOf(asked: seq<Event>): seq<string> {
    if asked != [] && asked[0].Exchange? && asked[0].rpc.Ask? then asked[0].rpc.surls else []
  }

  // Polls, all but the last answered with a code that is waited for
  ghost predicate Polled(rpc: Rpc, polls: seq<Event>) {
    && (forall i :: 0 <= i < |polls| ==> polls[i].Exchange? && polls[i].rpc == rpc)
    && (forall i :: 0 <= i < |polls| - 1 ==> polls[i].reply.Answered() && Waits(Some(polls[i].reply.Code())))
  }

  // A call that has made its request and polled it. Only a queued request is polled, with its own token,
  // and the status and the result so far are those of the last answer.
  ghost predicate Underway(op: Operation, call: RequestTrace, polls: seq<Event>, status: CallStatus, ret: int) {
    var asked := call.events;
    if asked == [] then
      polls == [] && ret == -1
    else
      && Polled(PollOf(op, asked), polls)
      && if polls == [] then
           (status, ret) == Settle(op, Asking, LastReply(asked), status == TIMEOUT)
         else
           && TokenOf(LastReply(asked)).Some?
           && Settle(op, Asking, LastReply(asked), false).0 == QUEUED
           && (status, ret) == Settle(op, Polling, LastReply(polls), status == TIMEOUT)
  }

  lemma AskedIsUnderway(op: Operation, call: RequestTrace, status: CallStatus, ret: int)
    requires call.events != [] && (status, ret) == Settle(op, Asking, LastReply(call.events), status == TIMEOUT)
    ensures Underway(op, call, [], status, ret)
  {
  }

  lemma NoneAskedIsUnderway(op: Operation, call: RequestTrace, status: CallStatus)
    requires call.events == []
    ensures Underway(op, call, [], status, -1)
  {
  }

  lemma UnansweredFails(op: Operation, phase: Phase, r: Reply, expired: bool)
    requires !r.Answered()
    ensures Settle(op, phase, r, expired) == (FAILURE, -1)
  {
  }

  lemma PollsExtend(op: Operation, call: RequestTrace, polls: seq<Event>, ret: int, more: seq<Event>,
                    status': CallStatus, ret': int)
    requires call.events != [] && Underway(op, call, polls, QUEUED, ret)
    requires Settled(op, Polling, PollOf(op, call.events), more, status', ret')
    ensures Underway(op, call, polls + more, status', ret')
    ensures LastAnswer(call, polls + more) == LastReply(more)
  {
    assert LastReply(polls + more) == LastReply(more);
  }

  // The last answer to a request or its polls
  ghost function LastAnswer(call: RequestTrace, polls: seq<Event>): Reply {
    LastReply(if polls == [] then call.events else polls)
  }

  // The pace of a run: the waits that were granted so far, the time that is left, and the timeout; and for the
  // old logic, whether it goes by no estimate, and how many waits there can be then; and whether time is up
  datatype Pace = Pace(granted: nat, left: int, timeout: int, unguided: bool, limit: int, up: bool)

  ghost function PaceOf(context: SrmContext, internal: InternalContext, world: World): Pace
    reads internal`granted, internal`attempt, internal`estimatedWaitTime, internal`relativeTimeout, internal`endTime
    reads internal`exhausted, world`now, world`wall
  {
    Pace(internal.granted, internal.Left(context, world), internal.relativeTimeout,
         internal.Unguided(context), internal.Limit(world), internal.TimeIsUp(context, world))
  }

  // Asking without estimates uses up what the old logic allows.
  ghost predicate Limited(before: Pace, after: Pace) {
    before.unguided ==> after.unguided && after.limit <= before.limit
  }

  // What asking n times does to the pace of a run: every request but the first follows a wait that was
  // granted, a call that ends queued has just been granted another one, and one that times out has no time left.
  ghost predicate Paced(before: Pace, after: Pace, status: CallStatus, n: nat) {
    && after.timeout == before.timeout
    && before.granted <= after.granted && before.granted + n <= after.granted + 1
    && after.left <= before.left
    && (n > 0 && status == QUEUED ==>
        before.granted + n <= after.granted && 0 <= before.left && after.left < before.left)
    && (n > 0 && status == TIMEOUT ==> after.up)
  }

  lemma PacedByNothing(pace: Pace, status: CallStatus)
    ensures Paced(pace, pace, status, 0) && Limited(pace, pace)
  {
  }

  // A pace after another, and after the decision how the call is settled
  lemma PacedOn(before: Pace, between: Pace, after: Pace, first: CallStatus, asked: CallStatus, settled: CallStatus,
                n: nat)
    requires Paced(before, between, first, 0) && Paced(between, after, asked, n)
    requires (settled == QUEUED ==> asked == QUEUED) && (settled == TIMEOUT ==> asked == TIMEOUT)
    ensures Paced(before, after, settled, n)
  {
  }

  // One request: time goes by
  method Send(context: SrmContext, ghost internal: InternalContext, world: World, rpc: Rpc) returns (reply: Reply)
    requires internal.Valid(context, world)
    modifies world`now, world`wall, world`log
    ensures internal.Valid(context, world)
    ensures world.log == old(world.log) + [Exchange(rpc, reply)]
    ensures internal.Left(context, world) <= old(internal.Left(context, world))
    ensures internal.Limit(world) <= old(internal.Limit(world))
  {
    reply := world.Call(rpc);
  }

  // One turn of the do-while loop around a call
  method AskOnce(context: SrmContext, internal: InternalContext, world: World, rpc: Rpc, estimates: bool)
    returns (reply: Reply)
    requires internal.Valid(context, world)
    modifies internal, internal.currentWaittimeSpec, world`now, world`wall, world`naps, world`draws, world`log
    ensures internal.Valid(context, world)
    ensures internal.relativeTimeout == old(internal.relativeTimeout)
    ensures world.log == old(world.log) + [Exchange(rpc, reply)]
    ensures internal.currentStatus ==
            if reply.Answered() then Classify(Some(reply.Code()), internal.currentStatus == TIMEOUT) else FAILURE
    ensures var waited := internal.currentStatus == QUEUED || internal.currentStatus == INTERNAL_ERROR;
            && internal.granted == old(internal.granted) + (if waited then 1 else 0)
            && internal.Left(context, world) <= old(internal.Left(context, world))
            && (waited ==> 0 <= old(internal.Left(context, world)))
            && (waited && context.Sane() ==> internal.Left(context, world) < old(internal.Left(context, world)))
    ensures internal.currentStatus == TIMEOUT ==> internal.TimeIsUp(context, world)
    ensures estimates && reply.Answered() ==> GoesBy(internal, reply)
    ensures !estimates || !reply.Answered() ==> internal.estimatedWaitTime == old(internal.estimatedWaitTime)
    ensures !estimates && old(internal.Unguided(context)) ==>
              internal.Unguided(context) && internal.Limit(world) <= old(internal.Limit(world))
  {
    hide InternalContext.Valid, InternalContext.Left, InternalContext.Limit, InternalContext.TimeIsUp;
    reply := Send(context, internal, world, rpc);
    if !reply.Answered() {
      internal.currentStatus := FAILURE;
      return;
    }
    if estimates {
      internal.SetEstimatedWaitTime(context, world, EstimateOf(reply));
    }
    var status := internal.BackOffLogic(context, world, Some(reply.Code()));
    internal.currentStatus := status;
  }

  // The do-while loop around a call. `reply` is its last answer, `retstatus` the last status that came.
  method AskUntilAnswered(context: SrmContext, internal: InternalContext, world: World, rpc: Rpc, estimates: bool)
    returns (reply: Reply, retstatus: Option<NodeStatus>, ghost events: seq<Event>)
    requires internal.Valid(context, world) && context.Sane()
    modifies internal, internal.currentWaittimeSpec, world`now, world`wall, world`naps, world`draws, world`log
    ensures internal.Valid(context, world)
    ensures world.log == old(world.log) + events && Repeated(events, rpc) && reply == LastReply(events)
    ensures reply.Answered() ==> retstatus == reply.status
    ensures internal.currentStatus != INTERNAL_ERROR
    ensures internal.currentStatus ==
            if reply.Answered() then Classify(Some(reply.Code()), internal.currentStatus == TIMEOUT) else FAILURE
    ensures Paced(old(PaceOf(context, internal, world)), PaceOf(context, internal, world), internal.currentStatus,
              |events|)
    ensures estimates && reply.Answered() ==> GoesBy(internal, reply)
    ensures !estimates ==> Limited(old(PaceOf(context, internal, world)), PaceOf(context, internal, world))
  {
    hide InternalContext.Valid, InternalContext.Left, InternalContext.Unguided, InternalContext.Limit;
    hide InternalContext.TimeIsUp, GoesBy;
    events, retstatus := [], None;
    while true
      invariant internal.Valid(context, world)
      invariant internal.relativeTimeout == old(internal.relativeTimeout)
      invariant world.log == old(world.log) + events
      invariant forall i :: 0 <= i < |events| ==>
                  && events[i].Exchange? && events[i].rpc == rpc
                  && events[i].reply.Answered() && events[i].reply.Code() == SrmInternalError
      invariant internal.granted == old(internal.granted) + |events|
      invariant internal.Left(context, world) <= old(internal.Left(context, world))
      invariant !estimates && old(internal.Unguided(context)) ==>
                  internal.Unguided(context) && internal.Limit(world) <= old(internal.Limit(world))
      decreases internal.Left(context, world)
    {
      reply := AskOnce(context, internal, world, rpc, estimates);
      events := events + [Exchange(rpc, reply)];
      if reply.Answered() {
        retstatus := reply.status;
      }
      if internal.currentStatus != INTERNAL_ERROR {
        return;
      }
    }
  }

  // The events of a request, the status it is left with, and its result
  ghost predicate Settled(op: Operation, phase: Phase, rpc: Rpc, events: seq<Event>, status: CallStatus, ret: int) {
    && Repeated(events, rpc)
    && (status, ret) == Settle(op, phase, LastReply(events), status == TIMEOUT)
  }

  // srmv2_abort_request
  method SendAbort(world: World, token: Option<string>) returns (ret: int, ghost sent: seq<Event>)
    modifies world`now, world`wall, world`log
    ensures world.log == old(world.log) + sent && old(world.now) <= world.now
    ensures token == None ==> sent == [] && ret != 0
    ensures token.Some? ==>
              && |sent| == 1 && sent[0].Exchange? && sent[0].rpc == AbortRequest(token.value)
              && (ret == 0 <==> sent[0].reply.Answered() && sent[0].reply.Code() == SrmSuccess)
  {
    if token == None {
      return -1, [];
    }
    var reply := world.Call(AbortRequest(token.value));
    sent := [Exchange(AbortRequest(token.value), reply)];
    if reply.SoapFault? || !reply.Answered() || reply.Code() != SrmSuccess {
      return -1, sent;
    }
    return 0, sent;
  }
}
