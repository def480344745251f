// The asynchronous ls request and its poll, and the synchronous call made of them.
module LsRequests {
  import opened Common
  import opened StatusCodes
  import opened Wire
  import opened BackOff
  import opened Requests
  import opened SyncCalls
  import opened Listing

  // srm_ls_input. The offset is a variable of the caller, which a call that delivers a listing moves on.
  class LsInput {
    const surls: seq<string>
    const count: CInt
    var offset: Option<int>

    constructor (surls: seq<string>, count: CInt, offset: Option<int>)
      ensures this.surls == surls && this.count == count && this.offset == offset
    {
      this.surls, this.count, this.offset := surls, count, offset;
    }
  }

  // srm_ls_output. The statuses live on the heap.
  class LsOutput {
    var statuses: Ptr
    var statusesNum: nat
    var token: Option<string>
    var retstatus: Option<NodeStatus>

    constructor ()
      ensures statuses == NULL && statusesNum == 0 && token == None && retstatus == None
    {
      statuses, statusesNum, token, retstatus := NULL, 0, None, None;
    }

    // memset(output, 0, sizeof(*output))
    method Clear()
      modifies this
      ensures statuses == NULL && statusesNum == 0 && token == None && retstatus == None
    {
      statuses, statusesNum, token, retstatus := NULL, 0, None, None;
    }
  }

  predicate TooMany(r: Reply) {
    r.Answered() && r.Code() == SrmTooManyResults
  }

  // The statuses are a copy of the listing in the answer, made of the blocks from..to and no others.
  ghost predicate Lists(statuses: Ptr, n: nat, m: Memory, from: Ptr, to: Ptr, r: Reply) {
    && r.Answered() && r.details.Some? && n == |r.details.value| && statuses == from
    && ListAt(m, from, r.details.value, r.status.value)
    && to == from + ListCost(r.details.value, r.status.value)
  }

  // Where to resume a listing: past the entries of a truncated answer about a single directory, else at 0.
  function OffsetAfter(offset: Option<int>, r: Reply): Option<int> {
    if offset == None then
      None
    else if TooMany(r) && r.details.Some? && |r.details.value| == 1 && r.details.value[0].Some?
            && r.details.value[0].value.subPaths.SubPaths? then
      Some(offset.value + |r.details.value[0].value.subPaths.entries|)
    else
      Some(0)
  }

  // What an ls call can change for its caller
  datatype LsState = LsState(blocks: Memory, next: Ptr, offset: Option<int>, statuses: Ptr, statusesNum: nat,
                             retstatus: Option<NodeStatus>)

  ghost function StateOf(input: LsInput, output: LsOutput, heap: Heap): LsState
    reads input`offset, output`statuses, output`statusesNum, output`retstatus, heap
  {
    LsState(heap.blocks, heap.next, input.offset, output.statuses, output.statusesNum, output.retstatus)
  }

  // A call that delivers nothing leaves the heap and the offset alone.
  ghost predicate LeftAlone(before: LsState, after: LsState) {
    after.blocks == before.blocks && after.next == before.next && after.offset == before.offset
  }

  // A call that delivers a listing allocates its blocks and no others, and moves the offset once.
  ghost predicate TookIn(before: LsState, after: LsState, r: Reply) {
    && Extends(before.blocks, after.blocks, before.next, after.next)
    && r.Answered() && Lists(after.statuses, after.statusesNum, after.blocks, before.next, after.next, r)
    && after.offset == OffsetAfter(before.offset, r) && after.retstatus == r.status
  }

  lemma AfterNothing(before: LsState, between: LsState, after: LsState, r: Reply)
    requires LeftAlone(before, between)
    ensures LeftAlone(between, after) ==> LeftAlone(before, after)
    ensures TookIn(between, after, r) ==> TookIn(before, after, r)
  {
  }

  lemma NothingYet(state: LsState, after: LsState)
    requires after == state.(statuses := after.statuses, statusesNum := after.statusesNum, retstatus := after.retstatus)
    ensures LeftAlone(state, after)
  {
  }

  // What both final switches do with an answer that delivers something
  method TakeListing(input: LsInput, output: LsOutput, heap: Heap, reply: Reply) returns (ret: int)
    requires heap.Valid() && reply.Answered() && output.retstatus == reply.status && reply.details.Some?
    modifies input`offset, output`statuses, output`statusesNum, heap
    ensures heap.Valid() && ret == |reply.details.value|
    ensures TookIn(old(StateOf(input, output, heap)), StateOf(input, output, heap), reply)
  {
    hide Extends, ListAt, ListCost;
    var repfs := reply.details.value;
    var statuses, n := CopyList(heap, repfs, reply.status.value);
    output.statuses := statuses;
    output.statusesNum := n;
    ret := n;
    if && ret == 1 && input.offset.Some? && reply.Code() == SrmTooManyResults
       && repfs[0].Some? && repfs[0].value.subPaths.SubPaths?
    {
      input.offset := Some(input.offset.value + |repfs[0].value.subPaths.entries|);
    } else if input.offset.Some? {
      input.offset := Some(0);
    }
  }

  // The final switch of srmv2_ls_async_internal
  method SettleLs(input: LsInput, output: LsOutput, heap: Heap, internal: InternalContext, reply: Reply)
    returns (ret: int)
    requires heap.Valid() && reply.Answered() && output.retstatus == reply.status
               && internal.currentStatus != INTERNAL_ERROR
    requires internal.currentStatus == Classify(Some(reply.Code()), internal.currentStatus == TIMEOUT)
    modifies input`offset, output`token, output`statuses, output`statusesNum, heap, internal`currentStatus
    ensures (internal.currentStatus, ret) == Settle(Ls, Asking, reply, internal.currentStatus == TIMEOUT)
    ensures internal.currentStatus == QUEUED ==> old(internal.currentStatus) == QUEUED && output.token == reply.token
    ensures internal.currentStatus == TIMEOUT ==> old(internal.currentStatus) == TIMEOUT
    ensures heap.Valid()
    ensures ret <= 0 ==>
              && LeftAlone(old(StateOf(input, output, heap)), StateOf(input, output, heap))
              && output.statuses == old(output.statuses)
    ensures ret >= 1 ==> TookIn(old(StateOf(input, output, heap)), StateOf(input, output, heap), reply)
  {
    hide TookIn;
    ret := 0;
    if internal.currentStatus == QUEUED {
      output.token := reply.token;
      if reply.token == None {
        internal.currentStatus := FAILURE;
        ret := -1;
      }
    } else if internal.currentStatus == TIMEOUT {
      ret := -1;
    } else if reply.details == None || |reply.details.value| <= 0 {
      internal.currentStatus := FAILURE;
      ret := -1;
    } else {
      internal.currentStatus := SUCCESS;
      ret := TakeListing(input, output, heap, reply);
    }
  }

  // The final switch of srmv2_status_of_ls_request_async_internal
  method SettleLsPoll(input: LsInput, output: LsOutput, heap: Heap, internal: InternalContext, reply: Reply)
    returns (ret: int)
    requires heap.Valid() && reply.Answered() && output.retstatus == reply.status
               && internal.currentStatus != INTERNAL_ERROR
    requires internal.currentStatus == Classify(Some(reply.Code()), internal.currentStatus == TIMEOUT)
    modifies input`offset, output`statuses, output`statusesNum, heap, internal`currentStatus
    ensures (internal.currentStatus, ret) == Settle(Ls, Polling, reply, internal.currentStatus == TIMEOUT)
    ensures internal.currentStatus == QUEUED ==> old(internal.currentStatus) == QUEUED
    ensures internal.currentStatus == TIMEOUT ==> old(internal.currentStatus) == TIMEOUT
    ensures heap.Valid()
    ensures ret <= 0 ==>
              && LeftAlone(old(StateOf(input, output, heap)), StateOf(input, output, heap))
              && output.statuses == old(output.statuses)
    ensures ret >= 1 ==> TookIn(old(StateOf(input, output, heap)), StateOf(input, output, heap), reply)
  {
    hide TookIn;
    ret := 0;
    if internal.currentStatus == QUEUED {
    } else if internal.currentStatus == TIMEOUT {
      ret := -1;
    } else if reply.details == None || |reply.details.value| <= 0 {
      internal.currentStatus := FAILURE;
      ret := -1;
    } else {
      internal.currentStatus := SUCCESS;
      ret := TakeListing(input, output, heap, reply);
    }
  }

  // A request for a listing: it names the offset and the count of the caller, and leaves out what is 0.
  ghost predicate AsksFor(rpc: Rpc, surls: seq<string>, count: int, offset: Option<int>) {
    && rpc.Ask? && rpc.op == Ls && rpc.surls == surls && rpc.sizes == [] && rpc.space == None
    && rpc.offset.GetOr(0) == offset.GetOr(0) && (rpc.offset.Some? ==> rpc.offset.value > 0)
    && rpc.count.GetOr(0) == count && (rpc.count.Some? ==> rpc.count.value > 0)
  }

  // The request that an ls call makes; none if the offset or the count is negative.
  ghost predicate LsRequested(surls: seq<string>, count: int, offset: Option<int>, call: RequestTrace) {
    if (offset.Some? && offset.value < 0) || count < 0 then
      call == RequestTrace([], None, [])
    else
      && call.lookup == [] && call.space == None
      && call.events != [] && call.events[0].Exchange?
      && AsksFor(call.events[0].rpc, surls, count, offset) && Repeated(call.events, call.events[0].rpc)
  }

  // What goes over the wire, every time: the SURLs, the offset and the count of the caller
  lemma WhatLsSends(surls: seq<string>, count: int, offset: Option<int>, call: RequestTrace)
    requires LsRequested(surls, count, offset, call)
    ensures call.events == [] <==> offset.GetOr(0) < 0 || count < 0
    ensures forall e :: e in call.events ==>
              && e.Exchange? && e.rpc.Ask? && e.rpc.op == Ls && e.rpc.surls == surls
              && e.rpc.offset.GetOr(0) == offset.GetOr(0) && e.rpc.count.GetOr(0) == count
  {
  }

  // How srmv2_ls_async_internal fills in its request
  method FillIn(input: LsInput) returns (req: Rpc)
    requires input.offset.GetOr(0) >= 0 && input.count >= 0
    ensures AsksFor(req, input.surls, input.count, input.offset)
    ensures req.Ask? && req.offset.GetOr(0) == input.offset.GetOr(0) && req.count.GetOr(0) == input.count
  {
    req := Ask(Ls, input.surls, [], None, None, None);
    if input.offset.Some? && input.offset.value > 0 {
      req := req.(offset := input.offset);
    }
    if input.count > 0 {
      req := req.(count := Some(input.count as int));
    }
  }

  // srmv2_ls_async_internal
  method LsRequest(context: SrmContext, input: LsInput, output: LsOutput, heap: Heap,
                   internal: InternalContext, world: World)
    returns (ret: int, ghost call: RequestTrace)
    requires internal.Valid(context, world) && context.Sane() && heap.Valid()
    modifies input`offset, output, heap, internal, internal.currentWaittimeSpec
    modifies world`now, world`wall, world`naps, world`draws, world`log
    ensures internal.Valid(context, world)
    ensures Paced(old(PaceOf(context, internal, world)), PaceOf(context, internal, world), internal.currentStatus,
              |call.events|)
    ensures Limited(old(PaceOf(context, internal, world)), PaceOf(context, internal, world))
    ensures world.log == old(world.log) + call.events
    ensures LsRequested(input.surls, input.count, old(input.offset), call)
    ensures Underway(Ls, call, [], internal.currentStatus, ret)
    ensures call.events == [] ==> internal.currentStatus == old(internal.currentStatus)
    ensures internal.currentStatus == QUEUED && ret >= 0 ==>
              call.events != [] && output.token == TokenOf(LastReply(call.events))
    ensures heap.Valid()
    ensures ret <= 0 ==> LeftAlone(old(StateOf(input, output, heap)), StateOf(input, output, heap))
    ensures ret <= 0 && call.events != [] ==> output.statuses == NULL
    ensures ret >= 1 ==>
              && call.events != []
              && TookIn(old(StateOf(input, output, heap)), StateOf(input, output, heap), LastAnswer(call, []))
  {
    hide Underway, Settle, InternalContext.Valid, InternalContext.Left, InternalContext.Unguided;
    hide InternalContext.Limit, Paced, Limited, PaceOf, Lists, Heap.Valid, OffsetAfter, Extends, ListAt, AsksFor;
    ghost var before, first := PaceOf(context, internal, world), internal.currentStatus;
    PacedByNothing(before, first);
    call := RequestTrace([], None, []);
    NoneAskedIsUnderway(Ls, call, internal.currentStatus);
    if input.offset.Some? && input.offset.value < 0 {
      return -1, call;
    }
    if input.count < 0 {
      return -1, call;
    }
    output.Clear();
    var req := FillIn(input);
    var reply, retstatus;
    ghost var events;
    reply, retstatus, events := AskUntilAnswered(context, internal, world, req, false);
    call := RequestTrace([], None, events);
    output.retstatus := retstatus;
    if !reply.Answered() {
      UnansweredFails(Ls, Asking, reply, false);
      AskedIsUnderway(Ls, call, FAILURE, -1);
      return -1, call;
    }
    ghost var after, asked := PaceOf(context, internal, world), internal.currentStatus;
    ret := SettleLs(input, output, heap, internal, reply);
    AskedIsUnderway(Ls, call, internal.currentStatus, ret);
    PacedOn(before, before, after, first, asked, internal.currentStatus, |events|);
  }

  // srmv2_status_of_ls_request_async_internal
  method StatusOfLsRequest(context: SrmContext, input: LsInput, output: LsOutput, heap: Heap,
                           internal: InternalContext, world: World)
    returns (ret: int, ghost events: seq<Event>)
    requires internal.Valid(context, world) && context.Sane() && heap.Valid()
    modifies input`offset, output, heap, internal, internal.currentWaittimeSpec
    modifies world`now, world`wall, world`naps, world`draws, world`log
    ensures internal.Valid(context, world)
    ensures Paced(old(PaceOf(context, internal, world)), PaceOf(context, internal, world), internal.currentStatus,
              |events|)
    ensures Limited(old(PaceOf(context, internal, world)), PaceOf(context, internal, world))
    ensures world.log == old(world.log) + events
    ensures Settled(Ls, Polling, StatusOf(Ls, old(output.token), []), events, internal.currentStatus, ret)
    ensures output.token == old(output.token)
    ensures heap.Valid()
    ensures ret <= 0 ==>
              && LeftAlone(old(StateOf(input, output, heap)), StateOf(input, output, heap))
              && output.statuses == NULL
    ensures ret >= 1 ==> TookIn(old(StateOf(input, output, heap)), StateOf(input, output, heap), LastReply(events))
  {
    hide Settle, Repeated, InternalContext.Valid, InternalContext.Left, InternalContext.Unguided;
    hide InternalContext.Limit, Paced, Limited, PaceOf, Lists, Heap.Valid, OffsetAfter;
    ghost var before, first := PaceOf(context, internal, world), internal.currentStatus;
    PacedByNothing(before, first);
    output.retstatus, output.statuses := None, NULL;
    internal.currentStatus := FAILURE;
    var reply, retstatus;
    reply, retstatus, events := AskUntilAnswered(context, internal, world, StatusOf(Ls, output.token, []), false);
    output.retstatus := retstatus;
    if !reply.Answered() {
      UnansweredFails(Ls, Polling, reply, false);
      return -1, events;
    }
    ghost var after, asked := PaceOf(context, internal, world), internal.currentStatus;
    ret := SettleLsPoll(input, output, heap, internal, reply);
    PacedOn(before, before, after, first, asked, internal.currentStatus, |events|);
  }

  // A listing is only there when the call is over.
  lemma QueuedListsNothing(context: SrmContext, pace: Pace, call: RequestTrace, polls: seq<Event>, status: CallStatus,
                           ret: int)
    requires Going(Ls, context, pace, call, polls, status, ret)
    ensures ret >= 1 ==> status == SUCCESS
  {
  }

  // One poll of a call that is queued
  method PollLs(context: SrmContext, input: LsInput, output: LsOutput, heap: Heap, internal: InternalContext,
                world: World, ghost pace: Pace, ghost call: RequestTrace, ghost polls: seq<Event>, ghost last: int)
    returns (ret: int, ghost after: Pace, ghost more: seq<Event>)
    requires internal.Valid(context, world) && context.Sane() && heap.Valid()
    requires pace == PaceOf(context, internal, world) && Going(Ls, context, pace, call, polls, QUEUED, last)
    requires internal.currentStatus == QUEUED && PollOf(Ls, call.events) == StatusOf(Ls, output.token, [])
    modifies input`offset, output, heap, internal, internal.currentWaittimeSpec
    modifies world`now, world`wall, world`naps, world`draws, world`log
    ensures internal.Valid(context, world) && after == PaceOf(context, internal, world)
    ensures Going(Ls, context, after, call, polls + more, internal.currentStatus, ret) && polls + more != []
    ensures Limited(pace, after)
    ensures world.log == old(world.log) + more && output.token == old(output.token)
    ensures TokenOf(LastReply(call.events)).Some?
    ensures ret >= 0 <==> internal.currentStatus == SUCCESS || internal.currentStatus == QUEUED
    ensures internal.currentStatus == QUEUED ==> ret == 0 && 0 <= pace.left && after.left < pace.left
    ensures heap.Valid()
    ensures ret <= 0 ==>
              && LeftAlone(old(StateOf(input, output, heap)), StateOf(input, output, heap))
              && output.statuses == NULL
    ensures ret >= 1 ==> TookIn(old(StateOf(input, output, heap)), StateOf(input, output, heap),
              LastAnswer(call, polls + more))
  {
    hide InternalContext.Valid, InternalContext.Left, InternalContext.Unguided, InternalContext.Limit, Going;
    hide Paced, Settled, PaceOf, Settle, Lists, LastReply;
    hide OffsetAfter, Heap.Valid, Extends, LastAnswer;
    ret, more := StatusOfLsRequest(context, input, output, heap, internal, world);
    after := PaceOf(context, internal, world);
    PollAdvances(Ls, context, pace, after, call, polls, last, more, internal.currentStatus, ret);
    QueuedListsNothing(context, after, call, polls + more, internal.currentStatus, ret);
  }

  // The loop of srmv2_ls_sync and what follows it, given the result of the request
  method AwaitLs(context: SrmContext, input: LsInput, output: LsOutput, heap: Heap, internal: InternalContext,
                 world: World, first: int, ghost start: Pace, ghost call: RequestTrace)
    returns (ret: int, ghost run: Run)
    requires internal.Valid(context, world) && context.Sane() && heap.Valid()
    requires start == PaceOf(context, internal, world)
    requires Going(Ls, context, start, call, [], internal.currentStatus, first)
    requires internal.currentStatus == QUEUED ==> call.events != [] && output.token == TokenOf(LastReply(call.events))
    requires first <= 0 && call.events != [] ==> output.statuses == NULL
    modifies input`offset, output, heap, internal, internal.currentWaittimeSpec
    modifies world`now, world`wall, world`naps, world`draws, world`log
    ensures world.log == old(world.log) + run.polls + run.aborts && run.call == call
    ensures WellRun(Ls, run, ret) && WithinTimeout(context, |call.events| + |run.polls|)
    ensures start.unguided ==> |call.events| + |run.polls| <= start.limit + 1
    ensures NotTooSoon(context, world, internal.startNs, run.final)
    ensures heap.Valid()
    ensures first >= 1 ==>
              ret == first && run.polls == [] && StateOf(input, output, heap) == old(StateOf(input, output, heap))
    ensures first <= 0 && ret < 1 ==> LeftAlone(old(StateOf(input, output, heap)), StateOf(input, output, heap))
    ensures first <= 0 && ret < 1 && call.events != [] ==> output.statuses == NULL
    ensures first <= 0 && ret >= 1 ==>
              TookIn(old(StateOf(input, output, heap)), StateOf(input, output, heap), LastAnswer(call, run.polls))
  {
    hide InternalContext.Valid, InternalContext.Left, Going, Settled, WellRun, WithinTimeout, PaceOf, TokenOf;
    hide Heap.Valid, Extends, LastReply, LastAnswer, LeftAlone, TookIn, StateOf;
    ghost var state, pace, polls, more := StateOf(input, output, heap), start, [], [];
    ret := first;
    NothingYet(state, state);
    var reqToken := output.token;
    while internal.currentStatus == QUEUED && ret >= 0
      invariant internal.Valid(context, world) && heap.Valid()
      invariant pace == PaceOf(context, internal, world)
      invariant Going(Ls, context, pace, call, polls, internal.currentStatus, ret)
      invariant Limited(start, pace) && world.log == old(world.log) + polls
      invariant polls == [] ==> ret == first && StateOf(input, output, heap) == state
      invariant first >= 1 ==> polls == []
      invariant Aborts(Ls, polls != [], internal.currentStatus) ==> internal.currentStatus == QUEUED
      invariant internal.currentStatus == QUEUED ==>
                  call.events != [] && reqToken == output.token == TokenOf(LastReply(call.events))
      invariant ret <= 0 ==> LeftAlone(state, StateOf(input, output, heap))
      invariant ret <= 0 && call.events != [] ==> output.statuses == NULL
      invariant first <= 0 && ret >= 1 ==> TookIn(state, StateOf(input, output, heap), LastAnswer(call, polls))
      decreases internal.currentStatus == QUEUED, pace.left
    {
      QueuedListsNothing(context, pace, call, polls, internal.currentStatus, ret);
      ghost var queued := StateOf(input, output, heap);
      ret, pace, more := PollLs(context, input, output, heap, internal, world, pace, call, polls, ret);
      AfterNothing(state, queued, StateOf(input, output, heap), LastAnswer(call, polls + more));
      Append(old(world.log), polls, more);
      polls := polls + more;
      if internal.currentStatus == TIMEOUT {
        run := AbortAtTheEnd(Ls, context, internal, world, reqToken, pace, call, polls, ret);
        return -1, run;
      }
    }
    QueuedListsNothing(context, pace, call, polls, internal.currentStatus, ret);
    run := EndsWithoutAbort(Ls, context, internal, world, pace, call, polls, ret);
    Append(world.log, [], []);
    if internal.currentStatus != SUCCESS {
      return -1, run;
    }
  }

  // A run that went with a change of the state
  datatype LsCall = LsCall(run: Run, before: LsState, after: LsState)

  ghost function AnswerOf(c: LsCall): Reply {
    LastAnswer(c.run.call, c.run.polls)
  }

  // A call that has succeeded: it asked for the listing at the offset of the caller, and took in the answer.
  ghost predicate LsDone(surls: seq<string>, count: int, c: LsCall) {
    && LsRequested(surls, count, c.before.offset, c.run.call) && c.run.call.events != []
    && TookIn(c.before, c.after, AnswerOf(c)) && NULL !in c.after.blocks
  }

  lemma OnlyAskingDelivers(run: Run, ret: int)
    requires WellRun(Ls, run, ret) && ret >= 1
    ensures run.call.events != []
  {
  }

  lemma StateFacts(input: LsInput, output: LsOutput, heap: Heap)
    requires heap.Valid()
    ensures StateOf(input, output, heap).offset == input.offset
    ensures NULL !in StateOf(input, output, heap).blocks
  {
  }

  // srmv2_ls_sync
  method LsSync(context: SrmContext, input: LsInput, output: LsOutput, heap: Heap, world: World)
    returns (ret: int, ghost run: Run)
    requires context.Sane() && heap.Valid()
    modifies input`offset, output, heap, world`now, world`wall, world`naps, world`draws, world`log
    ensures world.log == old(world.log) + run.call.events + run.polls + run.aborts
    ensures LsRequested(input.surls, input.count, old(input.offset), run.call)
    ensures run.call.events == [] <==> old(input.offset).GetOr(0) < 0 || input.count < 0
    ensures forall e :: e in run.call.events ==>
              && e.Exchange? && e.rpc.Ask? && e.rpc.op == Ls && e.rpc.surls == input.surls
              && e.rpc.offset.GetOr(0) == old(input.offset).GetOr(0) && e.rpc.count.GetOr(0) == input.count
    ensures WellRun(Ls, run, ret)
    ensures WithinTimeout(context, |run.call.events| + |run.polls|)
    ensures run.final == TIMEOUT && context.UsesMinMax() ==>
              world.now + context.LongestNs() >= old(world.now) + TimeoutOf(context) * 1_000_000_000
    // No estimates come with a listing, so that the attempts of the old logic are counted.
    ensures !context.UsesMinMax() ==> |run.call.events| + |run.polls| <= 22
    ensures heap.Valid()
    ensures ret < 1 ==> LeftAlone(old(StateOf(input, output, heap)), StateOf(input, output, heap))
    ensures ret < 1 && run.call.events != [] ==> output.statuses == NULL
    ensures ret >= 1 ==>
              var c := LsCall(run, old(StateOf(input, output, heap)), StateOf(input, output, heap));
              LsDone(input.surls, input.count, c) && TookIn(c.before, c.after, AnswerOf(c))
  {
    hide InternalContext.Valid, InternalContext.Left, InternalContext.Unguided, InternalContext.Limit, Going, Paced;
    hide WellRun, WithinTimeout, PaceOf, LastReply, TokenOf, Heap.Valid, Extends, LeftAlone, TookIn, StateOf;
    hide Underway, LsRequested;
    ghost var state, offset := StateOf(input, output, heap), input.offset;
    StateFacts(input, output, heap);
    var internal := new InternalContext(context, world);
    output.token := None;
    ghost var call, pace := RequestTrace([], None, []), PaceOf(context, internal, world);
    PaceStarts(context, internal, world);
    ret, call := LsRequest(context, input, output, heap, internal, world);
    ghost var asked := PaceOf(context, internal, world);
    FreshAttempts(context, internal, world);
    RequestStarts(Ls, context, pace, asked, PaceOf(context, internal, world).limit, call, internal.currentStatus, ret);
    pace := PaceOf(context, internal, world);
    QueuedListsNothing(context, pace, call, [], internal.currentStatus, ret);
    ghost var first, requested := ret, StateOf(input, output, heap);
    ret, run := AwaitLs(context, input, output, heap, internal, world, ret, pace, call);
    if first <= 0 {
      AfterNothing(state, requested, StateOf(input, output, heap), LastAnswer(call, run.polls));
    }
    Append(old(world.log) + call.events, run.polls, run.aborts);
    WhatLsSends(input.surls, input.count, offset, call);
    StateFacts(input, output, heap);
    if ret >= 1 {
      OnlyAskingDelivers(run, ret);
    }
  }

  // srm_ls_output_destroy, of an output that holds no listing, or the one of an answer
  method DestroyOutput(output: LsOutput, heap: Heap, ghost from: Ptr, ghost to: Ptr, ghost r: Reply)
    requires heap.Valid()
               && (output.statuses != NULL ==> Lists(output.statuses, output.statusesNum, heap.blocks, from, to, r))
    modifies output, heap`blocks
    ensures heap.Valid() && output.statuses == NULL && output.token == None && output.retstatus == None
    ensures if old(output.statuses) == NULL then heap.blocks == old(heap.blocks)
            else Drops(old(heap.blocks), heap.blocks, from, to)
  {
    hide ListAt, ListCost, Drops;
    output.retstatus, output.token := None, None;
    ghost var listed := r.Answered() && r.details.Some?;
    DeleteList(heap, output.statuses, output.statusesNum, if listed then r.details.value else [],
               if listed then r.status.value else NodeStatus(SrmSuccess, None));
    output.statuses := NULL;
  }

  // Destroying the output of a call gives back all that the call allocated, and leaves all that was there.
  lemma DestroyUndoesLs(before: Memory, after: Memory, destroyed: Memory, from: Ptr, to: Ptr)
    requires forall p :: p in before ==> p < from
    requires Extends(before, after, from, to) && Drops(after, destroyed, from, to)
    ensures destroyed == before
  {
  }
}
