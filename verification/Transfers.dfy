// The asynchronous put, get and bring-online requests, and their polls.
module Transfers {
  import opened Common
  import opened StatusCodes
  import opened Wire
  import opened BackOff
  import opened SpaceTokens
  import opened Requests

  // srmv2_pinfilestatus
  datatype PinStatus = PinStatus(surl: Option<string>, turl: Option<string>, status: Errno,
                                 explanation: Option<Explanation>, pinLifetime: int, estimatedWaitTime: int)

  // An entry as calloc leaves it
  const NO_STATUS := PinStatus(None, None, OK, None, 0, 0)

  // srm_preparetoput_input, srm_preparetoget_input and srm_bringonline_input. Only put has sizes.
  datatype TransferInput = TransferInput(surls: seq<string>, filesizes: Option<seq<Long64>>,
    spacetokendesc: Option<string>)

  // srm_preparetoput_output, srm_preparetoget_output and srm_bringonline_output
  class TransferOutput {
    var token: Option<string>
    var retstatus: Option<NodeStatus>
    var filestatuses: array?<PinStatus>

    constructor ()
      ensures token == None && retstatus == None && filestatuses == null
    {
      token, retstatus, filestatuses := None, None, null;
    }

    // memset(output, 0, sizeof(*output))
    method Clear()
      modifies this
      ensures token == None && retstatus == None && filestatuses == null
    {
      token, retstatus, filestatuses := None, None, null;
    }

    // The output holds the status of the answer, and its entries, each in its place.
    ghost predicate Holds(op: Operation, r: Reply)
      reads this`retstatus, this`filestatuses, filestatuses
    {
      && r.Answered() && retstatus == r.status
      && filestatuses != null && r.files.Some? && filestatuses.Length == |r.files.value|
      && forall i :: 0 <= i < filestatuses.Length ==> filestatuses[i] == PinOf(op, r.files.value[i], r.status.value)
    }
  }

  // What becomes of one entry of the answer. A bring-online entry has no transfer URL.
  function PinOf(op: Operation, f: Option<RawFile>, request: NodeStatus): PinStatus {
    if f == None then NO_STATUS
    else
      var status := if f.value.status.Some? then ToErrno(f.value.status.value.code) else OK;
      PinStatus(f.value.surl, if op == BringOnline then None else f.value.turl, status,
                if f.value.status.Some? then ExplanationOf(f.value.status.value, request, status) else None,
                f.value.pinTime.GetOr(0), if f.value.estimatedWait.Some? then f.value.estimatedWait.value else -1)
  }

  // copy_pinfilestatuses_put, _get and _bringonline
  method CopyPinStatuses(op: Operation, output: TransferOutput, files: seq<Option<RawFile>>, request: NodeStatus)
    returns (n: int)
    modifies output`filestatuses
    ensures n == |files|
    ensures output.filestatuses != null && fresh(output.filestatuses) && output.filestatuses.Length == n
    ensures forall i :: 0 <= i < n ==> output.filestatuses[i] == PinOf(op, files[i], request)
  {
    hide ExplanationOf;
    n := |files|;
    var a := new PinStatus[n](_ => NO_STATUS);
    for i := 0 to n
      modifies a
      invariant forall k :: 0 <= k < i ==> a[k] == PinOf(op, files[k], request)
      invariant forall k :: i <= k < n ==> a[k] == NO_STATUS
    {
      if files[i] == None {
        continue;
      }
      var raw := files[i].value;
      var p := NO_STATUS.(surl := raw.surl);
      if op != BringOnline {
        p := p.(turl := raw.turl);
      }
      if raw.status.Some? {
        var own := raw.status.value;
        p := p.(status := ToErrno(own.code));
        var explanation := Explain(own, request, p.status);
        p := p.(explanation := explanation);
      }
      if raw.pinTime.Some? {
        p := p.(pinLifetime := raw.pinTime.value);
      }
      p := p.(estimatedWaitTime := if raw.estimatedWait.Some? then raw.estimatedWait.value else -1);
      a[i] := p;
    }
    output.filestatuses := a;
  }

  // The final switch of srmv2_prepare_to_put_async_internal
  method SettlePut(internal: InternalContext, output: TransferOutput, reply: Reply) returns (ret: int)
    requires reply.Answered() && output.retstatus == reply.status && internal.currentStatus != INTERNAL_ERROR
               && output.token == None
    requires internal.currentStatus == Classify(Some(reply.Code()), internal.currentStatus == TIMEOUT)
    modifies internal`currentStatus, output`token, output`filestatuses
    ensures (internal.currentStatus, ret) == Settle(Put, Asking, reply, internal.currentStatus == TIMEOUT)
    ensures internal.currentStatus == QUEUED ==> old(internal.currentStatus) == QUEUED
    ensures internal.currentStatus == TIMEOUT ==> old(internal.currentStatus) == TIMEOUT
    ensures ret >= 0 ==> output.token == TokenOf(reply)
    ensures ret >= 1 ==> output.Holds(Put, reply) && fresh(output.filestatuses)
  {
    ret := 0;
    if internal.currentStatus == QUEUED {
      output.token := reply.token;
      if reply.token == None {
        internal.currentStatus := FAILURE;
        ret := -1;
      }
    } else if internal.currentStatus == TIMEOUT {
      ret := -1;
    } else if reply.files == None || |reply.files.value| < 1 {
      internal.currentStatus := FAILURE;
      ret := -1;
    } else if output.token == None && reply.token == None {
      internal.currentStatus := FAILURE;
      ret := -1;
    } else {
      output.token := reply.token;
      internal.currentStatus := SUCCESS;
      ret := CopyPinStatuses(Put, output, reply.files.value, reply.status.value);
    }
  }

  // The final switch of srmv2_prepare_to_get_async_internal
  method SettleGet(internal: InternalContext, output: TransferOutput, reply: Reply) returns (ret: int)
    requires reply.Answered() && output.retstatus == reply.status && internal.currentStatus != INTERNAL_ERROR
               && output.token == None
    requires internal.currentStatus == Classify(Some(reply.Code()), internal.currentStatus == TIMEOUT)
    modifies internal`currentStatus, output`token, output`filestatuses
    ensures (internal.currentStatus, ret) == Settle(Get, Asking, reply, internal.currentStatus == TIMEOUT)
    ensures internal.currentStatus == QUEUED ==> old(internal.currentStatus) == QUEUED
    ensures internal.currentStatus == TIMEOUT ==> old(internal.currentStatus) == TIMEOUT
    ensures ret >= 0 ==> output.token == TokenOf(reply)
    ensures ret >= 1 ==> output.Holds(Get, reply) && fresh(output.filestatuses)
  {
    ret := 0;
    if internal.currentStatus == QUEUED {
      output.token := reply.token;
      if reply.token == None {
        internal.currentStatus := FAILURE;
        ret := -1;
      } else if reply.files.Some? && |reply.files.value| >= 1 {
        ret := CopyPinStatuses(Get, output, reply.files.value, reply.status.value);
      }
    } else if internal.currentStatus == TIMEOUT {
      ret := -1;
    } else if reply.files == None || |reply.files.value| < 1 {
      internal.currentStatus := FAILURE;
      ret := -1;
    } else {
      internal.currentStatus := SUCCESS;
      if reply.token.Some? {
        output.token := reply.token;
      }
      ret := CopyPinStatuses(Get, output, reply.files.value, reply.status.value);
    }
  }

  // The final switch of srmv2_bring_online_async_internal
  method SettleBringOnline(internal: InternalContext, output: TransferOutput, reply: Reply) returns (ret: int)
    requires reply.Answered() && output.retstatus == reply.status && internal.currentStatus != INTERNAL_ERROR
               && output.token == None
    requires internal.currentStatus == Classify(Some(reply.Code()), internal.currentStatus == TIMEOUT)
    modifies internal`currentStatus, output`token, output`filestatuses
    ensures (internal.currentStatus, ret) == Settle(BringOnline, Asking, reply, internal.currentStatus == TIMEOUT)
    ensures internal.currentStatus == QUEUED ==> old(internal.currentStatus) == QUEUED
    ensures internal.currentStatus == TIMEOUT ==> old(internal.currentStatus) == TIMEOUT
    ensures ret >= 0 ==> output.token == TokenOf(reply)
    ensures ret >= 1 ==> output.Holds(BringOnline, reply) && fresh(output.filestatuses)
  {
    ret := 0;
    if internal.currentStatus == QUEUED {
      output.token := reply.token;
      if reply.token == None {
        internal.currentStatus := FAILURE;
        ret := -1;
      } else if reply.files.Some? && |reply.files.value| >= 1 {
        ret := CopyPinStatuses(BringOnline, output, reply.files.value, reply.status.value);
      }
    } else if internal.currentStatus == TIMEOUT {
      ret := -1;
    } else if reply.files == None || |reply.files.value| < 1 {
      internal.currentStatus := FAILURE;
      ret := -1;
    } else {
      output.token := reply.token;
      internal.currentStatus := SUCCESS;
      ret := CopyPinStatuses(BringOnline, output, reply.files.value, reply.status.value);
    }
  }

  // The final decision of srmv2_status_of_put_request_async_internal
  method SettlePutPoll(internal: InternalContext, output: TransferOutput, reply: Reply) returns (ret: int)
    requires reply.Answered() && output.retstatus == reply.status && internal.currentStatus != INTERNAL_ERROR
    requires internal.currentStatus == Classify(Some(reply.Code()), internal.currentStatus == TIMEOUT)
    modifies internal`currentStatus, output`filestatuses
    ensures (internal.currentStatus, ret) == Settle(Put, Polling, reply, internal.currentStatus == TIMEOUT)
    ensures internal.currentStatus == QUEUED ==> old(internal.currentStatus) == QUEUED
    ensures internal.currentStatus == TIMEOUT ==> old(internal.currentStatus) == TIMEOUT
    ensures ret >= 1 ==> output.Holds(Put, reply) && fresh(output.filestatuses)
  {
    ret := 0;
    if reply.Code() == SrmSpaceLifetimeExpired {
      return -1;
    }
    if internal.currentStatus == QUEUED {
    } else if internal.currentStatus == TIMEOUT {
      ret := -1;
    } else if reply.files == None || |reply.files.value| < 1 {
      internal.currentStatus := FAILURE;
      ret := -1;
    } else {
      internal.currentStatus := SUCCESS;
      ret := CopyPinStatuses(Put, output, reply.files.value, reply.status.value);
    }
  }

  // The final decision of srmv2_status_of_get_request_async_internal
  method SettleGetPoll(internal: InternalContext, output: TransferOutput, reply: Reply) returns (ret: int)
    requires reply.Answered() && output.retstatus == reply.status && internal.currentStatus != INTERNAL_ERROR
    requires internal.currentStatus == Classify(Some(reply.Code()), internal.currentStatus == TIMEOUT)
    modifies internal`currentStatus, output`filestatuses
    ensures (internal.currentStatus, ret) == Settle(Get, Polling, reply, internal.currentStatus == TIMEOUT)
    ensures internal.currentStatus == QUEUED ==> old(internal.currentStatus) == QUEUED
    ensures internal.currentStatus == TIMEOUT ==> old(internal.currentStatus) == TIMEOUT
    ensures ret >= 1 ==> output.Holds(Get, reply) && fresh(output.filestatuses)
  {
    ret := 0;
    if internal.currentStatus == QUEUED {
      if reply.files.Some? && |reply.files.value| >= 1 {
        ret := CopyPinStatuses(Get, output, reply.files.value, reply.status.value);
      }
    } else if internal.currentStatus == TIMEOUT {
      ret := -1;
    } else if reply.files == None || |reply.files.value| < 1 {
      internal.currentStatus := FAILURE;
      ret := -1;
    } else {
      internal.currentStatus := SUCCESS;
      ret := CopyPinStatuses(Get, output, reply.files.value, reply.status.value);
    }
  }

  // The final decision of srmv2_status_of_bring_online_async_internal
  method SettleBringOnlinePoll(internal: InternalContext, output: TransferOutput, reply: Reply) returns (ret: int)
    requires reply.Answered() && output.retstatus == reply.status && internal.currentStatus != INTERNAL_ERROR
    requires internal.currentStatus == Classify(Some(reply.Code()), internal.currentStatus == TIMEOUT)
    modifies internal`currentStatus, output`filestatuses
    ensures (internal.currentStatus, ret) == Settle(BringOnline, Polling, reply, internal.currentStatus == TIMEOUT)
    ensures internal.currentStatus == QUEUED ==> old(internal.currentStatus) == QUEUED
    ensures internal.currentStatus == TIMEOUT ==> old(internal.currentStatus) == TIMEOUT
    ensures ret >= 1 ==> output.Holds(BringOnline, reply) && fresh(output.filestatuses)
  {
    ret := 0;
    if internal.currentStatus == QUEUED {
      if reply.files.Some? && |reply.files.value| >= 1 {
        ret := CopyPinStatuses(BringOnline, output, reply.files.value, reply.status.value);
      }
    } else if internal.currentStatus == TIMEOUT {
      ret := -1;
    } else if reply.files == None || |reply.files.value| < 1 {
      internal.currentStatus := FAILURE;
      ret := -1;
    } else {
      internal.currentStatus := SUCCESS;
      ret := CopyPinStatuses(BringOnline, output, reply.files.value, reply.status.value);
    }
  }

  // The space token of a request: none without a description, else the best one for it
  ghost predicate LookedUp(input: TransferInput, needed: int, lookup: seq<Event>, space: Option<string>) {
    match input.spacetokendesc
    case None => lookup == [] && space == None
    case Some(desc) => Chooses(lookup, desc, needed, space)
  }

  // The sizes as they go over the wire, unsigned
  function OnWire(sizes: seq<Long64>): (r: seq<ULong64>)
    ensures |r| == |sizes| && forall i :: 0 <= i < |r| ==> ToLong64(r[i]) == sizes[i]
  {
    seq(|sizes|, i requires 0 <= i < |sizes| => ToULong64(sizes[i]))
  }

  function Sum(sizes: seq<int>): int {
    if sizes == [] then 0 else Sum(sizes[..|sizes| - 1]) + sizes[|sizes| - 1]
  }

  // What a request sends: the lookup of a space, and then the request, repeated while the server reports
  // an internal error. It gives up without asking if there is a description but no space for it, and put
  // without the sizes of its files sends nothing at all. Only put needs room, for all its files together.
  ghost predicate Requested(op: Operation, input: TransferInput, call: RequestTrace) {
    var filesizes := if op == Put then input.filesizes.GetOr([]) else [];
    if op == Put && input.filesizes == None && input.surls != [] then
      call == RequestTrace([], None, [])
    else
      && LookedUp(input, Sum(filesizes), call.lookup, call.space)
      && if input.spacetokendesc.Some? && call.space == None then
           call.events == []
         else
           Repeated(call.events, Ask(op, input.surls, OnWire(filesizes), call.space, None, None))
  }

  // The sum fits the type that the program adds up in, however far it has come, and so does the margin.
  ghost predicate NoOverflow(sizes: seq<int>) {
    && (forall i :: 0 <= i <= |sizes| ==> -TWO_63 <= Sum(sizes[..i]) < TWO_63)
    && Sum(sizes) + SIZE_MARGIN < TWO_63
  }

  lemma NothingToAddUp()
    ensures NoOverflow([]) && Sum([]) == 0 && OnWire([]) == []
  {
    var none: seq<int> := [];
    assert forall i :: 0 <= i <= 0 ==> none[..i] == none;
  }

  // A put without sizes sends nothing; every other request is given up, or asked.
  lemma WithoutSizes(input: TransferInput)
    requires input.filesizes == None && input.surls != []
    ensures Requested(Put, input, RequestTrace([], None, []))
  {
  }

  lemma GivenUp(op: Operation, input: TransferInput, lookup: seq<Event>, space: Option<string>)
    requires op == Put && input.filesizes == None ==> input.surls == []
    requires LookedUp(input, Sum(if op == Put then input.filesizes.GetOr([]) else []), lookup, space)
    requires input.spacetokendesc.Some? && space == None
    ensures Requested(op, input, RequestTrace(lookup, space, []))
  {
  }

  lemma Asked(op: Operation, input: TransferInput, lookup: seq<Event>, space: Option<string>, events: seq<Event>)
    requires op == Put && input.filesizes == None ==> input.surls == []
    requires LookedUp(input, Sum(if op == Put then input.filesizes.GetOr([]) else []), lookup, space)
    requires input.spacetokendesc.Some? ==> space.Some?
    requires var filesizes := if op == Put then input.filesizes.GetOr([]) else [];
             Repeated(events, Ask(op, input.surls, OnWire(filesizes), space, None, None))
    ensures Requested(op, input, RequestTrace(lookup, space, events))
    ensures events != [] && SurlsOf(events) == input.surls
  {
  }

  // The choice of a space, as the three requests begin with it
  method LookUpSpace(context: SrmContext, input: TransferInput, needed: int, internal: InternalContext, world: World)
    returns (giveUp: bool, space: Option<string>, ghost lookup: seq<Event>)
    requires internal.Valid(context, world) && needed + SIZE_MARGIN < TWO_63
    modifies world`now, world`wall, world`log
    ensures internal.Valid(context, world)
    ensures Paced(old(PaceOf(context, internal, world)), PaceOf(context, internal, world), internal.currentStatus, 0)
    ensures world.log == old(world.log) + lookup && LookedUp(input, needed, lookup, space)
    ensures giveUp <==> input.spacetokendesc.Some? && space == None
  {
    if input.spacetokendesc == None {
      return false, None, [];
    }
    space, lookup := GetBestSpaceToken(world, input.spacetokendesc.value, needed);
    giveUp := space == None;
  }

  // srmv2_prepare_to_get_async_internal
  method PrepareToGet(context: SrmContext, input: TransferInput, output: TransferOutput,
                      internal: InternalContext, world: World)
    returns (ret: int, ghost call: RequestTrace)
    requires internal.Valid(context, world) && context.Sane()
    modifies output, internal, internal.currentWaittimeSpec, world`now, world`wall, world`naps, world`draws, world`log
    ensures internal.Valid(context, world)
    ensures Paced(old(PaceOf(context, internal, world)), PaceOf(context, internal, world), internal.currentStatus,
              |call.events|)
    ensures world.log == old(world.log) + call.lookup + call.events
    ensures Requested(Get, input, call)
    ensures Underway(Get, call, [], internal.currentStatus, ret)
    ensures call.events == [] ==> internal.currentStatus == old(internal.currentStatus)
    ensures LastReply(call.events).Answered() ==> GoesBy(internal, LastReply(call.events))
    ensures ret >= 0 ==> call.events != [] && PollOf(Get, call.events) == StatusOf(Get, output.token, [])
    ensures ret >= 1 ==> output.Holds(Get, LastReply(call.events))
  {
    hide GoesBy, Underway, Settle, LookedUp, Requested, Repeated, InternalContext.Valid, InternalContext.Left;
    hide Paced, PaceOf, Chooses, Sum, OnWire, NoOverflow;
    NothingToAddUp();
    ghost var before, first := PaceOf(context, internal, world), internal.currentStatus;
    PacedByNothing(before, first);
    output.Clear();
    call := RequestTrace([], None, []);
    NoneAskedIsUnderway(Get, call, internal.currentStatus);
    var giveUp, space;
    ghost var lookup, events;
    giveUp, space, lookup := LookUpSpace(context, input, 0, internal, world);
    call := RequestTrace(lookup, space, []);
    NoneAskedIsUnderway(Get, call, internal.currentStatus);
    if giveUp {
      GivenUp(Get, input, lookup, space);
      return -1, call;
    }
    ghost var between := PaceOf(context, internal, world);
    var reply, retstatus;
    reply, retstatus, events :=
      AskUntilAnswered(context, internal, world, Ask(Get, input.surls, [], space, None, None), true);
    call := RequestTrace(lookup, space, events);
    Asked(Get, input, lookup, space, events);
    ghost var after, asked := PaceOf(context, internal, world), internal.currentStatus;
    PacedOn(before, between, after, first, asked, asked, |events|);
    output.retstatus := retstatus;
    if !reply.Answered() {
      UnansweredFails(Get, Asking, reply, false);
      AskedIsUnderway(Get, call, FAILURE, -1);
      return -1, call;
    }
    ret := SettleGet(internal, output, reply);
    AskedIsUnderway(Get, call, internal.currentStatus, ret);
    PacedOn(before, between, after, first, asked, internal.currentStatus, |events|);
  }

  // srmv2_bring_online_async_internal
  method BringOnlineRequest(context: SrmContext, input: TransferInput, output: TransferOutput,
                            internal: InternalContext, world: World)
    returns (ret: int, ghost call: RequestTrace)
    requires internal.Valid(context, world) && context.Sane()
    modifies output, internal, internal.currentWaittimeSpec, world`now, world`wall, world`naps, world`draws, world`log
    ensures internal.Valid(context, world)
    ensures Paced(old(PaceOf(context, internal, world)), PaceOf(context, internal, world), internal.currentStatus,
              |call.events|)
    ensures world.log == old(world.log) + call.lookup + call.events
    ensures Requested(BringOnline, input, call)
    ensures Underway(BringOnline, call, [], internal.currentStatus, ret)
    ensures call.events == [] ==> internal.currentStatus == old(internal.currentStatus)
    ensures LastReply(call.events).Answered() ==> GoesBy(internal, LastReply(call.events))
    ensures ret >= 0 ==>
              && call.events != []
              && PollOf(BringOnline, call.events) == StatusOf(BringOnline, output.token, input.surls)
    ensures ret >= 1 ==> output.Holds(BringOnline, LastReply(call.events))
  {
    hide GoesBy, Underway, Settle, LookedUp, Requested, Repeated, InternalContext.Valid, InternalContext.Left;
    hide Paced, PaceOf, Chooses, Sum, OnWire, NoOverflow;
    NothingToAddUp();
    ghost var before, first := PaceOf(context, internal, world), internal.currentStatus;
    PacedByNothing(before, first);
    output.Clear();
    call := RequestTrace([], None, []);
    NoneAskedIsUnderway(BringOnline, call, internal.currentStatus);
    var giveUp, space;
    ghost var lookup, events;
    giveUp, space, lookup := LookUpSpace(context, input, 0, internal, world);
    call := RequestTrace(lookup, space, []);
    NoneAskedIsUnderway(BringOnline, call, internal.currentStatus);
    if giveUp {
      GivenUp(BringOnline, input, lookup, space);
      return -1, call;
    }
    ghost var between := PaceOf(context, internal, world);
    var reply, retstatus;
    reply, retstatus, events :=
      AskUntilAnswered(context, internal, world, Ask(BringOnline, input.surls, [], space, None, None), true);
    call := RequestTrace(lookup, space, events);
    Asked(BringOnline, input, lookup, space, events);
    ghost var after, asked := PaceOf(context, internal, world), internal.currentStatus;
    PacedOn(before, between, after, first, asked, asked, |events|);
    output.retstatus := retstatus;
    if !reply.Answered() {
      UnansweredFails(BringOnline, Asking, reply, false);
      AskedIsUnderway(BringOnline, call, FAILURE, -1);
      return -1, call;
    }
    ret := SettleBringOnline(internal, output, reply);
    AskedIsUnderway(BringOnline, call, internal.currentStatus, ret);
    PacedOn(before, between, after, first, asked, internal.currentStatus, |events|);
  }

  // The loop of srmv2_prepare_to_put_async_internal that fills in the expected sizes and adds them up
  method AddUp(filesizes: seq<Long64>) returns (expected: seq<ULong64>, total: Long64)
    requires NoOverflow(filesizes)
    ensures expected == OnWire(filesizes) && total == Sum(filesizes) && total + SIZE_MARGIN < TWO_63
  {
    var requestArray := new ULong64[|filesizes|](_ => 0);
    total := 0;
    for i := 0 to |filesizes|
      invariant requestArray[..i] == OnWire(filesizes)[..i] && total == Sum(filesizes[..i])
    {
      requestArray[i] := ToULong64(filesizes[i]);
      assert filesizes[..i + 1][..i] == filesizes[..i];
      total := total + filesizes[i];
    }
    assert filesizes[..|filesizes|] == filesizes;
    expected := requestArray[..];
  }

  // srmv2_prepare_to_put_async_internal. The sizes that it adds up find the space.
  method PrepareToPut(context: SrmContext, input: TransferInput, output: TransferOutput,
                      internal: InternalContext, world: World)
    returns (ret: int, ghost call: RequestTrace)
    requires internal.Valid(context, world) && context.Sane()
    requires input.filesizes.Some? ==> |input.filesizes.value| == |input.surls| && NoOverflow(input.filesizes.value)
    modifies output, internal, internal.currentWaittimeSpec, world`now, world`wall, world`naps, world`draws, world`log
    ensures internal.Valid(context, world)
    ensures Paced(old(PaceOf(context, internal, world)), PaceOf(context, internal, world), internal.currentStatus,
              |call.events|)
    ensures world.log == old(world.log) + call.lookup + call.events
    ensures Requested(Put, input, call)
    ensures Underway(Put, call, [], internal.currentStatus, ret)
    ensures call.events == [] ==> internal.currentStatus == old(internal.currentStatus)
    ensures LastReply(call.events).Answered() ==> GoesBy(internal, LastReply(call.events))
    ensures ret >= 0 ==> call.events != [] && PollOf(Put, call.events) == StatusOf(Put, output.token, [])
    ensures ret >= 1 ==> output.Holds(Put, LastReply(call.events))
  {
    hide GoesBy, Underway, Settle, LookedUp, Requested, Repeated, InternalContext.Valid, InternalContext.Left;
    hide Paced, PaceOf, Chooses, Sum, OnWire, NoOverflow;
    NothingToAddUp();
    ghost var before, first := PaceOf(context, internal, world), internal.currentStatus;
    PacedByNothing(before, first);
    output.Clear();
    call := RequestTrace([], None, []);
    NoneAskedIsUnderway(Put, call, internal.currentStatus);
    if input.filesizes == None && |input.surls| > 0 {
      WithoutSizes(input);
      return -1, call;
    }
    var expected, total := AddUp(input.filesizes.GetOr([]));
    var giveUp, space;
    ghost var lookup, events;
    giveUp, space, lookup := LookUpSpace(context, input, total, internal, world);
    call := RequestTrace(lookup, space, []);
    NoneAskedIsUnderway(Put, call, internal.currentStatus);
    if giveUp {
      GivenUp(Put, input, lookup, space);
      return -1, call;
    }
    ghost var between := PaceOf(context, internal, world);
    var reply, retstatus;
    reply, retstatus, events :=
      AskUntilAnswered(context, internal, world, Ask(Put, input.surls, expected, space, None, None), true);
    call := RequestTrace(lookup, space, events);
    Asked(Put, input, lookup, space, events);
    ghost var after, asked := PaceOf(context, internal, world), internal.currentStatus;
    PacedOn(before, between, after, first, asked, asked, |events|);
    output.retstatus := retstatus;
    if !reply.Answered() {
      UnansweredFails(Put, Asking, reply, false);
      AskedIsUnderway(Put, call, FAILURE, -1);
      return -1, call;
    }
    ret := SettlePut(internal, output, reply);
    AskedIsUnderway(Put, call, internal.currentStatus, ret);
    PacedOn(before, between, after, first, asked, internal.currentStatus, |events|);
  }

  // A sum is determined by what it is for one number, and for two sequences one after the other.
  lemma SumOfOne(x: int)
    ensures Sum([]) == 0 && Sum([x]) == x
  {
    assert [x][..0] == [];
  }

  lemma {:induction false} SumOfBoth(a: seq<int>, b: seq<int>)
    ensures Sum(a + b) == Sum(a) + Sum(b)
  {
    if b == [] {
      assert a + b == a;
    } else {
      SumOfBoth(a, b[..|b| - 1]);
      assert (a + b)[..|a + b| - 1] == a + b[..|b| - 1];
    }
  }

  // What a request sends, every time: the SURLs of the caller, for put the sizes as unsigned numbers, and the
  // space that was chosen. It is repeated only while the server reports an internal error, and not sent at all
  // exactly if no space was found for a description, or put has files without sizes.
  lemma WhatIsSent(op: Operation, input: TransferInput, call: RequestTrace)
    requires Requested(op, input, call)
    ensures call.events == [] <==>
              || (op == Put && input.filesizes == None && input.surls != [])
              || (input.spacetokendesc.Some? && call.space == None)
    ensures forall e :: e in call.events ==>
              && e.Exchange? && e.rpc.Ask? && e.rpc.op == op && e.rpc.surls == input.surls
              && e.rpc.space == call.space && e.rpc.offset == e.rpc.count == None
              && (op != Put ==> e.rpc.sizes == [])
              && (op == Put ==> SizesSent(input.filesizes.GetOr([]), e.rpc.sizes))
    ensures forall i :: 0 <= i < |call.events| - 1 ==>
              call.events[i].reply.Answered() && call.events[i].reply.Code() == SrmInternalError
    ensures input.spacetokendesc == None ==> call.lookup == [] && call.space == None
  {
    hide Sum, Chooses, OnWire;
    if op == Put {
      SizesOnWire(input.filesizes.GetOr([]));
    } else {
      NothingToAddUp();
    }
  }

  ghost predicate SizesSent(filesizes: seq<Long64>, sizes: seq<int>) {
    && |sizes| == |filesizes|
    && forall i :: 0 <= i < |sizes| ==>
         && (filesizes[i] >= 0 ==> sizes[i] == filesizes[i])
         && (filesizes[i] < 0 ==> sizes[i] - 0x1_0000_0000_0000_0000 == filesizes[i])
  }

  lemma SizesOnWire(filesizes: seq<Long64>)
    ensures SizesSent(filesizes, OnWire(filesizes))
  {
  }

  // With a description, a request goes to the only token that is offered for it, or among several to the first
  // of the smallest spaces with room. However the files of a put are split in two, that is room for both parts
  // together and one mebibyte more; for the other requests it is room for one mebibyte.
  lemma RequestGoesWhereItFits(op: Operation, input: TransferInput, call: RequestTrace, a: seq<Long64>, b: seq<Long64>)
    requires Requested(op, input, call) && input.spacetokendesc.Some? && call.events != []
    requires a + b == if op == Put then input.filesizes.GetOr([]) else []
    ensures 1 <= |call.lookup| <= 2 && call.lookup[0].TokensExchange? && call.space.Some?
    ensures call.lookup[0].desc == input.spacetokendesc.value
    ensures |call.lookup| == 1 ==>
              var r := call.lookup[0].tokensReply;
              r.TokensBody? && r.tokens.Some? && |r.tokens.value| == 1 && r.tokens.value[0] == call.space.value
    ensures |call.lookup| == 2 && Sum(a) + Sum(b) + 1_048_576 > 0 ==>
              && call.lookup[1].SpaceExchange?
              && var r, n := call.lookup[1].spaceReply, |call.lookup[1].tokens|;
                 && Proper(r, n)
                 && exists i ::
                      && SmallestWithRoom(r, n, Sum(a) + Sum(b) + 1_048_576, i)
                      && r.spaces.value[i].Some? && r.spaces.value[i].value.spaceToken == call.space
  {
    hide Sum, OnWire, Chooses, SmallestWithRoom, Proper, Unused;
    SumOfBoth(a, b);
    LookupByTheAnswers(call.lookup, input.spacetokendesc.value, Sum(a) + Sum(b), call.space);
  }

  // And it is not sent for want of room only if no space has room for all files.
  lemma NoRequestForWantOfRoom(op: Operation, input: TransferInput, call: RequestTrace, a: seq<Long64>, b: seq<Long64>)
    requires Requested(op, input, call) && input.spacetokendesc.Some? && call.events == [] && |call.lookup| == 2
    requires a + b == if op == Put then input.filesizes.GetOr([]) else []
    requires Sum(a) + Sum(b) + 1_048_576 > 0
    ensures call.lookup[1].SpaceExchange?
    ensures var r, n := call.lookup[1].spaceReply, |call.lookup[1].tokens|;
            Proper(r, n) ==> forall i :: 0 <= i < n ==> Unused(r.spaces.value[i]) < Sum(a) + Sum(b) + 1_048_576
  {
    hide Sum, OnWire, Chooses, SmallestWithRoom, Proper, Unused;
    SumOfBoth(a, b);
    LookupByTheAnswers(call.lookup, input.spacetokendesc.value, Sum(a) + Sum(b), call.space);
  }

  // What the caller gets, entry by entry and field by field
  lemma WhatTheCallerGets(output: TransferOutput, op: Operation, r: Reply)
    requires output.Holds(op, r)
    ensures r.Answered() && output.retstatus == r.status
    ensures output.filestatuses != null && output.filestatuses.Length == |r.files.GetOr([])|
    ensures forall i :: 0 <= i < output.filestatuses.Length ==>
              EntryOf(output.filestatuses[i], op, r.files.value[i], r.status.value)
  {
    forall i | 0 <= i < output.filestatuses.Length
      ensures EntryOf(output.filestatuses[i], op, r.files.value[i], r.status.value)
    {
      assert output.filestatuses[i] == PinOf(op, r.files.value[i], r.status.value);
    }
  }

  // p is made from f. A missing entry is blank. The transfer URL is that of the entry, but bring-online has none.
  // The status is that of its code, and 0 without one; the estimate is -1 without one.
  ghost predicate EntryOf(p: PinStatus, op: Operation, f: Option<RawFile>, request: NodeStatus) {
    match f
    case None =>
      p == PinStatus(None, None, OK, None, 0, 0)
    case Some(raw) =>
      && p.surl == raw.surl
      && p.turl == (match op case BringOnline => None case _ => raw.turl)
      && (raw.status.Some? ==>
            && p.status == ToErrno(raw.status.value.code)
            && p.explanation == ExplanationOf(raw.status.value, request, p.status))
      && (raw.status == None ==> p.status == OK && p.explanation == None)
      && (raw.pinTime.Some? ==> p.pinLifetime == raw.pinTime.value)
      && (raw.pinTime == None ==> p.pinLifetime == 0)
      && (raw.estimatedWait.Some? ==> p.estimatedWaitTime == raw.estimatedWait.value)
      && (raw.estimatedWait == None ==> p.estimatedWaitTime == -1)
  }

  // srmv2_status_of_get_request_async_internal
  method StatusOfGetRequest(context: SrmContext, output: TransferOutput, internal: InternalContext, world: World)
    returns (ret: int, ghost events: seq<Event>)
    requires internal.Valid(context, world) && context.Sane()
    modifies output, internal, internal.currentWaittimeSpec, world`now, world`wall, world`naps, world`draws, world`log
    ensures internal.Valid(context, world)
    ensures Paced(old(PaceOf(context, internal, world)), PaceOf(context, internal, world), internal.currentStatus,
              |events|)
    ensures world.log == old(world.log) + events
    ensures Settled(Get, Polling, StatusOf(Get, old(output.token), []), events, internal.currentStatus, ret)
    ensures output.token == old(output.token)
    ensures LastReply(events).Answered() ==> GoesBy(internal, LastReply(events))
    ensures ret >= 1 ==> output.Holds(Get, LastReply(events))
  {
    hide GoesBy, Settle, Repeated, InternalContext.Valid, InternalContext.Left, Paced, PaceOf;
    ghost var before := PaceOf(context, internal, world);
    PacedByNothing(before, internal.currentStatus);
    ghost var first := internal.currentStatus;
    output.retstatus, output.filestatuses := None, null;
    var reply, retstatus;
    reply, retstatus, events := AskUntilAnswered(context, internal, world, StatusOf(Get, output.token, []), true);
    output.retstatus := retstatus;
    if !reply.Answered() {
      UnansweredFails(Get, Polling, reply, false);
      return -1, events;
    }
    ghost var after, asked := PaceOf(context, internal, world), internal.currentStatus;
    ret := SettleGetPoll(internal, output, reply);
    PacedOn(before, before, after, first, asked, internal.currentStatus, |events|);
  }

  // srmv2_status_of_put_request_async_internal
  method StatusOfPutRequest(context: SrmContext, output: TransferOutput, internal: InternalContext, world: World)
    returns (ret: int, ghost events: seq<Event>)
    requires internal.Valid(context, world) && context.Sane()
    modifies output, internal, internal.currentWaittimeSpec, world`now, world`wall, world`naps, world`draws, world`log
    ensures internal.Valid(context, world)
    ensures Paced(old(PaceOf(context, internal, world)), PaceOf(context, internal, world), internal.currentStatus,
              |events|)
    ensures world.log == old(world.log) + events
    ensures Settled(Put, Polling, StatusOf(Put, old(output.token), []), events, internal.currentStatus, ret)
    ensures output.token == old(output.token)
    ensures LastReply(events).Answered() ==> GoesBy(internal, LastReply(events))
    ensures ret >= 1 ==> output.Holds(Put, LastReply(events))
  {
    hide GoesBy, Settle, Repeated, InternalContext.Valid, InternalContext.Left, Paced, PaceOf;
    ghost var before := PaceOf(context, internal, world);
    PacedByNothing(before, internal.currentStatus);
    ghost var first := internal.currentStatus;
    output.retstatus, output.filestatuses := None, null;
    var reply, retstatus;
    reply, retstatus, events := AskUntilAnswered(context, internal, world, StatusOf(Put, output.token, []), true);
    output.retstatus := retstatus;
    if !reply.Answered() {
      UnansweredFails(Put, Polling, reply, false);
      return -1, events;
    }
    ghost var after, asked := PaceOf(context, internal, world), internal.currentStatus;
    ret := SettlePutPoll(internal, output, reply);
    PacedOn(before, before, after, first, asked, internal.currentStatus, |events|);
  }

  // srmv2_status_of_bring_online_async_internal
  method StatusOfBringOnlineRequest(context: SrmContext, input: TransferInput, output: TransferOutput,
                                    internal: InternalContext, world: World)
    returns (ret: int, ghost events: seq<Event>)
    requires internal.Valid(context, world) && context.Sane()
    modifies output, internal, internal.currentWaittimeSpec, world`now, world`wall, world`naps, world`draws, world`log
    ensures internal.Valid(context, world)
    ensures Paced(old(PaceOf(context, internal, world)), PaceOf(context, internal, world), internal.currentStatus,
              |events|)
    ensures world.log == old(world.log) + events
    ensures Settled(BringOnline, Polling, StatusOf(BringOnline, old(output.token), input.surls), events,
              internal.currentStatus, ret)
    ensures output.token == old(output.token)
    ensures LastReply(events).Answered() ==> GoesBy(internal, LastReply(events))
    ensures ret >= 1 ==> output.Holds(BringOnline, LastReply(events))
  {
    hide GoesBy, Settle, Repeated, InternalContext.Valid, InternalContext.Left, Paced, PaceOf;
    ghost var before := PaceOf(context, internal, world);
    PacedByNothing(before, internal.currentStatus);
    ghost var first := internal.currentStatus;
    output.retstatus, output.filestatuses := None, null;
    var reply, retstatus;
    reply, retstatus, events := AskUntilAnswered(context, internal, world,
        StatusOf(BringOnline, output.token, input.surls), true);
    output.retstatus := retstatus;
    if !reply.Answered() {
      UnansweredFails(BringOnline, Polling, reply, false);
      return -1, events;
    }
    ghost var after, asked := PaceOf(context, internal, world), internal.currentStatus;
    ret := SettleBringOnlinePoll(internal, output, reply);
    PacedOn(before, before, after, first, asked, internal.currentStatus, |events|);
  }
}
