// Listing a large directory in several calls: each call resumes at the offset that the one before left.
module ListingResume {
  import opened Common
  import opened StatusCodes
  import opened Wire
  import opened Requests
  import opened SyncCalls
  import opened Listing
  import opened LsRequests

  type Entries = seq<Option<PathDetail>>

  // An answer about one directory
  predicate AboutDirectory(r: Reply) {
    && r.Answered() && r.details.Some? && |r.details.value| == 1
    && r.details.value[0].Some? && r.details.value[0].value.subPaths.SubPaths?
  }

  // The entries of the directory that an answer brings
  function Chunk(r: Reply): Entries {
    if AboutDirectory(r) then r.details.value[0].value.subPaths.entries else []
  }

  // The copy of the answer ends at the directory, because the status of the directory counts as a failure.
  predicate CutOff(r: Reply) {
    AboutDirectory(r) && ErrnoOf(r.details.value[0].value, r.status.value) != OK
  }

  // What is left of the entries in the output
  function Arrived(r: Reply): Entries {
    if CutOff(r) then [] else Chunk(r)
  }

  // The server answers a request about one directory with its entries from the offset on that the request names,
  // at least one of them, and says that there were too many until it has sent the last.
  ghost predicate Serves(dir: Entries, rpc: Rpc, r: Reply) {
    && rpc.Ask? && rpc.op == Ls && AboutDirectory(r)
    && var offset, k := rpc.offset.GetOr(0), |Chunk(r)|;
       && 0 <= offset <= |dir|
       && if r.Code() == SrmTooManyResults then
            1 <= k < |dir| - offset && Chunk(r) == dir[offset..offset + k]
          else
            Chunk(r) == dir[offset..]
  }

  // Successful calls, one after the other, that have taken the offset of the caller from one value to another,
  // each answered as it was asked. None but the last has left 0, which tells the caller that the listing is
  // complete.
  ghost predicate Resumed(dir: Entries, surls: seq<string>, count: int, offset: nat, calls: seq<LsCall>, end: nat)
    decreases |calls|
  {
    if calls == [] then
      end == offset
    else
      && LsDone(surls, count, calls[0]) && calls[0].before.offset == Some(offset) && calls[0].after.offset.Some?
      && calls[0].run.call.events[0].Exchange?
      && Serves(dir, calls[0].run.call.events[0].rpc, AnswerOf(calls[0]))
      && var next := calls[0].after.offset.value;
         && next >= 0
         && if next == 0 then calls[1..] == [] && end == 0 else Resumed(dir, surls, count, next, calls[1..], end)
  }

  ghost function Replies(calls: seq<LsCall>): (replies: seq<Reply>)
    ensures |replies| == |calls| && forall i :: 0 <= i < |calls| ==> replies[i] == AnswerOf(calls[i])
  {
    seq(|calls|, i requires 0 <= i < |calls| => AnswerOf(calls[i]))
  }

  // All that the server has sent, and all that is in the outputs
  function Gathered(replies: seq<Reply>): Entries {
    if replies == [] then [] else Chunk(replies[0]) + Gathered(replies[1..])
  }

  function Collected(replies: seq<Reply>): Entries {
    if replies == [] then [] else Arrived(replies[0]) + Collected(replies[1..])
  }

  // ---------------------------------------------------------------- the answers of the server

  // What a call leaves in the offset: nothing without one, past the entries of a truncated answer about a
  // directory, and else 0
  lemma OffsetMoves(offset: Option<int>, r: Reply)
    ensures OffsetAfter(offset, r).Some? <==> offset.Some?
    ensures offset.Some? ==>
              OffsetAfter(offset, r).value ==
              if AboutDirectory(r) && r.Code() == SrmTooManyResults then offset.value + |Chunk(r)| else 0
  {
  }

  // A call that is served as it asked moves the offset by the entries that it brought, and to 0 exactly if they
  // were the last.
  lemma ZeroMeansComplete(dir: Entries, surls: seq<string>, count: int, offset: nat, c: LsCall)
    requires LsDone(surls, count, c) && c.before.offset == Some(offset) && c.run.call.events[0].Exchange?
    requires Serves(dir, c.run.call.events[0].rpc, AnswerOf(c))
    ensures offset + |Chunk(AnswerOf(c))| <= |dir|
    ensures Chunk(AnswerOf(c)) == dir[offset..offset + |Chunk(AnswerOf(c))|]
    ensures c.after.offset == Some(if TooMany(AnswerOf(c)) then offset + |Chunk(AnswerOf(c))| else 0)
    ensures c.after.offset == Some(0) <==> offset + |Chunk(AnswerOf(c))| == |dir|
    ensures TooMany(AnswerOf(c)) ==> offset < offset + |Chunk(AnswerOf(c))| < |dir|
  {
    hide AsksFor, Repeated, Lists, Extends, ListAt;
    WhatLsSends(surls, count, c.before.offset, c.run.call);
    assert c.run.call.events[0] in c.run.call.events;
    OffsetMoves(c.before.offset, AnswerOf(c));
  }

  // The first of several calls, and the calls that resume after it
  lemma FirstCall(dir: Entries, surls: seq<string>, count: int, offset: nat, calls: seq<LsCall>, end: nat)
    requires Resumed(dir, surls, count, offset, calls, end) && calls != []
    ensures AboutDirectory(AnswerOf(calls[0])) && LsDone(surls, count, calls[0])
    ensures Gathered(Replies(calls)) == Chunk(AnswerOf(calls[0])) + Gathered(Replies(calls[1..]))
    ensures var next := offset + |Chunk(AnswerOf(calls[0]))|;
            && next <= |dir| && Chunk(AnswerOf(calls[0])) == dir[offset..next]
            && if TooMany(AnswerOf(calls[0])) then
                 offset < next < |dir| && Resumed(dir, surls, count, next, calls[1..], end)
               else
                 next == |dir| && calls[1..] == [] && end == 0
  {
    hide LsDone, AboutDirectory, Chunk;
    ZeroMeansComplete(dir, surls, count, offset, calls[0]);
    assert Replies(calls)[1..] == Replies(calls[1..]);
  }

  lemma SlicesJoin(dir: Entries, a: nat, b: nat, c: nat)
    requires a <= b <= c <= |dir|
    ensures dir[a..b] + dir[b..c] == dir[a..c]
  {
  }

  // However the server cuts the directory up, its answers bring the entries in order, each once. They bring
  // all of them when the offset is back at 0, and by then there was no more than one call for each entry.
  lemma {:induction false} ListingIsTiled(dir: Entries, surls: seq<string>, count: int, offset: nat,
                                          calls: seq<LsCall>, end: nat)
    requires Resumed(dir, surls, count, offset, calls, end) && offset <= |dir| && calls != []
    ensures end == 0 || offset < end < |dir|
    ensures Gathered(Replies(calls)) == dir[offset..if end == 0 then |dir| else end]
    ensures |calls| <= if end != 0 then end - offset else if offset == |dir| then 1 else |dir| - offset
    decreases |calls|
  {
    hide Resumed, Gathered, Serves, Chunk, AnswerOf, TooMany;
    var next := offset + |Chunk(AnswerOf(calls[0]))|;
    FirstCall(dir, surls, count, offset, calls, end);
    if calls[1..] == [] {
      NothingGathered(dir, surls, count, next, end);
    } else {
      ListingIsTiled(dir, surls, count, next, calls[1..], end);
      SlicesJoin(dir, offset, next, if end == 0 then |dir| else end);
    }
  }

  lemma NothingGathered(dir: Entries, surls: seq<string>, count: int, offset: nat, end: nat)
    ensures Gathered(Replies([])) == [] && (Resumed(dir, surls, count, offset, [], end) ==> end == offset)
  {
  }

  // From the start: N calls at most, and after them the server has sent the whole directory.
  lemma {:induction false} WholeListing(dir: Entries, surls: seq<string>, count: int, calls: seq<LsCall>)
    requires calls != [] && Resumed(dir, surls, count, 0, calls, 0)
    ensures Gathered(Replies(calls)) == dir && |calls| <= if dir == [] then 1 else |dir|
  {
    ListingIsTiled(dir, surls, count, 0, calls, 0);
  }

  // ---------------------------------------------------------------- the outputs of the calls

  // What the caller finds below the directory, which is the first record of the output
  ghost predicate Finds(c: LsCall, entries: Entries) {
    && AnswerOf(c).Answered()
    && c.after.statuses in c.after.blocks && c.after.blocks[c.after.statuses].Records?
    && |c.after.blocks[c.after.statuses].records| >= 1
    && var top := TopOf(c);
       && top.nbsubpaths == |entries|
       && if top.subpaths == NULL then entries == []
          else ListAt(c.after.blocks, top.subpaths, entries, AnswerOf(c).status.value)
  }

  ghost function TopOf(c: LsCall): Record {
    var m, p := c.after.blocks, c.after.statuses;
    if p in m && m[p].Records? && |m[p].records| >= 1 then m[p].records[0] else BLANK_RECORD
  }

  // The caller finds the entries that an answer brought, unless the answer is cut off; then there is nothing
  // below the directory, although the offset moves past the entries.
  lemma EntriesArrive(surls: seq<string>, count: int, c: LsCall)
    requires LsDone(surls, count, c) && AboutDirectory(AnswerOf(c))
    ensures Finds(c, Arrived(AnswerOf(c)))
    ensures TopOf(c).subpaths == NULL <==> CutOff(AnswerOf(c))
    ensures Arrived(AnswerOf(c)) == Chunk(AnswerOf(c)) <==> CutOff(AnswerOf(c)) ==> Chunk(AnswerOf(c)) == []
  {
    hide ListAt, LsRequested, Extends;
    var m, p, r := c.after.blocks, c.after.statuses, AnswerOf(c);
    var entries := r.details.value;
    ListHolds(m, p, entries, 0, r.status.value);
    var at := p + 1 + EntriesCost(entries[..0], r.status.value);
    assert NodeAt(m, TopOf(c), at, entries[0].value, r.status.value);
    CutOffExactlyAtFailures(m, TopOf(c), at, entries[0].value, r.status.value);
    if !CutOff(r) {
      ListHolds(m, TopOf(c).subpaths, Chunk(r), |Chunk(r)|, r.status.value);
    }
  }

  // Nothing was cut off that brought entries.
  ghost predicate NothingLost(replies: seq<Reply>) {
    forall r :: r in replies && CutOff(r) ==> Chunk(r) == []
  }

  // No more is in the outputs than was sent, and the same exactly if nothing was lost.
  lemma {:induction false} CollectedIsGathered(replies: seq<Reply>)
    ensures |Collected(replies)| <= |Gathered(replies)|
    ensures Collected(replies) == Gathered(replies) <==> NothingLost(replies)
  {
    if replies != [] {
      CollectedIsGathered(replies[1..]);
      var r, rest := replies[0], replies[1..];
      assert replies == [r] + rest;
      assert NothingLost(replies) <==> (CutOff(r) ==> Chunk(r) == []) && NothingLost(rest);
      if NothingLost(replies) {
      } else {
        assert |Arrived(r)| <= |Chunk(r)|;
        SumsDiffer(Arrived(r), Chunk(r), Collected(rest), Gathered(rest));
      }
    }
  }

  lemma SumsDiffer(a: Entries, b: Entries, c: Entries, d: Entries)
    requires |a| <= |b| && |c| <= |d| && (|a| == |b| ==> a == b) && (a == b ==> c != d)
    ensures a + c != b + d
  {
    if |a| == |b| {
      assert (a + c)[|a|..] == c && (b + d)[|b|..] == d;
    } else {
      assert |a + c| < |b + d|;
    }
  }

  lemma {:induction false} AllDone(dir: Entries, surls: seq<string>, count: int, offset: nat,
                                   calls: seq<LsCall>, end: nat)
    requires Resumed(dir, surls, count, offset, calls, end)
    ensures forall i :: 0 <= i < |calls| ==> LsDone(surls, count, calls[i]) && AboutDirectory(AnswerOf(calls[i]))
    decreases |calls|
  {
    hide Resumed, Gathered, AboutDirectory, Chunk, LsDone, AnswerOf, TooMany;
    if calls != [] {
      FirstCall(dir, surls, count, offset, calls, end);
      if calls[1..] != [] {
        AllDone(dir, surls, count, offset + |Chunk(AnswerOf(calls[0]))|, calls[1..], end);
      }
      assert forall i :: 1 <= i < |calls| ==> calls[i] == calls[1..][i - 1];
    }
  }

  // Calls that have gone from offset 0 back to 0: what the caller finds in their outputs, put together, is the
  // directory exactly if no answer that brought entries was cut off.
  lemma {:induction false} WholeListingArrives(dir: Entries, surls: seq<string>, count: int, calls: seq<LsCall>)
    requires calls != [] && Resumed(dir, surls, count, 0, calls, 0)
    ensures forall i :: 0 <= i < |calls| ==> Finds(calls[i], Arrived(AnswerOf(calls[i])))
    ensures Collected(Replies(calls)) == dir <==> NothingLost(Replies(calls))
    ensures |calls| <= if dir == [] then 1 else |dir|
  {
    hide Resumed, LsDone, Finds, Arrived, Collected, Gathered, NothingLost, AboutDirectory, AnswerOf;
    AllDone(dir, surls, count, 0, calls, 0);
    WholeListing(dir, surls, count, calls);
    CollectedIsGathered(Replies(calls));
    forall i | 0 <= i < |calls|
      ensures Finds(calls[i], Arrived(AnswerOf(calls[i])))
    {
      EntriesArrive(surls, count, calls[i]);
    }
  }

  // ---------------------------------------------------------------- an entry that is lost

  function Plain(path: string, status: Option<NodeStatus>, subPaths: SubPaths): Option<PathDetail> {
    Some(PathDetail(Some(path), status, None, None, None, None, subPaths))
  }

  function Answer(code: StatusCode, status: Option<NodeStatus>, entries: Entries): Reply {
    Body(Some(NodeStatus(code, None)), None, None, Some([Plain("/d", status, SubPaths(entries))]))
  }

  // Two calls that are served in turn make up a resumed listing.
  lemma TwoCalls(dir: Entries, surls: seq<string>, count: int, middle: nat, first: LsCall, second: LsCall)
    requires LsDone(surls, count, first) && LsDone(surls, count, second) && middle > 0
    requires first.before.offset == Some(0) && first.after.offset == second.before.offset == Some(middle)
    requires second.after.offset == Some(0)
    requires first.run.call.events[0].Exchange? && Serves(dir, first.run.call.events[0].rpc, AnswerOf(first))
    requires second.run.call.events[0].Exchange? && Serves(dir, second.run.call.events[0].rpc, AnswerOf(second))
    ensures Resumed(dir, surls, count, 0, [first, second], 0)
  {
    hide Serves, TookIn, LsRequested, AnswerOf;
    assert [first, second][1..] == [second] && [second][1..] == [];
    assert Resumed(dir, surls, count, middle, [second], 0);
  }

  // A directory of two entries, listed in two calls. The first answer says, rightly, that the directory itself
  // is fine. The caller finds only the second entry.
  lemma LostEntry(surls: seq<string>, count: int, first: LsCall, second: LsCall)
    requires LsDone(surls, count, first) && LsDone(surls, count, second)
    requires first.before.offset == Some(0) && second.before.offset == Some(1)
    requires AnswerOf(first) ==
               Answer(SrmTooManyResults, Some(NodeStatus(SrmSuccess, None)), [Plain("/d/a", None, NoSubPaths)])
    requires AnswerOf(second) == Answer(SrmSuccess, None, [Plain("/d/b", None, NoSubPaths)])
    ensures var a, b := Plain("/d/a", None, NoSubPaths), Plain("/d/b", None, NoSubPaths);
            && first.after.offset == Some(1) && second.after.offset == Some(0)
            && Resumed([a, b], surls, count, 0, [first, second], 0)
            && Finds(first, []) && Finds(second, [b])
            && Collected([AnswerOf(first), AnswerOf(second)]) == [b]
  {
    hide Finds, Extends, Lists, ListAt, ToErrno, LsRequested, Resumed, AnswerOf, OffsetAfter;
    var a, b := Plain("/d/a", None, NoSubPaths), Plain("/d/b", None, NoSubPaths);
    CodesOfErrnos(SrmSuccess);
    EntriesArrive(surls, count, first);
    EntriesArrive(surls, count, second);
    WhatLsSends(surls, count, Some(0), first.run.call);
    WhatLsSends(surls, count, Some(1), second.run.call);
    OffsetMoves(Some(0), AnswerOf(first));
    OffsetMoves(Some(1), AnswerOf(second));
    assert first.run.call.events[0] in first.run.call.events && second.run.call.events[0] in second.run.call.events;
    assert Serves([a, b], first.run.call.events[0].rpc, AnswerOf(first));
    assert Serves([a, b], second.run.call.events[0].rpc, AnswerOf(second));
    TwoCalls([a, b], surls, count, 1, first, second);
    assert Collected([AnswerOf(second)]) == [b];
  }
}
