// What lies outside the client: the server behind the SOAP call table, the clocks, the sleeping
// calls and the random number generator. The answers of the server and the time that passes are
// chosen arbitrarily, so that a statement about a world is a statement about every server and every
// pair of monotone clocks.
module Wire {
  import opened Common
  import opened StatusCodes
  import opened TimeUtils

  datatype Operation = Ls | Get | Put | BringOnline

  // A request about files
  datatype Rpc =
    | Ask(op: Operation, surls: seq<string>, sizes: seq<int>, space: Option<string>,
          offset: Option<int>, count: Option<int>)
    | StatusOf(op: Operation, token: Option<string>, surls: seq<string>)
    | AbortRequest(aborted: string)

  // One entry of the file array in an answer about a get, a put or a bring-online request.
  datatype RawFile = RawFile(surl: Option<string>, turl: Option<string>, status: Option<NodeStatus>,
                             pinTime: Option<int>, estimatedWait: Option<CInt>)

  // One node of the listing in an answer about an ls request.
  datatype PathDetail = PathDetail(path: Option<string>, status: Option<NodeStatus>, size: Option<int>,
                                   checkSumType: Option<string>, checkSumValue: Option<string>,
                                   spaceTokens: Option<seq<Option<string>>>,
                                   subPaths: SubPaths)

  datatype SubPaths = NoSubPaths | SubPaths(entries: seq<Option<PathDetail>>)

  // An answer to Ask, StatusOf or AbortRequest. SoapFault is a call that returned non-zero, NoBody
  // one whose response structure was NULL.
  datatype Reply =
    | SoapFault
    | NoBody
    | Body(status: Option<NodeStatus>, token: Option<string>,
           files: Option<seq<Option<RawFile>>>, details: Option<seq<Option<PathDetail>>>)
  {
    // The answer carries a return status: it is more than a communication failure.
    predicate Answered() {
      Body? && status.Some?
    }

    function Code(): StatusCode
      requires Answered()
    {
      status.value.code
    }
  }

  datatype TokensReply =
    | TokensFault
    | TokensNoBody
    | TokensBody(status: Option<StatusCode>, tokens: Option<seq<string>>)

  // Policies that are none of those named are unknown.
  datatype RetentionPolicy = UnknownPolicy | ReplicaPolicy | OutputPolicy | CustodialPolicy

  datatype AccessLatency = UnknownLatency | OnlineLatency | NearlineLatency

  datatype PolicyInfo = PolicyInfo(retention: RetentionPolicy, latency: Option<AccessLatency>)

  datatype RawSpace = RawSpace(status: Option<StatusCode>, spaceToken: Option<string>,
                               owner: Option<string>, totalSize: Option<ULong64>,
                               guaranteedSize: Option<ULong64>, unusedSize: Option<ULong64>,
                               lifetimeAssigned: Option<CInt>, lifetimeLeft: Option<CInt>,
                               policyInfo: Option<PolicyInfo>)

  datatype SpaceReply =
    | SpaceFault
    | SpaceNoBody
    | SpaceBody(status: Option<StatusCode>, spaces: Option<seq<Option<RawSpace>>>)

  // A request that was sent, and its answer
  datatype Event =
    | Exchange(rpc: Rpc, reply: Reply)
    | TokensExchange(desc: string, tokensReply: TokensReply)
    | SpaceExchange(tokens: seq<string>, spaceReply: SpaceReply)

  class World {
    const jitter: nat      // how late, at most, a sleep ends or a clock is read, in nanoseconds
    var now: nat           // the monotone clock, in nanoseconds
    var wall: nat          // the clock of time(NULL), in seconds
    var log: seq<Event>    // what went over the wire so far
    var naps: seq<nat>     // the sleeps asked for so far, in nanoseconds
    var draws: seq<nat>    // the random numbers drawn so far

    constructor (jitter: nat, now: nat, wall: nat)
      ensures this.jitter == jitter && this.now == now && this.wall == wall && log == []
      ensures naps == [] && draws == []
    {
      this.jitter, this.now, this.wall := jitter, now, wall;
      log, naps, draws := [], [], [];
    }

    // clock_gettime(CLOCK_MONOTONIC, ts)
    method GetTime(ts: Timespec)
      modifies this`now, this`wall, ts
      ensures old(now) <= now <= old(now) + jitter && old(wall) <= wall
      ensures ts.tv.Nanos() == now && 0 <= ts.tv.nsec < NANOS
    {
      var late: nat, seconds: nat :| late <= jitter && 0 <= seconds;
      now, wall := now + late, wall + seconds;
      ts.tv := TimeVal(now / 1_000_000_000, now % 1_000_000_000);
    }

    // time(NULL)
    method Time() returns (t: nat)
      modifies this`now, this`wall
      ensures old(now) <= now && old(wall) <= wall == t
    {
      Pass();
      t := wall;
    }

    // Any amount of time goes by.
    method Pass()
      modifies this`now, this`wall
      ensures old(now) <= now && old(wall) <= wall
    {
      var nanos: nat, seconds: nat :| 0 <= nanos && 0 <= seconds;
      now, wall := now + nanos, wall + seconds;
    }

    // usleep, which lasts at least as long as asked
    method Usleep(usec: nat)
      modifies this`now, this`wall, this`naps
      ensures old(now) + 1000 * usec <= now <= old(now) + 1000 * usec + jitter && old(wall) <= wall
      ensures naps == old(naps) + [1000 * usec]
    {
      var late: nat, seconds: nat :| late <= jitter && 0 <= seconds;
      now, wall := now + 1000 * usec + late, wall + seconds;
      naps := naps + [1000 * usec];
    }

    // sleep, which lasts at least as long as asked
    method Sleep(seconds: nat)
      modifies this`now, this`wall, this`naps
      ensures old(now) + 1_000_000_000 * seconds <= now && old(wall) + seconds <= wall
      ensures naps == old(naps) + [1_000_000_000 * seconds]
    {
      Pass();
      now, wall := now + 1_000_000_000 * seconds, wall + seconds;
      naps := naps + [1_000_000_000 * seconds];
    }

    // rand_r
    method Random() returns (r: nat)
      modifies this`draws
      ensures draws == old(draws) + [r]
    {
      r :| 0 <= r;
      draws := draws + [r];
    }

    // Any of the calls answered by a Reply
    method Call(rpc: Rpc) returns (r: Reply)
      modifies this`now, this`wall, this`log
      ensures old(now) <= now && old(wall) <= wall
      ensures log == old(log) + [Exchange(rpc, r)]
    {
      Pass();
      r := *;
      log := log + [Exchange(rpc, r)];
    }

    // call_srm2__srmGetSpaceTokens
    method CallGetSpaceTokens(desc: string) returns (r: TokensReply)
      modifies this`now, this`wall, this`log
      ensures old(now) <= now && old(wall) <= wall
      ensures log == old(log) + [TokensExchange(desc, r)]
    {
      Pass();
      r := *;
      log := log + [TokensExchange(desc, r)];
    }

    // call_srm2__srmGetSpaceMetaData. The client relies on one entry for each token it asked about.
    method CallGetSpaceMetaData(tokens: seq<string>) returns (r: SpaceReply)
      modifies this`now, this`wall, this`log
      ensures old(now) <= now && old(wall) <= wall
      ensures log == old(log) + [SpaceExchange(tokens, r)]
      ensures r.SpaceBody? && r.spaces.Some? && |r.spaces.value| >= 1 ==> |r.spaces.value| >= |tokens|
    {
      Pass();
      r := *;
      if r.SpaceBody? && r.spaces.Some? && |r.spaces.value| < |tokens| {
        r := r.(spaces := None);
      }
      log := log + [SpaceExchange(tokens, r)];
    }
  }
}
