// The metadata tree of a listing: its copy into freshly allocated blocks, and their release.
module Listing {
  import opened Common
  import opened StatusCodes
  import opened Wire

  // ---------------------------------------------------------------- memory

  // Blocks are numbered in the order of their allocation; 0 is NULL.
  type Ptr = nat
  const NULL: Ptr := 0

  datatype Block = Text(text: string) | Message(explanation: Explanation) | Pointers(ptrs: seq<Ptr>)
    | Records(records: seq<Record>)

  // srmv2_mdfilestatus
  datatype Record = Record(surl: Ptr, status: Errno, explanation: Ptr, size: int,
                           checksumtype: Ptr, checksum: Ptr, spacetokens: Ptr, nbspacetokens: nat,
                           subpaths: Ptr, nbsubpaths: nat)

  // A record as calloc leaves it
  const BLANK_RECORD := Record(NULL, OK, NULL, 0, NULL, NULL, NULL, 0, NULL, 0)

  type Memory = map<Ptr, Block>

  // From m to m', exactly the blocks from..to were allocated, and nothing that was there has changed.
  ghost predicate Extends(m: Memory, m': Memory, from: Ptr, to: Ptr) {
    && from <= to
    && (forall a :: a in m ==> a in m' && m'[a] == m[a])
    && (forall a :: a in m' ==> a in m || from <= a < to)
  }

  class Heap {
    var blocks: Memory
    var next: Ptr

    ghost predicate Valid()
      reads this
    {
      next > 0 && forall p :: p in blocks ==> 0 < p < next
    }

    constructor ()
      ensures Valid() && blocks == map[]
    {
      blocks, next := map[], 1;
    }

    // malloc, calloc or strdup, which are assumed to succeed
    method Alloc(b: Block) returns (p: Ptr)
      requires Valid()
      modifies this
      ensures Valid() && p == old(next) && next == p + 1 && p != NULL && p !in old(blocks)
      ensures blocks == old(blocks)[p := b] && Extends(old(blocks), blocks, p, next)
    {
      p := next;
      blocks, next := blocks[p := b], next + 1;
    }

    // free, of a block that is allocated, or of NULL
    method Free(p: Ptr)
      requires Valid() && (p == NULL || p in blocks)
      modifies this`blocks
      ensures Valid() && blocks == old(blocks) - {p}
    {
      blocks := blocks - {p};
    }
  }

  // ---------------------------------------------------------------- what a copy looks like

  // An entry whose status is a failure is pruned. Under a truncated listing every status counts as one.
  function ErrnoOf(d: PathDetail, request: NodeStatus): Errno {
    if d.status == None then OK else if request.code == SrmTooManyResults then EFBIG else ToErrno(d.status.value.code)
  }

  predicate Pruned(d: PathDetail, request: NodeStatus) {
    ErrnoOf(d, request) != OK
  }

  predicate HasCheckSum(d: PathDetail) {
    d.checkSumType.Some? && d.checkSumValue.Some?
  }

  predicate HasTokens(d: PathDetail) {
    d.spaceTokens.Some? && d.spaceTokens.value != []
  }

  // How many blocks each part of a copy takes
  function TextCost(o: Option<string>): nat {
    if o == None then 0 else 1
  }

  function TokenCost(ts: seq<Option<string>>): nat {
    if ts == [] then 0 else TokenCost(ts[..|ts| - 1]) + TextCost(ts[|ts| - 1])
  }

  function TokensCost(d: PathDetail): nat {
    if HasTokens(d) then 1 + TokenCost(d.spaceTokens.value) else 0
  }

  function CheckSumCost(d: PathDetail): nat {
    if HasCheckSum(d) then 2 else 0
  }

  function DetailsCost(d: PathDetail, request: NodeStatus): nat
    decreases d, 0
  {
    CheckSumCost(d) + TokensCost(d) + if d.subPaths.SubPaths? then ListCost(d.subPaths.entries, request) else 0
  }

  function NodeCost(d: PathDetail, request: NodeStatus): nat
    decreases d, 1
  {
    TextCost(d.path) + if Pruned(d, request) then 1 else DetailsCost(d, request)
  }

  function EntryCost(e: Option<PathDetail>, request: NodeStatus): nat
    decreases e
  {
    if e == None then 0 else NodeCost(e.value, request)
  }

  function EntriesCost(ds: seq<Option<PathDetail>>, request: NodeStatus): nat
    decreases ds, 0
  {
    if ds == [] then 0 else EntriesCost(ds[..|ds| - 1], request) + EntryCost(ds[|ds| - 1], request)
  }

  function ListCost(ds: seq<Option<PathDetail>>, request: NodeStatus): nat
    decreases ds, 1
  {
    1 + EntriesCost(ds, request)
  }

  // ---------------------------------------------------------------- what a copy looks like in memory

  // The pointer is NULL without a text, else it points to block `at`, which holds a copy of it.
  predicate TextAt(m: Memory, p: Ptr, at: Ptr, o: Option<string>) {
    if o == None then p == NULL else p == at && at in m && m[at] == Text(o.value)
  }

  ghost predicate TokensAt(m: Memory, ptrs: seq<Ptr>, at: Ptr, ts: seq<Option<string>>) {
    |ptrs| == |ts| && forall j :: 0 <= j < |ts| ==> TextAt(m, ptrs[j], at + TokenCost(ts[..j]), ts[j])
  }

  ghost predicate CheckSumAt(m: Memory, r: Record, at: Ptr, d: PathDetail) {
    if HasCheckSum(d) then
      TextAt(m, r.checksumtype, at, d.checkSumType) && TextAt(m, r.checksum, at + 1, d.checkSumValue)
    else
      r.checksumtype == NULL && r.checksum == NULL
  }

  ghost predicate SpaceTokensAt(m: Memory, r: Record, at: Ptr, d: PathDetail) {
    if HasTokens(d) then
      && r.spacetokens == at && at in m && m[at].Pointers? && r.nbspacetokens == |d.spaceTokens.value|
      && TokensAt(m, m[at].ptrs, at + 1, d.spaceTokens.value)
    else
      r.spacetokens == NULL && r.nbspacetokens == 0
  }

  ghost predicate SubPathsAt(m: Memory, r: Record, at: Ptr, d: PathDetail, request: NodeStatus)
    decreases d, 0
  {
    if d.subPaths.SubPaths? then
      r.nbsubpaths == |d.subPaths.entries| && r.subpaths == at && ListAt(m, at, d.subPaths.entries, request)
    else
      r.subpaths == NULL && r.nbsubpaths == 0
  }

  // What the record holds of an entry that is not pruned, besides its path
  ghost predicate DetailsAt(m: Memory, r: Record, at: Ptr, d: PathDetail, request: NodeStatus)
    decreases d, 1
  {
    && r.size == d.size.GetOr(0)
    && CheckSumAt(m, r, at, d)
    && SpaceTokensAt(m, r, at + CheckSumCost(d), d)
    && SubPathsAt(m, r, at + CheckSumCost(d) + TokensCost(d), d, request)
  }

  // The record is a copy of d, made of blocks from `at` on. It is pruned exactly if its status is a failure.
  ghost predicate NodeAt(m: Memory, r: Record, at: Ptr, d: PathDetail, request: NodeStatus)
    decreases d, 2
  {
    && TextAt(m, r.surl, at, d.path)
    && r.status == ErrnoOf(d, request)
    && var a := at + TextCost(d.path);
       if Pruned(d, request) then
         && r == BLANK_RECORD.(surl := r.surl, status := r.status, explanation := a)
         && a in m && m[a] == Message(ExplanationOf(d.status.value, request, r.status).value)
       else
         r.explanation == NULL && DetailsAt(m, r, a, d, request)
  }

  ghost predicate EntryAt(m: Memory, r: Record, at: Ptr, e: Option<PathDetail>, request: NodeStatus)
    decreases e
  {
    if e == None then r == BLANK_RECORD else NodeAt(m, r, at, e.value, request)
  }

  // Block p is an array of copies of the entries, position by position; the blocks of each entry follow
  // those of the entries before it.
  ghost predicate ListAt(m: Memory, p: Ptr, ds: seq<Option<PathDetail>>, request: NodeStatus)
    decreases ds
  {
    && p in m && m[p].Records? && |m[p].records| == |ds|
    && forall i :: 0 <= i < |ds| ==> EntryAt(m, m[p].records[i], p + 1 + EntriesCost(ds[..i], request), ds[i], request)
  }

  // A record is cut off exactly at a failure, which every status is in a truncated listing: it has an
  // explanation and nothing below it. Otherwise it has all its sub-paths, in their places.
  lemma CutOffExactlyAtFailures(m: Memory, r: Record, at: Ptr, d: PathDetail, request: NodeStatus)
    requires NodeAt(m, r, at, d, request) && NULL !in m
    ensures r.status == OK <==>
              d.status == None || (request.code != SrmTooManyResults && ToErrno(d.status.value.code) == OK)
    ensures request.code == SrmTooManyResults && d.status.Some? ==> r.status == EFBIG
    ensures r.explanation != NULL <==> r.status != OK
    ensures r.status != OK ==>
              r.subpaths == r.spacetokens == r.checksum == NULL && r.nbsubpaths == r.nbspacetokens == r.size == 0
    ensures r.status == OK ==>
              match d.subPaths
              case NoSubPaths => r.subpaths == NULL && r.nbsubpaths == 0
              case SubPaths(entries) => r.nbsubpaths == |entries| && ListAt(m, r.subpaths, entries, request)
  {
    hide ListAt, TextAt, CheckSumAt, SpaceTokensAt, ExplanationOf, ToErrno, CheckSumCost, TokensCost;
    if Pruned(d, request) {
      assert r.explanation in m;
    } else {
      var a := at + TextCost(d.path);
      assert DetailsAt(m, r, a, d, request);
      assert SubPathsAt(m, r, a + CheckSumCost(d) + TokensCost(d), d, request);
    }
  }

  // The array of a copy has a record for each entry: a blank one for a missing entry, and else one made of it.
  lemma PositionByPosition(m: Memory, p: Ptr, ds: seq<Option<PathDetail>>, i: nat, request: NodeStatus)
    requires ListAt(m, p, ds, request) && i < |ds|
    ensures p in m && m[p].Records? && |m[p].records| == |ds|
    ensures ds[i] == None ==> m[p].records[i] == Record(NULL, OK, NULL, 0, NULL, NULL, NULL, 0, NULL, 0)
    ensures ds[i].Some? ==>
              NodeAt(m, m[p].records[i], p + 1 + EntriesCost(ds[..i], request), ds[i].value, request)
  {
    hide NodeAt, EntriesCost;
    ListHolds(m, p, ds, i, request);
    assert EntryAt(m, m[p].records[i], p + 1 + EntriesCost(ds[..i], request), ds[i], request);
  }

  // What a record holds of its entry, field by field
  lemma RecordFieldByField(m: Memory, r: Record, at: Ptr, d: PathDetail, request: NodeStatus)
    requires NodeAt(m, r, at, d, request) && NULL !in m
    ensures TextIn(m, r.surl, d.path)
    ensures r.status != OK ==>
              && d.status.Some? && r.explanation in m && m[r.explanation].Message?
              && Some(m[r.explanation].explanation) == ExplanationOf(d.status.value, request, r.status)
    ensures r.status == OK ==> r.explanation == NULL && r.size == if d.size.Some? then d.size.value else 0
    ensures r.status == OK && d.checkSumType.Some? && d.checkSumValue.Some? ==>
              TextIn(m, r.checksumtype, d.checkSumType) && TextIn(m, r.checksum, d.checkSumValue)
    ensures d.checkSumType == None || d.checkSumValue == None ==> r.checksumtype == r.checksum == NULL
    ensures r.status == OK && d.spaceTokens.GetOr([]) != [] ==>
              var ts := d.spaceTokens.value;
              && r.nbspacetokens == |ts| && r.spacetokens in m && m[r.spacetokens].Pointers?
              && |m[r.spacetokens].ptrs| == |ts|
              && forall j :: 0 <= j < |ts| ==> TextIn(m, m[r.spacetokens].ptrs[j], ts[j])
    ensures d.spaceTokens.GetOr([]) == [] ==> r.spacetokens == NULL && r.nbspacetokens == 0
  {
    hide ListAt, ExplanationOf, ToErrno, SubPathsAt, EntriesCost, TokensAt, CheckSumAt, SpaceTokensAt;
    if Pruned(d, request) {
      SourceOfExplanation(d.status.value, request, r.status);
    } else {
      var a := at + TextCost(d.path);
      DetailsHold(m, r, a, d, request);
      CheckSumHolds(m, r, a, d);
      SpaceTokensHold(m, r, a + CheckSumCost(d), d);
    }
  }

  lemma CheckSumHolds(m: Memory, r: Record, at: Ptr, d: PathDetail)
    requires CheckSumAt(m, r, at, d)
    ensures if d.checkSumType.Some? && d.checkSumValue.Some? then
              TextIn(m, r.checksumtype, d.checkSumType) && TextIn(m, r.checksum, d.checkSumValue)
            else
              r.checksumtype == r.checksum == NULL
  {
  }

  lemma SpaceTokensHold(m: Memory, r: Record, at: Ptr, d: PathDetail)
    requires SpaceTokensAt(m, r, at, d)
    ensures var ts := d.spaceTokens.GetOr([]);
            if ts == [] then
              r.spacetokens == NULL && r.nbspacetokens == 0
            else
              && r.nbspacetokens == |ts| && r.spacetokens in m && m[r.spacetokens].Pointers?
              && |m[r.spacetokens].ptrs| == |ts|
              && forall j :: 0 <= j < |ts| ==> TextIn(m, m[r.spacetokens].ptrs[j], ts[j])
  {
    if HasTokens(d) {
      TokensHold(m, m[r.spacetokens].ptrs, r.spacetokens + 1, d.spaceTokens.value);
    }
  }

  lemma DetailsHold(m: Memory, r: Record, at: Ptr, d: PathDetail, request: NodeStatus)
    requires DetailsAt(m, r, at, d, request)
    ensures r.size == (if d.size.Some? then d.size.value else 0) && CheckSumAt(m, r, at, d)
    ensures SpaceTokensAt(m, r, at + CheckSumCost(d), d)
  {
    hide ListAt, CheckSumAt, SpaceTokensAt;
  }

  // The pointer is NULL without a text, and else points to a block with it.
  ghost predicate TextIn(m: Memory, p: Ptr, text: Option<string>) {
    match text
    case None => p == NULL
    case Some(t) => p in m && m[p] == Text(t)
  }

  lemma TokensHold(m: Memory, ptrs: seq<Ptr>, at: Ptr, ts: seq<Option<string>>)
    requires TokensAt(m, ptrs, at, ts)
    ensures |ptrs| == |ts| && forall j :: 0 <= j < |ts| ==> TextIn(m, ptrs[j], ts[j])
  {
    hide TokenCost;
    forall j | 0 <= j < |ts|
      ensures TextIn(m, ptrs[j], ts[j])
    {
      assert TextAt(m, ptrs[j], at + TokenCost(ts[..j]), ts[j]);
    }
  }

  // The memory is the same on the blocks from..to, as far as they are allocated before.
  ghost predicate Agree(m: Memory, m': Memory, from: Ptr, to: Ptr) {
    forall a :: a in m && from <= a < to ==> a in m' && m'[a] == m[a]
  }

  lemma {:induction false} TokenCostGrows(ts: seq<Option<string>>, j: nat)
    requires j < |ts|
    ensures TokenCost(ts[..j]) + TextCost(ts[j]) <= TokenCost(ts)
  {
    if j < |ts| - 1 {
      assert ts[..|ts| - 1][..j] == ts[..j];
      TokenCostGrows(ts[..|ts| - 1], j);
    }
  }

  lemma {:induction false} EntriesCostGrows(ds: seq<Option<PathDetail>>, i: nat, request: NodeStatus)
    requires i < |ds|
    ensures EntriesCost(ds[..i], request) + EntryCost(ds[i], request) <= EntriesCost(ds, request)
    decreases |ds|
  {
    if i < |ds| - 1 {
      assert ds[..|ds| - 1][..i] == ds[..i];
      EntriesCostGrows(ds[..|ds| - 1], i, request);
    }
  }

  lemma TokensFrame(m: Memory, m': Memory, ptrs: seq<Ptr>, at: Ptr, ts: seq<Option<string>>)
    requires TokensAt(m, ptrs, at, ts) && Agree(m, m', at, at + TokenCost(ts))
    ensures TokensAt(m', ptrs, at, ts)
  {
    forall j | 0 <= j < |ts|
      ensures TextAt(m', ptrs[j], at + TokenCost(ts[..j]), ts[j])
    {
      TokenCostGrows(ts, j);
      assert TextAt(m, ptrs[j], at + TokenCost(ts[..j]), ts[j]);
    }
  }

  lemma {:induction false} NodeFrame(m: Memory, m': Memory, r: Record, at: Ptr, d: PathDetail, request: NodeStatus)
    requires NodeAt(m, r, at, d, request) && Agree(m, m', at, at + NodeCost(d, request))
    ensures NodeAt(m', r, at, d, request)
    decreases d
  {
    hide ListAt, CheckSumAt, SpaceTokensAt, TokensCost, CheckSumCost, ListCost, ErrnoOf;
    if !Pruned(d, request) {
      var a := at + TextCost(d.path);
      var c := a + CheckSumCost(d) + TokensCost(d);
      assert DetailsAt(m, r, a, d, request) && SubPathsAt(m, r, c, d, request);
      CheckSumFrame(m, m', r, a, d);
      SpaceTokensFrame(m, m', r, a + CheckSumCost(d), d);
      if d.subPaths.SubPaths? {
        ListFrame(m, m', c, d.subPaths.entries, request);
      }
      assert SubPathsAt(m', r, c, d, request) && DetailsAt(m', r, a, d, request);
    }
  }

  lemma CheckSumFrame(m: Memory, m': Memory, r: Record, at: Ptr, d: PathDetail)
    requires CheckSumAt(m, r, at, d) && Agree(m, m', at, at + CheckSumCost(d))
    ensures CheckSumAt(m', r, at, d)
  {
  }

  lemma SpaceTokensFrame(m: Memory, m': Memory, r: Record, at: Ptr, d: PathDetail)
    requires SpaceTokensAt(m, r, at, d) && Agree(m, m', at, at + TokensCost(d))
    ensures SpaceTokensAt(m', r, at, d)
  {
    if HasTokens(d) {
      TokensFrame(m, m', m[at].ptrs, at + 1, d.spaceTokens.value);
    }
  }

  lemma {:induction false} EntryFrame(m: Memory, m': Memory, r: Record, at: Ptr, e: Option<PathDetail>,
                                      request: NodeStatus)
    requires EntryAt(m, r, at, e, request) && Agree(m, m', at, at + EntryCost(e, request))
    ensures EntryAt(m', r, at, e, request)
    decreases e
  {
    if e.Some? {
      NodeFrame(m, m', r, at, e.value, request);
    }
  }

  // A copy only depends on its own blocks.
  lemma {:induction false} ListFrame(m: Memory, m': Memory, p: Ptr, ds: seq<Option<PathDetail>>, request: NodeStatus)
    requires ListAt(m, p, ds, request) && Agree(m, m', p, p + ListCost(ds, request))
    ensures ListAt(m', p, ds, request)
    decreases ds
  {
    forall i | 0 <= i < |ds|
      ensures EntryAt(m', m[p].records[i], p + 1 + EntriesCost(ds[..i], request), ds[i], request)
    {
      EntriesCostGrows(ds, i, request);
      EntryFrame(m, m', m[p].records[i], p + 1 + EntriesCost(ds[..i], request), ds[i], request);
    }
  }

  // ---------------------------------------------------------------- copying

  twostate predicate Grown(heap: Heap)
    reads heap
  {
    heap.Valid() && Extends(old(heap.blocks), heap.blocks, old(heap.next), heap.next)
  }

  lemma ExtendsFurther(m: Memory, m': Memory, m'': Memory, a: Ptr, b: Ptr, c: Ptr)
    requires Extends(m, m', a, b) && Extends(m', m'', b, c)
    ensures Extends(m, m'', a, c)
  {
  }

  // Writing into a block that is new keeps what was there before.
  lemma ExtendsWritten(m: Memory, m': Memory, a: Ptr, b: Ptr, p: Ptr, block: Block)
    requires Extends(m, m', a, b) && p in m' && p !in m
    ensures Extends(m, m'[p := block], a, b)
  {
  }

  // strdup, of a string or of NULL
  method CopyText(heap: Heap, o: Option<string>) returns (p: Ptr)
    requires heap.Valid()
    modifies heap
    ensures Grown(heap) && heap.next == old(heap.next) + TextCost(o)
    ensures TextAt(heap.blocks, p, old(heap.next), o)
  {
    p := NULL;
    if o.Some? {
      p := heap.Alloc(Text(o.value));
    }
  }

  // The first j tokens are copied, and the other pointers are still NULL.
  ghost predicate TokensSoFar(m: Memory, p: Ptr, ts: seq<Option<string>>, j: nat)
    requires j <= |ts|
  {
    && p in m && m[p].Pointers? && |m[p].ptrs| == |ts|
    && (forall k :: 0 <= k < j ==> TextAt(m, m[p].ptrs[k], p + 1 + TokenCost(ts[..k]), ts[k]))
    && (forall k :: j <= k < |ts| ==> m[p].ptrs[k] == NULL)
  }

  lemma StoreToken(m: Memory, m': Memory, p: Ptr, ts: seq<Option<string>>, j: nat, t: Ptr, a: Ptr, b: Ptr)
    requires j < |ts| && TokensSoFar(m, p, ts, j) && Extends(m, m', a, b)
    requires TextAt(m', t, p + 1 + TokenCost(ts[..j]), ts[j])
    ensures p in m' && m'[p].Pointers? && |m'[p].ptrs| == |ts|
    ensures TokensSoFar(m'[p := Pointers(m'[p].ptrs[j := t])], p, ts, j + 1)
  {
    hide TokenCost;
    var m'' := m'[p := Pointers(m'[p].ptrs[j := t])];
    forall k | 0 <= k < j + 1
      ensures TextAt(m'', m''[p].ptrs[k], p + 1 + TokenCost(ts[..k]), ts[k])
    {
      if k < j {
        TextFrame(m, m'', m[p].ptrs[k], p + 1 + TokenCost(ts[..k]), ts[k], p);
      } else {
        TextFrame(m', m'', t, p + 1 + TokenCost(ts[..k]), ts[k], p);
      }
    }
  }

  lemma TextFrame(m: Memory, m': Memory, t: Ptr, at: Ptr, o: Option<string>, p: Ptr)
    requires TextAt(m, t, at, o) && at > p && forall a :: a in m && a != p ==> a in m' && m'[a] == m[a]
    ensures TextAt(m', t, at, o)
  {
  }

  // The part of copy_mdfilestatuses that copies the space tokens of an entry
  method CopyTokens(heap: Heap, ts: seq<Option<string>>) returns (p: Ptr)
    requires heap.Valid()
    modifies heap
    ensures Grown(heap) && heap.next == old(heap.next) + 1 + TokenCost(ts) && p == old(heap.next)
    ensures p in heap.blocks && heap.blocks[p].Pointers? && TokensAt(heap.blocks, heap.blocks[p].ptrs, p + 1, ts)
  {
    hide Extends, TokensSoFar, TextAt;
    p := heap.Alloc(Pointers(seq(|ts|, _ => NULL)));
    NoTokensYet(heap.blocks, p, ts);
    for j := 0 to |ts|
      invariant heap.Valid() && heap.next == p + 1 + TokenCost(ts[..j])
      invariant Extends(old(heap.blocks), heap.blocks, p, heap.next) && TokensSoFar(heap.blocks, p, ts, j)
    {
      ghost var m, next := heap.blocks, heap.next;
      var t := CopyText(heap, ts[j]);
      StoreToken(m, heap.blocks, p, ts, j, t, next, heap.next);
      ExtendsFurther(old(heap.blocks), m, heap.blocks, p, next, heap.next);
      ExtendsWritten(old(heap.blocks), heap.blocks, p, heap.next, p, Pointers(heap.blocks[p].ptrs[j := t]));
      heap.blocks := heap.blocks[p := Pointers(heap.blocks[p].ptrs[j := t])];
      assert ts[..j + 1][..j] == ts[..j];
    }
    AllTokens(heap.blocks, p, ts);
  }

  lemma NoTokensYet(m: Memory, p: Ptr, ts: seq<Option<string>>)
    requires p in m && m[p] == Pointers(seq(|ts|, _ => NULL))
    ensures TokensSoFar(m, p, ts, 0)
  {
  }

  lemma AllTokens(m: Memory, p: Ptr, ts: seq<Option<string>>)
    requires TokensSoFar(m, p, ts, |ts|)
    ensures p in m && m[p].Pointers? && TokensAt(m, m[p].ptrs, p + 1, ts) && ts[..|ts|] == ts
  {
  }

  lemma ExtendsAgrees(m: Memory, m': Memory, a: Ptr, b: Ptr, from: Ptr, to: Ptr)
    requires Extends(m, m', a, b)
    ensures Agree(m, m', from, to)
  {
  }

  // The parts of the loop body of copy_mdfilestatuses that copy a checksum and the array of space tokens
  method CopyCheckSum(heap: Heap, d: PathDetail, r: Record) returns (r': Record)
    requires heap.Valid() && r.checksumtype == r.checksum == NULL
    modifies heap
    ensures Grown(heap) && heap.next == old(heap.next) + CheckSumCost(d)
    ensures r' == r.(checksumtype := r'.checksumtype, checksum := r'.checksum)
    ensures CheckSumAt(heap.blocks, r', old(heap.next), d)
  {
    r' := r;
    if d.checkSumType.Some? && d.checkSumValue.Some? {
      var checksumtype := CopyText(heap, d.checkSumType);
      var checksum := CopyText(heap, d.checkSumValue);
      r' := r'.(checksumtype := checksumtype, checksum := checksum);
    }
  }

  method CopySpaceTokens(heap: Heap, d: PathDetail, r: Record) returns (r': Record)
    requires heap.Valid() && r.spacetokens == NULL && r.nbspacetokens == 0
    modifies heap
    ensures Grown(heap) && heap.next == old(heap.next) + TokensCost(d)
    ensures r' == r.(spacetokens := r'.spacetokens, nbspacetokens := r'.nbspacetokens)
    ensures SpaceTokensAt(heap.blocks, r', old(heap.next), d)
  {
    r' := r;
    if d.spaceTokens.Some? && |d.spaceTokens.value| > 0 {
      var spacetokens := CopyTokens(heap, d.spaceTokens.value);
      r' := r'.(spacetokens := spacetokens, nbspacetokens := |d.spaceTokens.value|);
    }
  }

  // The loop body of copy_mdfilestatuses from the size on, for an entry that is not pruned
  method CopyDetails(heap: Heap, e: Option<PathDetail>, r: Record, request: NodeStatus) returns (r': Record)
    requires heap.Valid() && e.Some? && r == BLANK_RECORD.(surl := r.surl)
    modifies heap
    ensures Grown(heap) && heap.next == old(heap.next) + DetailsCost(e.value, request)
    ensures DetailsAt(heap.blocks, r', old(heap.next), e.value, request)
    ensures r'.surl == r.surl && r'.status == OK && r'.explanation == NULL
    decreases e, 0
  {
    hide Extends, Agree, TextAt, CheckSumAt, SpaceTokensAt, ListAt, ListCost, TokensCost, CheckSumCost;
    var d := e.value;
    ghost var m1, n1 := heap.blocks, heap.next;
    r' := r.(size := d.size.GetOr(0));
    r' := CopyCheckSum(heap, d, r');
    ghost var m2, n2, r2 := heap.blocks, heap.next, r';
    r' := CopySpaceTokens(heap, d, r');
    ghost var m3, n3, r3 := heap.blocks, heap.next, r';
    if d.subPaths.SubPaths? {
      var subpaths, n := CopyList(heap, d.subPaths.entries, request);
      r' := r'.(subpaths := subpaths, nbsubpaths := n);
    } else {
      ExtendsNothing(m3, n3);
    }
    PartsStay(m1, m2, m3, heap.blocks, n1, n2, n3, heap.next, r2, r3, r', d);
  }

  // The part of the loop body that translates the status of an entry
  method CopyStatus(d: PathDetail, request: NodeStatus) returns (status: Errno)
    ensures status == ErrnoOf(d, request)
    ensures status != OK ==> d.status.Some?
  {
    status := OK;
    if d.status.Some? {
      status := ToErrno(d.status.value.code);
      if request.code == SrmTooManyResults {
        status := EFBIG;
      }
    }
  }

  // The body of the loop of copy_mdfilestatuses, for an entry that is there
  method CopyEntry(heap: Heap, e: Option<PathDetail>, request: NodeStatus) returns (r: Record)
    requires heap.Valid() && e.Some?
    modifies heap
    ensures Grown(heap) && heap.next == old(heap.next) + EntryCost(e, request)
    ensures EntryAt(heap.blocks, r, old(heap.next), e, request)
    decreases e, 1
  {
    hide Extends, Agree, TextAt, CheckSumAt, SpaceTokensAt, ListAt, ListCost, TokensCost, CheckSumCost, ErrnoOf;
    hide ExplanationOf;
    var d := e.value;
    ghost var m0, n0 := heap.blocks, heap.next;
    var surl := CopyText(heap, d.path);
    ghost var m1, n1 := heap.blocks, heap.next;
    r := BLANK_RECORD.(surl := surl);
    var status := CopyStatus(d, request);
    r := r.(status := status);
    if r.status != OK {
      var message := Explain(d.status.value, request, r.status);
      var explanation := heap.Alloc(Message(message.value));
      r := r.(explanation := explanation);
    } else {
      r := CopyDetails(heap, e, r, request);
    }
    TextStays(m1, heap.blocks, surl, n0, d.path, n1, heap.next);
    ExtendsFurther(m0, m1, heap.blocks, n0, n1, heap.next);
  }

  lemma ExtendsNothing(m: Memory, n: Ptr)
    ensures Extends(m, m, n, n)
  {
  }

  lemma TextStays(m: Memory, m': Memory, t: Ptr, at: Ptr, o: Option<string>, a: Ptr, b: Ptr)
    requires TextAt(m, t, at, o) && Extends(m, m', a, b)
    ensures TextAt(m', t, at, o)
  {
  }

  // What was copied stays copied while the rest of the entry is.
  lemma PartsStay(m1: Memory, m2: Memory, m3: Memory, m4: Memory, n1: Ptr, n2: Ptr, n3: Ptr, n4: Ptr,
                  r2: Record, r3: Record, r: Record, d: PathDetail)
    requires r.checksumtype == r2.checksumtype && r.checksum == r2.checksum
    requires r.spacetokens == r3.spacetokens && r.nbspacetokens == r3.nbspacetokens
    requires Extends(m1, m2, n1, n2) && Extends(m2, m3, n2, n3) && Extends(m3, m4, n3, n4)
    requires CheckSumAt(m2, r2, n1, d) && SpaceTokensAt(m3, r3, n2, d)
    ensures CheckSumAt(m4, r, n1, d) && SpaceTokensAt(m4, r, n2, d)
    ensures Extends(m1, m4, n1, n4)
  {
    hide TextAt, Extends, Agree;
    ExtendsFurther(m2, m3, m4, n2, n3, n4);
    ExtendsFurther(m1, m2, m4, n1, n2, n4);
    ExtendsAgrees(m2, m4, n2, n4, n1, n1 + CheckSumCost(d));
    CheckSumFrame(m2, m4, r2, n1, d);
    ExtendsAgrees(m3, m4, n3, n4, n2, n2 + TokensCost(d));
    SpaceTokensFrame(m3, m4, r3, n2, d);
  }

  // The first i entries are copied, and the other records are still blank.
  ghost predicate EntriesSoFar(m: Memory, p: Ptr, ds: seq<Option<PathDetail>>, i: nat, request: NodeStatus)
    requires i <= |ds|
  {
    && p in m && m[p].Records? && |m[p].records| == |ds|
    && (forall k :: 0 <= k < i ==> EntryAt(m, m[p].records[k], p + 1 + EntriesCost(ds[..k], request), ds[k], request))
    && (forall k :: i <= k < |ds| ==> m[p].records[k] == BLANK_RECORD)
  }

  lemma StoreEntry(m: Memory, m': Memory, p: Ptr, ds: seq<Option<PathDetail>>, i: nat, r: Record, request: NodeStatus,
                   a: Ptr, b: Ptr)
    requires i < |ds| && EntriesSoFar(m, p, ds, i, request) && Extends(m, m', a, b)
    requires EntryAt(m', r, p + 1 + EntriesCost(ds[..i], request), ds[i], request)
    ensures p in m' && m'[p].Records? && |m'[p].records| == |ds|
    ensures EntriesSoFar(m'[p := Records(m'[p].records[i := r])], p, ds, i + 1, request)
  {
    hide EntryAt, EntriesCost;
    var m'' := m'[p := Records(m'[p].records[i := r])];
    forall k | 0 <= k < i + 1
      ensures EntryAt(m'', m''[p].records[k], p + 1 + EntriesCost(ds[..k], request), ds[k], request)
    {
      var at := p + 1 + EntriesCost(ds[..k], request);
      if k < i {
        EntryFrame(m, m'', m[p].records[k], at, ds[k], request);
      } else {
        EntryFrame(m', m'', r, at, ds[k], request);
      }
    }
  }

  lemma NoEntriesYet(m: Memory, p: Ptr, ds: seq<Option<PathDetail>>, request: NodeStatus)
    requires p in m && m[p] == Records(seq(|ds|, _ => BLANK_RECORD))
    ensures EntriesSoFar(m, p, ds, 0, request)
  {
  }

  lemma AllEntries(m: Memory, p: Ptr, ds: seq<Option<PathDetail>>, request: NodeStatus)
    requires EntriesSoFar(m, p, ds, |ds|, request)
    ensures ListAt(m, p, ds, request) && ds[..|ds|] == ds
  {
  }

  lemma SkipEntry(m: Memory, p: Ptr, ds: seq<Option<PathDetail>>, i: nat, request: NodeStatus)
    requires i < |ds| && ds[i] == None && EntriesSoFar(m, p, ds, i, request)
    ensures EntriesSoFar(m, p, ds, i + 1, request)
  {
    hide NodeAt, EntriesCost;
  }

  // copy_mdfilestatuses
  method CopyList(heap: Heap, ds: seq<Option<PathDetail>>, request: NodeStatus) returns (p: Ptr, n: nat)
    requires heap.Valid()
    modifies heap
    ensures Grown(heap) && heap.next == old(heap.next) + ListCost(ds, request)
    ensures p == old(heap.next) && n == |ds| && ListAt(heap.blocks, p, ds, request)
    decreases ds
  {
    hide Extends, EntriesSoFar, EntryAt, ListAt, NodeAt, NodeCost;
    n := |ds|;
    p := heap.Alloc(Records(seq(n, _ => BLANK_RECORD)));
    NoEntriesYet(heap.blocks, p, ds, request);
    for i := 0 to n
      invariant heap.Valid() && heap.next == p + 1 + EntriesCost(ds[..i], request)
      invariant Extends(old(heap.blocks), heap.blocks, p, heap.next) && EntriesSoFar(heap.blocks, p, ds, i, request)
    {
      assert ds[..i + 1][..i] == ds[..i];
      if ds[i] == None {
        SkipEntry(heap.blocks, p, ds, i, request);
        continue;
      }
      ghost var m, next := heap.blocks, heap.next;
      var r := CopyEntry(heap, ds[i], request);
      StoreEntry(m, heap.blocks, p, ds, i, r, request, next, heap.next);
      ExtendsFurther(old(heap.blocks), m, heap.blocks, p, next, heap.next);
      ExtendsWritten(old(heap.blocks), heap.blocks, p, heap.next, p, Records(heap.blocks[p].records[i := r]));
      heap.blocks := heap.blocks[p := Records(heap.blocks[p].records[i := r])];
    }
    AllEntries(heap.blocks, p, ds, request);
  }

  // ---------------------------------------------------------------- deleting

  // From m to m', exactly the blocks from..to are gone, and nothing else has changed.
  ghost predicate Drops(m: Memory, m': Memory, from: Ptr, to: Ptr) {
    && from <= to
    && (forall a :: a in m' ==> a in m && m'[a] == m[a] && !(from <= a < to))
    && (forall a :: a in m ==> a in m' || from <= a < to)
  }

  lemma DropsFurther(m: Memory, m': Memory, m'': Memory, a: Ptr, b: Ptr, c: Ptr)
    requires Drops(m, m', a, b) && Drops(m', m'', b, c)
    ensures Drops(m, m'', a, c)
  {
  }

  lemma DropsNothing(m: Memory, a: Ptr)
    ensures Drops(m, m, a, a)
  {
  }

  lemma DropsAgrees(m: Memory, m': Memory, a: Ptr, b: Ptr, to: Ptr)
    requires Drops(m, m', a, b)
    ensures Agree(m, m', b, to)
  {
  }

  // The first j tokens are gone, and their pointers are NULL. Block p is still there.
  ghost predicate TokensGone(m: Memory, m': Memory, p: Ptr, ts: seq<Option<string>>, j: nat)
    requires j <= |ts|
  {
    && p in m && m[p].Pointers? && |m[p].ptrs| == |ts|
    && p in m' && m'[p].Pointers? && |m'[p].ptrs| == |ts|
    && (forall k :: j <= k < |ts| ==> m'[p].ptrs[k] == m[p].ptrs[k])
    && Drops(m, m'[p := m[p]], p + 1, p + 1 + TokenCost(ts[..j]))
  }

  lemma NoTokensGone(m: Memory, p: Ptr, ts: seq<Option<string>>)
    requires p in m && m[p].Pointers? && |m[p].ptrs| == |ts|
    ensures TokensGone(m, m, p, ts, 0)
  {
    assert m[p := m[p]] == m;
  }

  lemma AllTokensGone(m: Memory, m': Memory, p: Ptr, ts: seq<Option<string>>)
    requires TokensGone(m, m', p, ts, |ts|)
    ensures p in m' && Drops(m, m' - {p}, p, p + 1 + TokenCost(ts))
  {
    assert ts[..|ts|] == ts;
    DropsArray(m, m', p, p + 1 + TokenCost(ts));
  }

  lemma DropsArray(m: Memory, m': Memory, p: Ptr, to: Ptr)
    requires p in m && p in m' && Drops(m, m'[p := m[p]], p + 1, to)
    ensures Drops(m, m' - {p}, p, to)
  {
    var m'' := m'[p := m[p]];
    assert forall a :: a in m' - {p} ==> a in m'' && m''[a] == (m' - {p})[a];
  }

  lemma OneTokenGone(m: Memory, m': Memory, p: Ptr, ts: seq<Option<string>>, j: nat)
    requires j < |ts| && TokensGone(m, m', p, ts, j) && TokensAt(m, m[p].ptrs, p + 1, ts)
    requires NULL !in m
    ensures var t := m[p].ptrs[j];
            && t == m'[p].ptrs[j]
            && if t == NULL then TokensGone(m, m', p, ts, j + 1)
               else t != p && t in m' && TokensGone(m, (m' - {t})[p := Pointers(m'[p].ptrs[j := NULL])], p, ts, j + 1)
  {
    var t := m[p].ptrs[j];
    var at := p + 1 + TokenCost(ts[..j]);
    assert TextAt(m, t, at, ts[j]);
    assert ts[..j + 1][..j] == ts[..j];
    if t != NULL {
      assert t == at && at in m'[p := m[p]];
      var m'' := (m' - {t})[p := Pointers(m'[p].ptrs[j := NULL])];
      assert m''[p := m[p]] == m'[p := m[p]] - {t};
    }
  }

  // The loop of srm_srmv2_mdfilestatus_delete over space tokens, and the release of their array
  method DeleteTokens(heap: Heap, p: Ptr, n: nat, ghost ts: seq<Option<string>>)
    requires heap.Valid() && n == |ts|
    requires p == NULL ==> ts == []
    requires p != NULL ==>
               && p in heap.blocks && heap.blocks[p].Pointers? && |heap.blocks[p].ptrs| == n
               && TokensAt(heap.blocks, heap.blocks[p].ptrs, p + 1, ts)
    modifies heap`blocks
    ensures heap.Valid()
    ensures if p == NULL then heap.blocks == old(heap.blocks)
            else Drops(old(heap.blocks), heap.blocks, p, p + 1 + TokenCost(ts))
  {
    hide TokensGone, TokensAt, Drops;
    ghost var m := heap.blocks;
    if p != NULL {
      NoTokensGone(m, p, ts);
    }
    for j := 0 to n
      invariant heap.Valid() && (p == NULL ==> heap.blocks == m)
      invariant p != NULL ==> TokensGone(m, heap.blocks, p, ts, j)
    {
      OneTokenGone(m, heap.blocks, p, ts, j);
      assert p in heap.blocks && heap.blocks[p].Pointers? && j < |heap.blocks[p].ptrs| by {
        TokensStillThere(m, heap.blocks, p, ts, j);
      }
      var t := heap.blocks[p].ptrs[j];
      if t != NULL {
        heap.Free(t);
        heap.blocks := heap.blocks[p := Pointers(heap.blocks[p].ptrs[j := NULL])];
      }
    }
    if p != NULL {
      AllTokensGone(m, heap.blocks, p, ts);
    }
    heap.Free(p);
    assert p == NULL ==> heap.blocks == m;
  }

  lemma TokensStillThere(m: Memory, m': Memory, p: Ptr, ts: seq<Option<string>>, j: nat)
    requires j < |ts| && TokensGone(m, m', p, ts, j)
    ensures p in m' && m'[p].Pointers? && j < |m'[p].ptrs|
  {
  }

  // The blocks of an entry in three parts: its texts, its space tokens, and its sub-paths
  predicate Full(e: Option<PathDetail>, request: NodeStatus) {
    e.Some? && !Pruned(e.value, request)
  }

  function TextsCost(e: Option<PathDetail>, request: NodeStatus): nat {
    if e == None then 0 else TextCost(e.value.path) + if Pruned(e.value, request) then 1 else CheckSumCost(e.value)
  }

  function TokensPart(e: Option<PathDetail>, request: NodeStatus): nat {
    if Full(e, request) then TokensCost(e.value) else 0
  }

  function SubPathsPart(e: Option<PathDetail>, request: NodeStatus): nat {
    if Full(e, request) && e.value.subPaths.SubPaths? then ListCost(e.value.subPaths.entries, request) else 0
  }

  ghost predicate TokensPartAt(m: Memory, r: Record, at: Ptr, e: Option<PathDetail>, request: NodeStatus) {
    if Full(e, request) then SpaceTokensAt(m, r, at, e.value) else r.spacetokens == NULL && r.nbspacetokens == 0
  }

  ghost predicate SubPathsPartAt(m: Memory, r: Record, at: Ptr, e: Option<PathDetail>, request: NodeStatus) {
    if Full(e, request) then SubPathsAt(m, r, at, e.value, request) else r.subpaths == NULL && r.nbsubpaths == 0
  }

  lemma EntryParts(m: Memory, r: Record, at: Ptr, e: Option<PathDetail>, request: NodeStatus)
    requires EntryAt(m, r, at, e, request)
    ensures var b := at + TextsCost(e, request);
            && TokensPartAt(m, r, b, e, request) && SubPathsPartAt(m, r, b + TokensPart(e, request), e, request)
    ensures EntryCost(e, request) == TextsCost(e, request) + TokensPart(e, request) + SubPathsPart(e, request)
  {
    if e.Some? {
      assert NodeAt(m, r, at, e.value, request) && EntryCost(e, request) == NodeCost(e.value, request);
      assert Full(e, request) ==> NodeCost(e.value, request) == TextCost(e.value.path) + DetailsCost(e.value, request);
      if Full(e, request) {
        var a := at + TextCost(e.value.path);
        assert DetailsAt(m, r, a, e.value, request);
        assert at + TextsCost(e, request) == a + CheckSumCost(e.value);
        assert at + TextsCost(e, request) + TokensPart(e, request) == a + CheckSumCost(e.value) + TokensCost(e.value);
        assert SubPathsAt(m, r, a + CheckSumCost(e.value) + TokensCost(e.value), e.value, request);
      }
    }
  }

  // The texts of an entry are there to be freed, each once, and they are its first blocks.
  lemma TextsGone(m: Memory, r: Record, at: Ptr, e: Option<PathDetail>, request: NodeStatus)
    requires EntryAt(m, r, at, e, request) && NULL !in m
    ensures r.surl == NULL || r.surl in m
    ensures r.explanation == NULL || r.explanation in m - {r.surl}
    ensures r.checksum == NULL || r.checksum in m - {r.surl} - {r.explanation}
    ensures r.checksumtype == NULL || r.checksumtype in m - {r.surl} - {r.explanation} - {r.checksum}
    ensures Drops(m, m - {r.surl} - {r.explanation} - {r.checksum} - {r.checksumtype}, at, at + TextsCost(e, request))
  {
    hide SpaceTokensAt, SubPathsAt, ListAt;
    if e.Some? {
      assert NodeAt(m, r, at, e.value, request);
      assert Full(e, request) ==> DetailsAt(m, r, at + TextCost(e.value.path), e.value, request);
    }
  }

  // The loop body of srm_srmv2_mdfilestatus_delete up to the space tokens
  method DeleteTexts(heap: Heap, r: Record, ghost at: Ptr, ghost e: Option<PathDetail>, ghost request: NodeStatus)
    requires heap.Valid() && EntryAt(heap.blocks, r, at, e, request)
    modifies heap`blocks
    ensures heap.Valid() && Drops(old(heap.blocks), heap.blocks, at, at + TextsCost(e, request))
  {
    hide EntryAt, Drops, TextsCost;
    TextsGone(heap.blocks, r, at, e, request);
    heap.Free(r.surl);
    heap.Free(r.explanation);
    heap.Free(r.checksum);
    heap.Free(r.checksumtype);
  }

  // The space tokens of an entry, as far as they are copied
  function TokensOf(e: Option<PathDetail>, request: NodeStatus): seq<Option<string>> {
    if Full(e, request) && HasTokens(e.value) then e.value.spaceTokens.value else []
  }

  lemma TokensToDelete(m: Memory, r: Record, at: Ptr, e: Option<PathDetail>, request: NodeStatus)
    requires TokensPartAt(m, r, at, e, request) && NULL !in m
    ensures var p, ts := r.spacetokens, TokensOf(e, request);
            && r.nbspacetokens == |ts| && (p == NULL ==> ts == [] && TokensPart(e, request) == 0)
            && (p != NULL ==>
                  && p == at && TokensPart(e, request) == 1 + TokenCost(ts)
                  && p in m && m[p].Pointers? && |m[p].ptrs| == |ts| && TokensAt(m, m[p].ptrs, p + 1, ts))
  {
    hide TokenCost, TextAt;
  }

  method DeleteSpaceTokens(heap: Heap, r: Record, ghost at: Ptr, ghost e: Option<PathDetail>, ghost request: NodeStatus)
    requires heap.Valid() && TokensPartAt(heap.blocks, r, at, e, request)
    modifies heap`blocks
    ensures heap.Valid() && Drops(old(heap.blocks), heap.blocks, at, at + TokensPart(e, request))
  {
    hide Drops, TokensPartAt, TokensPart, TokensOf, TokensAt, TokenCost, Full;
    DropsNothing(heap.blocks, at);
    TokensToDelete(heap.blocks, r, at, e, request);
    DeleteTokens(heap, r.spacetokens, r.nbspacetokens, TokensOf(e, request));
  }

  method DeleteSubPaths(heap: Heap, r: Record, ghost at: Ptr, ghost e: Option<PathDetail>, ghost request: NodeStatus)
    requires heap.Valid() && SubPathsPartAt(heap.blocks, r, at, e, request)
    modifies heap`blocks
    ensures heap.Valid() && Drops(old(heap.blocks), heap.blocks, at, at + SubPathsPart(e, request))
    decreases true, e, 0
  {
    hide Drops;
    DropsNothing(heap.blocks, at);
    if Full(e, request) && e.value.subPaths.SubPaths? {
      assert SubPathsAt(heap.blocks, r, at, e.value, request);
      ListHolds(heap.blocks, at, e.value.subPaths.entries, 0, request);
    }
    DeleteList(heap, r.subpaths, r.nbsubpaths,
               if Full(e, request) && e.value.subPaths.SubPaths? then e.value.subPaths.entries else [], request);
  }

  lemma PartsFrame(m: Memory, m': Memory, r: Record, a: Ptr, b: Ptr, c: Ptr, e: Option<PathDetail>, request: NodeStatus)
    requires Drops(m, m', a, b) && b <= c
    ensures TokensPartAt(m, r, b, e, request) ==> TokensPartAt(m', r, b, e, request)
    ensures SubPathsPartAt(m, r, c, e, request) ==> SubPathsPartAt(m', r, c, e, request)
  {
    if Full(e, request) {
      DropsAgrees(m, m', a, b, b + TokensCost(e.value));
      if SpaceTokensAt(m, r, b, e.value) {
        SpaceTokensFrame(m, m', r, b, e.value);
      }
      if e.value.subPaths.SubPaths? && SubPathsAt(m, r, c, e.value, request) {
        DropsAgrees(m, m', a, b, c + ListCost(e.value.subPaths.entries, request));
        ListFrame(m, m', c, e.value.subPaths.entries, request);
      }
    }
  }

  // The loop body of srm_srmv2_mdfilestatus_delete
  method DeleteEntry(heap: Heap, r: Record, ghost at: Ptr, ghost e: Option<PathDetail>, ghost request: NodeStatus)
    requires heap.Valid() && EntryAt(heap.blocks, r, at, e, request)
    modifies heap`blocks
    ensures heap.Valid() && Drops(old(heap.blocks), heap.blocks, at, at + EntryCost(e, request))
    decreases true, e, 1
  {
    hide Drops, EntryAt, EntryCost, TextsCost, TokensPart, TokensPartAt, SubPathsPart, SubPathsPartAt;
    ghost var m0, b := heap.blocks, at + TextsCost(e, request);
    ghost var c := b + TokensPart(e, request);
    EntryParts(m0, r, at, e, request);
    DeleteTexts(heap, r, at, e, request);
    ghost var m1 := heap.blocks;
    PartsFrame(m0, m1, r, at, b, c, e, request);
    DeleteSpaceTokens(heap, r, b, e, request);
    ghost var m2 := heap.blocks;
    PartsFrame(m1, m2, r, b, c, c, e, request);
    DropsFurther(m0, m1, m2, at, b, c);
    DeleteSubPaths(heap, r, c, e, request);
    DropsFurther(m0, m2, heap.blocks, at, c, c + SubPathsPart(e, request));
  }

  // While the entries before it go, entry i and the array itself stay.
  lemma EntryStays(m: Memory, m': Memory, p: Ptr, ds: seq<Option<PathDetail>>, i: nat, request: NodeStatus)
    requires i < |ds| && ListAt(m, p, ds, request) && Drops(m, m', p + 1, p + 1 + EntriesCost(ds[..i], request))
    ensures p in m' && m'[p].Records? && |m'[p].records| == |ds|
    ensures EntryAt(m', m'[p].records[i], p + 1 + EntriesCost(ds[..i], request), ds[i], request)
    ensures EntriesCost(ds[..i + 1], request) == EntriesCost(ds[..i], request) + EntryCost(ds[i], request)
  {
    hide Drops, Agree, EntryAt, EntryCost, ListAt;
    var at := p + 1 + EntriesCost(ds[..i], request);
    assert ds[..i + 1][..i] == ds[..i];
    ListHolds(m, p, ds, i, request);
    StillThere(m, m', p, p + 1, at);
    DropsAgrees(m, m', p + 1, at, at + EntryCost(ds[i], request));
    EntryFrame(m, m', m[p].records[i], at, ds[i], request);
  }

  // srm_srmv2_mdfilestatus_delete
  method DeleteList(heap: Heap, p: Ptr, n: nat, ghost ds: seq<Option<PathDetail>>, ghost request: NodeStatus)
    requires heap.Valid() && (p != NULL ==> n == |ds| && ListAt(heap.blocks, p, ds, request))
    modifies heap`blocks
    ensures heap.Valid()
    ensures if p == NULL then heap.blocks == old(heap.blocks)
            else Drops(old(heap.blocks), heap.blocks, p, p + ListCost(ds, request))
    decreases p != NULL, ds
  {
    hide Drops, EntryAt, EntryCost, ListAt, EntriesCost, Heap.Valid;
    if p == NULL {
      return;
    }
    ghost var m := heap.blocks;
    NothingGone(m, p, ds, request);
    for i := 0 to n
      invariant heap.Valid() && Drops(m, heap.blocks, p + 1, p + 1 + EntriesCost(ds[..i], request))
    {
      ghost var m', at := heap.blocks, p + 1 + EntriesCost(ds[..i], request);
      EntryStays(m, m', p, ds, i, request);
      DeleteEntry(heap, heap.blocks[p].records[i], at, ds[i], request);
      DropsFurther(m, m', heap.blocks, p + 1, at, at + EntryCost(ds[i], request));
    }
    assert ds[..n] == ds;
    ListHolds(m, p, ds, n, request);
    DropsFirst(m, heap.blocks, p, p + ListCost(ds, request));
    heap.Free(p);
  }

  lemma NothingGone(m: Memory, p: Ptr, ds: seq<Option<PathDetail>>, request: NodeStatus)
    ensures Drops(m, m, p + 1, p + 1 + EntriesCost(ds[..0], request))
  {
  }

  lemma ListHolds(m: Memory, p: Ptr, ds: seq<Option<PathDetail>>, i: nat, request: NodeStatus)
    requires ListAt(m, p, ds, request)
    ensures p in m && m[p].Records? && |m[p].records| == |ds|
    ensures i < |ds| ==> EntryAt(m, m[p].records[i], p + 1 + EntriesCost(ds[..i], request), ds[i], request)
  {
  }

  lemma StillThere(m: Memory, m': Memory, p: Ptr, a: Ptr, b: Ptr)
    requires p in m && p < a && Drops(m, m', a, b)
    ensures p in m' && m'[p] == m[p]
  {
  }

  lemma DropsFirst(m: Memory, m': Memory, p: Ptr, to: Ptr)
    requires Drops(m, m', p + 1, to)
    ensures p in m ==> p in m'
    ensures Drops(m, m' - {p}, p, to)
  {
  }

  // A listing that is copied and then deleted leaves the memory as it was: every block that the copy
  // allocated is freed, once, and no other block is.
  method CopyThenDelete(heap: Heap, ds: seq<Option<PathDetail>>, request: NodeStatus)
    requires heap.Valid()
    modifies heap
    ensures heap.Valid() && heap.blocks == old(heap.blocks)
    ensures heap.next == old(heap.next) + ListCost(ds, request)
  {
    ghost var m := heap.blocks;
    var p, n := CopyList(heap, ds, request);
    DeleteList(heap, p, n, ds, request);
  }
}
