// Creating a directory and its missing parents, by moving a NUL up and down the slashes of one buffer.
module Mkdir {
  import opened Common
  import opened StatusCodes
  import opened Surls

  // The answer to one srmMkdir call. A response always carries a status.
  datatype Answer = Fault | NoBody | Status(code: StatusCode)

  datatype MkdirEvent = MkdirEvent(path: string, answer: Answer)

  // What an answer means to the climb
  datatype Meaning = Accepted | Missing | Refused

  function MeaningOf(a: Answer): Meaning {
    if Succeeded(a) || a == Status(SrmDuplicationError) then Accepted
    else if a == Status(SrmInvalidPath) then Missing
    else Refused
  }

  predicate Succeeded(a: Answer) {
    a.Status? && a.code in {SrmSuccess, SrmFilePinned, SrmSpaceAvailable, SrmReleased}
  }

  class Server {
    var log: seq<MkdirEvent>

    constructor ()
      ensures log == []
    {
      log := [];
    }

    // call_srm2__srmMkdir
    method Mkdir(path: string) returns (a: Answer)
      modifies this
      ensures log == old(log) + [MkdirEvent(path, a)]
    {
      a := *;
      log := log + [MkdirEvent(path, a)];
    }
  }

  // ---------------------------------------------------------------- slashes

  function LastSlash(s: string): (p: int)
    ensures -1 <= p < |s|
    ensures p >= 0 ==> s[p] == '/'
    ensures forall i :: p < i < |s| ==> s[i] != '/'
  {
    if s == "" then -1
    else if s[|s| - 1] == '/' then |s| - 1
    else LastSlash(s[..|s| - 1])
  }

  function NextSlash(s: string, from: nat): (p: nat)
    requires from <= |s|
    ensures from <= p <= |s|
    ensures p < |s| ==> s[p] == '/'
    ensures forall i :: from <= i < p ==> s[i] != '/'
    decreases |s| - from
  {
    if from == |s| || s[from] == '/' then from else NextSlash(s, from + 1)
  }

  // The regular expression of srmv2_check_srm_root: ^srm://[^/]*/$, in either case
  predicate IsRoot(s: string) {
    && HasProtocol(s) && |s| >= 7 && s[|s| - 1] == '/'
    && forall i :: 6 <= i < |s| - 1 ==> s[i] != '/'
  }

  predicate HasProtocol(s: string) {
    |s| >= 6 && s[0] in "sS" && s[1] in "rR" && s[2] in "mM" && s[3] == ':' && s[4] == '/' && s[5] == '/'
  }

  // A root is srm://host/ and nothing more, with the protocol in either case.
  lemma RootIsProtocolHostSlash(s: string)
    ensures IsRoot(s) <==>
              exists p, host :: s == p + host + "/" && IsProtocol(p) && forall i :: 0 <= i < |host| ==> host[i] != '/'
  {
    if IsRoot(s) {
      var p, host := s[..6], s[6..|s| - 1];
      assert s == p + host + "/" && IsProtocol(p);
    }
    forall p, host | s == p + host + "/" && IsProtocol(p) && forall i :: 0 <= i < |host| ==> host[i] != '/'
      ensures IsRoot(s)
    {
      assert s[..6] == p && s[6..|s| - 1] == host;
      assert forall i :: 0 <= i < 6 ==> s[i] == p[i];
      assert forall i :: 6 <= i < |s| - 1 ==> s[i] == host[i - 6];
    }
  }

  predicate IsProtocol(p: string) {
    |p| == 6 && forall i :: 0 <= i < 6 ==> p[i] == "srm://"[i] || p[i] == "SRM://"[i]
  }

  // ---------------------------------------------------------------- what a run looks like

  // The climb from f: each request is for what is left of f before its last slash. It ends at the slash
  // it found, or in failure.
  ghost predicate Climb(f: string, up: seq<MkdirEvent>, found: Option<nat>) {
    var p := LastSlash(f);
    if IsRoot(f) then
      up == [] && found == Some(p)
    else if p < 0 then
      up == [] && found == None
    else
      && up != [] && up[0].path == f[..p]
      && match MeaningOf(up[0].answer)
         case Accepted => |up| == 1 && found == Some(p)
         case Missing => Climb(f[..p], up[1..], found)
         case Refused => |up| == 1 && found == None
  }

  // The descent in n from the slash at p: each request is for n up to its next slash.
  ghost predicate Descent(n: string, p: nat, down: seq<MkdirEvent>, ret: int)
    decreases |n| - p
  {
    if p >= |n| - 1 then
      down == [] && ret == 0
    else
      var q := NextSlash(n, p + 1);
      && down != [] && down[0].path == n[..q]
      && if Succeeded(down[0].answer) then Descent(n, q, down[1..], ret) else |down| == 1 && ret == -1
  }

  ghost predicate MkdirRun(n: string, up: seq<MkdirEvent>, down: seq<MkdirEvent>, ret: int) {
    exists found ::
      && Climb(n, up, found)
      && if found == None then down == [] && ret == -1 else Descent(n, found.value, down, ret)
  }

  // The first requests of a climb, all answered that the path is missing, have led from f to g.
  ghost predicate Climbing(f: string, up: seq<MkdirEvent>, g: string) {
    if up == [] then f == g
    else
      var p := LastSlash(f);
      && !IsRoot(f) && p >= 0 && up[0].path == f[..p] && MeaningOf(up[0].answer) == Missing
      && Climbing(f[..p], up[1..], g)
  }

  lemma {:induction false} ClimbingOn(f: string, up: seq<MkdirEvent>, g: string, more: seq<MkdirEvent>,
                                      found: Option<nat>)
    requires Climbing(f, up, g) && Climb(g, more, found)
    ensures Climb(f, up + more, found)
  {
    if up == [] {
      assert up + more == more;
    } else {
      ClimbingOn(f[..LastSlash(f)], up[1..], g, more, found);
      assert (up + more)[1..] == up[1..] + more;
    }
  }

  lemma {:induction false} ClimbingFurther(f: string, up: seq<MkdirEvent>, g: string, e: MkdirEvent)
    requires Climbing(f, up, g)
    requires !IsRoot(g) && LastSlash(g) >= 0 && e.path == g[..LastSlash(g)] && MeaningOf(e.answer) == Missing
    ensures Climbing(f, up + [e], g[..LastSlash(g)])
  {
    if up == [] {
      assert up + [e] == [e];
    } else {
      ClimbingFurther(f[..LastSlash(f)], up[1..], g, e);
      assert (up + [e])[1..] == up[1..] + [e];
    }
  }

  // The three ways in which a climb ends
  lemma ClimbEndsAtRoot(n: string, up: seq<MkdirEvent>, f: string)
    requires Climbing(n, up, f) && IsRoot(f)
    ensures Climb(n, up, Some(LastSlash(f)))
  {
    ClimbingOn(n, up, f, [], Some(LastSlash(f)));
    assert up + [] == up;
  }

  lemma ClimbRunsOut(n: string, up: seq<MkdirEvent>, f: string)
    requires Climbing(n, up, f) && LastSlash(f) < 0
    ensures Climb(n, up, None)
  {
    ClimbingOn(n, up, f, [], None);
    assert up + [] == up;
  }

  lemma ClimbEndsWith(n: string, up: seq<MkdirEvent>, f: string, e: MkdirEvent)
    requires Climbing(n, up, f) && !IsRoot(f) && LastSlash(f) >= 0
    requires e.path == f[..LastSlash(f)] && MeaningOf(e.answer) != Missing
    ensures Climb(n, up + [e], if MeaningOf(e.answer) == Accepted then Some(LastSlash(f)) else None)
  {
    ClimbingOn(n, up, f, [e], if MeaningOf(e.answer) == Accepted then Some(LastSlash(f)) else None);
  }

  // The first requests of a descent, all successful, have led from p to q.
  ghost predicate Descending(n: string, p: nat, down: seq<MkdirEvent>, q: nat)
    decreases |down|
  {
    if down == [] then p == q
    else
      && p < |n| - 1 && down[0].path == n[..NextSlash(n, p + 1)] && Succeeded(down[0].answer)
      && Descending(n, NextSlash(n, p + 1), down[1..], q)
  }

  lemma {:induction false} DescendingOn(n: string, p: nat, down: seq<MkdirEvent>, q: nat, more: seq<MkdirEvent>,
                                        ret: int)
    requires Descending(n, p, down, q) && Descent(n, q, more, ret)
    ensures Descent(n, p, down + more, ret)
    decreases |down|
  {
    if down == [] {
      assert down + more == more;
    } else {
      DescendingOn(n, NextSlash(n, p + 1), down[1..], q, more, ret);
      assert (down + more)[1..] == down[1..] + more;
    }
  }

  lemma {:induction false} DescendingFurther(n: string, p: nat, down: seq<MkdirEvent>, q: nat, e: MkdirEvent)
    requires Descending(n, p, down, q)
    requires q < |n| - 1 && e.path == n[..NextSlash(n, q + 1)] && Succeeded(e.answer)
    ensures Descending(n, p, down + [e], NextSlash(n, q + 1))
    decreases |down|
  {
    if down == [] {
      assert down + [e] == [e];
    } else {
      DescendingFurther(n, NextSlash(n, p + 1), down[1..], q, e);
      assert (down + [e])[1..] == down[1..] + [e];
    }
  }

  // ---------------------------------------------------------------- the buffer

  // The buffer holds n, but for NULs over its slashes from position p on.
  ghost predicate CutFrom(file: seq<char>, n: string, p: nat) {
    && |file| == |n| + 1 && file[|n|] == NUL && NulFree(n)
    && forall i :: 0 <= i < |n| ==> file[i] == if i >= p && n[i] == '/' then NUL else n[i]
  }

  lemma CutReads(file: seq<char>, n: string, p: nat)
    requires CutFrom(file, n, p) && p <= |n|
    ensures NulFree(n[..NextSlash(n, p)]) && file[NextSlash(n, p)] == NUL
    ensures file[..NextSlash(n, p)] == n[..NextSlash(n, p)] == CString(file)
  {
    var q := NextSlash(n, p);
    assert file[..q] == n[..q];
    assert file == file[..q] + file[q..];
    CStringIsPrefix(n[..q], file[q..]);
  }

  // Cutting at the last slash before the present cut
  lemma CutEarlier(file: seq<char>, n: string, c: nat, p: int)
    requires CutFrom(file, n, c) && c <= |n| && p == LastSlash(n[..c]) && p >= 0
    ensures CutFrom(file[p := NUL], n, p) && NextSlash(n, p) == p
    ensures CutFrom(file[p := NUL][p := '/'], n, p + 1) && CutFrom(file[p := '/'], n, p + 1)
  {
  }

  // strrchr(file, '/')
  method Strrchr(file: array<char>, ghost s: string) returns (p: int)
    requires |s| < file.Length && s == file[..|s|] && NulFree(s) && file[|s|] == NUL
    ensures p == LastSlash(s)
  {
    p := -1;
    var i := 0;
    while file[i] != NUL
      invariant 0 <= i <= |s|
      invariant p == LastSlash(s[..i])
      decreases |s| - i
    {
      assert s[..i + 1][..i] == s[..i];
      if file[i] == '/' {
        p := i;
      }
      i := i + 1;
    }
    assert s[..|s|] == s;
  }

  // strchr(file + from, 0)
  method StrchrNul(file: array<char>, from: nat, ghost at: nat) returns (p: nat)
    requires from <= at < file.Length && file[at] == NUL
    requires forall i :: from <= i < at ==> file[i] != NUL
    ensures p == at
  {
    p := from;
    while file[p] != NUL
      invariant from <= p <= at
      decreases at - p
    {
      p := p + 1;
    }
  }

  // One call in the climb, and what its answer means
  method Try(server: Server, path: string) returns (m: Meaning, ghost e: MkdirEvent)
    modifies server
    ensures server.log == old(server.log) + [e] && e.path == path && m == MeaningOf(e.answer)
    ensures m == Accepted <==>
              && e.answer.Status?
              && e.answer.code in {SrmSuccess, SrmFilePinned, SrmSpaceAvailable, SrmReleased, SrmDuplicationError}
    ensures m == Missing <==> e.answer == Status(SrmInvalidPath)
  {
    var answer := server.Mkdir(path);
    e := MkdirEvent(path, answer);
    if answer.Fault? || answer.NoBody? {
      return Refused, e;
    }
    CodesOfErrnos(answer.code);
    var errno := ToErrno(answer.code);
    if errno != OK && errno != EEXIST && errno != ENOENT {
      return Refused, e;
    }
    m := if errno == ENOENT then Missing else Accepted;
  }

  // The first cycle of srmv2_mkdir: create directories ascendingly, until one is accepted. It leaves the
  // position of the last slash that it looked at, and fails with -1.
  method CreateUpwards(server: Server, file: array<char>, ghost n: string, endp: nat)
    returns (p: int, ghost up: seq<MkdirEvent>)
    requires file.Length == |n| + 1 && CutFrom(file[..], n, |n|) && endp == LastSlash(n)
    modifies server, file
    ensures server.log == old(server.log) + up
    ensures -1 <= p < |n| && Climb(n, up, if p >= 0 then Some(p) else None)
    ensures p >= 0 ==> n[p] == '/' && CutFrom(file[..][p := '/'], n, p + 1)
  {
    hide Climb, Climbing, IsRoot, CString, MeaningOf, CutFrom, LastSlash, NextSlash;
    p, up := endp, [];
    ghost var c := |n|;
    assert n[..c] == n && Climbing(n, up, n[..c]) by {
      ClimbingStarts(n);
    }
    while true
      invariant 0 <= c <= |n| && file.Length == |n| + 1 && CutFrom(file[..], n, c) && NextSlash(n, c) == c
      invariant p == LastSlash(n[..c]) && p >= 0
      invariant server.log == old(server.log) + up && Climbing(n, up, n[..c])
      decreases c
    {
      CutReads(file[..], n, c);
      CutEarlier(file[..], n, c, p);
      if IsRoot(CString(file[..])) {
        ClimbEndsAtRoot(n, up, n[..c]);
        return;
      }
      file[p] := NUL;
      CutReads(file[..], n, p);
      var m;
      ghost var e;
      m, e := Try(server, CString(file[..]));
      assert n[..c][..p] == n[..p];
      if m != Missing {
        ClimbEndsWith(n, up, n[..c], e);
        return if m == Accepted then p else -1, up + [e];
      }
      ClimbingFurther(n, up, n[..c], e);
      c, up := p, up + [e];
      p := Strrchr(file, n[..c]);
      if p < 0 {
        ClimbRunsOut(n, up, n[..c]);
        return;
      }
    }
  }

  lemma ClimbingStarts(n: string)
    ensures Climbing(n, [], n)
  {
  }

  lemma CutReachesTheEnd(file: seq<char>, n: string, p: nat)
    requires CutFrom(file, n, p) && p >= |n|
    ensures file == n + [NUL]
  {
  }

  // The first slash that is cut ends what is left of the string, and can be restored.
  lemma CutLater(file: seq<char>, n: string, p: nat)
    requires CutFrom(file, n, p) && p < |n| && n[|n| - 1] == '/'
    ensures var q := NextSlash(n, p);
            && p <= q < |n| && file[q] == NUL && (forall i :: p <= i < q ==> file[i] != NUL)
            && CString(file) == n[..q] && CutFrom(file[q := '/'], n, q + 1)
  {
    CutReads(file, n, p);
  }

  // The second cycle of srmv2_mkdir: create directories descendingly, from the one found at `start`
  method CreateDownwards(server: Server, file: array<char>, ghost n: string, start: nat, endp: nat)
    returns (ret: int, ghost down: seq<MkdirEvent>)
    requires file.Length == |n| + 1 && start <= endp == |n| - 1 && n[endp] == '/' && n[start] == '/'
    requires CutFrom(file[..][start := '/'], n, start + 1)
    modifies server, file
    ensures server.log == old(server.log) + down
    ensures Descent(n, start, down, ret)
    ensures ret == 0 ==> file[..] == n + [NUL]
  {
    hide Descent, Descending, CString, CutFrom, Succeeded, NextSlash;
    file[start] := '/';
    var p := start;
    down := [];
    assert Descending(n, start, [], start) by {
      DescendingStarts(n, start);
    }
    while p < endp
      invariant start <= p <= endp && CutFrom(file[..], n, p + 1)
      invariant server.log == old(server.log) + down && Descending(n, start, down, p)
      decreases endp - p
    {
      ghost var from := p;
      CutLater(file[..], n, p + 1);
      p := StrchrNul(file, p + 1, NextSlash(n, p + 1));
      var answer := server.Mkdir(CString(file[..]));
      ghost var e := MkdirEvent(n[..p], answer);
      SuccessIsNoError(answer);
      if !answer.Status? || ToErrno(answer.code) != OK {
        DescentFails(n, start, down, from, e);
        return -1, down + [e];
      }
      DescendingFurther(n, start, down, from, e);
      file[p] := '/';
      down := down + [e];
    }
    DescentEnds(n, start, down, p);
    CutReachesTheEnd(file[..], n, p + 1);
    ret := 0;
  }

  lemma SuccessIsNoError(a: Answer)
    ensures Succeeded(a) <==> a.Status? && ToErrno(a.code) == OK
  {
    if a.Status? {
      CodesOfErrnos(a.code);
    }
  }

  lemma DescendingStarts(n: string, p: nat)
    ensures Descending(n, p, [], p)
  {
  }

  lemma DescentFails(n: string, p: nat, down: seq<MkdirEvent>, q: nat, e: MkdirEvent)
    requires Descending(n, p, down, q) && q < |n| - 1
    requires e.path == n[..NextSlash(n, q + 1)] && !Succeeded(e.answer)
    ensures Descent(n, p, down + [e], -1)
  {
    DescendingOn(n, p, down, q, [e], -1);
  }

  lemma DescentEnds(n: string, p: nat, down: seq<MkdirEvent>, q: nat)
    requires Descending(n, p, down, q) && q >= |n| - 1
    ensures Descent(n, p, down, 0)
  {
    DescendingOn(n, p, down, q, [], 0);
    assert down + [] == down;
  }

  // srmv2_mkdir
  method MakeDirectory(server: Server, dirName: string)
    returns (ret: int, ghost up: seq<MkdirEvent>, ghost down: seq<MkdirEvent>)
    requires NulFree(dirName)
    modifies server
    ensures server.log == old(server.log) + up + down
    ensures MkdirRun(Normalized(dirName), up, down, ret)
  {
    hide Climb, Descent;
    var name := Normalize(dirName);
    NormalizedKeepsMeaning(dirName);
    var file := new char[|name| + 1](i => if 0 <= i < |name| then name[i] else NUL);
    down := [];
    assert file[..|name|] == name;
    var endp := Strrchr(file, name);
    assert CutFrom(file[..], name, |name|);
    var p;
    p, up := CreateUpwards(server, file, name, endp);
    if p < 0 {
      return -1, up, down;
    }
    ret, down := CreateDownwards(server, file, name, p, endp);
  }
}
