// What a run of srmv2_mkdir sends to any server, and what it achieves on a server that keeps a tree.
module MkdirTheorems {
  import opened Common
  import opened StatusCodes
  import opened Surls
  import opened Mkdir

  // ---------------------------------------------------------------- the trace, for any server

  // What remains of f when it is cut at its last slash, again and again
  function Cuts(f: string): seq<string> {
    var p := LastSlash(f);
    if p < 0 then [] else [f[..p]] + Cuts(f[..p])
  }

  function Paths(events: seq<MkdirEvent>): seq<string> {
    if events == [] then [] else [events[0].path] + Paths(events[1..])
  }

  // The first j elements of s, the last of them first
  function Backwards<T>(s: seq<T>, j: nat): (b: seq<T>)
    requires j <= |s|
    ensures |b| == j
  {
    if j == 0 then [] else [s[j - 1]] + Backwards(s, j - 1)
  }

  // The cuts are prefixes of f, one slash apart.
  lemma {:induction false} CutsAreOneSlashApart(f: string, j: nat)
    requires j < |Cuts(f)|
    ensures var c := Cuts(f)[j];
            && |c| < |f| && c == f[..|c|] && f[|c|] == '/'
            && NextSlash(f, |c| + 1) == if j == 0 then |f| else |Cuts(f)[j - 1]|
  {
    var p := LastSlash(f);
    if j == 0 {
      NothingAfter(f, p + 1);
    } else {
      CutsAreOneSlashApart(f[..p], j - 1);
      var c := Cuts(f)[j];
      assert Cuts(f[..p])[j - 1] == c;
      assert f[..p][..|c|] == f[..|c|];
      NextSlashInPrefix(f, p, |c| + 1);
    }
  }

  lemma {:induction false} NothingAfter(f: string, from: nat)
    requires from <= |f| && forall i :: from <= i < |f| ==> f[i] != '/'
    ensures NextSlash(f, from) == |f|
    decreases |f| - from
  {
  }

  lemma {:induction false} NextSlashInPrefix(f: string, p: nat, from: nat)
    requires from <= p < |f| && f[p] == '/'
    ensures NextSlash(f, from) == NextSlash(f[..p], from)
  {
  }

  // A climb sends the cuts in order, as far as it goes. It ends at the last cut it sent, or at the next one
  // if what it had cut looked like a root.
  lemma {:induction false} ClimbSendsCuts(f: string, up: seq<MkdirEvent>, found: Option<nat>)
    requires Climb(f, up, found)
    ensures |up| <= |Cuts(f)| && Paths(up) == Cuts(f)[..|up|]
    ensures found.Some? ==>
              || (up != [] && found.value == |Cuts(f)[|up| - 1]|)
              || (IsRoot(if up == [] then f else up[|up| - 1].path) && |up| < |Cuts(f)|
                  && found.value == |Cuts(f)[|up|]|)
  {
    var p := LastSlash(f);
    if IsRoot(f) || p < 0 {
    } else if MeaningOf(up[0].answer) == Missing {
      ClimbSendsCuts(f[..p], up[1..], found);
      assert Cuts(f)[..|up|] == [f[..p]] + Cuts(f[..p])[..|up| - 1];
    } else {
      assert up[1..] == [] && Cuts(f)[..1] == [f[..p]];
    }
  }

  // One step of a descent
  lemma DescentStep(n: string, p: nat, down: seq<MkdirEvent>, ret: int)
    requires Descent(n, p, down, ret)
    ensures p >= |n| - 1 ==> down == [] && ret == 0
    ensures p < |n| - 1 ==>
              && down != [] && down[0].path == n[..NextSlash(n, p + 1)]
              && Paths(down) == [down[0].path] + Paths(down[1..])
              && if Succeeded(down[0].answer) then Descent(n, NextSlash(n, p + 1), down[1..], ret)
                 else down[1..] == [] && Paths([]) == [] && ret == -1
  {
  }

  // A descent from cut j sends the cuts before it backwards, all of them if it succeeds.
  lemma {:induction false} DescentSendsCutsBackwards(n: string, j: nat, down: seq<MkdirEvent>, ret: int)
    requires n != "" && n[|n| - 1] == '/' && j < |Cuts(n)|
    requires Descent(n, |Cuts(n)[j]|, down, ret)
    ensures |down| <= j && Paths(down) == Backwards(Cuts(n), j)[..|down|]
    ensures ret == 0 || ret == -1
    ensures ret == 0 ==> Paths(down) == Backwards(Cuts(n), j)
    decreases j
  {
    hide Descent, Paths, Cuts, Succeeded, NextSlash;
    CutsAreOneSlashApart(n, j);
    DescentStep(n, |Cuts(n)[j]|, down, ret);
    if j > 0 {
      CutsAreOneSlashApart(n, j - 1);
      if Succeeded(down[0].answer) {
        DescentSendsCutsBackwards(n, j - 1, down[1..], ret);
        assert Backwards(Cuts(n), j)[..|down|] == [Cuts(n)[j - 1]] + Backwards(Cuts(n), j - 1)[..|down| - 1];
      }
    } else {
      FirstCutIsAtTheEnd(n);
      NoPaths();
    }
  }

  lemma FirstCutIsAtTheEnd(n: string)
    requires n != "" && n[|n| - 1] == '/' && Cuts(n) != []
    ensures |Cuts(n)[0]| == |n| - 1
  {
  }

  // A SURL of the form srm://host/...
  predicate WellFormed(surl: string) {
    HasProtocol(surl) && |surl| >= 7 && surl[6] != '/' && NulFree(surl)
  }

  // What normalisation makes of a well-formed SURL, and what the climb makes of that
  predicate Standing(f: string) {
    HasProtocol(f) && |f| >= 7 && f[6] != '/' && NoPairs(f, '/', 6)
  }

  lemma NormalizedIsStanding(surl: string)
    requires WellFormed(surl)
    ensures var n := Normalized(surl); Standing(n) && LastSlash(n) == |n| - 1 >= 7
  {
    NormalizedKeepsMeaning(surl);
    var n := Normalized(surl);
    assert forall i :: 0 <= i < 7 ==> n[i] == n[..7][i] && surl[i] == surl[..7][i];
  }

  // A cut of such a SURL is not taken for a root.
  lemma CutIsNoRoot(f: string)
    requires Standing(f) && LastSlash(f) >= 7
    ensures Standing(f[..LastSlash(f)]) && !IsRoot(f[..LastSlash(f)])
  {
    var p := LastSlash(f);
    assert f[p - 1] != '/';
  }

  lemma {:induction false} OnlyTheWholeIsARoot(f: string, i: nat)
    requires Standing(f) && i < |Cuts(f)|
    ensures !IsRoot(Cuts(f)[i])
  {
    var p := LastSlash(f);
    if p >= 7 {
      CutIsNoRoot(f);
      if i > 0 {
        OnlyTheWholeIsARoot(f[..p], i - 1);
      }
    } else {
      CutsAreOneSlashApart(f, i);
      CutsShrink(f, 0, i);
    }
  }

  lemma {:induction false} CutsShrink(f: string, i: nat, j: nat)
    requires i <= j < |Cuts(f)|
    ensures |Cuts(f)[j]| <= |Cuts(f)[i]| - (j - i)
    decreases j
  {
    if i < j {
      CutsShrink(f, i, j - 1);
      CutsAreOneSlashApart(f, j);
    }
  }

  // Each element is a proper prefix of those before it.
  ghost predicate Shrinking(cuts: seq<string>) {
    forall i, j :: 0 <= i < j < |cuts| ==> cuts[j] < cuts[i]
  }

  lemma CutsAreShrinking(f: string)
    ensures Shrinking(Cuts(f))
  {
    forall i, j | 0 <= i < j < |Cuts(f)|
      ensures Cuts(f)[j] < Cuts(f)[i]
    {
      CutsShrink(f, i, j);
      CutsAreOneSlashApart(f, i);
      CutsAreOneSlashApart(f, j);
    }
  }

  // The trace of a run, for any answers of the server: q1..qk upwards, each a proper prefix of the one
  // before, then back down q(k-1)..q1, all of them if the call succeeds.
  lemma {:induction false} TraceReversal(surl: string, up: seq<MkdirEvent>, down: seq<MkdirEvent>, ret: int)
    requires WellFormed(surl) && MkdirRun(Normalized(surl), up, down, ret)
    ensures var cuts, k := Cuts(Normalized(surl)), |up|;
            && Shrinking(cuts) && k <= |cuts| && Paths(up) == cuts[..k]
            && (ret == 0 || ret == -1)
            && (k == 0 ==> down == [] && ret == 0 && IsRoot(Normalized(surl)))
            && (k > 0 ==>
                  && |down| <= k - 1 && Paths(down) == Backwards(cuts, k - 1)[..|down|]
                  && (ret == 0 ==> Paths(down) == Backwards(cuts, k - 1)))
  {
    hide Climb, Descent, Normalized, Paths, Backwards, Cuts, Shrinking, IsRoot;
    var n := Normalized(surl);
    NormalizedIsStanding(surl);
    CutsAreShrinking(n);
    var found :|
      Climb(n, up, found) && if found == None then down == [] && ret == -1 else Descent(n, found.value, down, ret);
    ClimbSendsCuts(n, up, found);
    if up == [] {
      NothingSentUpwards(n, found, down, ret);
    } else {
      PathsAt(up, |up| - 1);
      OnlyTheWholeIsARoot(n, |up| - 1);
      assert up[|up| - 1].path == Cuts(n)[|up| - 1];
      if found.Some? {
        DescentSendsCutsBackwards(n, |up| - 1, down, ret);
      } else {
        assert Paths(down) == [] by {
          NoPaths();
        }
      }
    }
  }

  lemma NoPaths()
    ensures Paths([]) == []
  {
  }

  lemma NothingSentUpwards(n: string, found: Option<nat>, down: seq<MkdirEvent>, ret: int)
    requires LastSlash(n) == |n| - 1 >= 0 && Climb(n, [], found)
    requires if found == None then down == [] && ret == -1 else Descent(n, found.value, down, ret)
    ensures IsRoot(n) && down == [] && ret == 0
  {
  }

  lemma {:induction false} PathsAt(events: seq<MkdirEvent>, i: nat)
    requires i < |events|
    ensures |Paths(events)| == |events| && Paths(events)[i] == events[i].path
  {
    if |events| > 1 {
      PathsAt(events[1..], if i > 0 then i - 1 else 0);
    }
  }

  // How a climb ends, by the codes of the server. All its answers but the last say that the path is invalid.
  lemma {:induction false} ClimbOutcome(f: string, up: seq<MkdirEvent>, found: Option<nat>)
    requires Climb(f, up, found)
    ensures forall i :: 0 <= i < |up| - 1 ==> up[i].answer == Status(SrmInvalidPath)
    ensures up != [] && up[|up| - 1].answer != Status(SrmInvalidPath) ==>
              var a := up[|up| - 1].answer;
              found.Some? <==>
                && a.Status?
                && a.code in {SrmSuccess, SrmFilePinned, SrmSpaceAvailable, SrmReleased, SrmDuplicationError}
    ensures up != [] && up[|up| - 1].answer == Status(SrmInvalidPath) && found.Some? ==> IsRoot(up[|up| - 1].path)
  {
    hide IsRoot;
    if up != [] && up[0].answer == Status(SrmInvalidPath) {
      ClimbOutcome(f[..LastSlash(f)], up[1..], found);
      assert forall i :: 1 <= i < |up| ==> up[i] == up[1..][i - 1];
    }
  }

  // How a descent ends: it succeeds exactly if every answer is one of success, and else only its last is not.
  lemma {:induction false} DescentOutcome(n: string, p: nat, down: seq<MkdirEvent>, ret: int)
    requires Descent(n, p, down, ret)
    ensures ret == 0 <==>
              forall i :: 0 <= i < |down| ==>
                && down[i].answer.Status?
                && down[i].answer.code in {SrmSuccess, SrmFilePinned, SrmSpaceAvailable, SrmReleased}
    ensures ret == 0 || ret == -1
    decreases |down|
  {
    if down != [] {
      if Succeeded(down[0].answer) {
        DescentOutcome(n, NextSlash(n, p + 1), down[1..], ret);
        assert forall i :: 1 <= i < |down| ==> down[i] == down[1..][i - 1];
      }
    }
  }

  // The result, for any server: 0 exactly if the climb came to a directory that was created or was there, and
  // every request of the descent created one. The climb goes on only past paths that the server calls invalid.
  lemma MkdirOutcome(surl: string, up: seq<MkdirEvent>, down: seq<MkdirEvent>, ret: int)
    requires WellFormed(surl) && MkdirRun(Normalized(surl), up, down, ret)
    ensures forall i :: 0 <= i < |up| - 1 ==> up[i].answer == Status(SrmInvalidPath)
    ensures ret == 0 <==>
              && (up != [] ==>
                    && up[|up| - 1].answer.Status?
                    && up[|up| - 1].answer.code in
                         {SrmSuccess, SrmFilePinned, SrmSpaceAvailable, SrmReleased, SrmDuplicationError})
              && forall i :: 0 <= i < |down| ==>
                    && down[i].answer.Status?
                    && down[i].answer.code in {SrmSuccess, SrmFilePinned, SrmSpaceAvailable, SrmReleased}
  {
    hide Climb, Descent, Normalized, Paths, Cuts, IsRoot;
    var n := Normalized(surl);
    NormalizedIsStanding(surl);
    var found :|
      Climb(n, up, found) && if found == None then down == [] && ret == -1 else Descent(n, found.value, down, ret);
    ClimbOutcome(n, up, found);
    ClimbSendsCuts(n, up, found);
    if up == [] {
      NothingSentUpwards(n, found, down, ret);
    } else {
      PathsAt(up, |up| - 1);
      OnlyTheWholeIsARoot(n, |up| - 1);
      assert up[|up| - 1].path == Cuts(n)[|up| - 1];
      if found.Some? {
        DescentOutcome(n, found.value, down, ret);
      }
    }
  }

  // ---------------------------------------------------------------- the effect, on a tree of directories

  predicate HasParent(path: string, tree: set<string>) {
    LastSlash(path) >= 0 && path[..LastSlash(path)] in tree
  }

  // The server says that a directory exists if it does, that the path is invalid if its parent does not,
  // and otherwise creates it.
  ghost predicate Served(tree: set<string>, events: seq<MkdirEvent>)
    decreases events
  {
    events != [] ==>
      && events[0].answer == Status(Response(tree, events[0].path))
      && Served(Next(tree, events[0].path), events[1..])
  }

  function Response(tree: set<string>, path: string): StatusCode {
    if path in tree then SrmDuplicationError
    else if HasParent(path, tree) then SrmSuccess
    else SrmInvalidPath
  }

  function Next(tree: set<string>, path: string): set<string> {
    if path !in tree && HasParent(path, tree) then tree + {path} else tree
  }

  function After(tree: set<string>, events: seq<MkdirEvent>): set<string>
    decreases events
  {
    if events == [] then tree else After(Next(tree, events[0].path), events[1..])
  }

  // The directories that were created, in order
  function Created(events: seq<MkdirEvent>): seq<string> {
    if events == [] then []
    else if events[0].answer == Status(SrmSuccess) then [events[0].path] + Created(events[1..])
    else Created(events[1..])
  }

  function Elements<T>(s: seq<T>): set<T> {
    set x | x in s
  }

  // The directories on the way to f, from the deepest up to srm://host
  function Dirs(f: string): seq<string> {
    var p := LastSlash(f);
    if p < 7 then [] else [f[..p]] + Dirs(f[..p])
  }

  // How many of them, from the deepest up, are missing before the first that is there
  function MissingOf(f: string, tree: set<string>): nat {
    var p := LastSlash(f);
    if p < 7 || f[..p] in tree then 0 else 1 + MissingOf(f[..p], tree)
  }

  // Every directory below a host has its parent.
  ghost predicate Closed(tree: set<string>) {
    forall d :: d in tree && LastSlash(d) >= 7 ==> d[..LastSlash(d)] in tree
  }

  ghost predicate Grounded(f: string, tree: set<string>) {
    Dirs(f) != [] && Dirs(f)[|Dirs(f)| - 1] in tree
  }

  lemma {:induction false} DirsAreCuts(f: string)
    ensures |Dirs(f)| <= |Cuts(f)| && Dirs(f) == Cuts(f)[..|Dirs(f)|]
  {
    var p := LastSlash(f);
    if p >= 7 {
      DirsAreCuts(f[..p]);
      assert Cuts(f)[..|Dirs(f)|] == [f[..p]] + Cuts(f[..p])[..|Dirs(f)| - 1];
    }
  }

  // In a closed tree, the missing directories are the deepest ones.
  lemma {:induction false} MissingOnesAreDeepest(f: string, tree: set<string>)
    requires Closed(tree) && Grounded(f, tree)
    ensures MissingOf(f, tree) < |Dirs(f)|
    ensures forall i :: 0 <= i < |Dirs(f)| ==> (Dirs(f)[i] in tree <==> i >= MissingOf(f, tree))
  {
    var p := LastSlash(f);
    if LastSlash(f[..p]) >= 7 {
      MissingOnesAreDeepest(f[..p], tree);
      assert forall i :: 1 <= i < |Dirs(f)| ==> Dirs(f)[i] == Dirs(f[..p])[i - 1];
    } else {
      assert Dirs(f) == [f[..p]];
    }
  }

  lemma {:induction false} ClimbOnTree(f: string, tree: set<string>, up: seq<MkdirEvent>, found: Option<nat>)
    requires Standing(f) && LastSlash(f) >= 7 && !IsRoot(f) && Grounded(f, tree)
    requires Climb(f, up, found) && Served(tree, up)
    ensures var m := MissingOf(f, tree);
            if m == 0 then
              |up| == 1 && found == Some(|Dirs(f)[0]|) && After(tree, up) == tree && Created(up) == []
            else
              && m <= |Dirs(f)| && |up| == m && found == Some(|Dirs(f)[m - 1]|)
              && After(tree, up) == tree + {Dirs(f)[m - 1]} && Created(up) == [Dirs(f)[m - 1]]
  {
    var p := LastSlash(f);
    var q := f[..p];
    if MeaningOf(up[0].answer) == Missing {
      CutIsNoRoot(f);
      assert Dirs(f) == [q] + Dirs(q);
      ClimbOnTree(q, tree, up[1..], found);
    } else {
      assert up[1..] == [];
    }
  }

  lemma {:induction false} DescentOnTree(n: string, j: nat, tree: set<string>, down: seq<MkdirEvent>, ret: int)
    requires LastSlash(n) == |n| - 1 && j < |Dirs(n)| && Dirs(n)[j] in tree
    requires forall i :: 0 <= i < j ==> Dirs(n)[i] !in tree
    requires Descent(n, |Dirs(n)[j]|, down, ret) && Served(tree, down)
    ensures ret == 0 && |down| == j && Created(down) == Backwards(Dirs(n), j)
    ensures After(tree, down) == tree + Elements(Dirs(n)[..j])
    decreases j
  {
    hide Dirs, Cuts, Served, After, Created, Response, LastSlash, HasParent, NextSlash, Elements;
    DirsAreCuts(n);
    CutsAreOneSlashApart(n, j);
    if j > 0 {
      CutsAreOneSlashApart(n, j - 1);
      var q := Dirs(n)[j - 1];
      ParentOfDir(n, j - 1);
      FirstIsCreated(tree, down);
      DirsDiffer(n, j - 1);
      DescentOnTree(n, j - 1, tree + {q}, down[1..], ret);
      ElementsAppend(Dirs(n)[..j], Dirs(n)[..j - 1], q);
    } else {
      DirsReachTheEnd(n);
      NothingServed(tree);
    }
  }

  lemma FirstIsCreated(tree: set<string>, events: seq<MkdirEvent>)
    requires events != [] && Served(tree, events)
    requires events[0].path !in tree && HasParent(events[0].path, tree)
    ensures var q := events[0].path;
            && Succeeded(events[0].answer) && Served(tree + {q}, events[1..])
            && After(tree, events) == After(tree + {q}, events[1..])
            && Created(events) == [q] + Created(events[1..])
  {
  }

  lemma NothingServed(tree: set<string>)
    ensures After(tree, []) == tree + Elements([]) && Created([]) == []
  {
  }

  lemma ElementsAppend<T>(s: seq<T>, r: seq<T>, x: T)
    requires s == r + [x]
    ensures Elements(s) == Elements(r) + {x}
  {
  }

  lemma DirsReachTheEnd(n: string)
    requires LastSlash(n) == |n| - 1 && Dirs(n) != []
    ensures |Dirs(n)[0]| == |n| - 1
  {
  }

  lemma {:induction false} ParentOfDir(f: string, i: nat)
    requires i + 1 < |Dirs(f)|
    ensures LastSlash(Dirs(f)[i]) >= 7 && Dirs(f)[i][..LastSlash(Dirs(f)[i])] == Dirs(f)[i + 1]
  {
    var p := LastSlash(f);
    if i > 0 {
      ParentOfDir(f[..p], i - 1);
    }
  }

  lemma DirsDiffer(f: string, j: nat)
    requires j < |Dirs(f)|
    ensures forall i :: 0 <= i < j ==> Dirs(f)[i] != Dirs(f)[j]
  {
    DirsAreCuts(f);
    forall i | 0 <= i < j
      ensures Dirs(f)[i] != Dirs(f)[j]
    {
      CutsShrink(f, i, j);
    }
  }

  lemma {:induction false} ServedInTurn(tree: set<string>, first: seq<MkdirEvent>, second: seq<MkdirEvent>)
    requires Served(tree, first + second)
    ensures Served(tree, first) && Served(After(tree, first), second)
    ensures After(tree, first + second) == After(After(tree, first), second)
    ensures Created(first + second) == Created(first) + Created(second)
    decreases first
  {
    hide Response, Next, Succeeded;
    if first == [] {
      assert first + second == second;
    } else {
      assert (first + second)[0] == first[0] && (first + second)[1..] == first[1..] + second;
      ServedInTurn(Next(tree, first[0].path), first[1..], second);
    }
  }

  // On a server that keeps a tree in which the host is there, a call succeeds, makes every directory on
  // the way exist and changes nothing else, creates each missing one once, parents first, and needs one
  // call for each of them on the way up and one for each but the first on the way down.
  lemma MkdirOnTree(surl: string, tree: set<string>, up: seq<MkdirEvent>, down: seq<MkdirEvent>, ret: int)
    requires WellFormed(surl) && Closed(tree) && Grounded(Normalized(surl), tree)
    requires MkdirRun(Normalized(surl), up, down, ret) && Served(tree, up + down)
    ensures var n := Normalized(surl);
            var m := MissingOf(n, tree);
            && ret == 0
            && After(tree, up + down) == tree + Elements(Dirs(n))
            && m < |Dirs(n)| && (forall i :: 0 <= i < |Dirs(n)| ==> (Dirs(n)[i] in tree <==> i >= m))
            && Created(up + down) == Backwards(Dirs(n), m)
            && |up + down| == if |Dirs(n)| == 1 then 0 else if m == 0 then 1 else 2 * m - 1
  {
    var n := Normalized(surl);
    var m := MissingOf(n, tree);
    NormalizedIsStanding(surl);
    MissingOnesAreDeepest(n, tree);
    ServedInTurn(tree, up, down);
    RootHasNoDirectory(n);
    if IsRoot(n) {
      RootRun(n, tree, up, down, ret);
    } else {
      RunBelowRoot(n, tree, up, down, ret);
    }
    AddingWhatIsThere(Dirs(n), m, tree);
  }

  // There is only the host exactly if the SURL is a root.
  lemma RootHasNoDirectory(n: string)
    requires Standing(n) && LastSlash(n) == |n| - 1 >= 7
    ensures IsRoot(n) <==> |Dirs(n)| == 1
  {
    var p := LastSlash(n);
    var q := LastSlash(n[..p]);
    assert |Dirs(n)| == 1 <==> q < 7;
    assert n[5] == '/' && n[..p][5] == '/';
  }

  lemma RootRun(n: string, tree: set<string>, up: seq<MkdirEvent>, down: seq<MkdirEvent>, ret: int)
    requires IsRoot(n) && LastSlash(n) == |n| - 1 >= 7 && Grounded(n, tree) && MkdirRun(n, up, down, ret)
    ensures up == down == [] && ret == 0 && MissingOf(n, tree) == 0
  {
    var p := LastSlash(n);
    assert LastSlash(n[..p]) < 7;
    assert Dirs(n) == [n[..p]];
  }

  lemma RunBelowRoot(n: string, tree: set<string>, up: seq<MkdirEvent>, down: seq<MkdirEvent>, ret: int)
    requires Standing(n) && LastSlash(n) == |n| - 1 >= 7 && !IsRoot(n) && Grounded(n, tree)
    requires MissingOf(n, tree) < |Dirs(n)|
    requires forall i :: 0 <= i < MissingOf(n, tree) ==> Dirs(n)[i] !in tree
    requires MissingOf(n, tree) == 0 ==> Dirs(n)[0] in tree
    requires MkdirRun(n, up, down, ret) && Served(tree, up) && Served(After(tree, up), down)
    ensures var m := MissingOf(n, tree);
            && ret == 0 && |up| + |down| == (if m == 0 then 1 else 2 * m - 1)
            && Created(up) + Created(down) == Backwards(Dirs(n), m)
            && After(After(tree, up), down) == tree + Elements(Dirs(n)[..m])
  {
    hide Climb, Descent, Served, After, Created, Dirs, IsRoot;
    var m := MissingOf(n, tree);
    var found :|
      Climb(n, up, found) && if found == None then down == [] && ret == -1 else Descent(n, found.value, down, ret);
    ClimbOnTree(n, tree, up, found);
    var j := if m == 0 then 0 else m - 1;
    DirsDiffer(n, j);
    DescentOnTree(n, j, After(tree, up), down, ret);
    assert m > 0 ==> Dirs(n)[..m] == Dirs(n)[..j] + [Dirs(n)[j]];
  }

  lemma AddingWhatIsThere<T>(s: seq<T>, m: nat, tree: set<T>)
    requires m <= |s| && forall i :: m <= i < |s| ==> s[i] in tree
    ensures tree + Elements(s[..m]) == tree + Elements(s)
  {
  }

  // A run leaves a tree in which every directory still has its parent.
  lemma StillClosed(n: string, tree: set<string>)
    requires Closed(tree) && Grounded(n, tree)
    ensures Closed(tree + Elements(Dirs(n))) && Grounded(n, tree + Elements(Dirs(n)))
  {
    hide Dirs;
    var grown := tree + Elements(Dirs(n));
    forall d | d in grown && LastSlash(d) >= 7
      ensures d[..LastSlash(d)] in grown
    {
      if d !in tree {
        var i :| 0 <= i < |Dirs(n)| && d == Dirs(n)[i];
        ParentOfDir(n, i);
      }
    }
  }

  // Where nothing is missing, a run changes nothing. It sends one request, or none for the root of a host.
  lemma MkdirOnFullTree(surl: string, tree: set<string>, up: seq<MkdirEvent>, down: seq<MkdirEvent>, ret: int)
    requires WellFormed(surl) && Closed(tree) && Grounded(Normalized(surl), tree)
    requires forall d :: d in Dirs(Normalized(surl)) ==> d in tree
    requires MkdirRun(Normalized(surl), up, down, ret) && Served(tree, up + down)
    ensures ret == 0 && After(tree, up + down) == tree && Created(up + down) == []
    ensures |up + down| == if |Dirs(Normalized(surl))| == 1 then 0 else 1
  {
    MkdirOnTree(surl, tree, up, down, ret);
    assert Dirs(Normalized(surl))[0] in tree;
  }

  // A second run, on the tree that the first one left, succeeds and changes nothing. It sends one request, or
  // none for the root of a host.
  lemma MkdirAgain(surl: string, tree: set<string>, up: seq<MkdirEvent>, down: seq<MkdirEvent>, ret: int,
                   up': seq<MkdirEvent>, down': seq<MkdirEvent>, ret': int)
    requires WellFormed(surl) && Closed(tree) && Grounded(Normalized(surl), tree)
    requires MkdirRun(Normalized(surl), up, down, ret) && Served(tree, up + down)
    requires MkdirRun(Normalized(surl), up', down', ret') && Served(After(tree, up + down), up' + down')
    ensures ret == ret' == 0
    ensures After(After(tree, up + down), up' + down') == After(tree, up + down) && Created(up' + down') == []
    ensures |up' + down'| == if |Dirs(Normalized(surl))| == 1 then 0 else 1
  {
    hide Dirs, Served, After, Created, MkdirRun, Closed, Grounded, IsRoot, Normalized, Backwards;
    MkdirOnTree(surl, tree, up, down, ret);
    StillClosed(Normalized(surl), tree);
    MkdirOnFullTree(surl, After(tree, up + down), up', down', ret');
  }
}
