// Normalising storage URLs: collapsing runs of slashes in a character buffer.
module Surls {
  import opened Common

  const NUL: char := '\0'

  predicate NulFree(s: string) {
    NUL !in s
  }

  // The C string that a buffer holds: everything before its first NUL
  function CString(buffer: seq<char>): string {
    if buffer == [] || buffer[0] == NUL then "" else [buffer[0]] + CString(buffer[1..])
  }

  lemma {:induction false} CStringIsPrefix(s: string, rest: seq<char>)
    requires NulFree(s) && (rest == [] || rest[0] == NUL)
    ensures CString(s + rest) == s
  {
    if s == "" {
      assert s + rest == rest;
    } else {
      assert (s + rest)[1..] == s[1..] + rest;
      CStringIsPrefix(s[1..], rest);
    }
  }

  // ---------------------------------------------------------------- consolidation

  // What the loop leaves of s: every c that is followed by another c goes, from index start on.
  function Consolidated(s: string, c: char, start: int): string {
    if s == "" then ""
    else if start <= 0 && |s| >= 2 && s[0] == c && s[1] == c then Consolidated(s[1..], c, start - 1)
    else [s[0]] + Consolidated(s[1..], c, start - 1)
  }

  // Run-collapsing, by its own definition: of each run of c the first character stays.
  function FirstOfRuns(s: string, c: char, inRun: bool): string {
    if s == "" then ""
    else if inRun && s[0] == c then FirstOfRuns(s[1..], c, true)
    else [s[0]] + FirstOfRuns(s[1..], c, s[0] == c)
  }

  // The characters of s other than c
  function Others(s: string, c: char): string {
    if s == "" then ""
    else if s[0] == c then Others(s[1..], c)
    else [s[0]] + Others(s[1..], c)
  }

  // No two adjacent characters are both c, from index start on.
  predicate NoPairs(s: string, c: char, start: int) {
    forall i :: 0 <= i < |s| - 1 && start <= i ==> s[i] != c || s[i + 1] != c
  }

  // How many characters at the front are kept as they are
  function Verbatim(s: string, start: int): nat {
    if start <= 0 then 0 else if start <= |s| then start else |s|
  }

  lemma BeforeTheStart(s: string, c: char, start: int)
    requires s != "" && start > 0
    ensures Consolidated(s, c, start) == [s[0]] + Consolidated(s[1..], c, start - 1)
  {
  }

  lemma {:induction false} VerbatimThenCollapsed(s: string, c: char, start: int)
    ensures Consolidated(s, c, start) == s[..Verbatim(s, start)] + Consolidated(s[Verbatim(s, start)..], c, 0)
  {
    hide Consolidated;
    if start <= 0 {
      StartBelowZero(s, c, start);
      assert s[..0] == "" && s[0..] == s;
    } else if s == "" {
      NothingLeft(c, start);
      NothingLeft(c, 0);
    } else {
      VerbatimThenCollapsed(s[1..], c, start - 1);
      BeforeTheStart(s, c, start);
      OneMoreVerbatim(s, Verbatim(s, start), Consolidated(s[1..][Verbatim(s, start) - 1..], c, 0));
    }
  }

  lemma OneMoreVerbatim(s: string, m: nat, tail: string)
    requires 1 <= m <= |s|
    ensures [s[0]] + (s[1..][..m - 1] + tail) == s[..m] + tail
    ensures s[1..][m - 1..] == s[m..]
  {
  }

  lemma {:induction false} StartBelowZero(s: string, c: char, start: int)
    requires start <= 0
    ensures Consolidated(s, c, start) == Consolidated(s, c, 0)
  {
    if s != "" {
      StartBelowZero(s[1..], c, start - 1);
      StartBelowZero(s[1..], c, -1);
    }
  }

  lemma {:induction false} CollapsesRuns(s: string, c: char)
    ensures Consolidated(s, c, 0) == FirstOfRuns(s, c, false)
    ensures Consolidated(s, c, 0) == (if s != "" && s[0] == c then [c] else "") + FirstOfRuns(s, c, true)
  {
    if s != "" {
      StartBelowZero(s[1..], c, -1);
      CollapsesRuns(s[1..], c);
    }
  }

  lemma {:induction false} OthersStay(s: string, c: char, start: int)
    ensures Others(Consolidated(s, c, start), c) == Others(s, c)
  {
    if s != "" {
      OthersStay(s[1..], c, start - 1);
      if !(start <= 0 && |s| >= 2 && s[0] == c && s[1] == c) {
        assert ([s[0]] + Consolidated(s[1..], c, start - 1))[1..] == Consolidated(s[1..], c, start - 1);
      }
    }
  }

  // The ends of a string survive.
  lemma {:induction false} EndsStay(s: string, c: char, start: int)
    requires s != ""
    ensures var r := Consolidated(s, c, start); r != "" && r[0] == s[0] && r[|r| - 1] == s[|s| - 1]
  {
    if |s| > 1 {
      EndsStay(s[1..], c, start - 1);
    }
  }

  lemma {:induction false} NoPairsRemain(s: string, c: char, start: int)
    ensures NoPairs(Consolidated(s, c, start), c, Verbatim(s, start))
  {
    if s != "" {
      NoPairsRemain(s[1..], c, start - 1);
      if |s| > 1 {
        EndsStay(s[1..], c, start - 1);
      }
    }
  }

  // Consolidation changes a string exactly if there is a pair to remove.
  lemma {:induction false} FixedIfNoPairs(s: string, c: char, start: int)
    ensures |Consolidated(s, c, start)| <= |s|
    ensures Consolidated(s, c, start) == s <==> NoPairs(s, c, start)
  {
    if s != "" {
      FixedIfNoPairs(s[1..], c, start - 1);
      var drop := start <= 0 && |s| >= 2 && s[0] == c && s[1] == c;
      if drop {
        assert !NoPairs(s, c, start);
      } else {
        assert s == [s[0]] + s[1..];
        assert ([s[0]] + Consolidated(s[1..], c, start - 1))[1..] == Consolidated(s[1..], c, start - 1);
        if NoPairs(s[1..], c, start - 1) {
          forall i | 0 <= i < |s| - 1 && start <= i
            ensures s[i] != c || s[i + 1] != c
          {
            if i > 0 {
              assert s[i] == s[1..][i - 1] && s[i + 1] == s[1..][i];
            }
          }
        } else {
          var i :| 0 <= i < |s[1..]| - 1 && start - 1 <= i && s[1..][i] == c && s[1..][i + 1] == c;
          assert s[i + 1] == c && s[i + 2] == c;
        }
      }
    }
  }

  lemma ConsolidatedIsIdempotent(s: string, c: char, start: int)
    ensures Consolidated(Consolidated(s, c, start), c, start) == Consolidated(s, c, start)
  {
    var r := Consolidated(s, c, start);
    NoPairsRemain(s, c, start);
    if |s| < start {
      VerbatimThenCollapsed(s, c, start);
      assert s[|s|..] == "" && r == s;
    }
    FixedIfNoPairs(r, c, start);
  }

  // What one turn of the loop adds to the characters before it
  lemma OneStep(s: string, c: char, start: int, i: nat, before: string)
    requires i < |s|
    ensures before + Consolidated(s[i..], c, start - i) ==
            (if i < start || s[i] != c || i + 1 == |s| || s[i + 1] != c then before + [s[i]] else before)
            + Consolidated(s[i + 1..], c, start - (i + 1))
  {
    assert s[i..][0] == s[i] && s[i..][1..] == s[i + 1..];
    assert before + ([s[i]] + Consolidated(s[i + 1..], c, start - (i + 1))) ==
           before + [s[i]] + Consolidated(s[i + 1..], c, start - (i + 1));
  }

  lemma NothingLeft(c: char, start: int)
    ensures Consolidated("", c, start) == ""
  {
  }

  // srm_util_consolidate_multiple_characters. The buffer is one longer than the string, for the NUL.
  method Consolidate(s: string, c: char, start: int) returns (r: string)
    requires NulFree(s) && c != NUL
    ensures r == Consolidated(s, c, start)
  {
    hide Consolidated;
    var tmp := new char[|s| + 1](_ => NUL);
    var count := 0;
    for i := 0 to |s|
      invariant count <= i && NulFree(tmp[..count])
      invariant tmp[..count] + Consolidated(s[i..], c, start - i) == Consolidated(s, c, start)
    {
      ghost var before := tmp[..count];
      var next := if i + 1 < |s| then s[i + 1] else NUL;
      OneStep(s, c, start, i, before);
      if i < start || s[i] != c || next != c {
        tmp[count] := s[i];
        count := count + 1;
        assert tmp[..count] == before + [s[i]];
      }
    }
    assert s[|s|..] == "" && Consolidated("", c, start - |s|) == "" by {
      NothingLeft(c, start - |s|);
    }
    tmp[count] := NUL;
    assert tmp[..] == tmp[..count] + tmp[count..];
    CStringIsPrefix(tmp[..count], tmp[count..]);
    r := CString(tmp[..]);
  }

  // ---------------------------------------------------------------- normalisation

  const PROTOCOL: string := "srm://"

  // srm_util_normalize_surl, as a function
  function Normalized(surl: string): string {
    Consolidated(surl + "/", '/', |PROTOCOL| + 1)
  }

  // The non-empty parts of a path between its slashes; `part` is the beginning of the first one.
  function Components(part: string, s: string): seq<string>
    decreases s
  {
    if s == "" then Flush(part)
    else if s[0] == '/' then Flush(part) + Components("", s[1..])
    else Components(part + [s[0]], s[1..])
  }

  function Flush(part: string): seq<string> {
    if part == "" then [] else [part]
  }

  lemma SecondSlashIsNothing(part: string, s: string)
    requires |s| >= 2 && s[0] == '/' && s[1] == '/'
    ensures Components(part, s) == Components(part, s[1..])
  {
    assert s[1..][1..] == s[2..];
    assert Components("", s[1..]) == Flush("") + Components("", s[2..]);
  }

  lemma FirstCharacterGoesOn(part: string, c: char, s: string)
    ensures Components(part, [c] + s) ==
            if c == '/' then Flush(part) + Components("", s) else Components(part + [c], s)
  {
    assert ([c] + s)[1..] == s;
  }

  lemma {:induction false} ConsolidationKeepsComponents(part: string, s: string, start: int)
    ensures Components(part, Consolidated(s, '/', start)) == Components(part, s)
    decreases s
  {
    hide Components;
    if s != "" {
      var rest := Consolidated(s[1..], '/', start - 1);
      if start <= 0 && |s| >= 2 && s[0] == '/' && s[1] == '/' {
        ConsolidationKeepsComponents(part, s[1..], start - 1);
        SecondSlashIsNothing(part, s);
      } else {
        ConsolidationKeepsComponents(if s[0] == '/' then "" else part + [s[0]], s[1..], start - 1);
        FirstCharacterGoesOn(part, s[0], rest);
        FirstCharacterGoesOn(part, s[0], s[1..]);
        assert [s[0]] + s[1..] == s;
      }
    }
  }

  lemma {:induction false} TrailingSlashKeepsComponents(part: string, s: string)
    ensures Components(part, s + "/") == Components(part, s)
    decreases s
  {
    if s == "" {
      assert (s + "/")[1..] == "";
    } else {
      assert (s + "/")[1..] == s[1..] + "/";
      TrailingSlashKeepsComponents(if s[0] == '/' then "" else part + [s[0]], s[1..]);
    }
  }

  // Normalisation keeps the meaning of a SURL, ends it with a slash, and leaves no two slashes in a row
  // beyond the protocol part.
  lemma NormalizedKeepsMeaning(surl: string)
    ensures Components("", Normalized(surl)) == Components("", surl)
    ensures NoPairs(Normalized(surl), '/', |PROTOCOL| + 1)
    ensures var n := Normalized(surl); n != "" && n[|n| - 1] == '/'
    ensures |surl| >= 7 ==> |Normalized(surl)| >= 8 && Normalized(surl)[..7] == surl[..7]
    ensures NulFree(surl) ==> NulFree(Normalized(surl))
  {
    var s := surl + "/";
    ConsolidationKeepsComponents("", s, 7);
    TrailingSlashKeepsComponents("", surl);
    NoPairsRemain(s, '/', 7);
    EndsStay(s, '/', 7);
    VerbatimThenCollapsed(s, '/', 7);
    if |surl| >= 7 {
      EndsStay(s[7..], '/', 0);
    }
    NothingIsAdded(s, '/', 7);
  }

  lemma {:induction false} NothingIsAdded(s: string, c: char, start: int)
    ensures forall x :: x in Consolidated(s, c, start) ==> x in s
  {
    if s != "" {
      NothingIsAdded(s[1..], c, start - 1);
    }
  }

  lemma {:induction false} SlashAfterSlash(s: string, c: char, start: int)
    requires s != "" && s[|s| - 1] == c && start < |s|
    ensures Consolidated(s + [c], c, start) == Consolidated(s, c, start)
  {
    assert (s + [c])[1..] == s[1..] + [c];
    if |s| > 1 {
      SlashAfterSlash(s[1..], c, start - 1);
    } else {
      assert s == [c] && Consolidated("" + [c], c, start - 1) == [c];
    }
  }

  // Normalising again changes nothing exactly for SURLs that are longer than the protocol part.
  lemma IdempotentBeyondTheProtocol(surl: string)
    ensures Normalized(Normalized(surl)) == Normalized(surl) <==> |surl| >= 7
  {
    var n := Normalized(surl);
    NormalizedKeepsMeaning(surl);
    if |surl| >= 7 {
      SlashAfterSlash(n, '/', 7);
      FixedIfNoPairs(n, '/', 7);
    } else {
      FixedIfNoPairs(surl + "/", '/', 7);
      FixedIfNoPairs(n + "/", '/', 7);
      assert |n + "/"| == |n| + 1;
    }
  }

  // The shortest SURL for which it does: it gains a slash each time.
  lemma ShortSurlsGrow()
    ensures Normalized("") == "/" && Normalized("/") == "//"
  {
    hide Consolidated;
    FixedIfNoPairs("/", '/', 7);
    FixedIfNoPairs("//", '/', 7);
    assert "" + "/" == "/" && "/" + "/" == "//";
  }

  // srm_util_normalize_surl
  method Normalize(surl: string) returns (r: string)
    requires NulFree(surl)
    ensures r == Normalized(surl)
  {
    r := Consolidate(surl + "/", '/', |PROTOCOL| + 1);
  }
}
