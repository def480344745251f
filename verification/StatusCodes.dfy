// Status codes of the SRM v2.2 interface, and their translation to errno values.
module StatusCodes {
  import opened Common

  datatype StatusCode =
    | SrmSuccess
    | SrmFailure
    | SrmAuthenticationFailure
    | SrmAuthorizationFailure
    | SrmInvalidRequest
    | SrmInvalidPath
    | SrmFileLifetimeExpired
    | SrmSpaceLifetimeExpired
    | SrmExceedAllocation
    | SrmNoUserSpace
    | SrmNoFreeSpace
    | SrmDuplicationError
    | SrmNonEmptyDirectory
    | SrmTooManyResults
    | SrmInternalError
    | SrmFatalInternalError
    | SrmNotSupported
    | SrmRequestQueued
    | SrmRequestInProgress
    | SrmRequestSuspended
    | SrmAborted
    | SrmReleased
    | SrmFilePinned
    | SrmFileInCache
    | SrmSpaceAvailable
    | SrmLowerSpaceGranted
    | SrmDone
    | SrmPartialSuccess
    | SrmRequestTimedOut
    | SrmLastCopy
    | SrmFileBusy
    | SrmFileLost
    | SrmFileUnavailable
    | SrmCustomStatus

  datatype Errno =
    | OK
    | ENOENT | EACCES | EEXIST | ENOSPC | ECOMM | EOPNOTSUPP | ENOTEMPTY | ETIME
    | EAGAIN | EIO | EBADR | EDQUOT | EBUSY | EIDRM | ECANCELED | EFBIG | EINVAL

  // statuscode2errno
  function ToErrno(code: StatusCode): Errno {
    match code
    case SrmInvalidPath => ENOENT
    case SrmAuthenticationFailure => EACCES
    case SrmAuthorizationFailure => EACCES
    case SrmDuplicationError => EEXIST
    case SrmNoFreeSpace => ENOSPC
    case SrmInternalError => ECOMM
    case SrmNotSupported => EOPNOTSUPP
    case SrmNonEmptyDirectory => ENOTEMPTY
    case SrmFileLifetimeExpired => ETIME
    case SrmRequestInProgress => EAGAIN
    case SrmRequestQueued => EAGAIN
    case SrmFailure => EIO
    case SrmNoUserSpace => EBADR
    case SrmInvalidRequest => EBADR
    case SrmExceedAllocation => EDQUOT
    case SrmFileBusy => EBUSY
    case SrmFileUnavailable => EBUSY
    case SrmFileLost => EIDRM
    case SrmAborted => ECANCELED
    case SrmTooManyResults => EFBIG
    case SrmSuccess => OK
    case SrmFilePinned => OK
    case SrmSpaceAvailable => OK
    case SrmReleased => OK
    case _ => EINVAL
  }

  // Which codes are read as no error, as a directory that is there, and as a missing one, each set complete
  lemma CodesOfErrnos(code: StatusCode)
    ensures ToErrno(code) == OK <==> code in {SrmSuccess, SrmFilePinned, SrmSpaceAvailable, SrmReleased}
    ensures ToErrno(code) == EEXIST <==> code == SrmDuplicationError
    ensures ToErrno(code) == ENOENT <==> code == SrmInvalidPath
  {
  }

  // The codes of the other errnos, each set complete
  lemma CodesOfOtherErrnos(code: StatusCode)
    ensures ToErrno(code) == EACCES <==> code in {SrmAuthenticationFailure, SrmAuthorizationFailure}
    ensures ToErrno(code) == EFBIG <==> code == SrmTooManyResults
    ensures ToErrno(code) == EAGAIN <==> code in {SrmRequestQueued, SrmRequestInProgress}
    ensures ToErrno(code) == EBADR <==> code in {SrmNoUserSpace, SrmInvalidRequest}
    ensures ToErrno(code) == EBUSY <==> code in {SrmFileBusy, SrmFileUnavailable}
  {
  }

  lemma CodesOfStillOtherErrnos(code: StatusCode)
    ensures ToErrno(code) == ENOSPC <==> code == SrmNoFreeSpace
    ensures ToErrno(code) == ECOMM <==> code == SrmInternalError
    ensures ToErrno(code) == EOPNOTSUPP <==> code == SrmNotSupported
    ensures ToErrno(code) == ENOTEMPTY <==> code == SrmNonEmptyDirectory
  {
  }

  lemma CodesOfTheRarestErrnos(code: StatusCode)
    ensures ToErrno(code) == ETIME <==> code == SrmFileLifetimeExpired
    ensures ToErrno(code) == EIO <==> code == SrmFailure
    ensures ToErrno(code) == EDQUOT <==> code == SrmExceedAllocation
    ensures ToErrno(code) == EIDRM <==> code == SrmFileLost
    ensures ToErrno(code) == ECANCELED <==> code == SrmAborted
  {
  }

  // srm2__TReturnStatus
  datatype NodeStatus = NodeStatus(code: StatusCode, explanation: Option<string>)

  // The explanation of a file status, before it is written out: the status code of the file, and a text.
  datatype Explanation = Explanation(code: StatusCode, text: Option<string>)

  // A file explains itself, or else the request does, unless all that it has to say is that everything
  // failed. Without either, there is an explanation only for an error.
  function ExplanationOf(own: NodeStatus, request: NodeStatus, status: Errno): Option<Explanation> {
    if Says(own.explanation) then
      Some(Explanation(own.code, own.explanation))
    else if Says(request.explanation) && !FailedForAll(request.explanation.value) then
      Some(Explanation(own.code, request.explanation))
    else if status != OK then
      Some(Explanation(own.code, None))
    else
      None
  }

  // Where an explanation comes from. A request that only says, in either case, that everything failed explains
  // no file.
  lemma SourceOfExplanation(own: NodeStatus, request: NodeStatus, status: Errno)
    ensures var e := ExplanationOf(own, request, status);
            var useless := request.explanation.GetOr("") == "" || SaysAllFailed(request.explanation.value);
            && (e.Some? ==> e.value.code == own.code)
            && (own.explanation.GetOr("") != "" ==> e.Some? && e.value.text == own.explanation)
            && (own.explanation.GetOr("") == "" && !useless ==> e.Some? && e.value.text == request.explanation)
            && (own.explanation.GetOr("") == "" && useless ==>
                  (e.Some? <==> status != OK) && (e.Some? ==> e.value.text == None))
  {
    if Says(request.explanation) {
      CaseDoesNotMatter(request.explanation.value);
    }
  }

  // The text begins with these words, in either case.
  ghost predicate SaysAllFailed(text: string) {
    |text| >= 14 && forall i :: 0 <= i < 14 ==> text[i] == "failed for all"[i] || text[i] == "FAILED FOR ALL"[i]
  }

  lemma CaseDoesNotMatter(text: string)
    ensures FailedForAll(text) <==> SaysAllFailed(text)
  {
    var upper, lower := "FAILED FOR ALL", "failed for all";
    assert forall i :: 0 <= i < 14 ==> Lower(upper[i]) == lower[i] && Lower(lower[i]) == lower[i];
    if |text| >= 14 {
      forall i | 0 <= i < 14
        ensures Lower(text[i]) == lower[i] <==> text[i] == lower[i] || text[i] == upper[i]
      {
      }
    }
  }

  // How the copying functions choose an explanation
  method Explain(own: NodeStatus, request: NodeStatus, status: Errno) returns (e: Option<Explanation>)
    ensures e == ExplanationOf(own, request, status)
    ensures status != OK ==> e.Some?
  {
    e := None;
    if own.explanation.Some? && own.explanation.value != "" {
      e := Some(Explanation(own.code, own.explanation));
    } else if request.explanation.Some? && request.explanation.value != "" && !FailedForAll(request.explanation.value) {
      e := Some(Explanation(own.code, request.explanation));
    } else if status != OK {
      e := Some(Explanation(own.code, None));
    }
  }

  predicate Says(text: Option<string>) {
    text.Some? && text.value != ""
  }

  const FAILED_FOR_ALL: string := "failed for all"

  // strncasecmp(text, "failed for all", 14) == 0
  predicate FailedForAll(text: string) {
    |text| >= |FAILED_FOR_ALL| && forall i :: 0 <= i < |FAILED_FOR_ALL| ==> Lower(text[i]) == FAILED_FOR_ALL[i]
  }

  function Lower(c: char): char {
    if 'A' <= c <= 'Z' then c - 'A' + 'a' else c
  }
}
