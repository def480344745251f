# srm-ifce, verified

srm-ifce is a C client for the Storage Resource Manager Interface Specification v2.2. This project models
its core and proves properties of it, in Dafny 4.11. `dafny verify dfyconfig.toml` checks all of it.

What the client talks to is a class `Wire.World`: a server whose answers are arbitrary, two clocks that move
forward by arbitrary amounts, sleeps that last at least as long as asked, and a log of everything that was sent
together with its answer. A statement about a world is a statement about every server.

| file | models |
|---|---|
| `Common`, `StatusCodes`, `TimeUtils`, `Wire` | optional values and C integers; the status codes and `statuscode2errno`; `struct timespec`, with aliasing; the world outside |
| `BackOff` | `srm_internal_context`: the deadline, the doubling wait of the min-max logic, the randomised wait of the old logic, `back_off_logic` |
| `Requests` | the one table (`Settle`) by which an answer settles a call, the loop that repeats a request on internal errors, the abort |
| `SpaceTokens` | looking up space tokens and choosing the one that fits best |
| `Transfers` | asynchronous put, get and bring-online, their polls, and the copying of file statuses |
| `SyncCalls` | the synchronous put, get and bring-online, and what holds of every run |
| `Listing` | the metadata tree: its recursive copy onto a heap of numbered blocks, and its release |
| `LsRequests`, `ListingResume` | ls, asynchronous and synchronous, with its offset; listing a directory in several calls |
| `Surls` | consolidation of repeated characters in a buffer; normalisation of a SURL |
| `Mkdir`, `MkdirTheorems` | `srmv2_mkdir`'s climb and descent in one buffer; its trace, and its effect on a tree of directories |

The main results:

* Every synchronous call terminates against every server. The requests and polls that it sends are bounded by
  the waits that fit into the timeout; with the default parameters there are at most 16, and for an ls by the old
  polling logic at most 22, whatever the timeout. Its trace is
  lookups, then the request, then polls, then at most one abort, with one token throughout; the last answer
  alone decides what it returns and whether it aborts.
* `srmv2_mkdir` sends ever shorter prefixes of the normalised SURL and then the same ones in reverse. On a server
  that keeps a tree, it creates exactly the missing directories, each once, with 2m - 1 calls for m > 0 missing
  ones; run again on the tree that it has left, it changes nothing.
* A copied listing mirrors the server's tree position by position, cut off exactly at failures, and deleting it
  frees every block of the copy once and nothing else. When ls is repeated until its offset is back at 0, the
  answers of the server bring every entry of a directory once, in order. The outputs of the calls, put together,
  hold the whole directory if and only if no answer that brought entries was cut off at the directory.
* A normalised SURL names the same path, and normalising it again changes nothing if and only if it had at least
  seven characters.
* A space token is chosen if and only if some space is large enough, and it is the first of the smallest such.

## What the code does differently from what one may expect

* `timespec_add` carries only when the nanoseconds *exceed* 10^9 (src/time_utils.h:41), so that one instant has two
  representations. `LessIsRealOrderUpToCarry` says for which pair the comparison is wrong; it is the only one.
* A wait that is refused after the *first* answer makes the call fail without an abort, because the token is not
  copied then (src/srmv2_data_transfer_functions.c:489-492). `LastAnswerDecides` therefore has aborts only for
  requests that were polled. Bring-online aborts on any failure of a poll, the others only when time is up.
* In the old polling logic `estimated_wait_time` is -1 without an estimate. If the clock passes the deadline
  between the two readings at src/srm_util.c:508-510, this -1 is taken for an estimate and goes to `sleep`, which
  takes an unsigned number of seconds. `WaitForNewAttempt` promises a positive sleep that is planned to end before
  the deadline exactly when this does not happen (`Overslept`); `OversleepExample` has readings for which it does.
* `srm_util_normalize_surl` is not idempotent for SURLs of fewer than seven characters ("" becomes "/", then "//").
* In a truncated listing every status counts as a failure and cuts the copy off, while the offset moves on. The
  caller finds the entries of an answer if and only if the status of the directory itself, if it has one, does not
  count as a failure (`EntriesArrive`). `LostEntry` is a directory of two entries of which one is lost.
* The timeout bounds the number of requests if and only if neither the minimum nor the maximum wait is 0
  (`BoundedExactlyIfSane`); otherwise all waits but the first are empty, and an empty wait is granted without a sleep
  as long as the deadline is not reached. This is what a context must satisfy for a call (`Sane`), by the min-max
  logic; the interface has no function that changes the defaults, which do. A minimum above the maximum is waited for
  once. The waits then shrink (`WaitsNeverShrink`), so that a refused wait need not stay refused
  (`RefusedThenGranted`).

## Model

| member | source | states |
|---|---|---|
| TimeUtils.LessIsRealOrderUpToCarry | src/time_utils.h:30-33 | for 0 <= nsec <= 10^9, `<` agrees with the real order except on the two representations of one instant; it holds whenever the real value is smaller, and implies smaller or equal |
| TimeUtils.Timespec.Add | src/time_utils.h:37-45 | the exact sum, even when the result is an operand; 0 <= nsec <= 10^9 is kept |
| TimeUtils.Timespec.Copy | src/time_utils.h:66-70 | the value is copied |
| BackOff.WaitClosedForm | src/srm_util.c:472-496 | call k waits min(2^k * minimum, maximum), if the minimum is not above the maximum, and else from the second call on |
| BackOff.WaitsGrow | src/srm_util.c:488-494 | with a minimum up to the maximum no wait is shorter than an earlier one, and all lie between the two |
| BackOff.NoWaitIsLonger | src/srm_util.c:472-496 | no wait is longer than the greater of minimum and maximum |
| BackOff.WaitsNeverShrink | src/srm_util.c:488-494 | the waits never shrink if and only if the minimum is not above the maximum |
| BackOff.RefusedThenGranted | src/srm_util.c:472-496 | with a minimum well above the maximum, a wait can be granted after one was refused, before the same deadline |
| BackOff.SumsAreUnbounded | src/srm_util.c:472-496 | k waits last at least k times the lesser of minimum and maximum |
| BackOff.NoProgress | src/srm_util.c:472-496 | with a minimum or a maximum of 0 any number of waits adds up to no more than the first |
| BackOff.SumsExceedEveryBound | src/srm_util.c:472-496 | the waits add up to more than any bound if and only if neither the minimum nor the maximum is 0 |
| BackOff.DefaultsAllowFifteenWaits | src/srm_struct_util.c:23-32 | with the defaults 0.2 s, 5 s and 60 s, k waits fit into the timeout if and only if k <= 15 |
| BackOff.InternalContext.constructor | src/srm_util.c:137-162 | the deadline lies the timeout (180 s if none is given) after the start, on both clocks; the first wait is the minimum |
| BackOff.InternalContext.SetEstimatedWaitTime | src/srm_util.c:165-169 | afterwards there is no estimate (-1) or one that is positive and below the timeout; such an estimate of the server is kept; the context stays valid |
| BackOff.InternalContext.SleepUntil | src/srm_util.c:478-482 | sleeps until the planned moment, and overshoots by no more than one tick and the jitter |
| BackOff.InternalContext.DoubleWait | src/srm_util.c:488-494 | the next wait is twice the present one, or the maximum if that is less |
| BackOff.InternalContext.WaitMinMax | src/srm_util.c:472-496 | granted: now + wait is reached, was planned at or before the deadline, overshoot at most a tick plus jitter, and no sleep at all if the wait is empty; refused: no sleep and now + wait is at or past the deadline; once refused, refused at every later reading, if the waits never shrink |
| BackOff.InternalContext.RandomWait | src/srm_util.c:514-517 | an exponential wait is the drawn number, reduced to between 1 and 2^attempt (2, 4, 8 ... 1024 for the attempts 1 to 10) |
| BackOff.InternalContext.ChooseLength | src/srm_util.c:510-535 | the length of a wait is the estimate if there is one, else a number drawn for this attempt, for ten attempts; after that the wait is refused |
| BackOff.InternalContext.SleepWithin | src/srm_util.c:519-552 | the sleep lasts exactly the length that was asked for if that ends before the end time; otherwise until two seconds before the end time, by the third reading of the clock, or the wait is refused without a sleep when that moment has come |
| BackOff.InternalContext.WaitForNewAttempt | src/srm_util.c:501-555 | the length of every sleep exactly, by three readings of the clock: the estimate, or the drawn number of seconds, if that ends before the end time, and else what is left but for two seconds, or refused; positive and planned to end strictly before the end time, unless the clock passes it between two readings; at most ten exponential waits; every granted wait makes what is left smaller, and without an estimate uses up the limit on the number of waits |
| BackOff.InternalContext.WaitSwitchAuto | src/srm_util.c:557-569 | whichever logic is chosen, a granted wait is granted while the deadline is not past and brings it closer, and a refused one means that time is up: no more than the longest wait, or two seconds by the old logic, is left, or ten attempts were made |
| BackOff.InternalContext.BackOffLogic | src/srm_util.c:572-616 | the status of an attempt: internal errors and queued answers are waited for, or time out, but only when time is up; the rest is decided without a wait |
| BackOff.WhatACodeMeans | src/srm_util.c:572-616 | which codes make an attempt time out, fail with an internal error, be queued or succeed, given whether the wait was refused; without a code it fails |
| Requests.WhatAnAnswerMeans | src/srmv2_data_transfer_functions.c:274-325 | status and result of a call by the code of the answer and what it brings: a call succeeds exactly by what is delivered, but for the codes that are waited for, a put request without a token and a put whose space has expired; it is queued while there is time and, at first, a token |
| Requests.AskOnce | src/srmv2_data_transfer_functions.c:425-443 | one attempt sends one request, and classifies its answer; the context then goes by the estimate of the first file, if that is positive and below the timeout, and else by none; a wait after it uses up time; it times out only when time is up |
| Requests.AskUntilAnswered | src/srmv2_data_transfer_functions.c:425-443 | the loop on internal errors ends; all requests are the same, all but the last were answered with an internal error, every repetition follows a granted wait, and the estimate of the last answer is kept |
| Requests.SendAbort | src/srmv2_data_transfer_functions.c:1110-1149 | one abort for the token, none without one; 0 exactly if the server confirms |
| SpaceTokens.GetSpaceTokens | src/srmv2_space_management_functions.c:159-233 | one request; the tokens of a proper answer, in order, else -1 |
| SpaceTokens.CopyMd | src/srmv2_space_management_functions.c:109-150 | one entry with all its fields: token, owner, sizes, lifetimes, retention policy and access latency |
| SpaceTokens.MdFieldByField | src/srmv2_space_management_functions.c:109-150 | every field of an entry against the answer, with the value that stands for a missing one; a size of 2^63 or more is negative |
| SpaceTokens.MetadataAsStated | src/srmv2_space_management_functions.c:24-157 | there is metadata if and only if the answer is a success with an entry for each token and none refused; entry i has the unused size and the token of entry i of the answer |
| SpaceTokens.GetSpaceMd | src/srmv2_space_management_functions.c:24-157 | one request; an entry for each token, blank where the server left it out, and -1 if it refuses one |
| SpaceTokens.FindBest | src/srmv2_space_management_functions.c:281-290 | the first of the smallest spaces with room for the size and the margin; -1 if and only if there is none |
| SpaceTokens.BestIsUnique | src/srmv2_space_management_functions.c:281-290 | the metadata determine the choice |
| SpaceTokens.BlankFitsOnlyForNothing | src/srmv2_space_management_functions.c:97-119 | if anything is needed, an entry that fits has a token and is large enough by what the server says; one without metadata never fits |
| SpaceTokens.LookupByTheAnswers | src/srmv2_space_management_functions.c:235-307 | what a lookup does, by the answers alone: without a proper offer no token, a single one unseen, and among several, if anything is needed, a token if and only if some space has that much unused and 1 MiB more, and then that of the first of the smallest such |
| SpaceTokens.GetBestSpaceToken | src/srmv2_space_management_functions.c:235-307 | what is asked, and the token that the answers determine: the only one offered, or the best fit, or none |
| StatusCodes.CodesOfErrnos | src/srm_util.c:278-325 | exactly four codes mean no error; EEXIST means SRM_DUPLICATION_ERROR and nothing else, ENOENT means SRM_INVALID_PATH and nothing else |
| StatusCodes.CodesOfOtherErrnos | src/srm_util.c:278-325 | exactly which codes mean EACCES, EFBIG, EAGAIN, EBADR and EBUSY |
| StatusCodes.SourceOfExplanation | src/srm_util.c:869-882 | the text is that of the file if it has one, else that of the request unless it only says, in either case, that everything failed, else there is none; the code is always that of the file |
| StatusCodes.Explain | src/srm_util.c:869-882 | the explanation of a file: its own, else that of the request unless it only says that everything failed, else none but for an error |
| Transfers.CopyPinStatuses | src/srm_util.c:847-992 | entry i of the output is made from entry i of the answer, blank for a missing one |
| Transfers.WhatTheCallerGets | src/srm_util.c:847-992 | an output that holds an answer: as many entries, and in each the SURL, the transfer URL (none for bring-online), the status and its explanation, the pin lifetime and the estimated wait time (-1 without one) of entry i of the answer; and the status of the request |
| Transfers.SettlePut | src/srmv2_data_transfer_functions.c:274-325 | agrees with the table, and the output holds what was delivered |
| Transfers.SettleGet | src/srmv2_data_transfer_functions.c:446-499 | agrees with the table, and the output holds what was delivered |
| Transfers.SettleBringOnline | src/srmv2_data_transfer_functions.c:870-927 | agrees with the table, and the output holds what was delivered |
| Transfers.SettlePutPoll | src/srmv2_data_transfer_functions.c:77-115 | agrees with the table, where an expired space fails; the output holds what was delivered |
| Transfers.SettleGetPoll | src/srmv2_data_transfer_functions.c:553-596 | agrees with the table, and the output holds what was delivered |
| Transfers.SettleBringOnlinePoll | src/srmv2_data_transfer_functions.c:985-1031 | agrees with the table, and the output holds what was delivered |
| Transfers.LookUpSpace | src/srmv2_data_transfer_functions.c:207-229 | with a description the best token for it is looked up, and without one for it the request is given up |
| Transfers.AddUp | src/srmv2_data_transfer_functions.c:181-198 | the sizes go over the wire unsigned, and the total is the sum of the given ones |
| Transfers.SumOfOne | src/srmv2_data_transfer_functions.c:181-198 | nothing adds up to 0, and one size to itself |
| Transfers.SumOfBoth | src/srmv2_data_transfer_functions.c:181-198 | the sum of two sequences, one after the other, is the sum of their sums |
| Transfers.PrepareToGet | src/srmv2_data_transfer_functions.c:341-500 | lookup, then one request repeated on internal errors; status, result, token and output are those of the last answer |
| Transfers.PrepareToPut | src/srmv2_data_transfer_functions.c:132-326 | the same, with the sizes of the files and a space looked up for their sum |
| Transfers.BringOnlineRequest | src/srmv2_data_transfer_functions.c:771-928 | the same |
| Transfers.StatusOfGetRequest | src/srmv2_data_transfer_functions.c:516-597 | polls with the token of the output, and is settled by the last answer |
| Transfers.StatusOfPutRequest | src/srmv2_data_transfer_functions.c:39-116 | polls with the token of the output, and is settled by the last answer |
| Transfers.StatusOfBringOnlineRequest | src/srmv2_data_transfer_functions.c:945-1033 | polls with the token of the output and the SURLs, and is settled by the last answer |
| Transfers.RequestGoesWhereItFits | src/srmv2_data_transfer_functions.c:181-229 | with a description, a request that is sent names the only token offered, or among several that of the first of the smallest spaces with room; however the files of a put are split in two, that is room for both parts together and 1 MiB more |
| Transfers.NoRequestForWantOfRoom | src/srmv2_data_transfer_functions.c:215-229 | a request that is not sent after its metadata came properly: no space has that room |
| Transfers.WhatIsSent | src/srmv2_data_transfer_functions.c:166-263 | every repetition of a request carries the SURLs of the caller, the chosen space and, for put, the size of each file as an unsigned number; nothing is sent exactly if no space was found for a description, or put has files without sizes |
| SyncCalls.PrepareToGetSync | src/srmv2_sync_wrapper.c:99-133 | terminates; the log grows by lookup, requests, polls and aborts, in this order; the run is well formed and within the timeout; the output holds the last answer and, on success, its token; it times out, by the min-max logic, no earlier than the longest wait before the deadline |
| SyncCalls.PrepareToPutSync | src/srmv2_sync_wrapper.c:63-97 | the same for put |
| SyncCalls.BringOnlineSync | src/srmv2_sync_wrapper.c:134-169 | the same for bring-online |
| SyncCalls.LastAnswerDecides | src/srmv2_sync_wrapper.c:63-169 | the last answer alone decides the result; an abort is sent if and only if the request was polled and the last answer is still to be waited for, or for bring-online, nothing was delivered |
| SyncCalls.OneTokenThroughout | src/srmv2_sync_wrapper.c:115-126 | only a queued request is polled, with its token and for bring-online its SURLs, while the answers are to be waited for; at most one abort, of that token, after all polls |
| SyncCalls.RequestsAreBounded | src/srmv2_sync_wrapper.c:99-133 | n requests and polls mean (n - 1) * the lesser of minimum and maximum <= timeout, or n <= timeout + 2 by the old logic |
| SyncCalls.BoundedExactlyIfSane | src/srm_util.c:472-496 | the timeout bounds the number of requests and polls if and only if no wait of the min-max logic is empty |
| SyncCalls.SixteenByDefault | src/srm_struct_util.c:23-58 | with the default context, n requests and polls are within the timeout if and only if n <= 16 |
| Surls.CollapsesRuns | src/srm_util.c:1355-1381 | from the start index on, consolidation keeps the first character of each run |
| Surls.VerbatimThenCollapsed | src/srm_util.c:1355-1381 | the characters before the start index are kept, and only the rest is collapsed |
| Surls.OthersStay | src/srm_util.c:1355-1381 | the other characters all stay, in order |
| Surls.NoPairsRemain | src/srm_util.c:1355-1381 | no pair is left from the start index on |
| Surls.FixedIfNoPairs | src/srm_util.c:1355-1381 | a string is left alone if and only if it has no pair from the start index on |
| Surls.ConsolidatedIsIdempotent | src/srm_util.c:1355-1381 | a second consolidation changes nothing |
| Surls.Consolidate | src/srm_util.c:1355-1381 | the loop over the buffer computes the consolidated string, within bounds and terminated |
| Surls.NormalizedKeepsMeaning | src/srm_util.c:1409-1424 | the non-empty components are the same, the result ends in a slash, no two slashes touch from index 7 on, and the first seven characters stay |
| Surls.IdempotentBeyondTheProtocol | src/srm_util.c:1409-1424 | normalising is idempotent if and only if the SURL has at least seven characters |
| Surls.ShortSurlsGrow | src/srm_util.c:1409-1424 | the empty SURL becomes "/", and that becomes "//" |
| Surls.Normalize | src/srm_util.c:1409-1424 | computes the normalised SURL |
| Mkdir.Strrchr | src/srmv2_directory_functions.c:436-478 | the position of the last slash before the NUL, or -1 |
| Mkdir.StrchrNul | src/srmv2_directory_functions.c:483-489 | the position of the first NUL |
| Mkdir.RootIsProtocolHostSlash | src/srmv2_directory_functions.c:603-628 | a root is srm:// in either case, a host without a slash, and one slash |
| Mkdir.Try | src/srmv2_directory_functions.c:449-470 | one request, and what its answer means in status codes: accepted (created or there), missing exactly for SRM_INVALID_PATH, or refused |
| Mkdir.CreateUpwards | src/srmv2_directory_functions.c:440-479 | the climb follows its specification for any answers; afterwards the buffer is the SURL but for NULs from the found slash on |
| Mkdir.CreateDownwards | src/srmv2_directory_functions.c:481-501 | the descent follows its specification for any answers; on success the buffer is the SURL again |
| Mkdir.MakeDirectory | src/srmv2_directory_functions.c:421-509 | a climb and a descent on the normalised SURL, with every write within the buffer |
| MkdirTheorems.ClimbSendsCuts | src/srmv2_directory_functions.c:440-479 | the climb sends the prefixes that end before a slash, longest first |
| MkdirTheorems.DescentSendsCutsBackwards | src/srmv2_directory_functions.c:481-501 | the descent sends the same prefixes in reverse order, all of them on success |
| MkdirTheorems.OnlyTheWholeIsARoot | src/srmv2_directory_functions.c:603-628 | for srm://host/... no prefix passes the root test, only the whole SURL can |
| MkdirTheorems.TraceReversal | src/srmv2_directory_functions.c:436-501 | q1..qk upwards, each a proper prefix of the one before, then an initial part of q(k-1)..q1 downwards, all of it on success; for any answers |
| MkdirTheorems.MissingOnesAreDeepest | src/srmv2_directory_functions.c:440-504 | in a tree that is closed under parents, the missing directories are the deepest ones |
| MkdirTheorems.MkdirOutcome | src/srmv2_directory_functions.c:440-501 | for any server: 0 if and only if the climb ended with an answer that is accepted and every request of the descent created its directory; all answers of the climb but the last are SRM_INVALID_PATH |
| MkdirTheorems.MkdirOnTree | src/srmv2_directory_functions.c:440-504 | on a server that answers SRM_DUPLICATION_ERROR for what is there, SRM_INVALID_PATH without a parent and else creates: returns 0; the tree gains exactly the missing prefixes of the target, each created once, parents first; 2m - 1 calls if m > 0 are missing, 1 if none is, 0 for a root |
| MkdirTheorems.StillClosed | src/srmv2_directory_functions.c:440-504 | after a run every directory still has its parent |
| MkdirTheorems.MkdirAgain | src/srmv2_directory_functions.c:440-504 | two runs, the second on the tree that the first one left: the second succeeds and changes nothing, with one call, or none for a root |
| Listing.CutOffExactlyAtFailures | src/srm_util.c:1188-1320 | a record has an explanation and nothing below it exactly if its status is a failure, which under SRM_TOO_MANY_RESULTS every status is (EFBIG); otherwise all its children follow |
| Listing.PositionByPosition | src/srm_util.c:1168-1321 | an array that is a copy has one record for each entry, in order, blank for a missing one |
| Listing.RecordFieldByField | src/srm_util.c:1186-1315 | what a record of a copy holds: path, the explanation of a failure, and else the size, checksum and space tokens of the entry |
| Listing.CopyTokens | src/srm_util.c:1288-1303 | the array of space tokens, entry by entry, with NULL for a missing one |
| Listing.CopyStatus | src/srm_util.c:1196-1201 | the status of an entry: none is fine, any is EFBIG in a truncated listing |
| Listing.CopyEntry | src/srm_util.c:1186-1315 | one record and its blocks are a copy of one entry, a failure with its explanation |
| Listing.CopyList | src/srm_util.c:1168-1321 | the array is a copy of the listing, position by position and to any depth; exactly the blocks of the copy are allocated, and nothing else changes |
| Listing.ListFrame | src/srm_util.c:1168-1321 | a copy depends on no block but its own |
| Listing.DeleteTokens | src/gfal_srm_ifce_memory_functions.c:68-74 | the tokens and their array are freed, each once |
| Listing.DeleteEntry | src/gfal_srm_ifce_memory_functions.c:63-76 | exactly the blocks of one entry are freed, each while it is allocated |
| Listing.DeleteList | src/gfal_srm_ifce_memory_functions.c:60-79 | exactly the blocks of the copy are freed, each while it is allocated |
| Listing.CopyThenDelete | src/srm_util.c:1168-1321 | a copy that is deleted by its returned count leaves the heap as it was |
| LsRequests.TakeListing | src/srmv2_directory_functions.c:150-167 | the listing is copied and the offset moved past the entries of a truncated listing of one directory, else to 0 |
| LsRequests.SettleLs | src/srmv2_directory_functions.c:126-178 | agrees with the table; a failure leaves heap and offset alone |
| LsRequests.SettleLsPoll | src/srmv2_directory_functions.c:223-270 | agrees with the table; a failure leaves heap and offset alone |
| LsRequests.FillIn | src/srmv2_directory_functions.c:86-104 | an ls of the SURLs, with the offset and the count of the caller, each only if it is positive |
| LsRequests.WhatLsSends | src/srmv2_directory_functions.c:86-124 | every repetition of the request carries the SURLs, the offset and the count of the caller, where 0 and none are the same; nothing is sent exactly if one of the two is negative |
| LsRequests.LsRequest | src/srmv2_directory_functions.c:53-181 | a negative offset or count sends nothing; status, result, token and listing are those of the last answer |
| LsRequests.StatusOfLsRequest | src/srmv2_directory_functions.c:183-272 | polls with the token of the output, and is settled by the last answer |
| LsRequests.AwaitLs | src/srmv2_sync_wrapper.c:43-60 | the loop of polls ends, with an abort exactly on a timeout; the listing that it takes in is that of the last poll |
| LsRequests.LsSync | src/srmv2_sync_wrapper.c:27-61 | terminates, with a well-formed run within the timeout, and at most 22 requests and polls by the old logic; every request carries the offset and the count that the caller came with; a success moves the offset once, however often it polled, and allocates exactly the listing of the last answer; a failure changes neither |
| LsRequests.DestroyOutput | src/srmv2_directory_functions.c:36-50 | exactly the blocks of the listing are freed |
| LsRequests.DestroyUndoesLs | src/srmv2_directory_functions.c:36-50 | an ls call and the destruction of its output leave the heap as it was |
| ListingResume.OffsetMoves | src/srmv2_directory_functions.c:158-166 | for any answer: the offset moves past the entries of a truncated answer about one directory, and else to 0 |
| ListingResume.ZeroMeansComplete | src/srmv2_directory_functions.c:158-166 | a call whose request is served from the offset that it carries: the offset of the caller moves by the entries that came, and is back at 0 if and only if the answer was the last |
| ListingResume.ListingIsTiled | src/srmv2_directory_functions.c:158-166 | calls that each go on with the offset the last one left, against a server that goes by the offset in the request: however it cuts the directory up, its answers bring the entries in order, each once, with no more calls than entries |
| ListingResume.WholeListing | src/srmv2_directory_functions.c:93-166 | from offset 0 back to 0: the server has sent the whole directory, within N calls |
| ListingResume.EntriesArrive | src/srm_util.c:1198-1223 | for any answer, truncated or the last: below the directory the output holds a copy of its entries, or nothing if the status of the directory counts as a failure |
| ListingResume.CollectedIsGathered | src/srm_util.c:1198-1223 | what is in the outputs is what was sent if and only if no answer that brought entries was cut off |
| ListingResume.WholeListingArrives | src/srmv2_directory_functions.c:93-166 | from offset 0 back to 0: the entries found in the outputs, put together, are the directory if and only if nothing was cut off |
| ListingResume.LostEntry | src/srm_util.c:1198-1223 | two entries and two calls, the first directory with a status of success: the offset moves to 1, nothing is below the directory, and the caller ends up with the second entry alone |

## Left out

- gSOAP, credentials, HTTP headers and the user agent (src/srm_util.c:172-268): a call is an arbitrary answer; fields of a request that do not vary in these calls (protocols, lifetimes, number of levels) are not in `Wire.Ask`.
- Error texts and errno after a call, except the file statuses and the three codes that matter to mkdir. An explanation is a status code and a text, before it is written out together with the name of the function.
- Stat fields of a listing other than the size, locality, dates and permissions: library calls and finite tables without effect on the tree.
- Allocation failures: every allocation succeeds.
- Memory other than the metadata tree: retries overwrite `retstatus` and polls overwrite `filestatuses`, whose old values are not accounted for. Freed blocks are not used again by the heap. A record is assembled first and then stored in its array, where the C code writes its fields in place.
- Overflow of time values, of the offset of a listing and of the sum of file sizes: the first two are unbounded here, the third is a precondition (`NoOverflow`).
- Transfers.AddUp: requires that no partial sum leaves 64 bits.
- SpaceTokens.GetSpaceMd: relies on a metadata array no shorter than the list of tokens, which the C code reads unchecked; `Wire.World.CallGetSpaceMetaData` gives no other. In the same way a response to mkdir always has a status.
- BackOff.InternalContext.WaitMinMax: promises that a refused wait stays refused only for a minimum up to the maximum; see above for the others.
- SyncCalls.RequestsAreBounded: counts the first wait as the maximum if the minimum is longer than that.
- MkdirTheorems.TraceReversal: requires a SURL that begins with srm:// and a host; for others `Mkdir.MakeDirectory` still says what is sent, by the climb and the descent.
- Transfers.RequestGoesWhereItFits: names a space with room only if the sizes and the margin add up to more than 0; below that an entry without metadata, whose size is 0, can be chosen.
- Requests.AskUntilAnswered: the estimate is read from the first file if the array has one; an array that is announced as empty but whose pointer is not NULL is not modelled.
- NULL for the string that is consolidated, and for the pointers to context, input and output that the C code asserts or checks.
- Ping, rm, rmdir, mv, permissions, put-done, release, abort of single files, lifetimes, space reservation, the asynchronous wrappers and the dispatch by version: thin code or finite tables.
- `timespec_sub`, `timespec_clear` and `timespec_isset`, which nothing here uses.
