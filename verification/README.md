# Semantik subscription client: a verified model

This project models the parts of the Noetive Rust SDK in which correctness spans many
calls, and proves what they promise:

- the incremental SSE scanner, which reads an HTTP body in arbitrary chunks;
- the subscription built on it: the handshake that reads the first frame, and the poll
  loop that delivers match events;
- the IMF-fixdate parser and its closed-form calendar arithmetic;
- the retry hints decoded from error replies, and the retry loop that uses them.

## How it is laid out

| file | content |
|---|---|
| `Basics.dfy`, `Errors.dfy` | bytes, text, Option, Result, error values |
| `SseLines.dfy` | cutting lines off a buffer, and the one-shot line splitter |
| `SseFrames.dfy` | consuming a line, and the reference reading of groups of lines |
| `SseScanner.dfy` | the `Scanner` object, its step functions, runs over chunks |
| `SseChunking.dfy` | runs over chunks against the one-shot reference |
| `SseProperties.dfy` | the size cap and line endings |
| `SseConformance.dfy` | joining data, how long it can get, and section 9.2.6 of the WHATWG HTML standard |
| `SseRoundTrip.dfy` | writing frames and scanning them again |
| `Subscription.dfy` | the `Subscription` object, its poll step, the handshake |
| `Delivery.dfy` | whole runs of a subscription |
| `Calendar.dfy`, `HttpDate.dfy` | the day count and its closed form; parsing and printing dates |
| `RetryHints.dfy` | hints and error decoding |
| `Attempts.dfy` | one attempt: what a reply gives a JSON call or a subscription |
| `Retry.dfy` | the retry policy, the retry loop, runs of attempts |

The stateful code (`Scanner`, `Subscription`, the handshake loop, the retry loop) is written
as classes and loops. Each method is proved equal to a step function on a snapshot of the
object's fields, for every state and every input, failing calls included. The lemmas then
relate runs of step functions to references that work differently: lines are found by
normalising line ends and splitting at LF; frames by grouping lines at blank lines and reading
each group as a whole (a field line is split by the same function as in the code, whose meaning
`SseFrames.SplitWithoutColon` and `SseFrames.SplitAtColon` give for every line); dates by
counting the days of years and months.

`String::from_utf8_lossy`, JSON decoding, the clock and the replies of the server are
parameters, so every statement holds for all of them. A body is a script of "not ready",
chunk and transport-error events that ends for good when the script is used up.

## Where the code and its documentation differ

The model follows the code. Each difference is stated as a lemma.

- The scanner's header and `src/semantik/limits.rs:47-49` describe a cap per frame. The code
  resets its count only when a frame is emitted, so groups that give no frame (such as
  `id: 1` and a blank line) add up until a later line fails. `SseProperties.CapIsNotPerFrame`
  gives the family of inputs; `SseProperties.CapIsPerFrameIff` says exactly when the cap is per
  frame.
- The same header says the cap bounds memory exposure. Lines are counted when they are complete, and
  the buffer of received bytes is not: bytes without a line break are kept for ever
  (`SseProperties.BufferIsNotCapped`).
- `SECURITY.md:86-87` says a frame's data is capped at 64 KiB. The count is of received bytes and
  the data is decoded text, so a line of 21846 to 65531 invalid bytes, each decoded to a
  three-byte replacement character, gives more (`SseConformance.InvalidBytesOutgrowCap`).
  `SseConformance.DataWithinCapIff` says exactly when all data is within the cap.
- The comment on `next_line` says an LF after a carried CR is consumed without a line. The code
  returns an empty line for it, as it does without the flag
  (`SseLines.CarryFlagIrrelevant`), and on an open scanner the branch is never reached
  (`SseChunking.CarryBranchUnreachable`).
- `src/semantik/sse.rs:22-23` promises data joined by LF as the SSE specification does. Leading
  empty values vanish; `SseConformance.DataJoinedIff` says exactly when the data is the
  specified one, and `SseConformance.ConformsIff` when all the frames of a text are those that
  section 9.2.6 of the WHATWG HTML standard dispatches (it dispatches nothing without data, and
  nothing at end of input). `SseRoundTrip.LeadingEmptyLost` is an input on which they differ.
- `imf_to_unix` is said to return None on out-of-range input. A day past the end of its month
  is accepted and counts on into the next month (`Calendar.FromUnixOfToUnixIff`): in a common
  year 31 February parses as 3 March (`HttpDate.February31Accepted`).
- `httpdate_parse` is said to reject everything but exact IMF-fixdate. It accepts the grammar of
  `HttpDate.AcceptedIff`, in which the day name, the separators and bytes before the ending are
  free (`HttpDate.OnlyFieldsMatter`) and signs and padding are allowed
  (`HttpDate.LaxInputAccepted`). `HttpDate.PromiseKeptIff` says on which inputs the promise holds.
- `SECURITY.md:92-95` says retry hints are clamped to one hour. Longer hints are dropped, and a retry
  then waits as the other hint or the fallback schedule says
  (`RetryHints.DecodedHints`, `RetryHints.HeaderHintIs`).
- `MalformedResponse` is said never to be produced for a non-2xx reply. The size check comes
  before the status check, and the server can name the code
  (`Attempts.MalformedOnErrorStatusIff`), so a 503 with a large body is final
  (`Retry.OversizeUnavailableIsFinal`). A subscribe attempt has no size check and gives the code
  exactly when the server names it (`Attempts.SubscribeMalformedIff`).
- `src/semantik/subscribe.rs:78-81` says subscribe is never retried. The handshake is
  (`src/semantik/subscribe.rs:236-244`), exactly when `Retry.HandshakeRetriedIff` says, for instance
  after a bare 503 (`Retry.BareUnavailableRetried`); the open stream is not.

## Model

| member | source | states |
|---|---|---|
| SseLines.NextLine | src/semantik/sse.rs:155-186 | the scanning loop returns the first line and how many bytes to drop, or asks for more: a CR at the very end waits unless the input has ended |
| SseLines.CarryFlagIrrelevant | src/semantik/sse.rs:150-161 | the carry flag never changes what is cut, for any data |
| SseLines.SettledIffNoCut | src/semantik/sse.rs:155-186 | nothing can be cut off a buffer exactly when it has no LF and a CR only as its last byte |
| SseLines.RestSettled | src/semantik/sse.rs:62-66 | what is left after cutting every line is such a buffer |
| SseLines.AtEofTailIsLine | src/semantik/sse.rs:174-184 | at end of input what had to wait is cut as one line, without the CR that ends it |
| SseLines.CutAppend | src/semantik/sse.rs:165-171 | a line that can be cut is cut the same way when more bytes follow |
| SseLines.SplitAppend | src/semantik/sse.rs:52-68 | cutting two pieces of input one after the other, keeping the tail between them, cuts the lines of their concatenation |
| SseLines.CutsAreLines | src/semantik/sse.rs:155-186 | the cut lines and the tail flushed at the end are the lines of the text with its line ends normalised and split at LF |
| SseLines.LinesOfTerminated | src/semantik/sse.rs:5-6 | lines written with LF, CR or CRLF throughout are found again |
| SseLines.BareCrHoldsLastLine | src/semantik/sse.rs:172-177 | with bare CR exactly the last line is held back; with LF and CRLF none is |
| SseFrames.ColonAt | src/semantik/sse.rs:192-203 | the position found is that of the first colon, or the length |
| SseFrames.SplitWithoutColon | src/semantik/sse.rs:188-203 | a line without a colon is a name with an empty value |
| SseFrames.SplitAtColon | src/semantik/sse.rs:188-203 | any other line is split at its first colon, and exactly one space after it goes |
| SseFrames.WireBytes | src/semantik/sse.rs:117-126 | the field names, separators, line breaks and the cap as literal numbers |
| SseFrames.ScanAppend | src/semantik/sse.rs:100-137 | consuming two lists of lines one after the other is consuming their concatenation; a failure in the first is final |
| SseFrames.GroupSnoc | src/semantik/sse.rs:116-134 | one more line changes the event, the LF-joined data (leading empty values dropped) and the byte count of a group as the code's in-place updates do |
| SseFrames.ReadingSnoc | src/semantik/sse.rs:93-137 | consuming any line takes the reading of the lines so far to the reading of one more, emits a frame exactly for a blank line after a non-empty group, and fails exactly over the cap |
| SseFrames.Accumulates | src/semantik/sse.rs:93-137 | after any lines without a failure `cur_event` and `cur_data` are the reading of the open group, `cur_size` is the counted bytes since the last frame and within the cap, and the frames are those of the closed groups |
| SseFrames.StopsAtFirstOver | src/semantik/sse.rs:112-115 | reading fails at a line exactly when it is the first whose counted bytes since the last frame exceed the cap |
| SseScanner.Scanner.TakeFrame | src/semantik/sse.rs:93-98 | returns the accumulated frame and leaves nothing accumulated |
| SseScanner.Scanner.ConsumeOne | src/semantik/sse.rs:100-137 | updates the fields and returns as the line step function says, for every state |
| SseScanner.Scanner.Feed | src/semantik/sse.rs:52-68 | the whole new state and the result, failing calls included (they lose the frames they completed) |
| SseScanner.Scanner.Close | src/semantik/sse.rs:72-91 | the whole new state and the result, on open and closed scanners |
| SseScanner.Collect | src/semantik/sse.rs:209-219 | the feed-then-close loop gives the run over its chunks |
| SseChunking.DrainAppend | src/semantik/sse.rs:52-68 | draining two pieces in turn, carrying tail and accumulator, is draining their concatenation |
| SseChunking.CarryBranchUnreachable | src/semantik/sse.rs:62-66 | after any feed, even a failed one, a set flag means an unfinished tail ending in CR, so the next feed does not take the flag's branch |
| SseChunking.FeedAllIsDrain | src/semantik/sse.rs:52-68 | a run over any chunks agrees with draining all bytes at once: on everything without a failure, on the accumulator with one |
| SseChunking.ChunkIndependence | src/semantik/sse.rs:3-5 | two chunkings of the same bytes fail alike, leave the same scanner and give the same frames |
| SseChunking.ScannerRefinesReference | src/semantik/sse.rs:52-137 | feeding any chunks and closing is the one-shot reading of the bytes, errors included |
| SseChunking.ReachableState | src/semantik/sse.rs:27-37 | every field of every state reached without a failure, in terms of the bytes fed so far |
| SseChunking.FailureDependsOnBytes | src/semantik/sse.rs:112-115 | feeding fails exactly when some complete line of the bytes is over the cap, whatever the chunks |
| SseChunking.FailedRun | src/semantik/sse.rs:54-60 | a failing run has handed out a prefix of the reference frames of the lines before the first over-long one; its accumulator is the reading of those lines with that one counted |
| SseChunking.FailingCall | src/semantik/sse.rs:54-60 | a failing run has handed out exactly the reference frames of the lines completed before the failing call, which is the one that completes the first over-long line; the other frames before that line were completed in that call |
| SseChunking.OverlongRead | src/semantik/sse.rs:72-91 | with an over-long line anywhere in the text reading fails and hands out a prefix of the reference frames before it, all of them when it is the unterminated last line, which only close sees |
| SseProperties.CapIsPerFrameIff | src/semantik/sse.rs:10-13 | the cap is enforced per frame, for every possible next line, exactly when no counted bytes are left from groups without a frame |
| SseProperties.CapIsNotPerFrame | src/semantik/sse.rs:103-115 | n groups of five bytes each, with no frame, fail the scanner exactly when 5n exceeds the cap |
| SseProperties.FramesAreBounded | src/semantik/sse.rs:10-13 | the event and data text of every frame and of every reachable accumulator is at most k times the cap when decoding stretches no event or data value by more than k |
| SseProperties.BufferIsNotCapped | src/semantik/sse.rs:10-13 | bytes without a line break are all kept in the buffer, and no feed fails on them, however many there are |
| SseProperties.LineEndingIndependence | src/semantik/sse.rs:5-6 | the same lines with any of the three endings, under any chunkings, read the same |
| SseProperties.FramesBeforeClose | src/semantik/sse.rs:172-177 | before close, bare CR has delivered all but the effect of the last line |
| SseConformance.DataJoinedIff | src/semantik/sse.rs:22-24 | a group's data is all its values joined by LF exactly when there is at most one or the first is not empty |
| SseConformance.DataWithinCapIff | SECURITY.md:86-87 | in any run that does not fail, all data is within the cap exactly when in every group the decoded lengths of the kept values and the LFs between them sum to at most the cap |
| SseConformance.InvalidBytesOutgrowCap | SECURITY.md:86-87 | one data line of n undecodable bytes fails exactly above 65531 and gives data over the cap from 21846 |
| SseConformance.ConformingIff | src/semantik/sse.rs:103-129 | a closed group gives what section 9.2.6 dispatches exactly when it has no event without data, no empty value before others and no lone empty value without an event |
| SseConformance.ConformsIff | src/semantik/sse.rs:70-137 | for every text and chunking the frames are those section 9.2.6 dispatches exactly when nothing is over the cap, all closed groups conform and the open one has nothing to flush |
| SseRoundTrip.SplitFieldLine | src/semantik/sse.rs:188-203 | a field line as a server writes it is read as its name and its value |
| SseRoundTrip.StreamReads | src/semantik/sse.rs:17-25 | the groups of written lines read as the written frames without the leading LFs of their data |
| SseRoundTrip.FrameRoundTrip | src/semantik/sse.rs:17-25 | written frames come back as written exactly when each is within the cap, not blank and has no data starting with LF; otherwise what a run gives is them without leading LFs and without what is then blank |
| SseRoundTrip.LeadingEmptyLost | src/semantik/sse.rs:125-130 | an empty data line before one with x gives x, where the standard dispatches an LF and x |
| SseRoundTrip.BareDataLineCounts | src/semantik/sse.rs:188-203 | `data: a`, `data`, `data:b` and a blank line give a, two LFs and b, in any chunking |
| Subscriptions.Subscription.TryTakeMatch | src/semantik/subscribe.rs:122-130 | drops frames up to and including the first match frame and returns its decoding |
| Subscriptions.Subscription.PollNext | src/semantik/subscribe.rs:141-185 | the whole new state and the answer of a poll, for every state |
| Subscriptions.OpenStream | src/semantik/subscribe.rs:289-347 | the handshake loop: the error, or a subscription with its id, request id and whole state |
| Delivery.TakeMatchDecodes | src/semantik/subscribe.rs:119-136 | taking a match takes the first of the items the queue stands for, none lost or reordered; the item of a match frame is its decoded payload, or an error that quotes a payload that does not decode |
| Delivery.FirstFrameAcceptedIff | src/semantik/subscribe.rs:325-337 | a first frame is accepted exactly when it is a `subscribed` frame with a decodable, non-empty id, which is then the subscription's; each other frame is refused with its own error |
| Delivery.PollAdvances | src/semantik/subscribe.rs:141-185 | a poll returns the next item of the stream's future and leaves the rest of it, or leaves the future alone when not ready, or ends an empty future; and it makes progress |
| Delivery.DriveIsFuture | src/semantik/subscribe.rs:141-185 | polling to the end yields every match of the queue and of the rest of the body, in order, then the error if one ends it |
| Delivery.ReadFirstIsFirst | src/semantik/subscribe.rs:294-323 | the handshake takes the first frame of the body and leaves exactly the rest, also when the frame comes from close |
| Delivery.SubscriptionDelivers | src/semantik/subscribe.rs:289-347 | handshake and stream together over any script: the error, or the id in the first frame and exactly the matches after that frame and the closing error |
| Delivery.TranscriptIsRun | src/semantik/subscribe.rs:152-182 | a body without transport errors brings the frames of the scanner's run over its chunks, wherever it was not ready |
| Delivery.DeliversWholeBody | src/semantik/subscribe.rs:197-204 | for every body without an error whose one-shot reading starts with a `subscribed` frame with an id, the handshake gives that id and the items are exactly the decoded match frames after it |
| Delivery.DeliversUpToOverlongLine | src/semantik/subscribe.rs:156-163 | over the cap, the frames that get through are a prefix of the reference frames of the lines before the first over-long one, and the items are exactly the matches among them after the first frame and then the size error |
| Delivery.DeliversUpToCut | src/semantik/subscribe.rs:164-168 | a body cut off by a transport error delivers exactly the matches of the groups closed before the cut and then the error; the open group is not flushed |
| Delivery.WrittenFramesArrive | src/semantik/subscribe.rs:71-72 | frames within the cap that a server writes, with any line ending and chunking, reach the caller as exactly their matches, without leading LFs |
| Delivery.CollectItems | src/semantik/subscribe.rs:138-186 | the caller's loop over a live subscription yields the items of the whole run |
| Delivery.PollSafety | src/semantik/subscribe.rs:141-185 | closed with an error implies finished; a finished stream or one with a queued match never asks the body, any other does; an error empties the queue; "end" is final |
| Delivery.StreamErrorIsLast | src/semantik/subscribe.rs:156-181 | in a whole run an item that is not the decoding of a frame can only be the last one |
| Calendar.EraSplit | src/semantik/error.rs:482-487 | the era and year-of-era arithmetic is the count of 365-day years plus leap days |
| Calendar.DaysFromCivilCounts | src/semantik/error.rs:481-488 | the closed form is the number of days counted year by year and month by month |
| Calendar.ImfToUnixCountsDays | src/semantik/error.rs:464-498 | for every input: None out of range, otherwise the counted days and the seconds of the day; nothing goes below zero |
| Calendar.StrictlyIncreasing | src/semantik/error.rs:492-497 | a valid date is earlier than another exactly when its Unix time is smaller, and equal only when it is the same |
| Calendar.ToUnixOfFromUnix | src/semantik/error.rs:462-498 | every second from 1970 to 9999 is the Unix time of the valid date found by counting |
| Calendar.FromUnixOfToUnixIff | src/semantik/error.rs:472-480 | the Unix time of an accepted date names that date exactly when its month has that day |
| HttpDate.February31Accepted | src/semantik/error.rs:472-480 | in a common year 31 February is accepted and parses as 3 March |
| HttpDate.Digits | src/semantik/error.rs:438-457 | a decimal is accepted exactly when it is a non-empty string of digits |
| HttpDate.ParseOfPrint | src/semantik/error.rs:427-460 | parsing a printed date gives its Unix time, whatever the day name |
| HttpDate.AcceptedIff | src/semantik/error.rs:427-460 | the parser accepts exactly the inputs with the seven fields at their offsets, in range, and the ending; the result is the Unix time of those fields |
| HttpDate.OnlyFieldsMatter | src/semantik/error.rs:431-457 | inputs of any lengths with equal fields and the ending parse alike |
| HttpDate.PromiseKeptIff | src/semantik/error.rs:422-426 | an input is accepted exactly when it is an IMF-fixdate, as documented, if and only if it is one or lies outside that grammar |
| HttpDate.LaxInputAccepted | src/semantik/error.rs:422-426 | a longer input without separators, with padding and signs, is accepted |
| HttpDate.AcceptedAndExact | src/semantik/error.rs:422-426 | a printed date is accepted always, and exact only with its right day name and a day its month has |
| HttpDate.PrintOfParseIff | src/semantik/error.rs:422-426 | printing what was parsed gives an accepted input back exactly when it was an exact IMF-fixdate |
| HttpDate.FirstMonths | src/semantik/error.rs:439-453 | January to April by name |
| HttpDate.MiddleMonths | src/semantik/error.rs:439-453 | May to August by name |
| HttpDate.LastMonths | src/semantik/error.rs:439-453 | September to December by name |
| HttpDate.TrimStrips | src/semantik/error.rs:385-420 | trimming takes all white space off both ends and nothing else |
| HttpDate.WhiteSpaceBytes | src/semantik/error.rs:385-420 | which bytes are white space and which are digits |
| HttpDate.RfcExample | src/semantik/error.rs:422-460 | the example date of section 5.6.7 of RFC 9110 is printed as there and parses to 784111777 |
| RetryHints.HeaderHintIs | src/semantik/error.rs:385-420 | for every header text and clock: an optional plus sign and digits are honoured exactly from 1 to 3600, any date the parser accepts exactly when at most an hour ahead, nothing else is |
| RetryHints.HeaderSeconds | src/semantik/error.rs:394-408 | a number printed in decimal is read back as that delay, exactly from 1 to 3600 |
| RetryHints.HeaderDate | src/semantik/error.rs:409-420 | a printed date is read back as the exact time to it, when at most an hour ahead |
| RetryHints.DecodedHints | src/semantik/error.rs:276-350 | the decoded error has the reply's status and a hint that is absent or in (0, 1 h], the body's when usable, else the header's |
| RetryHints.DecodedEnvelope | src/semantik/error.rs:329-348 | the code, message and request id that the server's envelope names are the error's; the header stands in for a missing request id |
| RetryHints.CodeFromStatus | src/semantik/error.rs:289-372 | without a usable code the status gives it, or InternalError; an undecodable body is quoted, and the request id is the header's |
| Attempts.ReadIffUnbroken | src/semantik/transport.rs:133-146 | a body is read exactly when no transport error cuts it off |
| Attempts.WholeBody | src/semantik/transport.rs:133-146 | what is read of an unbroken body is its chunks, in order |
| Attempts.JsonOutcome | src/semantik/transport.rs:72-96 | a JSON attempt whose reply arrives gives the decoded value and the non-empty request id exactly for a success status, at most 1 MiB and a decodable body; the server's error, or a malformed-response error, otherwise |
| Attempts.JsonTransportErrors | src/semantik/transport.rs:85-88 | no reply, or a body cut off, gives the transport error |
| Attempts.MalformedOnErrorStatusIff | src/semantik/error.rs:33-35 | exactly when an error status gives the malformed-response code in a JSON attempt |
| Attempts.SubscribeOnce | src/semantik/subscribe.rs:252-348 | one handshake attempt on a reply: the error, or a subscription with its whole state |
| Attempts.SubscribeSucceedsIff | src/semantik/subscribe.rs:269-347 | an attempt succeeds exactly on a success status, the right content type and a first frame that is a `subscribed` frame with an id; it then has that id, the reply's request id unless empty, and delivers the matches after that frame |
| Attempts.SubscribeMalformedIff | src/semantik/subscribe.rs:269-274 | exactly when it does in a subscribe attempt |
| Attempts.EventStreamIff | src/semantik/subscribe.rs:350-355 | with text before the first semicolon, accepted exactly when that text, trimmed, is `text/event-stream` in any letter case |
| Attempts.BlankIsNoEventStream | src/semantik/subscribe.rs:350-355 | with nothing but white space there, rejected |
| Attempts.ContentTypeTolerance | src/semantik/subscribe.rs:350-355 | content types that differ in letter case or parameters are accepted or rejected alike |
| Retry.RunWithRetry | src/semantik/transport.rs:150-174 | attempts 0, 1, 2, ... up to the limit; every one but the last failed with a transient code and was followed by its pause; the last outcome is returned; the counter stays in u32 |
| Retry.RetryRunIsUnique | src/semantik/transport.rs:148-174 | the outcomes of the attempts determine the result, the attempts made and the pauses |
| Retry.DecodedTransientIff | src/semantik/retry.rs:90-113 | a decoded error is transient exactly when the server names one of the four codes, or none on a 503 |
| Retry.JsonRetriesErrorReplies | src/semantik/transport.rs:72-96 | a transient outcome of a JSON attempt comes from a fully read reply with an error status |
| Retry.SubscribeRetriesErrorReplies | src/semantik/subscribe.rs:269-347 | the same for a subscribe attempt |
| Retry.JsonNeverResent | src/semantik/transport.rs:72-96 | in any run of a JSON call an attempt with a success status is the last, and no pause is cut short |
| Retry.Subscribe | src/semantik/subscribe.rs:226-244 | after preflight, a retry run over handshake attempts; the live subscription returned is the one the last attempt opened, and an error is wrapped as a setup error |
| Retry.SubscribeNeverResent | src/semantik/subscribe.rs:236-244 | the same for the subscribe handshake, with the wrapping of the final error |
| Retry.HandshakeRetriedIff | src/semantik/subscribe.rs:78-81 | a second handshake is sent exactly when retries are allowed and the first reply has an error status, arrives whole and names one of the four transient codes or, with status 503, none |
| Retry.JsonRetriedIff | src/semantik/transport.rs:72-96 | a JSON call is sent again exactly under the same condition and with the body within the response cap |
| Retry.BareUnavailableRetried | src/semantik/subscribe.rs:206-215 | a bare 503 is followed by another handshake whenever retries are allowed |
| Retry.OversizeUnavailableIsFinal | src/semantik/transport.rs:130-146 | a 503 with a body over the cap ends a JSON call at the first attempt |
| Retry.TotalWithoutHints | src/semantik/retry.rs:73-88 | the schedule adds up to 0, 100, 2100, 7100 ms and then 10 s for each further retry |
| Retry.RetryRunWaits | src/semantik/transport.rs:164-170 | any run waits at most an hour for each retry, and exactly the schedule without hints |

## Left out

- HTTP sending, TLS, headers sent, timeouts, the client builder and environment variables: I/O around the model.
- JSON and UTF-8 decoding are parameters; the frame round trip asks that decoding leaves the written text alone, which valid UTF-8 does, and the comparison with section 9.2.6 that it starts no value without line breaks with LF.
- The byte order mark and the `id` and `retry` fields of the standard: the code ignores them, and the comparison with section 9.2.6 is of event and data.
- Wakers, pinning and dropping a subscription: a poll is one step over the body's script.
- A body that sends more after its end, or after a transport error: a script ends for good.
- Custom retry policies, which nothing bounds; `NoRetry` makes the single attempt of a limit of zero.
- Message texts of errors, reduced to what they report.
- `usize` overflow of the byte count, which would need more memory than a process can have.
- Preflight checks, the wire names of error codes and the health probe: single branches.
- Runs that go on feeding after a failure or a close: each such step is specified, but the runs studied stop at the first error, as every caller does.
