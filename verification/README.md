# Verified model of silt

This project models the parts of [silt](https://github.com/rendro/silt) whose correctness is hardest
to see from the code, and proves what those parts promise. `dafny verify dfyconfig.toml` checks all
of it.

- **The scheduler's protocols.** `StopDetection` is the detection of a deadlock and of a program's
  end: counters that are read one after the other, a registry of waits, and the checks that every
  thread runs which may have completed a stop. `StopHandOver` says which exchanges of an external for
  a task make a check wrong, `StopVerdict` whose verdict the program's thread finds. `RunQueue` is the protocol by which queued tasks find
  workers that spin, sleep and are woken. `LateBudget` counts the steps of cancelled and expired
  tasks, `FailureLedger` keeps the failures nobody joined.
- **HTTP/1.1 on the wire.** `HttpHead`, `HttpChunks` and `HttpRequest` say what the bytes that have
  come make of a request; `Reading` says what reading on exactly as far as needed comes to;
  `HttpReader` is the reader with its buffer, `HttpArrival` the requests of a whole connection, and
  `HttpReads` what reads of bounded length make of a refusal.
  `HttpMeaning` says what the headers decide, without the functions that read them, and `HttpLimits`
  which body in chunks is too large. `HttpResponse` writes responses and reads them back by the rules
  of section 6.3 of RFC 9112, and `HttpFields` says which fields a client then has.
- **Layered tables.** `LayerShape` is how rows settle into layers and how often they are copied,
  `LayeredTables` the heap of shared layers with its reference counts, `TableRuns` every run of
  operations on such tables, `RowsAndMaps` the list and the map on top of it.
- **The lexer.** `LexText` and `LexScan` read strings, comments, numbers and operators as functions of
  the text; `LexSpec` is what one token does to the lexer's state, `LexKeeps` what it keeps, `LexTokens`
  the tokens of a whole text and the checks of them; `Lexing` is the lexer that steps through the text
  in place. `LexComment` and `LexForms` are grammars of comments, strings, numbers and operators of their
  own, which the lexer reads exactly, and `LexCover` puts a whole text together from them. `LexOpen`, `LexLines` and `LexRepl` are about texts that are not finished: what is open, and
  what another line does to it; `LexBalance` says by a grammar of balanced tokens what they leave open. `LexShift` and `LexLine` compare a line behind a text with the line alone,
  and `LexShortcut` says from that exactly when the REPL's shortcut is right.
- **Packages.** `PackageGraph` resolves the packages of a project breadth first, `LockPaths` normalizes
  the paths of the lock file and writes them relative to the project.

`Counting` has what is needed of counters that count the entries of a map, `Basics` what several
components share.

## How it is modelled

A protocol between threads is a state machine whose steps are single atomic operations or regions
under one lock; theorems are about every run. What one thread does step by step is a class or a
method with loops, proved against a specification function, and the theorems are about that function.

Given from outside: the parser of request heads, as a function of the head's bytes up to its first
empty line (`Env.parse`); the largest body and the machine's word (`Env.bodyMax`, `Env.wordMax`); white
space and letters outside ASCII, and whether a number literal fits (`Env` of the lexer); what a task's
steps do; what resolving a dependency finds, over a finite universe of sources. A connection is the
list of what its reads give, of any lengths. The response's status phrase and date are texts given
to it.

## Where the code and what is said of it differ

- The verdict of a stop is not exact if a thread exchanges an `External` for a count as a task
  (`src/builtins/postgres.rs:1265-1267`) while a check's look is open: it has read a `live` counter, all
  it has read speaks for a stop, and it has not read every `external` counter.
  `StopHandOver.HandOverInALookBreaksTheVerdict` gives such a run. `HandOverExactly` shows that exactly
  those exchanges do harm: from each of them a wrong verdict can follow, with any number of externals, and
  every other one keeps all verdicts right. `StopDetection.VerdictIsSound` holds for all runs without
  one; that no stop is missed holds for all runs.
- The verdict that the program's thread finds can be about an earlier wait of it
  (`src/scheduler.rs:2221`, `StopVerdict.VerdictOfAnEarlierWait`); `OwnVerdictExactly` says when it cannot.
- Tasks that share one count of late steps can run more than `LATE_STEPS` in all
  (`src/scheduler.rs:2363-2370`): `k` of them, with those that join later, up to `k - 1` more
  (`LateBudget.WithinTheBudgetExactlyAlone`).
- A key of a layered map that is given a value again does not always keep the one it has, as the comment
  at `src/layers.rs:127-128` says. It does exactly if the layer that has it, or one behind that, is more than
  twice as large as all layers behind it with the key (`RowsAndMaps.InsertAgain`, and by the sizes alone
  `InsertAgainBySize`); `KeyGivenAgainIsReplaced` is a case where it does not. (A debug assertion forbids
  giving a value again.)
- The status of a refusal depends on how the bytes arrive exactly for a head that is both beyond
  `HEAD_MAX` and malformed (`HttpArrival.StatusDependsOnTheCut`); `fuzz/README.md:13` and
  `fuzz/fuzz_targets/fuzz_http_request.rs` say it never does. With the reader's own reads of at most 8 KiB
  it does so exactly for heads of up to `HEAD_MAX + 8191` bytes; longer ones are always refused for their
  length (`HttpReads.StatusOfReads`).
- A `Content-Length` of up to fifteen digits that does not fit the machine's word is answered 400, not 413
  (`src/http_wire.rs:549-555`): `HttpRequest.TooLongIsTooLarge` says on which machines that can happen.
- The REPL's shortcut is wrong for two kinds of lines: one that starts a block comment inside an
  interpolation (`LexShortcut.ShortcutFails`), and one with more errors than still fit
  (`ShortcutFailsByErrors`, fifty-one `@`). `ShortcutExactly` says from the end of the input and the line
  alone that these are the only ones, and `ShortcutIsRight` that only the errors decide for a line
  without `{-`.
- `normalize_path` keeps one leading `..` but not two (`src/lockfile.rs:316-321`):
  `LockPaths.NormalKeepsThePlace` says exactly which paths keep their meaning.

## Model

| member | source | states |
|---|---|---|
| StopDetection.VerdictIsSound | src/scheduler.rs:2148-2226 | In every run in which no external is exchanged for a task inside an open look, whenever a check tells the program's thread "deadlocked" or "settled", every task of both groups has ended or waits in the registry with a wait that does not end by itself, nothing external is in flight, and no step but a check's is possible |
| StopDetection.NoVerdictIsMissed | src/scheduler.rs:2108-2226 | In every run, whenever the tasks of both groups have stopped and the program's thread waits untold, some check is under way that tells it, by at most 17 steps of checks alone |
| StopDetection.StopIsCompletedByACheck | src/scheduler.rs:1817-1844 | Whichever step completes a stop leaves its thread a check to run |
| StopDetection.StopIsStable | src/scheduler.rs:835-872 | In a stop only checks can take a step, and the stop lasts until one of them ends the program's wait |
| StopDetection.ChecksReachTheVerdict | src/scheduler.rs:2182-2226 | From a stop, the checks that are there reach the verdict by their own steps, whoever holds the registry |
| StopDetection.CountersStayInRange | src/scheduler.rs:173-190 | In every run no counter goes below zero, and waits <= parking <= live in each group |
| StopDetection.RegistryIsHeld | src/scheduler.rs:2182-2226 | While a check holds the registry no other step changes how many tasks wait in it |
| StopDetection.BaseKept | src/scheduler.rs:588-638 | Every step of spawning, parking, waking, ending, externals and checks keeps the counters equal to what they count, and a stop never without a check that sees it |
| StopDetection.BaseAlong | src/scheduler.rs:683-732 | So that holds in every state of every run |
| StopDetection.InvKept | src/scheduler.rs:2182-2226 | Every step but a hand-over in an open look keeps what a look has read so far true, although the counters are read one after the other |
| StopDetection.InvAlong | src/scheduler.rs:2182-2226 | So that holds in every state of every run without one |
| StopHandOver.HandOverInALookBreaksTheVerdict | src/builtins/postgres.rs:1265-1267 | There is a run in which the program's thread is told of a deadlock while a task runs |
| StopHandOver.HandOverExactly | src/scheduler.rs:2182-2226 | A hand-over keeps every verdict right exactly if no look is open: from one in an open look, after whichever counter, the outer tasks and all externals can end and the look go on to a verdict about a program in which a task runs |
| StopHandOver.EveryHandOverInALookBreaksIt | src/scheduler.rs:683-696 | Every run that is quiet up to such a hand-over goes on to a reachable wrong verdict |
| StopHandOver.BlindLookTells | src/scheduler.rs:2182-2226 | A look that has read the counter a running task counts in goes on to the verdict, whatever else runs and is in flight |
| StopVerdict.CancelledFindsAVerdict | src/scheduler.rs:2212-2224 | In every run, from the moment a check cancels the thread's wait until the thread looks for it, a verdict is there |
| StopVerdict.OwnVerdictExactly | src/scheduler.rs:2212-2224 | In every run, the verdict about the thread's own wait stays until it looks, however the run goes on, exactly if no check is about to tell it of another wait |
| StopVerdict.VerdictOfAnEarlierWait | src/scheduler.rs:876-893 | There is a run in which the thread's second wait is cancelled with the verdict about its first |
| StopVerdict.SteadyAlong | src/scheduler.rs:2182-2226 | In every run a wait that a look has found in the registry lasts as long as the look does |
| RunQueue.NoLostWakeup | src/scheduler.rs:1622-1725 | In every run, with the lock free, a task queued and a worker asleep un-notified, another worker is in a phase that looks at the queue under its lock before it can sleep |
| RunQueue.LookerArrives | src/scheduler.rs:1652-1725 | Such a worker is taken off its way by no other thread, each own step brings it nearer, and its look takes the first task |
| RunQueue.DecisionIsRight | src/scheduler.rs:1622-1648 | Who decides under the lock wakes nobody only if nobody sleeps un-notified or somebody still looks |
| RunQueue.FirstInFirstOut | src/scheduler.rs:1622-1725 | Tasks are taken in the order they were queued, each once, and none is lost |
| RunQueue.InvKept | src/scheduler.rs:1622-1725 | Every step of queueing, looking, spinning, sleeping and waking keeps `spinning`, `sleepers` and `queued` right and nobody forgotten, although `spinning` changes outside the lock |
| RunQueue.InvAlong | src/scheduler.rs:1622-1725 | So that holds in every state of every run |
| LateBudget.BudgetIsExact | src/scheduler.rs:1776-1804 | A late task runs at most its budget; it is ended for having used it up only at its last step, refused only at a wait before that, and every step before its end went on |
| LateBudget.NeverEndingIsEnded | src/scheduler.rs:1776-1804 | A task that never returns, fails or is refused a wait is ended at exactly the step that uses the budget up |
| LateBudget.FateGoesOn | src/scheduler.rs:2037-2106 | Where a slice ends leaves no trace in what becomes of the task |
| LateBudget.Task.constructor | src/scheduler.rs:588-638 | A task starts at its first step with nothing counted |
| LateBudget.Task.LateSlice | src/scheduler.rs:1776-1804 | A late slice counts each step it runs, and ends with the slice, the budget or a step that does not yield |
| LateBudget.Task.RunOnce | src/scheduler.rs:2037-2106 | A slice is counted exactly if it began late; a late slice never parks, and where it ends the task it is with the fate of its steps |
| LateBudget.Task.RunLate | src/scheduler.rs:2037-2106 | However its slices are cut, a late task comes to the fate of its steps within the budget, which is what ends the loop |
| LateBudget.SharersAreBounded | src/runtime/handle.rs:1266-1273 | Tasks with one count run at most `budget + k - 1` late steps in all, where `k` of them ever have it, also if some end by themselves and some join later |
| LateBudget.SharersMeetTheBound | src/runtime/handle.rs:1266-1273 | and can run that many, for every number of joins |
| LateBudget.WithinTheBudgetExactlyAlone | src/scheduler.rs:2363-2370 | All their work is within the budget, whatever they do, exactly when one task has the count to itself and none joins |
| FailureLedger.FailedTasks.constructor | src/scheduler.rs:2500-2552 | The record starts empty |
| FailureLedger.FailedTasks.Partition | src/scheduler.rs:2500-2552 | The handles still unhandled and those handled since, each in order |
| FailureLedger.FailedTasks.Record | src/scheduler.rs:2500-2552 | A failure is kept, or makes room first when its owner's record is full, or is counted; the handles let go are given back |
| FailureLedger.FailedTasks.Take | src/scheduler.rs:2542-2551 | Everything is handed out in one list, owner after owner in ascending order, and the record is empty |
| FailureLedger.ReportTakesEachOwners | src/scheduler.rs:2542-2551 | After every run, that list has of each owner what the owner kept, in its order |
| FailureLedger.EveryFailureIsAccounted | src/scheduler.rs:2500-2552 | Over every run of failures, joins, cancels and reports, each owner keeps at most 64 handles in failure order, and every failure since the last report is exactly one of kept, let go because it was joined or cancelled, or counted |
| FailureLedger.OthersUntouched | src/scheduler.rs:2500-2552 | One owner's failure changes nothing of another's |
| FailureLedger.OnlyFullRecordsMiss | src/scheduler.rs:2500-2552 | A failure is counted without being kept only while 64 unhandled ones of its owner are kept |
| FailureLedger.OnlyFullRecordsLetGo | src/scheduler.rs:2523-2540 | While fewer than 64 are kept a failure is kept behind them and nothing is let go; in a full record exactly the handles joined or cancelled go, all others stay, and the failure is kept exactly if one went |
| LayerShape.AddRowKeepsTheShape | src/layers.rs:41-70 | After every addition each layer is non-empty and more than twice the one after it, and exactly one row more is there |
| LayerShape.FewLayers | src/layers.rs:7-12 | `2^(layers-1) <= n` |
| LayerShape.SettleFront | src/layers.rs:59-69 | Settling leaves all but the last layer it ends with as they were |
| LayerShape.SettleSameSizes | src/layers.rs:59-69 | How layers settle, and how many rows that copies, depends on their sizes alone, wherever lengths add up |
| LayerShape.RowsFitAlways | src/layers.rs:268-293 | Along every history a row copied `c` times lies in a layer of size `s` with `3^c <= 2^c * s` |
| LayerShape.CopiesAreCounted | src/layers.rs:59-69 | The rows copied along a history are the sum of how often each row was copied |
| LayerShape.CopyingIsAmortised | src/layers.rs:7-12 | The rows copied to build `n` rows are at most `n * log1.5(n)`, with copies of the table taken at any points |
| LayeredTables.ChangedInPlaceValid | src/layers.rs:52-53 | A layer that one table alone has is changed in place and no other table shows it |
| LayeredTables.ReplacedValid | src/layers.rs:54-68 | Giving up layers for a fresh one leaves the counts right and what every other table shows |
| LayeredTables.ClonedValid | src/layers.rs:85-91 | A copy shows what the table shows, and every layer is counted once more |
| LayeredTables.DroppedValid | src/layers.rs:85-91 | A dropped table leaves what every other shows |
| LayeredTables.Store.constructor | src/layers.rs:79-83 | A store without tables |
| LayeredTables.Store.New | src/layers.rs:79-83 | A new table is empty, and the others are as they were |
| LayeredTables.Store.Clone | src/layers.rs:85-91 | A copy shows what the table shows, and the others are as they were |
| LayeredTables.Store.CountMore | src/layers.rs:85-91 | Each layer of the table is counted exactly once more |
| LayeredTables.Store.Release | src/layers.rs:62-66 | One reference is given up; the layer is gone exactly with the last |
| LayeredTables.Store.ReleaseAll | src/layers.rs:62-66 | The same for all layers of a table |
| LayeredTables.Store.Drop | src/layers.rs:85-91 | A table is gone and the others are as they were |
| LayeredTables.Store.ReplaceEnd | src/layers.rs:54-68 | The table shows its first layers and a fresh one, the others are as they were |
| LayeredTables.Store.JoinLastTwo | src/layers.rs:62-68 | The last two layers are one, for this table only |
| LayeredTables.Store.ChangeNewest | src/layers.rs:52-53 | The newest layer is changed in place, for this table only |
| LayeredTables.Store.PlaceRow | src/layers.rs:52-58 | The row is in the newest layer exactly if no copy shares it, else in one of its own |
| LayeredTables.Store.SettleTable | src/layers.rs:59-69 | The table shows its layers settled, and the rows counted as copied grow by those of every two layers made one |
| LayeredTables.Store.AddRow | src/layers.rs:45-70 | The whole of an addition, with what it copies; no other table shows it or loses a layer |
| RowsAndMaps.PushAppends | src/layers.rs:200-210 | Whatever becomes of the layers, the rows are the rows before and the new one |
| RowsAndMaps.RowLayersHoldTheRows | src/layers.rs:200-210 | For every history of sharing, the layers made by pushes hold the rows in order |
| RowsAndMaps.RowsAreBuiltAlike | src/layers.rs:200-210 | For every history, those layers have the sizes, and cost the copies, of `LayerShape.Built` |
| RowsAndMaps.GetRow | src/layers.rs:181-198 | The row of that index in the concatenated rows, or none, with one layer or many |
| RowsAndMaps.PushRow | src/layers.rs:200-210 | The list shows one row more, and no other list does |
| TableRuns.Step | src/layers.rs:45-70 | One new, clone, add or drop in the store does what it does to tables copied whole; each table has the layers of its rows and of who shared its newest layer at each, and what was copied is counted for the table it was copied for |
| TableRuns.NeverCopiedIsOneLayer | src/layers.rs:256-266 | In every run a table made new and never copied has at most one layer, which no other table has and which is counted once |
| TableRuns.SoleIsNeverCopied | src/layers.rs:85-91 | The tables that a run tracks as never copied are exactly those made new that no clone copies |
| TableRuns.RunIsCheap | src/layers.rs:7-12 | In every run whose lengths add up, each table has the doubling shape and at most `log2(n) + 1` layers, and the rows copied for it are at most `n * log1.5(n)`; so are all rows copied, if rows are added to one table only |
| TableRuns.AlikeIsCheap | src/layers.rs:268-293 | The same of the layers that rows and a history of sharing make |
| RowsAndMaps.PlayRows | src/layers.rs:145-210 | Over every run of new, clone, push and drop each list shows, and has the length of, a plain list copied whole, with its shape, its number of layers, its one layer if never copied, and the amortised bound on what was copied (`ListIsRight`) |
| RowsAndMaps.InsertFresh | src/layers.rs:127-141 | A key given a value once: the layers answer every key as a plain map does |
| RowsAndMaps.InsertAgain | src/layers.rs:127-141 | A key given a value again keeps the old one exactly if a layer that has it, or one behind that, is more than twice as large as all behind it with the key; otherwise the new value replaces it |
| RowsAndMaps.InsertAgainBySize | src/layers.rs:127-141 | With each key in one layer, this is told from the sizes of the layers from that one on |
| RowsAndMaps.SettleStops | src/layers.rs:59-69 | Settling stops behind the newest layer that is more than twice as large as all behind it made one, keys in several of them counted once |
| RowsAndMaps.KeyGivenAgainIsReplaced | src/layers.rs:127-128 | A key whose value is replaced |
| RowsAndMaps.InsertKeepsTheShape | src/layers.rs:127-141 | A map's layers keep the shape |
| RowsAndMaps.GetKey | src/layers.rs:102-121 | What the oldest layer with the key says, with one layer or many |
| RowsAndMaps.InsertKey | src/layers.rs:127-141 | The map shows the key, and no other map does |
| RowsAndMaps.MapLayersAnswer | src/layers.rs:127-141 | For every history of sharing, the layers made by insertions, each key once, answer as a plain map |
| RowsAndMaps.MapsAreBuiltAlike | src/layers.rs:127-141 | For every history, those layers have the sizes, and cost the copies, of `LayerShape.Built` |
| RowsAndMaps.PlayMaps | src/layers.rs:79-141 | Over every run of new, clone, insert and drop, each map whose keys were inserted once answers as a plain map copied whole, with its shape, its number of layers and the amortised bound; each map never copied has one layer of its own (`MapIsRight`) |
| Reading.DecideChain | src/http_wire.rs:243-297 | Two readings one after the other, each reading on as far as it needs, are one reading of both |
| Reading.DecideWhole | src/http_wire.rs:300-315 | A reading whose results last comes to what all the bytes together come to, and leaves the same bytes |
| Reading.DecideValue | src/http_wire.rs:300-315 | The same for its values and for the end of the connection |
| Reading.ReadsOnlyWhatIsNeeded | src/http_wire.rs:300-315 | What a reading comes to is told from the first `n` pieces, and with fewer it was undecided: it reads as far as it needs and no further |
| HttpHead.HeadEndIsFirst | src/http_wire.rs:354-359 | The end that is found is that of the first empty line, and none is found only where there is none |
| HttpHead.HeadEndStays | src/http_wire.rs:354-359 | An end that was found stays the first one, whatever comes behind it |
| HttpHead.NoMethodStays | src/http_wire.rs:337-352 | Bytes that begin no request begin none with more of them |
| HttpHead.MethodStays | src/http_wire.rs:337-352 | The beginning of a head that has come whole stays a method |
| HttpHead.HeadIsSettled | src/http_wire.rs:321-407 | A head that was read is the same with more bytes behind it, which stay behind it |
| HttpHead.HeadStaysRefused | src/http_wire.rs:321-407 | A refused head stays refused, with its status where no head beyond the limit is called malformed |
| HttpChunks.LineIs | src/http_wire.rs:423-449 | A line that is read is the bytes up to the first CRLF, plain and within its limit |
| HttpChunks.LineIsRead | src/http_wire.rs:423-449 | Every plain line within the limit is read |
| HttpChunks.SizeOfHasTheForm | src/http_wire.rs:465-484 | A size that is read is 1 to 16 hexadecimal digits, blanks and extensions behind a semicolon |
| HttpChunks.FormGivesTheSize | src/http_wire.rs:465-484 | Every line of that form gives the size its digits say |
| HttpChunks.SizeFits | src/http_wire.rs:473-484 | A size fits into 64 bits |
| HttpChunks.ChunkedLasts | src/http_wire.rs:454-508 | What reading a body in chunks comes to lasts as more bytes come |
| HttpChunks.ChunkedAccepted | src/http_wire.rs:454-508 | A body is accepted only in the form of section 7.1 of RFC 9112 and within the limits, and is the data of its chunks |
| HttpChunks.ChunkedIsRead | src/http_wire.rs:454-508 | Every body of that form and within the limits is accepted |
| HttpChunks.ChunkedExactly | src/http_wire.rs:454-508 | Both directions: bytes are read as a body with `rest` behind it exactly if they are such a message and `rest`; the bytes used are `body + framing + trailers`, each within its limit |
| HttpRequest.TooLongIsTooLarge | src/http_wire.rs:544-555 | Every number beyond the limit is answered 413 exactly on machines whose words hold all numbers of fifteen digits |
| HttpRequest.RequestIsSettled | src/http_wire.rs:243-297 | A request that was read is the same with more bytes behind it |
| HttpRequest.RequestStaysRefused | src/http_wire.rs:243-297 | A refused request stays refused |
| HttpRequest.RequestTakesBytes | src/http_wire.rs:236-297 | Every request takes bytes |
| HttpMeaning.CountedBody | src/http_wire.rs:531-566 | Behind a head whose one Content-Length is the digits of `n` within the limit, the body is the next `n` bytes and not one more; with fewer nothing is decided |
| HttpMeaning.EmptyBody | src/http_wire.rs:531-566 | Behind a head with neither Content-Length nor Transfer-Encoding there is no body, and all bytes stay behind it |
| HttpMeaning.ChunkedBody | src/http_wire.rs:531-566 | Behind a head whose one coding is `chunked`, without a Content-Length and not of HTTP/1.0, a request with a body is read exactly if the bytes are that body in chunks, within the limits |
| HttpMeaning.RefusedByItsHead | src/http_wire.rs:247-258 | Every other combination of lengths and codings is answered 400, a length beyond the limit 413 (400 for up to fifteen digits that the word cannot hold), then no Host in HTTP/1.1 or two of them 400, then an expectation other than one `100-continue` 417 |
| HttpMeaning.RequestIsOfItsHead | src/http_wire.rs:276-297 | A request that is read has the verb, target, headers and version of its head, and asks to close exactly if `close` is a part of a Connection header, or in HTTP/1.0 `keep-alive` is none |
| HttpMeaning.PartsAre | src/http_wire.rs:276-285 | The parts of a list are exactly the texts between its commas |
| HttpMeaning.TokensAre | src/http_wire.rs:634-636 | A byte of a token is a visible one that is no delimiter of section 5.6.2 of RFC 9110 |
| HttpMeaning.NoMethodExactly | src/http_wire.rs:337-352 | Bytes are refused as no request exactly if none of their continuations begins with a method and a space |
| HttpMeaning.HeadExactly | src/http_wire.rs:321-407 | A head is read, with `rest` behind it, exactly if the bytes are a head within the limit, with or without an empty line in front, and `rest` |
| HttpMeaning.HeadDecision | src/http_wire.rs:321-407 | With which status bytes that are no such head are refused, and when they are undecided |
| HttpMeaning.RequestBehindHead | src/http_wire.rs:243-297 | What a request comes to is what its head and the bytes behind it come to |
| HttpMeaning.RequestHasHead | src/http_wire.rs:243-297 | Every request that is read has such a head |
| HttpLimits.ChunkedTooLarge | src/http_wire.rs:454-508 | A body in chunks is answered 413 exactly if, behind chunks that fit, a size line says more than is left; 431 only behind the last chunk |
| HttpLimits.HexIsRead | src/http_wire.rs:473-484 | The number of a size is the one that its digits write in base sixteen |
| HttpArrival.ArrivalDoesNotMatter | src/http_wire.rs:236-508 | For every way of cutting the bytes into reads, the requests in order and the kind of their end are those of all bytes at once |
| HttpArrival.ArrivalDoesNotMatterAtAll | src/http_wire.rs:236-508 | and so is the status, where no head is both beyond the limit and malformed |
| HttpArrival.OneArrival | src/http_wire.rs:243-297 | The same of one request, with the bytes that are left |
| HttpArrival.StatusDependsOnTheCut | src/http_wire.rs:360-402 | Refused bytes are refused with one status for every way of cutting them exactly if they begin with no such head |
| HttpReads.StatusOfReads | src/http_wire.rs:300-315 | With reads of at most 8 KiB: such a head is always refused for its length if it is longer than the limit by a read, and refused with either status, depending on the cut, if it is shorter; other refusals have one status |
| HttpReads.LongHeadIsTooLarge | src/http_wire.rs:360-402 | So long a head is refused for its length before its end can have come |
| HttpReader.Position | src/http_wire.rs:425 | Where a byte is first, or the length |
| HttpReader.Search | src/http_wire.rs:354-359 | An empty line is found from a place on exactly if there is one |
| HttpReader.SearchedBefore | src/http_wire.rs:354-359 | The search from two bytes before where the last one stopped finds what a whole search finds |
| HttpReader.Reader.constructor | src/http_wire.rs:167-181 | A reader with its buffer and what its reads will give |
| HttpReader.Reader.Feed | src/http_wire.rs:196-199 | Bytes read elsewhere are behind those in the buffer |
| HttpReader.Reader.More | src/http_wire.rs:300-315 | One read's bytes are behind those in the buffer, or the connection has ended |
| HttpReader.Reader.Exactly | src/http_wire.rs:410-420 | Reads on exactly as far as needed for so many bytes, and leaves the rest |
| HttpReader.Reader.Line | src/http_wire.rs:423-449 | Comes to what reading on comes to for a line |
| HttpReader.Reader.Trailers | src/http_wire.rs:498-508 | Comes to what reading on comes to for the trailers |
| HttpReader.Reader.ChunkData | src/http_wire.rs:488-496 | Comes to what reading on comes to for the data of a chunk and its line end |
| HttpReader.Reader.Chunked | src/http_wire.rs:454-508 | Comes to what reading on comes to for a body in chunks; the room that is left is never below zero |
| HttpReader.Reader.Head | src/http_wire.rs:321-407 | Comes to what reading on comes to for a head, with the incremental search |
| HttpReader.Reader.Body | src/http_wire.rs:261-274 | Comes to what reading on comes to for a body of its length |
| HttpReader.Reader.Next | src/http_wire.rs:236-297 | Comes to what reading on comes to for a request, which `HttpMeaning` says from its head and body; it is given up for a waiting client only where the bytes do not decide |
| HttpReader.Reader.Buffered | src/http_wire.rs:201-229 | Gives a result exactly if the buffered bytes decide one within the limit of looking, and then what `Next` gives over any stream behind them, with the same buffer; otherwise the reader is unchanged |
| HttpReader.Reader.ReadAll | src/http_wire.rs:702-726 | All requests of the connection and their end |
| HttpResponse.WriteResponse | src/http_wire.rs:661-693 | The bytes that are appended are those of the response, whose fields `HttpFields.ResponseSays` says |
| HttpFields.ResponseSays | src/http_wire.rs:661-693 | Of any response, with any bytes behind it, a client reads the status, the body unless there is none, the given headers with a token as name and a plain value, one for one in order and trimmed, and behind them only the fields of the server: Date exactly if one is given, and that one, Content-Length of the body exactly if the status has one, `close` exactly if the connection closes, `keep-alive` exactly if it stays open and that is to be said |
| HttpResponse.HeadEndsAtTheFirstEmptyLine | src/http_wire.rs:661-693 | The first CRLFCRLF of a response is where its head ends, whatever the headers and the body are |
| HttpResponse.OneContentLength | src/http_wire.rs:661-693 | A client reads exactly one Content-Length, the body's length, for a status that has a body, none otherwise, and no transfer coding |
| HttpResponse.DigitsAreRead | src/http_wire.rs:680-682 | A number that is written is read back |
| HttpResponse.ResponseIsRead | src/http_wire.rs:661-693 | A response is read back by the rules of section 6.3 of RFC 9112, and not a byte behind it |
| HttpResponse.ResponsesSplitBack | src/http_wire.rs:661-693 | Responses sent one after the other split back into what was answered |
| LexKeeps.ScanKept | src/lexer.rs:1223-1480 | Every token moves on within the text, loses no error or comment, leaves the interpolations nested, and has an error if it is one |
| LexKeeps.TriviaKept | src/lexer.rs:1161-1214 | What is in front of a token leaves the comments one behind the other between the tokens |
| LexKeeps.CloseKept | src/lexer.rs:1282-1295 | A closing brace leaves the interpolations nested, whichever it closes |
| LexKeeps.NextKept | src/lexer.rs:1160-1480 | The same of a whole step of the lexer |
| LexTokens.EveryTextIsLexed | src/lexer.rs:481-530 | Every text lexes to a well-formed stream: spans in bounds, ordered and disjoint, one end last at the byte length, comment ranges that partition the comments, at most 50 errors kept and others only behind a final error that reaches the end |
| LexCover.TokensCoverTheText | src/lexer.rs:481-530 | A text that drops no error is exactly its tokens and what stands between them: each token is the longest text of the form of its kind, between two stand only white space, semicolons and comments, and its comments and line breaks (up to two) are those before it |
| LexCover.ScanIsText | src/lexer.rs:1216-1480 | What is read at any place has the form of its kind, and is an error only where it is a string without end, a number that breaks off or does not fit, or begins as no token does |
| LexCover.TriviaIsGap | src/lexer.rs:1161-1214 | What is passed in front of a token is white space, runs of semicolons and whole comments, each recorded with the line breaks before it, and behind it nothing of the kind goes on |
| LexComment.CommentExactly | src/lexer.rs:639-668 | A block comment that opens at a place ends at `e` exactly if the text up to `e` is one by the grammar of nested comments, and does not end exactly if there is no such `e` |
| LexForms.OperatorExactly | src/lexer.rs:1241-1385 | The operator that is read is the longest of the table that stands there, and none is exactly if none does |
| LexForms.NumberExactly | src/lexer.rs:987-1121 | The number that is read is the longest text that is a number or one broken off behind its prefix or exponent, and is right exactly if it is a number |
| LexForms.EscapeExactly | src/lexer.rs:717-766 | An escape ends, and has an error there, exactly as the form of escapes says, right and wrong ones |
| LexForms.HexValueIs | src/lexer.rs:807-852 | A hex digit, small or capital, is worth its place among the sixteen |
| LexForms.CodeIsWorth | src/lexer.rs:807-852 | The code of an escape is what its digits are worth in base sixteen |
| LexForms.StringExactly | src/lexer.rs:673-801 | A string ends at the first quote or `{` that no escape has, or not at all, with the errors of its escapes in order |
| LexForms.RawStringExactly | src/lexer.rs:854-885 | A raw string ends behind the first run of at least three quotes, whose last three close it, and does not end exactly if there is none |
| LexTokens.LexRight | src/lexer.rs:481-530 | The same from any state that the lexer can be in |
| LexTokens.TokensAreDisjoint | src/fuzz_invariants.rs:29-33 | No two tokens of a well-formed stream overlap |
| LexTokens.CheckSpans | src/fuzz_invariants.rs:46-102 | The first checks pass exactly if the spans are in order and one end is last |
| LexTokens.CheckComments | src/fuzz_invariants.rs:126-134 | The comments of a token pass exactly if they follow each other |
| LexTokens.CheckRanges | src/fuzz_invariants.rs:104-149 | The checks of the comments pass exactly if their ranges follow each other and each lies between two tokens |
| LexTokens.CheckLexerInvariants | src/fuzz_invariants.rs:46-180 | All checks pass exactly if the stream is well formed |
| LexOpen.EndsOpen | src/lexer.rs:273-308 | What the loop over the tokens finds is what the tokens leave open, which `LexBalance` says by a grammar |
| LexBalance.OpensExactly | src/lexer.rs:273-308 | Tokens leave open exactly those openers between which, and behind the last of which, only balanced tokens stand: plain ones, an opener with balanced tokens and a closer, a string around its interpolations |
| LexBalance.BalancedChangesNothing | src/lexer.rs:273-308 | Balanced tokens behind any tokens leave open what these leave open |
| LexBalance.EndsOpenExactly | src/lexer.rs:273-308 | A text ends open exactly if it drops no error and its tokens are not balanced, or, cut short, leave no interpolation open |
| LexBalance.OpenByCounting | src/lexer.rs:273-308 | Without interpolations something is open exactly if some suffix of the tokens has more openers than closers |
| LexOpen.Position | src/lexer.rs:293-297 | The last interpolation that is open |
| LexOpen.NextSteps | src/lexer.rs:768-788 | Unless the text is cut short, a token changes the lexer's open interpolations as it changes those of the tokens |
| LexOpen.OpenInterpolationsAreTheStack | src/lexer.rs:273-308 | For a text neither cut short nor dropping errors, the interpolations that `ends_open` finds open are as many as the lexer has on its stack |
| LexOpen.BracesAreCounted | src/lexer.rs:1282-1295 | The lexer's brace counter and stack say, for every open interpolation, how many braces the tokens inside it leave open |
| LexOpen.InterpolationsNest | src/lexer.rs:1282-1295 | In every run the stack is strictly increasing, and `}` is a brace of code exactly if, by the tokens read, no interpolation is open or a `{` or `#{` inside the innermost one still is; otherwise that string goes on |
| LexLines.NextStays | src/lexer.rs:1160-1480 | A token that does not run into the end of the text is the same in a text that goes on with a line |
| LexLines.TokensStay | src/lexer.rs:481-530 | The tokens of a text that is not cut short and drops no error, without the end, are the first tokens of every text that goes on with a line |
| LexLines.QuietLex | src/repl.rs:236-258 | A line without closers and quotes leaves open what is open |
| LexRepl.OpenStaysOpen | src/repl.rs:236-258 | An open input stays open with a line that has none of `)`, `]`, `}` and the quote, as long as the whole is not cut short and drops no error |
| LexLine.LexInStep | src/repl.rs:236-258 | A line without closers and quotes behind a text drops an error, and is cut short, exactly if the line alone is, lexed behind as many errors |
| LexShift.StrScanShift | src/lexer.rs:673-801 | A string reads the same wherever its text stands |
| LexShortcut.ShortcutExactly | src/repl.rs:236-258 | For an open input and such a line, or several of them, the shortcut is right exactly if the line's errors fit and it starts no block comment inside an interpolation, both told from the end of the input (in code, in a comment, in a raw string, in a string; its errors) and the line alone |
| LexShortcut.CodeExactly | src/repl.rs:236-258 | The same for an input that ends in code |
| LexShortcut.CutExactly | src/repl.rs:236-258 | The same for an input that ends in a comment or in a string |
| LexShortcut.ShortcutIsRight | src/repl.rs:236-258 | For a line without `{-` it is right exactly if the errors fit |
| LexShortcut.ShortcutFails | src/repl.rs:236-258 | It is wrong for the input `"{` and the line `{-` |
| LexShortcut.ManyErrorsClose | src/lexer.rs:549-555 | It is wrong for every input open in code and a line of fifty-one `@` |
| LexShortcut.ShortcutFailsByErrors | src/repl.rs:236-258 | So it is for the input `(` and that line, which has no closer, quote or `{-` |
| Lexing.Lexer.constructor | src/lexer.rs:431-467 | A lexer at the start of the text, behind a mark of the byte order |
| Lexing.Lexer.Advance | src/lexer.rs:605-610 | One character on, with its bytes |
| Lexing.Lexer.Report | src/lexer.rs:549-555 | An error is kept among the first 50 and counted otherwise |
| Lexing.Lexer.ReportRepeatable | src/lexer.rs:562-571 | A mistake that is made again is no error again |
| Lexing.Lexer.SkipWhitespace | src/lexer.rs:612-625 | White space is passed over and its line breaks counted |
| Lexing.Lexer.RecordComment | src/lexer.rs:575-581 | A comment with the line breaks in front of it |
| Lexing.Lexer.SkipBlockComment | src/lexer.rs:639-668 | The end of a nested comment, which `LexComment.CommentExactly` says by a grammar, or an error and the end of the text |
| Lexing.Lexer.PassBlockComment | src/lexer.rs:1174-1189 | A comment, or where the text breaks off at one |
| Lexing.Lexer.PassSemicolons | src/lexer.rs:1192-1213 | Semicolons are one mistake and a line break |
| Lexing.Lexer.SkipTrivia | src/lexer.rs:1161-1214 | Everything in front of a token |
| Lexing.Lexer.UnicodeEscape | src/lexer.rs:807-852 | Where an escape ends and what is wrong with it |
| Lexing.Lexer.ReadEscape | src/lexer.rs:717-766 | The same of every escape |
| Lexing.Lexer.ReadString | src/lexer.rs:673-801 | The string up to its quote, its interpolation or the end of the text, with the errors in it in order |
| Lexing.Lexer.ReadTriple | src/lexer.rs:854-885 | A raw string ends with the last three of a run of quotes |
| Lexing.Lexer.AdvanceNumber | src/lexer.rs:987-1121 | Where a number ends and whether it is written right |
| Lexing.Lexer.ReadNumber | src/lexer.rs:987-1121 | A number, or its error |
| Lexing.Lexer.ReadWord | src/lexer.rs:1124-1134 | The longest run of ASCII letters, digits and `_` |
| Lexing.Lexer.ReadClose | src/lexer.rs:1282-1295 | A closing brace goes on with the string of the innermost interpolation or closes a brace |
| Lexing.Lexer.ReadStray | src/lexer.rs:1376-1480 | Text that is no token is one error, up to where it ends |
| Lexing.Lexer.ReadToken | src/lexer.rs:1216-1480 | The token the lexer stands at |
| Lexing.Lexer.Next | src/lexer.rs:1160-1480 | The next token, and where it starts |
| Lexing.Lexer.PushToken | src/lexer.rs:535-545 | A token with the comments and line breaks in front of it |
| Lexing.Lexer.CountOn | src/lexer.rs:486-498 | Reading on only to count keeps no comment of the rest |
| Lexing.Lexer.CutRest | src/lexer.rs:486-511 | The rest of the text as one error, and the end |
| Lexing.Lexer.Tokenize | src/lexer.rs:481-530 | The tokens of the whole text, which are well formed |
| Lexing.LexAndCheck | fuzz/fuzz_targets/fuzz_lexer.rs:6-18 | What the lexer makes of any text passes the checks |
| PackageGraph.Resolver.constructor | src/package_graph.rs:170-182 | A resolver without packages |
| PackageGraph.Resolver.Add | src/package_graph.rs:275-299 | The next id, one entry in every list, the source's id, and the id at the end of the queue |
| PackageGraph.Resolver.ResolveDependency | src/package_graph.rs:447-536 | A source met before is its package, one that failed none, and a new one is added or reported |
| PackageGraph.Resolver.Follow | src/package_graph.rs:197-202 | The package has the dependency exactly if it came to a package |
| PackageGraph.Resolver.Process | src/package_graph.rs:191-203 | All dependencies of one package, in order |
| PackageGraph.Resolver.Resolve | src/package_graph.rs:183-204 | The run ends; its packages are exactly the sources that can be reached, and something is reported exactly if a reachable dependency is not met |
| PackageGraph.Resolver.Chain | src/package_graph.rs:607-627 | The chain ends, is the dependencies that first reached the package, and no path from the root is shorter |
| PackageGraph.FollowedKeeps | src/package_graph.rs:197-202 | Every step keeps one id per source, parents before children, ids growing with the distance, and every dependency looked at resolved at most one step further away |
| PackageGraph.ExactlyTheReachable | src/package_graph.rs:183-204 | A source has an id exactly if it can be reached, whatever was reported |
| PackageGraph.ReportsExactlyTheUnmet | src/package_graph.rs:183-210 | Nothing is reported exactly if every dependency that can be reached is met |
| PackageGraph.LinksArePath | src/package_graph.rs:607-627 | The links that reached a package are a path from the root |
| PackageGraph.LinksAreShortest | src/package_graph.rs:607-627 | and no path is shorter, even where dependencies are cyclic |
| PackageGraph.InvIsBounded | src/package_graph.rs:183-204 | There are never more packages than sources |
| LockPaths.NormalizePath | src/lockfile.rs:309-328 | The loop comes to the normal form |
| LockPaths.NormalIs | src/lockfile.rs:309-328 | The normal form of every path: its names, with a `..` in front exactly if it climbs an odd number of times |
| LockPaths.NormalKeepsThePlace | src/lockfile.rs:309-328 | Normalizing keeps where a path leads exactly if it is absolute or climbs at most one step above its start |
| LockPaths.TwoStepsUpAreNone | src/lockfile.rs:316-321 | A path of two `..` is normalized to nothing |
| LockPaths.NormalTwice | src/lockfile.rs:309-328 | A normal path is left as it is |
| LockPaths.RelativeLeadsBack | src/lockfile.rs:334-362 | From a normal directory the relative path leads to the normal form of the target, `.` for the directory itself |
| LockPaths.RelativeIsTheShortest | src/lockfile.rs:334-362 | No relative path that leads from the one normal place to the other is shorter, and none as short is another; the directory itself is `.` |
| LockPaths.InsideIsWrittenPlainly | src/lockfile.rs:334-362 | A target inside the directory is written without `..`, as what is behind the directory |
| LockPaths.RelativeExactly | src/lockfile.rs:334-362 | There is a relative form exactly if some relative path leads there |
| LockPaths.WrittenEitherWay | src/lockfile.rs:219-226 | A target written relative to the project is the same place as the target written absolute |
| LockPaths.SamePlaceIsOnePlace | src/lockfile.rs:219-226 | Paths of one place lead to one place from an absolute directory; paths that lead to one place are one place exactly if they climb above the root both an odd or both an even number of times |

## Left out

- The scheduler's shutdown and exit, panics, the threads' start and the owners of other programs' tasks: a run has one owner and its outer group.
- Condition variables and the registry's lock are taken by their contracts, the timer by the waits that end by themselves.
- Room for request bodies (status 503), reading that fails, and the flag that tells whether a request has begun.
- The program's thread clears `main` and takes the verdict in one step here, in two in `block_thread`.
- The texts of refusals, status phrases and diagnostics, and the notes of the lexer's errors.
- The values of literals (numbers, the text of strings with its escapes and indentation), the list of semicolons, and keywords as distinct from names: a token is its kind, its span and its word.
- Offsets are unbounded; texts beyond 4 GiB, and more than 2^32 packages, are not modelled.
- In the package graph: git, checksums, lock policies, duplicate names and the texts of what is reported.
- In the lock file: its rendering and parsing, drive prefixes, and names that are not UTF-8.
- `ends_in_operator`, and everything else of the REPL.
