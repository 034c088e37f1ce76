# Verified models of the OCPP test generator and the systems it tests

The repository generates OCPP 2.0.1 messages from collected rules, sends them to four charging-station management
systems whose sources it carries along, and evaluates the answers. This project models the parts of it that hold the
most state, branching or arithmetic, and proves what those parts promise, for every input and every run:

- **The transaction ledger of OCPP.Core** (`Ledger`, `LedgerRuns`, `LedgerLaws`, `MeterValues`, `Extensions`). The table of
  charging transactions is a sequence of rows, every TransactionEvent is one atomic step, and the theorems are about runs of any
  length over any number of charge points: what never changes, which rows can still be closed, when a tag can have two
  open transactions, that everything opened is closed once or still open, and what each event stores and is answered.
- **The OCPP-J layer of OCPP.Core** (`Reassembly`, `Frames`, `PendingRequests`). Fragments, the frame pattern, and the
  table of requests that wait for an answer.
- **The callback queue of ocpp-go** (`CallbackQueue`). First in, first out, for every interleaving.
- **The enum hoisting of CitrineOS** (`Hoisting`, `HoistingLaws`). A tree transformation with an exact condition for preserving meaning.
- **Rule normalisation and rule sets** (`RuleModel`, `Classifier`, `ClassifierLaws`, `Normaliser`, `NormaliserMeaning`,
  `RuleSet`). The ordered rewriting system behind `get_equivalent_rule`, which keeps what a rule demands, the classifier
  that guards it, and the set that merges the causes of equal rules.
- **The payload generator** (`Bounds`, `IntegerRules`, `IntegerMeaning`, `ArrayRules`, `StringRules`, `StringLaws`,
  `StringMeaning`, `StringReach`, `StringGuards`, `StringCorners`, `StringExamples`, `StringOrder`, `Base64`, `Scheduler`,
  `SchedulerResult`). Merging of bounds, independence of the order in which a Python set yields the rules, which values
  are produced and when, when a field is left out, when negating one rule is sound, what a finished object holds, and
  termination of the retry loops.
- **The evaluation scripts** (`Worklist`, `WorklistLaws`, `Validator`, `ValidatorMeaning`, `Report`). The closure over data
  types, and the counters, sets, lists and maps of the report with what each says about rules and responses.

Code that changes state step by step is modelled by classes and methods with loops, each proved against a
specification function or relation; the theorems are then about that specification. Clocks, random numbers, database
answers and the answers of extensions are parameters, so every statement holds for all of them. Exceptions are result
values.

## What the code does that one might not expect

These are facts of the code, kept as they are; the members named state when they matter.

- A row whose start tag is missing can never be closed, because comparing with it throws (`LedgerRuns.RunNeverClosesUntagged`).
  A row that a newer row with the same Uid overtakes stays open for ever, even when another charge point owns the newer
  row (`LedgerRuns.RunFreezesOvertaken`). `LedgerRuns.ClosableIff` says that, with a missing Uid, these are the only cases.
- An Ended event without a matching transaction is answered with the status Accepted, the zero of its enum, together
  with an error code. An event without a meter value list is refused as malformed and changes nothing. A sample without
  a measurand is ignored, although a comment in the source says that it counts as energy.
- Two absent parent groups are equal; a start tag whose parent is the empty string is not in the group "none". An empty
  start tag does not get the override that lets the starting tag always stop.
- The frame pattern matches no five-field error frame (`Frames.ErrorFrameIsRejected`), so a charge point that answers
  with an error never completes the pending call. An answer whose payload cannot be read removes the pending request
  without completing it.
- Hoisting preserves meaning only if enums moved to one name are equal (`Hoisting.HoistingPreservesMeaningIff`); a key
  that occurs twice with different enums loses it (`Hoisting.SameKeyLosesMeaning`), and so do two keys that differ only in
  whether their first letter is a capital (`HoistingLaws.SourceMeaningIff`).
- A rule with the operator "custom" can need two normalisations (`Normaliser.CustomNeedsTwo`; `Normaliser.OnceIff` says
  which do), and the second one can raise where the first did not (`Normaliser.SecondRaisesIff`).
- Every rule with a repeated value equals a rule with a different hash key (`RuleSet.RepeatsBreakHash`), and repeats are
  the only reason (`RuleSet.AgreesIffRepeatFree`). Normalising can create a repeat (decimal becomes number, uri becomes
  url), so freedom from repeats is asked of the normalised rule.
- An id provided by an earlier message is returned although an active notEqual rule forbids it or a negated between rule
  should avoid it; `IntegerRules.ChosenRespectsIff` says when that cannot happen. Drawn integers are never excluded.
- A negated byte count is not broken when an active enum or value has an excluded length, nor when the other bounds
  leave only excluded lengths: the missing choice is passed over in silence (`StringCorners.BytesBrokenGuard`). Negated
  camel case is not broken by an enum value without separators (`StringCorners.CamelBrokenGuard`).
- A negated character set can be answered with the empty string, which obeys every set
  (`StringCorners.CharsetBrokenIff`, `StringExamples.EmptyDefeatsCharset`).
- When active camel case filters out the whole enum, the string drawn in its place comes from the unfiltered population
  and can have separators (`StringCorners.CamelObeyedIff`, `StringExamples.EnumDefeatsActiveCamel`).
- With several applicable values or character sets the last rule wins, so the outcome depends on the order in which the
  set yields the rules (`StringOrder.OrderFreeIff`).
- The length of a generated array follows from its minima alone; the maxima are obeyed exactly when they do not
  contradict the minima (`ArrayRules.LengthObeysMaximaIff`). A notEqual value written as a string excludes no integer.
- The base64 shrink loop divides by zero for an empty input and a negative length, and for no other
  (`Base64.Shrink`).
- The validator creates counters for executions without a project name under a stand-in name, and then looks them up
  under the missing name, so one such execution aborts the analysis (`Validator.NamedIsCounted`). The sums of the report
  agree exactly when no negated rule lacks a cause (`Report.ReportAddsUpIff`).

## Model

| member | source | states |
|---|---|---|
| `Extensions.FirstAnswer` | OCPP.Core/OCPP.Core.Server/OCPPMiddleware.Extensions.cs:157-185 | The result is some extension's explicit answer with no explicit answer before it; there is none exactly when every extension abstains or throws |
| `Extensions.ProcessExternalAuthorizations` | OCPP.Core/OCPP.Core.Server/OCPPMiddleware.Extensions.cs:157-185 | The loop returns the first explicit answer and asks nobody after it |
| `MeterValues.LastIsLast` | OCPP.Core/OCPP.Core.Server/ControllerOCPP20.TransactionEvent.cs:422-497 | The sample that decides a reading is of the right kind and no later sample is |
| `MeterValues.AppendSample` | OCPP.Core/OCPP.Core.Server/ControllerOCPP20.TransactionEvent.cs:422-497 | One more sample moves only the reading of its own kind, scaled by its unit |
| `MeterValues.GetMeterValues` | OCPP.Core/OCPP.Core.Server/ControllerOCPP20.TransactionEvent.cs:422-497 | The nested loops yield, for each kind of reading, the last sample of that kind over all meter values, or -1 |
| `Ledger.CleanTag` | OCPP.Core/OCPP.Core.Server/ControllerBase.cs:175-191 | The cleaned tag is a prefix without underscore, and where it is shorter the next character is the underscore; a missing tag stays missing |
| `Ledger.Newest` | OCPP.Core/OCPP.Core.Server/ControllerOCPP20.TransactionEvent.cs:177-180 | The row found has the Uid and no later row has it, whichever charge point owns it; none is found exactly when no row has it |
| `Ledger.FindOpen` | OCPP.Core/OCPP.Core.Server/ControllerOCPP20.TransactionEvent.cs:121-134 | The query finds an open row of the tag exactly when there is one |
| `Ledger.AuthorizeStop` | OCPP.Core/OCPP.Core.Server/ControllerOCPP20.TransactionEvent.cs:223-297 | Verdict and group of a stop: no tag is accepted, extensions come before the tag table, and only a tag looked up locally has a group; `LedgerLaws.StopStatusIff` and `LedgerLaws.GroupIff` say which tag gets which |
| `Ledger.Controller.StartTransaction` | OCPP.Core/OCPP.Core.Server/ControllerOCPP20.TransactionEvent.cs:67-171 | A row is appended exactly under the opening condition, otherwise the table stays; the reply tells refusal by authorization from refusal by concurrency; `LedgerLaws.OpensIff` and `LedgerLaws.StartAnswer` say both on the tag table, the extensions and the clock |
| `Ledger.Controller.UpdateTransaction` | OCPP.Core/OCPP.Core.Server/ControllerOCPP20.TransactionEvent.cs:172-206 | Only the meter stop of the sender's newest open row changes, and only by a non-negative reading |
| `Ledger.Controller.EndTransaction` | OCPP.Core/OCPP.Core.Server/ControllerOCPP20.TransactionEvent.cs:207-389 | The code's order of verdict, override, null start tag and group check closes the row exactly under the closed-form condition of who may stop, and answers accordingly |
| `Ledger.Controller.HandleTransactionEvent` | OCPP.Core/OCPP.Core.Server/ControllerOCPP20.TransactionEvent.cs:34-402 | The handler refines the step function of the ledger, for every event, environment and table, malformed events included; the laws of `LedgerLaws` say what that function lets in, stores and answers |
| `LedgerRuns.StepEvolves` | OCPP.Core/OCPP.Core.Server/ControllerOCPP20.TransactionEvent.cs:34-402 | No event removes or moves a row, changes a start field or touches a closed row |
| `LedgerRuns.RunEvolves` | OCPP.Core/OCPP.Core.Server/ControllerOCPP20.TransactionEvent.cs:34-402 | Nor does any run |
| `LedgerRuns.StepIsLocal` | OCPP.Core/OCPP.Core.Server/ControllerOCPP20.TransactionEvent.cs:177-192 | A row that changes was open, is the newest with the event's Uid, and belongs to the sender; the event is not a Started |
| `LedgerRuns.StepClosesIff` | OCPP.Core/OCPP.Core.Server/ControllerOCPP20.TransactionEvent.cs:214-367 | An open row is closed exactly by an Ended event of its owner while it is the newest with its Uid, has a start tag, and that tag lets the sent tag stop |
| `LedgerRuns.StepKeepsOneOpen` | OCPP.Core/OCPP.Core.Server/ControllerOCPP20.TransactionEvent.cs:121-157 | With DenyConcurrentTx, at most one open row per start tag is kept by every event |
| `LedgerRuns.RunKeepsOneOpen` | OCPP.Core/OCPP.Core.Server/ControllerOCPP20.TransactionEvent.cs:121-157 | The same over every run |
| `LedgerRuns.StepBreaksOneOpenIff` | OCPP.Core/OCPP.Core.Server/ControllerOCPP20.TransactionEvent.cs:121-157 | Without the setting, the invariant breaks exactly when a row is opened for a tag that has an open one |
| `LedgerRuns.StepLeavesOvertaken` | OCPP.Core/OCPP.Core.Server/ControllerOCPP20.TransactionEvent.cs:177-192 | A row with a newer row of the same Uid is left alone and stays overtaken |
| `LedgerRuns.RunFreezesOvertaken` | OCPP.Core/OCPP.Core.Server/ControllerOCPP20.TransactionEvent.cs:214-221 | An overtaken row is the same after every run, open if it was open |
| `LedgerRuns.RunNeverClosesUntagged` | OCPP.Core/OCPP.Core.Server/ControllerOCPP20.TransactionEvent.cs:327-389 | A row without a start tag stays open in every run |
| `LedgerRuns.RunNeverClosesWithoutUid` | OCPP.Core/OCPP.Core.Server/ControllerOCPP20.TransactionEvent.cs:214-221 | A row without a Uid never changes |
| `LedgerRuns.ReleaseCloses` | OCPP.Core/OCPP.Core.Server/ControllerOCPP20.TransactionEvent.cs:223-367 | One event closes any row with Uid and start tag that is not overtaken |
| `LedgerRuns.ClosableIff` | OCPP.Core/OCPP.Core.Server/ControllerOCPP20.TransactionEvent.cs:207-389 | Some run closes an open row exactly when it has a Uid and a start tag and is not overtaken |
| `LedgerRuns.CleanedIsClean` | OCPP.Core/OCPP.Core.Server/ControllerBase.cs:175-191 | Cleaning a cleaned tag changes nothing, so every start tag that the handler stores can be sent again |
| `LedgerRuns.OwnStopCloses` | OCPP.Core/OCPP.Core.Server/ControllerOCPP20.TransactionEvent.cs:223-367 | In every environment, the owner closes an open row that is not overtaken by sending its start tag, the empty tag included |
| `LedgerRuns.ClosableAnywhereIff` | OCPP.Core/OCPP.Core.Server/ControllerOCPP20.TransactionEvent.cs:207-389 | In every environment some event closes an open row exactly when it has a Uid and a start tag and is not overtaken |
| `LedgerRuns.StartTagAlwaysStops` | OCPP.Core/OCPP.Core.Server/ControllerOCPP20.TransactionEvent.cs:306-366 | The starting tag closes the transaction whatever extensions, blocking and expiry say, and nothing else changes |
| `LedgerRuns.StepCounts` | OCPP.Core/OCPP.Core.Server/ControllerOCPP20.TransactionEvent.cs:34-402 | Each event changes the number of open rows by what it opens and closes |
| `LedgerRuns.RunConserves` | OCPP.Core/OCPP.Core.Server/ControllerOCPP20.TransactionEvent.cs:34-402 | Over every run, initially open plus opened equals still open plus closed, and rows grow by the opened ones |
| `LedgerLaws.OpensIff` | OCPP.Core/OCPP.Core.Server/ControllerOCPP20.TransactionEvent.cs:75-163 | A row is opened exactly by a Started event with meter values whose tag is let in (by the first extension that answers, or else as a known tag that is neither blocked nor expired) and, with DenyConcurrentTx, has no open row |
| `LedgerLaws.RefusedIff` | OCPP.Core/OCPP.Core.Server/ControllerOCPP20.TransactionEvent.cs:85-119 | Every tag that is not let in has exactly one reason, with its status: Invalid for an extension, Unknown, Blocked, Expired |
| `LedgerLaws.StartAnswer` | OCPP.Core/OCPP.Core.Server/ControllerOCPP20.TransactionEvent.cs:75-171 | The answer to a Started event is Accepted exactly when a row is opened, ConcurrentTx exactly when only that stands in the way, and otherwise the status of the reason |
| `LedgerLaws.StopStatusIff` | OCPP.Core/OCPP.Core.Server/ControllerOCPP20.TransactionEvent.cs:223-297 | A stop is accepted exactly without a tag or with one that is let in, and otherwise gets the status of the reason |
| `LedgerLaws.GroupIff` | OCPP.Core/OCPP.Core.Server/ControllerOCPP20.TransactionEvent.cs:223-297 | The group of a stop is the parent of a tag looked up locally, if not blank |
| `LedgerLaws.MayStopIff` | OCPP.Core/OCPP.Core.Server/ControllerOCPP20.TransactionEvent.cs:306-355 | Who may stop, on tags, groups and letter case: the start tag itself, or an accepted tag whose group is that of a known start tag |
| `LedgerLaws.OpenedRow` | OCPP.Core/OCPP.Core.Server/ControllerOCPP20.TransactionEvent.cs:138-157 | An opened row holds the Uid, charge point, connector, cleaned tag, time, energy reading and trigger of its event, and nothing of a stop; all other rows stay |
| `LedgerLaws.TargetIff` | OCPP.Core/OCPP.Core.Server/ControllerOCPP20.TransactionEvent.cs:177-184 | An Updated or Ended event acts on the newest row with its Uid, if that is open and of the sender |
| `LedgerLaws.ClosedRowIs` | OCPP.Core/OCPP.Core.Server/ControllerOCPP20.TransactionEvent.cs:357-367 | A closed row keeps its start fields and gets the time, cleaned tag, energy reading and trigger of the event; all other rows stay |
| `LedgerLaws.MeteredRow` | OCPP.Core/OCPP.Core.Server/ControllerOCPP20.TransactionEvent.cs:182-193 | An Updated event stores a reading that is not negative as the meter stop and changes nothing else |
| `LedgerLaws.NoTarget` | OCPP.Core/OCPP.Core.Server/ControllerOCPP20.TransactionEvent.cs:182-304 | Without such a row nothing changes and the answer is an error |
| `LedgerLaws.EndAnswer` | OCPP.Core/OCPP.Core.Server/ControllerOCPP20.TransactionEvent.cs:223-389 | The answer to an Ended event is Accepted exactly when the row is closed, and otherwise tells what stood in the way |
| `LedgerLaws.SampleIsRead` | OCPP.Core/OCPP.Core.Server/ControllerOCPP20.TransactionEvent.cs:422-497 | One sample moves the reading of its kind: energy in kWh and power in kW, a value without unit or in a unit without kilo divided by a thousand |
| `Reassembly.Receive` | OCPP.Core/OCPP.Core.Server/OCPPMiddleware.OCPP20.cs:51-143 | The receive loop with its growing buffer refines the function on segment sequences |
| `Reassembly.OneMessage` | OCPP.Core/OCPP.Core.Server/OCPPMiddleware.OCPP20.cs:58-136 | The pieces of one message are handed on as a whole if within the limit, and otherwise end the loop with nothing |
| `Reassembly.FragmentationIsInvisible` | OCPP.Core/OCPP.Core.Server/OCPPMiddleware.OCPP20.cs:51-143 | For every fragmentation exactly the messages before the first oversized one are handed on, in order, and the socket stays open exactly when none is oversized |
| `Reassembly.FragmentationIndependence` | OCPP.Core/OCPP.Core.Server/OCPPMiddleware.OCPP20.cs:51-143 | Two fragmentations of the same messages have the same outcome |
| `Reassembly.AllArriveIff` | OCPP.Core/OCPP.Core.Server/OCPPMiddleware.OCPP20.cs:64-66 | All messages arrive exactly when the limit is zero or no message is longer |
| `Frames.SpanUnique` | OCPP.Core/OCPP.Core.Server/OCPPMiddleware.cs:50 | A run of one character class followed by another character can be cut in one way |
| `Frames.EndUnique` | OCPP.Core/OCPP.Core.Server/OCPPMiddleware.cs:50 | The end of the frame determines the payload, whatever braces the payload holds |
| `Frames.SplitIsUnique` | OCPP.Core/OCPP.Core.Server/OCPPMiddleware.cs:50 | No text at all has two field splits under the pattern |
| `Frames.PrintIsLayout` | OCPP.Core/OCPP.Core.Server/OCPPMiddleware.OCPP20.cs:364-376 | A printed request or response is a text of the pattern with no white space between the groups |
| `Frames.RoundTrip` | OCPP.Core/OCPP.Core.Server/OCPPMiddleware.OCPP20.cs:364-376 | The pattern splits a printed request or response into exactly the fields it was printed from, and into no others |
| `Frames.NoPayloadAfterTwoStrings` | OCPP.Core/OCPP.Core.Server/OCPPMiddleware.cs:50 | After the id, two quoted strings in a row cannot be matched |
| `Frames.ErrorFrameIsRejected` | OCPP.Core/OCPP.Core.Server/OCPPMiddleware.OCPP20.cs:377-380 | No printed error frame is matched by the pattern |
| `Frames.PrintedText` | OCPP.Core/OCPP.Core.Server/OCPPMiddleware.OCPP20.cs:364-376 | The exact text of a request, which has its action, and of a response, which has none |
| `Frames.PrintedError` | OCPP.Core/OCPP.Core.Server/OCPPMiddleware.OCPP20.cs:377-380 | The exact text of an error frame |
| `PendingRequests.Middleware.SendRequest` | OCPP.Core/OCPP.Core.Server/OCPPMiddleware.OCPP20.cs:167-178 | An API call adds one pending request and nothing else; a used id is refused and changes nothing |
| `PendingRequests.Middleware.ReceiveAnswer` | OCPP.Core/OCPP.Core.Server/OCPPMiddleware.OCPP20.cs:106-118 | An answer with a pending id is handed to its handler and removed; any other changes nothing |
| `PendingRequests.Middleware.ProcessAnswer` | OCPP.Core/OCPP.Core.Server/ControllerOCPP20.cs:140-165 | Exactly the dispatched actions with a readable payload set the caller's completion source |
| `PendingRequests.PendingIff` | OCPP.Core/OCPP.Core.Server/OCPPMiddleware.OCPP20.cs:106-118 | In every interleaving with fresh ids, a request is pending exactly while no answer has carried its id since its call, with the action of that call |
| `PendingRequests.CompletedIff` | OCPP.Core/OCPP.Core.Server/ControllerOCPP20.Reset.cs:34-57 | A result was delivered exactly if the first answer after the call carried it |
| `PendingRequests.AppendedDelivers` | OCPP.Core/OCPP.Core.Server/OCPPMiddleware.OCPP20.cs:106-118 | The next event delivers to a call exactly when that call is unanswered and the event answers it readably |
| `PendingRequests.LastDelivers` | OCPP.Core/OCPP.Core.Server/OCPPMiddleware.OCPP20.cs:106-118 | A step adds a result exactly when it is the first answer to its call |
| `PendingRequests.CompletedAtMostOnce` | OCPP.Core/OCPP.Core.Server/ControllerOCPP20.Reset.cs:38-56 | No request is completed twice |
| `PendingRequests.CompletedIsNotPending` | OCPP.Core/OCPP.Core.Server/OCPPMiddleware.OCPP20.cs:111-112 | A completed request is no longer pending |
| `PendingRequests.DuplicateChangesNothing` | OCPP.Core/OCPP.Core.Server/OCPPMiddleware.OCPP20.cs:109-118 | Every later answer with the same id leaves the state as it is |
| `PendingRequests.UnknownIdChangesNothing` | OCPP.Core/OCPP.Core.Server/OCPPMiddleware.OCPP20.cs:109-118 | An answer with an id that was never sent leaves the state as it is |
| `PendingRequests.OtherTypesChangeNothing` | OCPP.Core/OCPP.Core.Server/OCPPMiddleware.OCPP20.cs:106-118 | A message of a type other than 3 and 4 completes nothing and removes nothing |
| `PendingRequests.AnswerCompletes` | OCPP.Core/OCPP.Core.Server/OCPPMiddleware.OCPP20.cs:106-118 | An answer of type 3 or 4 to an unanswered call removes that call alone, and completes it exactly when its action is one of the four that are dispatched and the payload can be read |
| `CallbackQueue.Queue.TryQueue` | ocpp-go/internal/callbackqueue/callbackqueue.go:20-38 | The callback is at the end of its client's queue exactly when sending succeeds; a failure restores the queues, and other clients are untouched |
| `CallbackQueue.Queue.Dequeue` | ocpp-go/internal/callbackqueue/callbackqueue.go:40-62 | The oldest callback of the client is removed, if there is one; no empty queue is ever stored |
| `CallbackQueue.CentralSystem.SendRequestAsync` | ocpp-go/ocpp1.6/central_system.go:511-537 | An unsupported feature or a failed send leaves everything as it was and is reported |
| `CallbackQueue.CentralSystem.HandleReply` | ocpp-go/ocpp1.6/central_system.go:697-726 | A confirmation, error or cancellation calls the client's oldest callback once with that outcome, or nothing when none is pending |
| `CallbackQueue.CentralSystem.HandleDisconnect` | ocpp-go/ocpp1.6/central_system.go:501-509 | The drain loop ends and calls every pending callback of the client, oldest first |
| `CallbackQueue.StepConserves` | ocpp-go/ocpp1.6/central_system.go:501-537 | Every event keeps "called, then pending" equal to it before plus what was accepted, for every client |
| `CallbackQueue.FifoConservation` | ocpp-go/ocpp1.6/central_system.go:501-537 | In every interleaving the accepted callbacks of a client, in order, are those called followed by those pending |
| `CallbackQueue.CalledAtMostOnce` | ocpp-go/ocpp1.6/central_system.go:697-726 | Distinct callbacks are called at most once, only if accepted, and not while pending |
| `CallbackQueue.DisconnectDrains` | ocpp-go/ocpp1.6/central_system.go:501-509 | After a disconnect everything accepted for the client has been called in order and nothing is pending |
| `CallbackQueue.ReplyCallsOldest` | ocpp-go/ocpp1.6/central_system.go:697-726 | After any interleaving a reply calls the oldest accepted callback of its client that was not called yet, with its own outcome, and nothing when there is none |
| `CallbackQueue.DisconnectCallsAll` | ocpp-go/ocpp1.6/central_system.go:501-509 | A disconnect calls all of them, in order, as disconnected |
| `CallbackQueue.SendCallsNothing` | ocpp-go/ocpp1.6/central_system.go:511-537 | Sending calls no callback |
| `Hoisting.Processor.ProcessEnumNames` | citrineos-core/00_Base/json-schema-processor-1.6.js:195-209 | The recursive pass refines the tree function: entries, definitions and name list; it throws exactly when it meets a null, leaving everything before the null rewritten and moved and everything after it as it was |
| `Hoisting.Processor.ProcessEntry` | citrineos-core/00_Base/json-schema-processor-1.6.js:197-206 | The same for one entry, with what it leaves when it throws |
| `Hoisting.InlineRestoresIff` | citrineos-core/00_Base/json-schema-processor-1.6.js:195-209 | For any definitions that cover the moved names, inlining gives back the tree exactly when they hold what was moved |
| `Hoisting.DefinedHoldsIff` | citrineos-core/00_Base/json-schema-processor-1.6.js:200-201 | The definitions written by the pass hold everything that was moved exactly when no name was used for two different enums |
| `Hoisting.HoistingPreservesMeaningIff` | citrineos-core/00_Base/json-schema-processor-1.6.js:195-209 | For a tree without references, inlining after hoisting is the identity exactly when enums moved to one name are equal |
| `Hoisting.SameKeyLosesMeaning` | citrineos-core/00_Base/json-schema-processor-1.6.js:200-202 | Under the naming of the source, two different enums under one ordinary key, one of them nested, are not given back by inlining |
| `Hoisting.NoEnumRemains` | citrineos-core/00_Base/json-schema-processor-1.6.js:195-209 | No enum is left below the visited node, whatever the input |
| `Hoisting.ReferredRef` | citrineos-core/00_Base/json-schema-processor-1.6.js:202 | The reference object that is written reads back as its name |
| `HoistingLaws.MovedIff` | citrineos-core/00_Base/json-schema-processor-1.6.js:195-209 | Exactly the enums that are visited, by a path that does not lead through an enum, are moved, each as it is and under the name of its own key |
| `HoistingLaws.NamesAre` | citrineos-core/00_Base/json-schema-processor-1.6.js:203 | The list of names has one name per moved enum, in order |
| `HoistingLaws.TitleNames` | citrineos-core/00_Base/json-schema-processor-1.6.js:200 | A name is the title followed by the key with its first character capitalised |
| `HoistingLaws.TitleCollidesIff` | citrineos-core/00_Base/json-schema-processor-1.6.js:200 | Two keys get one name exactly when they are capitalised alike, whatever the title |
| `HoistingLaws.SourceMeaningIff` | citrineos-core/00_Base/json-schema-processor-1.6.js:195-209 | Under these names hoisting preserves meaning exactly when no two different visited enums have keys that are capitalised alike |
| `HoistingLaws.MeetsNullIff` | citrineos-core/00_Base/json-schema-processor-1.6.js:197-199 | The pass throws exactly when it visits a null; one inside an enum does no harm |
| `HoistingLaws.PartIsPrefix` | citrineos-core/00_Base/json-schema-processor-1.6.js:195-209 | What has been moved when it throws is the first part of what it would have moved |
| `HoistingLaws.PartLeavesRest` | citrineos-core/00_Base/json-schema-processor-1.6.js:195-209 | What has been moved, followed by what is still to be moved in the tree that is left, are all the enums in order |
| `Classifier.ClassifyExplained` | rule_collector_modules/constraint_define.py:84-344 | The whole chain of conditionals ends in TYPE_EQUAL, STATUS_EQUAL, VALUE_FROM or an exception exactly under four short conditions, which is all that the normaliser depends on |
| `ClassifierLaws.EarlyClassIff` | rule_collector_modules/constraint_define.py:84-344 | Exactly which constraints are a maximum length, a byte count, an enum, and a required true or false |
| `ClassifierLaws.LaterClassIff` | rule_collector_modules/constraint_define.py:84-344 | Exactly which are a value, an empty string, and a least or greatest number of items |
| `ClassifierLaws.BoundClassIff` | rule_collector_modules/constraint_define.py:84-344 | Exactly which are a not-value, a bound, a range, a bit count and a removal |
| `Normaliser.RuleObject.GetEquivalentRule` | rule_collector_modules/rule_set.py:57-135 | The in-place rewriting refines the function on rules and raises exactly when that has no value; `NormaliserMeaning.NormalisingKeepsMeaning` says that it keeps the demand |
| `Normaliser.RuleObject.RewriteEarly` | rule_collector_modules/rule_set.py:58-96 | The rewrites before the conditions, and when they raise; what they come out as is in `NormaliserMeaning` |
| `Normaliser.RuleObject.EquivalentConditions` | rule_collector_modules/rule_set.py:97-115 | Every condition is rewritten in place, in order |
| `Normaliser.RuleObject.RewriteLate` | rule_collector_modules/rule_set.py:116-131 | The rewrites after the conditions, and when they raise |
| `Normaliser.RewriteFixedIff` | rule_collector_modules/rule_set.py:57-135 | A constraint is unchanged by the ordered rewrites exactly when none of their patterns applies to it |
| `Normaliser.RewriteReachesNormal` | rule_collector_modules/rule_set.py:57-135 | One application leaves no applicable rewrite unless the operator is "custom" |
| `Normaliser.ConditionsNormal` | rule_collector_modules/rule_set.py:97-133 | Condition rewriting is idempotent, and its fixed points are the lists without a redex |
| `Normaliser.FixedPointIff` | rule_collector_modules/rule_set.py:57-135 | The rules that normalisation leaves alone are exactly those without a redex |
| `Normaliser.OnceIff` | rule_collector_modules/rule_set.py:57-135 | One application reaches a fixed point exactly when the operator is not "custom", or the constraint with "equal" in its place neither raises nor has a redex of an earlier rewrite; with or without values |
| `Normaliser.TwiceAlways` | rule_collector_modules/rule_set.py:57-135 | For every rule with values, two applications that do not raise reach a fixed point |
| `Normaliser.SecondRaisesIff` | rule_collector_modules/rule_set.py:57-135 | The second application raises exactly for a "custom" format with a number as first value and no UTF-8 value |
| `Normaliser.ValuelessFixedPointIff` | rule_collector_modules/rule_set.py:57-135 | The fixed points among rules without values |
| `Normaliser.ValuelessTwice` | rule_collector_modules/rule_set.py:57-135 | Without values too, two applications that do not raise reach a fixed point |
| `Normaliser.ValuelessSecondRaisesIff` | rule_collector_modules/rule_set.py:78-79 | Without values the second application raises exactly on a "custom" optional |
| `Normaliser.CustomNeedsTwo` | rule_collector_modules/rule_set.py:116-120 | A family of "custom" rules that one application does not finish: a status with several numbers |
| `Normaliser.CustomCanRaise` | rule_collector_modules/rule_set.py:119-125 | A "custom" rule whose second application raises |
| `NormaliserMeaning.NormalisingKeepsMeaning` | rule_collector_modules/rule_set.py:57-135 | For every rule that does not raise, the normalised constraint demands what the constraint demanded: presence or absence, a choice of values, a lower bound, a number of items, a format, or what it said; with "custom" read as "equal", decimal as number and a format uri as url |
| `NormaliserMeaning.NormalisingKeepsPresence` | rule_collector_modules/rule_set.py:78-83 | Required true and optional false stay a demand to be present, required false and optional true one not to be |
| `NormaliserMeaning.BoundComesOut` | rule_collector_modules/rule_set.py:78-127 | Optional false comes out as required true, a minimum as values at least, and minItems "ge" as "equal" |
| `NormaliserMeaning.FormatComesOut` | rule_collector_modules/rule_set.py:121-129 | Values required come out as required, a format base64 as an encoding, and a format uri as url |
| `NormaliserMeaning.StatusComesOut` | rule_collector_modules/rule_set.py:66-71 | A status comes out as values, "in" if there are several |
| `NormaliserMeaning.ValuesComeOut` | rule_collector_modules/rule_set.py:116-118 | So do values |
| `NormaliserMeaning.CurrencyComesOut` | rule_collector_modules/rule_set.py:90-96 | So does the currency variable |
| `NormaliserMeaning.SourceComesOut` | rule_collector_modules/rule_set.py:60-77 | Several values from a plain source come out as an enum, and the type dateTime as a format |
| `NormaliserMeaning.ConditionComesOut` | rule_collector_modules/rule_set.py:97-115 | Which attribute, target and operator each condition comes out with; its values stay |
| `NormaliserMeaning.ConditionsComeOut` | rule_collector_modules/rule_set.py:97-133 | Conditions keep their number and order, a list is dropped exactly when it is empty, and causes stay |
| `RuleSet.EqualityAgreesWithHash` | dto/constraint_collect_dto.py:27-33 | Equal rules without repeated values have equal hashes, for every hash function |
| `RuleSet.AgreesIffRepeatFree` | dto/constraint_collect_dto.py:27-33 | A rule hashes like every equal rule without repeats exactly when it has no repeats itself |
| `RuleSet.RepeatsBreakHash` | dto/constraint_collect_dto.py:27-33 | Every rule with a repeated value equals a rule whose hash key differs: the one with each value once |
| `RuleSet.MembershipIsEquality` | dto/constraint_collect_dto.py:64-70 | Hash-table membership is then the same as having an equal member |
| `RuleSet.RepeatsBreakMembership` | dto/constraint_collect_dto.py:64-70 | Under any hash that tells two equal rules apart, a set that holds one does not recognise the other |
| `RuleSet.Rules.Add` | rule_collector_modules/rule_set.py:37-55 | A rule joins its class with its causes, and True is returned exactly when the class is new; a raising rule changes nothing |
| `RuleSet.Rules.AddForced` | rule_collector_modules/rule_set.py:38-40 | A forced rule is reported as added, is stored as it is unless an equal member is there, and loses its causes if one is |
| `RuleSet.Rules.Insert` | rule_collector_modules/rule_set.py:37-55 | One member per class is kept, with the causes of the class extended by the rule's |
| `RuleSet.Rules.MergeInto` | rule_collector_modules/rule_set.py:43-52 | Merging with an equal member keeps one member with the union of the causes |
| `RuleSet.CollectAllSpec` | rule_collector_modules/rule_set.py:37-55 | A class is collected exactly if a rule of it was added, and its causes are exactly those of the rules added for it |
| `RuleSet.AddAll` | generator_modules/generator.py:190-203 | After adding any sequence of rules, the set holds one rule per class with the union of the causes, and True was returned exactly for the first rule of each class |
| `RuleSet.FirstIff` | rule_collector_modules/rule_set.py:37-55 | A rule is the first of its class exactly when the class was not collected before it |
| `RuleSet.NormaliserKeepsCauses` | rule_collector_modules/rule_set.py:57-135 | The program's own normaliser meets the hypothesis on which the set's theorems rest |
| `RuleSet.EqualIff` | dto/constraint_collect_dto.py:27-30 | Two rules are equal exactly when conditions, attribute and operator are and they have the same values, in any order and number and whatever the causes |
| `RuleSet.HashesAlikeIff` | dto/constraint_collect_dto.py:32-70 | They have one hash key exactly when also each value occurs equally often, a missing list of conditions being like an empty one |
| `Bounds.MinConstraint.Set` | generator_modules/constraint/size_constraint.py:29-41 | A forced bound stays, a forced request replaces an unforced bound, otherwise the larger wins |
| `Bounds.MaxConstraint.Set` | generator_modules/constraint/size_constraint.py:15-27 | The same with the smaller one |
| `Bounds.UpdateMin` | generator_modules/constraint/legnth_constraint.py:50-55 | A missing bound is created by the first request; an existing object is updated, not replaced |
| `Bounds.UpdateMax` | generator_modules/constraint/legnth_constraint.py:29-34 | The same for upper bounds |
| `Bounds.MergeMinSpec` | generator_modules/constraint/size_constraint.py:29-41 | After any requests with at most one forced, the bound is the forced one, or the greatest of start and requests |
| `Bounds.MergeMaxSpec` | generator_modules/constraint/size_constraint.py:15-27 | The mirror statement for upper bounds |
| `Bounds.MinIsOrderFree` | generator_modules/constraint/size_constraint.py:29-41 | The merged lower bound depends only on which requests are made, not on their order |
| `Bounds.MaxIsOrderFree` | generator_modules/constraint/size_constraint.py:15-27 | The same for upper bounds |
| `Bounds.CreateMinSpec` | generator_modules/constraint/item_constraint.py:34-53 | A bound created from requests is one of them: the forced one, or the greatest; absent exactly without requests |
| `Bounds.CreateMaxSpec` | generator_modules/constraint/item_constraint.py:13-32 | The mirror statement |
| `Bounds.CreatedIsOrderFree` | generator_modules/constraint/item_constraint.py:13-53 | Created bounds do not depend on the order of the requests |
| `IntegerRules.IntervalIsOrderFree` | generator_modules/payload_generator.py:475-590 | The merged interval is the same for every order of rules with at most one negated |
| `IntegerRules.IntervalIffObeys` | generator_modules/payload_generator.py:475-590 | With none negated, the interval holds exactly the 64-bit integers that obey every applicable bound, bit count and range |
| `IntegerRules.IntervalBreaksNegated` | generator_modules/payload_generator.py:475-590 | With one size rule negated, every integer in the interval breaks it, whatever the other rules ask |
| `IntegerRules.FirstExitIff` | generator_modules/payload_generator.py:475-590 | Only the negated rule decides whether and how the loop ends early |
| `IntegerRules.Config.ApplyBounds` | generator_modules/payload_generator.py:475-590 | One rule makes exactly its requests to the two bounds |
| `IntegerRules.Config.ApplyLists` | generator_modules/payload_generator.py:475-590 | One rule changes exclusions, enum list and flags by exactly what it stands for |
| `IntegerRules.MergeRules` | generator_modules/payload_generator.py:475-590 | The loop ends with the first exit, or with the merged interval, the exclusions, the entries of the enum list in order, and the flags |
| `IntegerRules.Choose` | generator_modules/payload_generator.py:591-615 | Which of the outcomes comes about, exactly: an exception only when one waits or the interval is empty, an offered id picked, the first draw that is not excluded, or undecided when every draw is |
| `IntegerRules.GenerateInteger` | generator_modules/payload_generator.py:475-615 | The outcome in terms of the rules: the first exit, or exactly when the field is left out, an exception comes, an offered id is returned, and which; an integer lies in every applicable bound when none is negated and breaks the negated ge, gt, maximum or bit rule; an early one is forbidden by the negated notEqual rule |
| `IntegerRules.IntegerSpeaks` | generator_modules/payload_generator.py:475-615 | A returned integer obeys all bounds or breaks the negated one; a drawn one also respects every active notEqual and the negated between |
| `IntegerRules.ExitIsForbidden` | generator_modules/payload_generator.py:559-564 | An integer that ends the loop early is a value that the negated notEqual rule forbids |
| `IntegerRules.EmptyIntervalIff` | generator_modules/payload_generator.py:612-613 | With none negated, drawing raises exactly when no 64-bit integer obeys every rule |
| `IntegerRules.RedrawEndsIff` | generator_modules/payload_generator.py:612-615 | The unbounded redraw loop can end exactly when some integer of the interval is not excluded |
| `IntegerRules.OfferedIff` | generator_modules/payload_generator.py:599-611 | Offered are exactly the ids that an applicable rule provides and the interval admits |
| `IntegerRules.ChosenRespectsIff` | generator_modules/payload_generator.py:604-611 | Whatever is picked respects every active notEqual and the negated between exactly when no offered id is excluded |
| `IntegerRules.ProvidedDefeatsNotEqual` | generator_modules/payload_generator.py:604-611 | A provided id that an active notEqual rule forbids is offered all the same |
| `IntegerRules.ProvidedDefeatsBetween` | generator_modules/payload_generator.py:604-611 | A provided id inside a negated between is offered all the same |
| `IntegerMeaning.EarlyIff` | generator_modules/payload_generator.py:475-590 | The loop is left early exactly by the first rule that decides alone, with the outcome that its kind stands for |
| `IntegerMeaning.EmptyIff` | generator_modules/payload_generator.py:475-603 | The field is left out exactly by a negated requirement that decides first, or, with none negated and no id lacking, by the coin if nothing demands the field or by a rule that wants it removed |
| `IntegerMeaning.RequiredIsThere` | generator_modules/payload_generator.py:591-603 | A required field that no rule removes is never left out unless a rule is negated |
| `IntegerMeaning.OtherTypeIff` | generator_modules/payload_generator.py:487-490 | A value of another type comes exactly from a negated type rule that decides first |
| `IntegerMeaning.AbortedIff` | generator_modules/payload_generator.py:475-615 | An exception comes exactly from a rule that decides so first, from a lacking id, or from an empty interval with nothing offered |
| `IntegerMeaning.ExcludesMeans` | generator_modules/payload_generator.py:539-564 | Excluded are exactly the numbers of an active notEqual and those between the bounds of a negated between |
| `IntegerMeaning.DrawnIsAllowed` | generator_modules/payload_generator.py:612-615 | No rule rules a drawn integer out |
| `IntegerMeaning.NegatedInterval` | generator_modules/payload_generator.py:514-571 | The exact interval from which a negated bound is broken |
| `IntegerMeaning.UnprovidedIsFar` | generator_modules/payload_generator.py:502-508 | An id that must not have been provided lies between 1000000 and 1000200 above the last one |
| `ArrayRules.GenerateLength` | generator_modules/payload_generator.py:1364-1484 | The loop yields the early exit, the merged length, or an error above 1000 items |
| `ArrayRules.ApplyRule` | generator_modules/payload_generator.py:1371-1450 | One rule makes exactly its requests to the two item bounds |
| `ArrayRules.LengthIsOrderFree` | generator_modules/payload_generator.py:1371-1484 | The length is the same for every order of rules with at most one negated |
| `ArrayRules.LengthIsLeast` | generator_modules/payload_generator.py:1371-1484 | With none negated it is the least length that obeys every applicable minItems |
| `ArrayRules.LengthObeysMaximaIff` | generator_modules/payload_generator.py:1371-1484 | It obeys every applicable maxItems exactly when no maxItems is negative or below a minItems |
| `ArrayRules.LengthBreaksNegated` | generator_modules/payload_generator.py:1371-1484 | A negated minItems or maxItems is broken by the length, whatever the other rules ask, and by how much |
| `ArrayRules.EarlyIff` | generator_modules/payload_generator.py:1371-1450 | There is no array exactly when a rule decides so first: a negated requirement leaves the field out, a negated type rule gives another type, and the others raise |
| `StringRules.GenerateString` | generator_modules/payload_generator.py:896-1310 | The program with its configuration object refines the function of rules and random numbers that the laws below are about; `StringMeaning` says what that function yields, when the field is left out and when it has another type |
| `StringRules.MergeRules` | generator_modules/payload_generator.py:907-1259 | The loop ends with the first exit, or with a configuration whose every field is what the rules make of it |
| `StringRules.Config.RandomLength` | generator_modules/value_config/generate_string_value_config.py:85-94 | The length drawn between the bounds, widened above the minimum when they contradict |
| `StringRules.Config.Apply` | generator_modules/payload_generator.py:907-1259 | What one rule makes of the whole configuration; `StringMeaning` says what each field then means |
| `StringRules.Config.NarrowLengths` | generator_modules/payload_generator.py:1261-1282 | A negated byte count fixes the length to one that is not excluded; without one nothing happens |
| `StringRules.Config.RandomEnumValue` | generator_modules/value_config/generate_string_value_config.py:69-83 | The value, or the string drawn in its place, and the filtered list that stays behind |
| `StringRules.Config.DrawString` | generator_modules/payload_generator.py:349-406 | The string drawn from the limited population with the required characters inserted, and the population that stays behind; drawing from nothing raises |
| `StringRules.Config.Attempt` | generator_modules/payload_generator.py:325-406 | Which of the ways to a value is taken, and what it leaves in the configuration |
| `StringRules.Config.TryAll` | generator_modules/payload_generator.py:1284-1299 | The first attempt that is not rejected, or an exception after the last |
| `StringLaws.TrialsYield` | generator_modules/payload_generator.py:1284-1299 | Over all attempts: drawn strings have a possible length, given ones were prescribed, nothing excluded is returned, and a negated rule that switches enums off leads only to draws |
| `StringLaws.NoneNegatedLaws` | generator_modules/payload_generator.py:896-1310 | With none negated, no excluded string is returned, and a drawn one meets every length rule whenever some string can |
| `StringLaws.GivenIsPrescribed` | generator_modules/payload_generator.py:896-1310 | A string that was not drawn was prescribed by a rule |
| `StringLaws.TextBreaksNegated` | generator_modules/payload_generator.py:896-1310 | A returned string breaks the negated maximum length, enum, value, not-value or empty-string rule |
| `StringLaws.CharactersAvoided` | generator_modules/payload_generator.py:1124-1131 | Under a negated character set a returned string uses none of its characters, and breaks the rule exactly when it is not empty |
| `StringLaws.GivesUpIff` | generator_modules/payload_generator.py:1288-1299 | With something to draw from, the generator gives up exactly when every attempt is empty or excluded |
| `StringLaws.NeverGivesUp` | generator_modules/payload_generator.py:1288-1299 | Without excluded strings, and with something to draw from, it never gives up |
| `StringLaws.OverLongIsDrawn` | generator_modules/payload_generator.py:1288-1299 | Then a negated maximum length always leads to a drawn string |
| `StringLaws.NegatedMaximumYields` | generator_modules/payload_generator.py:917-952 | A negated maximum length always yields a longer string, by at most 101, even against enums and values; it gives up exactly when all its draws are empty or excluded |
| `StringLaws.OverLongIsLonger` | generator_modules/payload_generator.py:917-952 | A negated maximum length leaves only longer strings possible |
| `StringLaws.LengthIsForced` | generator_modules/payload_generator.py:940-952 | Both bounds are then forced to the 101 lengths above the limit, whatever the other rules ask |
| `StringLaws.LengthsAreOrderFree` | generator_modules/payload_generator.py:917-970 | The length bounds do not depend on the order of the rules |
| `StringLaws.MeetsIffBetween` | generator_modules/payload_generator.py:917-970 | With none negated, a length obeys every rule exactly when it lies between the bounds |
| `StringLaws.DrawnMeetsIffSatisfiable` | generator_modules/value_config/generate_string_value_config.py:85-94 | A drawn string obeys the length rules exactly when some string could |
| `StringReach.TrialsReach` | generator_modules/payload_generator.py:1284-1299 | Every string returned is, unless a rule asks for the empty string, one that the configuration before the first attempt reaches |
| `StringReach.ReachesIsTried` | generator_modules/payload_generator.py:325-406 | Every string that is reached is yielded by some attempt |
| `StringReach.ValueDecides` | generator_modules/value_config/generate_string_value_config.py:57-66 | A prescribed value that is neither empty, excluded nor made of forbidden characters, with enums on, is the result of the first attempt, unless the coin leaves the field out |
| `StringReach.ReturnedIff` | generator_modules/payload_generator.py:1261-1299 | For every rule set without negated camel case, the strings returned for some random numbers are exactly those that the merged configuration can return |
| `StringGuards.GuardIff` | generator_modules/payload_generator.py:325-406 | A check of the prescribed value, the filtered enum and the strings of the drawable lengths decides whether all strings that a configuration can return have a property |
| `StringGuards.AlwaysIff` | generator_modules/payload_generator.py:896-1310 | For every rule set without negated camel case and every property, all returned strings have it exactly when that check succeeds for every length that can be chosen |
| `StringCorners.BytesBrokenIff` | generator_modules/payload_generator.py:1261-1299 | A negated byte count is broken in every run exactly when the check succeeds on the merged configuration |
| `StringCorners.BytesBrokenGuard` | generator_modules/payload_generator.py:1261-1282 | Without excluded strings: exactly when the usable value, or else every filtered enum value, avoids the lengths and, where strings are drawn, there is a length to choose or none of the lengths can be drawn |
| `StringCorners.CharsetBrokenIff` | generator_modules/payload_generator.py:1124-1131 | A negated character set is broken in every run exactly when strings are excluded, the draw is not reached, or the minimum is positive: otherwise the empty string is returned |
| `StringCorners.CamelBrokenIff` | generator_modules/payload_generator.py:1133-1141 | Negated camel case is broken in every run exactly when whatever is returned without insertion has a separator |
| `StringCorners.CamelBrokenGuard` | generator_modules/payload_generator.py:1133-1141 | Without excluded strings: exactly when the usable value or the filtered enum values have separators and an emptied enum leaves only separators to draw |
| `StringCorners.ObeyedIff` | generator_modules/payload_generator.py:896-1310 | With none negated, a rule of any kind is obeyed by every returned string exactly when the check succeeds |
| `StringCorners.CamelObeyedIff` | generator_modules/value_config/generate_string_value_config.py:69-83 | Active camel case is obeyed in every run exactly when no string with a separator can be drawn in place of an emptied enum |
| `StringCorners.CamelObeyedGuard` | generator_modules/value_config/generate_string_value_config.py:69-83 | Without excluded strings: exactly when the enum is not emptied, nothing but the empty string fits, or the population has no separators |
| `StringCorners.CharsetObeyedGuard` | generator_modules/payload_generator.py:1119-1123 | Without excluded strings, a character set is obeyed in every run exactly when the value, the enum and the population, as far as each is reached, stay in it |
| `StringCorners.DrawnObeysLastSet` | generator_modules/payload_generator.py:1119-1123 | With none negated, a drawn string always obeys the last active character set |
| `StringExamples.EnumDefeatsBytes` | generator_modules/payload_generator.py:1261-1299 | A negated byte count is not broken when the value of an active enum has the excluded length |
| `StringExamples.MaximumDefeatsBytes` | generator_modules/payload_generator.py:1279-1282 | Nor when a maximum leaves only excluded lengths to choose from |
| `StringExamples.EmptyDefeatsCharset` | generator_modules/payload_generator.py:1124-1131 | A negated character set alone is not broken: the empty string is returned |
| `StringExamples.EnumDefeatsCamel` | generator_modules/payload_generator.py:1133-1141 | Negated camel case is not broken when the value of an active enum has no separator |
| `StringExamples.EnumDefeatsActiveCamel` | generator_modules/value_config/generate_string_value_config.py:69-83 | Active camel case is not obeyed when the only value of an active enum has a separator: a string with a separator can be drawn in its place |
| `StringOrder.AlikeIff` | generator_modules/payload_generator.py:907-1259 | Of the configuration, only the prescribed value and the population depend on the order of the rules, apart from the order of lists |
| `StringOrder.ValueOrderFreeIff` | generator_modules/payload_generator.py:1092-1096 | The prescribed value is the same for every order exactly when all applicable values are the same |
| `StringOrder.PopulationOrderFreeIff` | generator_modules/payload_generator.py:1119-1131 | The population is the same for every order exactly when a character set is negated or all applicable ones are the same |
| `StringOrder.OrderFreeIff` | generator_modules/payload_generator.py:907-1259 | The configuration is the same for every order, up to the order of its lists, exactly when both hold |
| `StringOrder.ReturnedInEveryOrder` | generator_modules/payload_generator.py:896-1310 | Then the same strings can be returned in every order |
| `StringOrder.ExitOrderFreeIff` | generator_modules/payload_generator.py:907-1259 | The early exit is the same for every order exactly when all exits agree |
| `StringMeaning.EarlyIff` | generator_modules/payload_generator.py:907-1259 | The loop is left early exactly by the first rule that decides alone, with the outcome that its kind stands for |
| `StringMeaning.FlagsMean` | generator_modules/payload_generator.py:989-1162 | A configuration requires the field, asks for the empty string, removes the field or is determined exactly when a rule of that kind applies |
| `StringMeaning.EmptyIff` | generator_modules/payload_generator.py:896-1310 | The field is left out exactly by a negated requirement that decides first, or, with none negated and none deciding, in the first attempt that is not rejected, by the coin if nothing demands the field or by an active removal unless the empty string is asked for |
| `StringMeaning.CanBeEmptyIff` | generator_modules/value_config/generate_string_value_config.py:51-52 | Some random numbers leave the field out exactly under the conditions on the rules alone |
| `StringMeaning.RequiredIsThere` | generator_modules/value_config/generate_string_value_config.py:51-52 | A required field that no rule removes is never left out unless a rule is negated |
| `StringMeaning.OtherTypeIff` | generator_modules/payload_generator.py:977-988 | A value of another type comes exactly from a negated type rule that decides first |
| `StringMeaning.EnumMeans` | generator_modules/payload_generator.py:971-976 | The enum holds exactly the values of the active enums |
| `StringMeaning.ExceptMeans` | generator_modules/payload_generator.py:971-1101 | Excluded are exactly the values of negated enums, values and empty strings and of active not-values |
| `StringMeaning.ValueMeans` | generator_modules/payload_generator.py:1092-1096 | The prescribed value is that of the last active value rule |
| `StringMeaning.BannedMeans` | generator_modules/payload_generator.py:1119-1145 | Characters not allowed are exactly those of negated sets and, under active camel case, the separators |
| `StringMeaning.InsertedMeans` | generator_modules/payload_generator.py:1132-1145 | Inserted are exactly the separators, under negated camel case |
| `StringMeaning.MeetsIff` | generator_modules/payload_generator.py:917-965 | With none negated, the bounds are met exactly by the lengths that every length rule, as it is written, admits |
| `StringMeaning.DrawnFits` | generator_modules/payload_generator.py:896-1310 | With none negated, a drawn string fits every length rule if any length does, and no rule rules it out |
| `StringMeaning.TextIsAllowed` | generator_modules/payload_generator.py:1288-1299 | When no rule decides alone, a returned string is ruled out by none, negated or not |
| `StringMeaning.ExclusionsForbidEmpty` | generator_modules/payload_generator.py:1288-1299 | As soon as some rule rules a string out, the empty string is not returned either |
| `StringMeaning.FilteredIff` | generator_modules/value_config/generate_string_value_config.py:69-83 | The enum values that remain are those not excluded, long enough and without forbidden characters |
| `Base64.EncodeLength` | generator_modules/payload_generator.py:422 | The encoding of section 4 of RFC 4648 takes four characters for each started group of three bytes |
| `Base64.DecodeRestores` | generator_modules/payload_generator.py:422 | Decoding the encoding of any bytes gives back the bytes |
| `Base64.QuadIsNumber` | generator_modules/payload_generator.py:422 | Three bytes and the four characters of their group are one 24-bit number |
| `Base64.NewLengthIff` | generator_modules/payload_generator.py:428-430 | A turn of the loop cuts the input to the greatest number of bytes within 99 hundredths of the share that fits |
| `Base64.CutShrinks` | generator_modules/payload_generator.py:428-433 | A turn of the loop shortens the input, and to nothing only when the length is below one group |
| `Base64.Shrink` | generator_modules/payload_generator.py:427-434 | The loop ends for every input and length; the result encodes a prefix, fits a non-negative length, is the whole input if that fits, and is empty exactly when the input is or the length is below four; division by zero is characterised; the prefix is the one that the repeated cuts leave |
| `Base64.RawLengthIsLeast` | generator_modules/payload_generator.py:444-445 | The bytes drawn encode to the least multiple of four not below the minimum |
| `Base64.WithMinLength` | generator_modules/payload_generator.py:442-448 | The result has that length and no padding, and decodes to the bytes drawn |
| `Base64.Finish` | generator_modules/payload_generator.py:415-435 | A minimum overrides the length; otherwise the result fits a non-negative length |
| `Scheduler.MakePropertiesSeed` | generator_modules/payload_generator.py:1591-1671 | One pass with its growing dictionary and key set refines the function on progress; `SchedulerResult.PassIff` says what it writes and postpones |
| `Scheduler.MakeSeed` | generator_modules/payload_generator.py:1673-1686 | Whatever the rules do, at most 22 passes are made, and at most 21 when it succeeds; `SchedulerResult.FinishedHolds` and `SchedulerResult.ResultIff` say what the finished object holds |
| `Scheduler.PassGrows` | generator_modules/payload_generator.py:1591-1671 | With none negated, a pass only adds entries and starts exactly the keys that are not skipped |
| `Scheduler.NothingWaits` | generator_modules/payload_generator.py:705-761 | Once every startable key is started and every need can be served, nothing waits |
| `Scheduler.TwoPasses` | generator_modules/payload_generator.py:1673-1686 | With none negated and all needs servable, two passes are enough |
| `Scheduler.SecondPassKeepsFirst` | generator_modules/payload_generator.py:1673-1686 | What the first pass generated is in the final result unchanged |
| `Scheduler.NeverEnds` | generator_modules/payload_generator.py:1673-1686 | With a need that cannot be served, some behaviour of the generator makes all 22 passes and fails |
| `Scheduler.TwoPassesIff` | generator_modules/payload_generator.py:1195-1246 | Two passes are enough for every behaviour exactly when every need names a sibling that is not skipped or, for conditions, a field absent from the object |
| `SchedulerResult.VisitIff` | generator_modules/payload_generator.py:1598-1665 | What one visit writes, postpones, starts and raises, in terms of what the generator answered and which of its needs were missing |
| `SchedulerResult.WrittenIff` | generator_modules/payload_generator.py:1629-1662 | After a list of writes a key holds what was last put, or what it held before if nothing touched it |
| `SchedulerResult.PassAbortsIff` | generator_modules/payload_generator.py:1663-1665 | A pass is aborted exactly by a visit in which the generator finds no value |
| `SchedulerResult.PassIff` | generator_modules/payload_generator.py:1591-1671 | A pass writes exactly what its visits write, in order, and keeps waiting exactly what they postpone |
| `SchedulerResult.FinishedIff` | generator_modules/payload_generator.py:1673-1686 | make_seed finishes with the first pass that leaves nothing waiting, exactly when that is among the first 21 and no pass is aborted |
| `SchedulerResult.FinishedHolds` | generator_modules/payload_generator.py:1673-1686 | With or without a negated rule, the finished object holds under each key exactly what was last put there |
| `SchedulerResult.ResultIff` | generator_modules/payload_generator.py:1591-1686 | With none negated, the finished object holds a value under a key exactly when some pass generated that value for a property with that key |
| `SchedulerResult.IndependentIsStored` | generator_modules/payload_generator.py:1619-1624 | A property that is not skipped, needs nothing and gets a value at once is in the object |
| `SchedulerResult.MissingIsEmpty` | generator_modules/payload_generator.py:1619-1626 | With none negated, a property missing from the object is skipped or came out empty in the last pass |
| `Worklist.Analysis.Enqueue` | paper_scripts/rule_collect_analysis.py:33-36 | A type is queued exactly when it was not processed, and is processed afterwards |
| `Worklist.Analysis.Scan` | paper_scripts/rule_collect_analysis.py:226-235 | Scanning fields processes exactly their data types, queues nothing twice, and counts the primitive ones in every category |
| `Worklist.Analysis.ScanType` | paper_scripts/rule_collect_analysis.py:247-258 | The same for every parsed type with a name |
| `Worklist.Analysis.Visit` | paper_scripts/rule_collect_analysis.py:237-258 | One turn dequeues the oldest type and keeps the closure invariant |
| `Worklist.Analysis.Analyse` | paper_scripts/rule_collect_analysis.py:212-258 | The loop ends, dequeues exactly the types reachable from the message, each once, and all its counts, per category too, are the sums over them |
| `Worklist.ReachableStep` | paper_scripts/rule_collect_analysis.py:247-250 | What a reachable type uses is reachable |
| `Worklist.ClosedHoldsPath` | paper_scripts/rule_collect_analysis.py:237-258 | A set closed under use holds everything reachable |
| `Worklist.StepKeeps` | paper_scripts/rule_collect_analysis.py:237-258 | Visiting one type keeps "processed is reachable, and what visited types use is processed" |
| `Worklist.Complete` | paper_scripts/rule_collect_analysis.py:237-258 | With an empty queue the visited types are exactly the reachable ones |
| `Worklist.SumIsOrderFree` | paper_scripts/rule_collect_analysis.py:237-258 | A sum over the visited types depends only on which they are |
| `Worklist.TotalIsOrderFree` | paper_scripts/rule_collect_analysis.py:215-258 | So the counts of a message are the same for every order of visits |
| `WorklistLaws.DataTypeNameIff` | paper_scripts/rule_collect_analysis.py:227 | A name denotes a data type exactly when it ends in "Type" with something other than "Enum" before it |
| `WorklistLaws.FieldsOfIff` | paper_scripts/rule_collect_analysis.py:247-249 | The fields of a name are those of every parsed data type with that name |
| `WorklistLaws.SumIsComponentwise` | paper_scripts/rule_collect_analysis.py:215-258 | Each of the ten numbers of a sum is the sum of that number |
| `Validator.FindNegation` | validator.py:299-312 | The negated rule is the last inactive one; the search gives up exactly when an inactive rule has no known category |
| `Validator.BaseOf` | validator.py:315-322 | Which kinds of cause the negated rule has |
| `Validator.NamedIsCounted` | validator.py:123-131 | An execution can be counted exactly when its project has a name and its response can be read |
| `Validator.CountTrigger` | validator.py:324-383 | The branches of the second pass raise exactly one set of counters, each once, and extend their sets |
| `Validator.CountCheck` | validator.py:384-480 | The same of the third pass; `ValidatorMeaning.CountsIff` says which those are, on rules and response |
| `Validator.TriggeringHitsAreHits` | validator.py:324-383 | Those are exactly the counters of the pass that are meant to count the execution |
| `Validator.CheckingHitsAreHits` | validator.py:384-480 | The same of the third pass |
| `Validator.MarksKeep` | validator.py:283-480 | Raising exactly the counters that a run is to raise keeps every counter and set of the pass equal to what it is meant to hold |
| `Validator.Validator.PassSilence` | validator.py:284-286 | The first pass counts the executions without a response |
| `Validator.Validator.List` | validator.py:396-458 | The run enters the list and, if its key is new, the map that it belongs to, and no other |
| `Validator.Validator.ListTrigger` | validator.py:329-376 | Timeouts and other errors are listed in order |
| `Validator.FirstEntriesHold` | validator.py:413-458 | The summary map holds exactly the entry of the first run per key |
| `Validator.Validator.Analysis` | validator.py:281-480 | The analysis finishes exactly when every category is known and every execution can be counted; then every counter of every project is the number of runs it is meant to count, every set holds their negated rules, and lists and maps are exact; `ValidatorMeaning.AnalyseAll` says the same on rules and responses |
| `ValidatorMeaning.NegationIff` | validator.py:299-312 | A message has a negated rule exactly when some rule is inactive, and it is the last such rule |
| `ValidatorMeaning.CorrectIff` | validator.py:40-54 | A response is the expected one exactly when it has type 3 and every rule is active, type 4 and some rule is inactive, or type 4 and the code NotSupported or NotImplemented |
| `ValidatorMeaning.CountsIff` | validator.py:283-480 | What each of the 23 counters says about the rules of a message and one of its executions |
| `ValidatorMeaning.ValidAnswerIsCounted` | validator.py:384-480 | A message without a negated rule that is answered with type 3 is a true match and no mismatch |
| `ValidatorMeaning.RunsAre` | validator.py:281-324 | The runs are the executions of every message, message by message |
| `ValidatorMeaning.CountIsNumber` | validator.py:283-480 | A count is the number of runs of the project that the counter speaks of |
| `ValidatorMeaning.KeysAre` | validator.py:335-469 | A set holds exactly the name and constraint of the last inactive rule of those runs |
| `ValidatorMeaning.AnalyseAll` | validator.py:281-480 | Both of the book that the analysis leaves, for every project and counter |
| `ValidatorMeaning.RowTells` | validator.py:400-443 | What a row says about the rules and the execution of its run |
| `ValidatorMeaning.EntryTells` | validator.py:413-458 | An entry says the same, with the category of the negated rule |
| `ValidatorMeaning.TriggerRowTells` | validator.py:335-376 | A line of a list of timeouts or errors says the same, with the error |
| `ValidatorMeaning.CodesTellCategory` | validator.py:49-54 | The expected codes tell the category |
| `ValidatorMeaning.SelectedIff` | validator.py:399-458 | The match list is made from the runs with the expected response, the mismatch list from the others |
| `Report.WrongSplits` | validator.py:467-480 | Mismatches, with uncaused ones counted twice, are true mismatches plus the four categories |
| `Report.SeedSplits` | validator.py:325-470 | Valid seeds plus uncaused negations are true matches plus true mismatches |
| `Report.CausesSplit` | validator.py:461-470 | Mismatches, with those of both causes counted twice, are true, description-based and structural ones |
| `Report.ReportAddsUpIff` | validator.py:315-480 | The two sums of the report agree exactly when no (mismatching) negated rule of the project lacks a cause |
| `Report.CountersAddUpIff` | validator.py:281-480 | The same equations between the program's own counters as the analysis leaves them |
| `Report.TotalsSplit` | validator.py:384-393 | Every run of a project is a valid seed or in one category |
| `Report.TimeoutsSplit` | validator.py:329-334 | Every timeout is a valid or an invalid one |
| `Report.UniqueAtMost` | validator.py:335-469 | A set of negated rules is never larger than its counter, and empty exactly when the counter is zero |
| `Report.RowsConserve` | validator.py:399-458 | Every run is in exactly one row list |
| `Report.RowPerRun` | validator.py:400-443 | Each row is that of the run at its place |
| `Report.RowsAreCounted` | validator.py:430-470 | The mismatch counter of a project is the number of its mismatches in the list, and its matches are the rest |
| `Report.FirstIsUnique` | validator.py:413-458 | A list determines its summary map |

## Left out

- Websockets, HTTP, databases, message queues, PDF and language-model calls: I/O, replaced by parameters or state.
- Threads: every handler call is one atomic step, and races on the unsynchronised dictionaries are not modelled.
- The connector status table, the message log and failures of the database in the ledger; case folding is an arbitrary
  function and database string equality is exact.
- Certificates, signatures, language tags and the other data tables of the generator.
- UTF-8 decoding between reassembly and splitting.
- The ocpp-go dispatcher, its endpoint parsing and the charge point's pair of channels, where order does not follow.
- Evaluation of individual conditions: whether a rule's conditions are hit is an input of the generators.
- Consistency of siblings after a value was forced for a negated rule: the code does not restore it.
- Generation of array items and of nested objects; only the length of an array is modelled.
- Language-model collectors, prompts, graph scripts, enums and plain records: easy members.
- Hoisting.Processor.ProcessEnumNames: nodes are returned instead of written in place, so sharing between nodes is not captured.
- Hoisting.Processor.ProcessEntry: the same.
- Classifier.ClassifyExplained: branches that an earlier branch makes unreachable are omitted; a missing constraint is not modelled.
- RuleSet.Rules.Add: rule objects shared between sets are not modelled.
- StringRules.GenerateString: formats, base64, prefixes, signatures, measurands, value lists from the appendices, the shortcut
  for triggerReason and errors in parsing a rule's values are not modelled; bound objects are held by value.
- StringReach.ReturnedIff: stated where camel case is not negated; then strings with inserted separators come on top, of
  which only what `StringCorners.CamelBrokenIff` needs is stated.
- StringOrder.ReturnedInEveryOrder: stated where no rule ends the loop and camel case is not negated.
- IntegerRules.GenerateInteger: the unbounded redraw loop is given a finite supply of draws and is undecided when they run
  out; errors in parsing a rule's values are not modelled; a bit count is written one less than in the source.
- Base64.Shrink: the ratio is a real number, not a rounded floating-point one.
- Scheduler.MakeSeed: an initial dictionary, which no caller passes, the exception for a negated rule on a skipped
  property, and exceptions from nested objects in negated mode are not modelled.
- Worklist.Analysis.Analyse: what the database counts per object and per primitive type is a parameter; a rule of unknown
  category, which raises, is not modelled.
- Validator.Validator.Analysis: what an aborted analysis leaves behind is not stated; conditions and constraints are the
  strings that the program makes of them.
