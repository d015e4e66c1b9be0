# Calendar: verified models of its trickiest code

A Dafny 4.11 project about five pieces of a calendar application: the script that formats staged files
through a language server, the generated entity layer of the store (mutations, hooks, bulk creation, row
reading, eager loading), and the script that keeps the release list of the AppStream metadata. Each module
follows the code of one piece, branch by branch, and proves what that code is for. `dafny verify
dfyconfig.toml` checks everything.

| module | what it models | main results |
|---|---|---|
| `Substitution` | replacing spans of a text, last span first | equals simultaneous substitution if and only if, start by start, a closed form of what the spans sharing a start leave is their texts in list order |
| `TextEdits` | `apply_edits` with its line table and `offset` closure | lines end at ten characters and "\r\n", which fixes the list of lines; simultaneous substitution on the original text for distinct starts; `offset` is unaffected by the rewriting; result length; order of the list irrelevant |
| `ProtocolEdits` | `apply_edits` against the Language Server Protocol 3.17, with the protocol's own lines | exactly which positions `offset` finds; for all new texts section "TextEdit[]" is met if and only if no two edits share a start; for all edits with distinct starts if and only if no line end follows a character that only Python ends lines at, so always for texts of tabs, line ends and printable ASCII |
| `Framing` | header and content part of a message, written and read | reading what was written gives the bodies back, whatever they hold; any header fields are read as what they say together |
| `LspClient` | the client: short reads, requests, replies | a request ends with the error or the result of the first message that answers it, has sent one null reply per server request before it, and ids are 1, 2, 3, ... for the whole life of a client |
| `CalendarEdges` | the edge part of a calendar mutation and its update | the emitted "clear, then add" equals replaying the calls since the last Reset; exactly when a Clear acts where it was called |
| `FieldRecords` | list-append and number-add fields, the memoised old row | append record = concatenation, number record = wrapped sum since the last other call; one fetch at most, never after done; exactly when a new row is handed out as old |
| `Hooks` | `withHooks` | nested closures run in three phases: before-parts in order, the execution once on the mutation handed down, after-parts in reverse |
| `BulkCreate` | bulk creation of events | the chain in closed form; one batch, exactly if every event is acceptable and all hooks call on; exactly which hooks keep it all or nothing, and which keep a reported success a stored one |
| `EventRows` | columns, scan, assign, create | every column list is accepted and read exactly, every selection of fields gives those fields; a written row reads back as the created node |
| `EagerLoad` | `loadEvents`, `sqlAll`, `loadCalendar` | grouping through a map equals the nested-loop join if and only if ids are distinct; foreign-key errors cannot happen on a well-stored table; both directions agree |
| `Releases` | `cmd_metainfo` | a written entry is found by the next run if and only if it was inserted at the beginning of a line or in its leading spaces; order, which is that of the version numbers, and uniqueness are kept; a second run changes nothing |
| `Options`, `Selection` | optional values; places of a list | |

Imperative code is modelled imperatively: mutations, clients, records, nodes and databases are classes whose
methods are proved against functions of the inputs or the old state, and the theorems are about those
functions. The hooks of `Hooks` are closures, as in the source; those of `BulkCreate` are records: a hook sets
fields of the mutation and calls on once, or answers itself, and it may change the verdict that comes back. `Releases` is pure, as its source is.

## Where the code and its documentation disagree

- Section "TextEdit[]" of the Language Server Protocol lets edits share a start and orders their texts as
  listed. `apply_edits` sorts with `reverse=True`, which keeps listed order among equal starts, and applies
  end-first. Two inserts at one place come out in reverse (`ProtocolEdits.TwoInsertsReversed`); of an insert and
  a replacement behind it in the list the inserted text is lost and replaced text survives
  (`ProtocolEdits.InsertBeforeReplacement`). `Substitution.TiesMeetStandard` has the closed form, and
  `ProtocolEdits.MeetsStandardForAllTexts` says that distinct starts are exactly what is needed.
- Section "Position" takes a character past the length of its line for that length, line end excluded. `offset`
  goes on into the line end and the next line: `ProtocolEdits.OffsetMeetsStandard`, `ProtocolEdits.PastTheLine`.
- The protocol ends lines at "\n", "\r\n" and "\r" only, str.splitlines at eight more characters. A line end
  behind one of those is all that makes a difference: `ProtocolEdits.ProperOffsets`,
  `ProtocolEdits.MeetsStandardForAllEdits`, `ProtocolEdits.SeparatorEndsALine`.
- `offset` clamps at the length of the current text, not of the original. `TextEdits.OffsetsUnchanged` shows
  that this never matters for edits in range; an end past the last line is allowed for the edit that is
  applied first (`TextEdits.WellFormed`).
- Section 5 of JSON-RPC 2.0 identifies a response by its id. Python counts `true` as 1 and `false` as 0, so a
  message with a boolean id can answer the first request: `LspClient.OnlyOwnId`, `LspClient.TrueAnswersOne`.
- A Clear on an edge acts as if it were called first. `CalendarEdges.ClearInOrder` says when that shows, and
  `CalendarEdges.ClearForgotten` is a case.
- A save writes the row and sets the done flag in two steps. `FieldRecords.OldRowExposed` says exactly when a
  read in between hands out the new row as the old one; `FieldRecords.NewRowForOld` is a case.
- Bulk creation is all or nothing for some hooks only. A hook that turns the success of the batch into a failure
  gets an error reported for mutations that are stored and done (`BulkCreate.SuccessTurned`); a hook that hides
  a failure, or answers with a success itself, gets success reported, and a mutation marked done, though nothing
  is written (`BulkCreate.FailureHidden`, `BulkCreate.SuccessAnswered`). `BulkCreate.AllOrNothingExactly` and `BulkCreate.SuccessMeansStored` say for
  which hooks none of this can happen.
- The map of `loadEvents` keeps only the last of several nodes with one id: `EagerLoad.JoinsExactly`,
  `EagerLoad.DuplicateMisses`.
- An entry inserted behind other text on a line is not found again: `Releases.ClosedOnOneLine`.

## Model

| member | source | states |
|---|---|---|
| Substitution.SortedIsBuckets | scripts/format-staged.py:186-190 | a stable sort by descending start is the concatenation of the groups of equal start, last start first, each in listed order |
| Substitution.RunSorted | scripts/format-staged.py:191-195 | rewriting end-first leaves the original text with every group's stretch replaced by what its own spans make of it, and nothing else changed |
| Substitution.RunMeetsStandard | scripts/format-staged.py:186-195 | for legal spans, end-first rewriting is simultaneous substitution if and only if at every start both leave the same text |
| Substitution.RewrittenCloses | scripts/format-staged.py:186-195 | the spans that share a start leave, in closed form: the last one's text, and behind it the other texts in reverse and the stretch it replaces, less as many characters as that stretch is long |
| Substitution.TiesMeetStandard | scripts/format-staged.py:186-195 | simultaneous substitution if and only if for every start that closed form is the texts in list order |
| Substitution.DistinctMeetsStandard | scripts/format-staged.py:186-195 | with distinct starts it is simultaneous substitution on the original text |
| Substitution.TieFails | scripts/format-staged.py:186-195 | for any two spans with one start there are new texts for which it is not |
| Substitution.OrderIrrelevant | scripts/format-staged.py:170-195 | with distinct starts the substitution does not depend on the order of the list |
| Substitution.OffsetsStable | scripts/format-staged.py:191-194 | before each step everything up to the span's start is original text, and the current text is long enough for its end |
| Substitution.RunLength | scripts/format-staged.py:191-195 | after any number of steps the length is the original one plus new texts minus replaced spans |
| TextEdits.SplitLinesPartition | scripts/format-staged.py:175 | the lines are non-empty and together they are the text |
| TextEdits.SplitLinesExactly | scripts/format-staged.py:175 | a list of lines is the one str.splitlines gives if and only if it makes up the text, every line but the last ends with one of ten given characters, no line holds one elsewhere but the "\r" of a closing "\r\n", and no "\r\n" is cut in two |
| TextEdits.BuildLineTable | scripts/format-staged.py:175-178 | the loop builds the table of prefix sums |
| TextEdits.TableIncreases | scripts/format-staged.py:175-178 | the table strictly increases from 0 to the length of the text |
| TextEdits.OffsetInRange | scripts/format-staged.py:180-184 | for positions in range `offset` never clamps at the original length |
| TextEdits.OffsetPoints | scripts/format-staged.py:175-184 | at the offset of a position strictly inside its line the text holds that line's character |
| TextEdits.OffsetMonotone | scripts/format-staged.py:180-190 | lexicographic order of positions carries over to offsets |
| TextEdits.OffsetUnique | scripts/format-staged.py:180-184 | every offset below the length of the text comes from exactly one position strictly inside a line |
| ProtocolEdits.OffsetMeetsStandard | scripts/format-staged.py:180-184 | on a line in front of which no line end of the protocol follows one that only str.splitlines knows, `offset` gives what section "Position" asks if and only if the character is not past the line's content, line end excluded, or no line end follows that content |
| ProtocolEdits.ProperOffsets | scripts/format-staged.py:175-184 | `offset` finds every proper position of a text if and only if no line end of the protocol follows a character that only str.splitlines ends lines at |
| ProtocolEdits.ProtocolLinesExactly | scripts/format-staged.py:175 | the protocol's lines, against which the code is held, are the one list of lines that makes up the text and is cut behind "\n", "\r\n" and "\r" and nowhere else |
| ProtocolEdits.ContentExactly | scripts/format-staged.py:180-184 | the length to which the protocol, against which `offset` is held, limits a character is that of the line up to its one line end, if any |
| ProtocolEdits.PastTheLine | scripts/format-staged.py:180-184 | (0, 5) in "a\n" is 2 instead of 1, and (0, 3) in "ab\ncd" is 3 instead of 2 |
| ProtocolEdits.SeparatorEndsALine | scripts/format-staged.py:175-184 | (1, 0) in "a", a line separator and "b\nc" is 2 instead of 4 |
| TextEdits.OffsetsUnchanged | scripts/format-staged.py:180-194 | at every iteration the positions at hand give the same offsets in the rewritten text as in the original, and the text before them is original |
| TextEdits.ApplyEdits | scripts/format-staged.py:170-195 | the loop over sorted edits with the clamp at the current length computes `Apply` |
| TextEdits.ApplyRunsSpans | scripts/format-staged.py:170-195 | applying edits is rewriting the spans they name in the original text |
| TextEdits.ApplyMeetsStandard | scripts/format-staged.py:170-195 | for well-formed edits with distinct starts the result is simultaneous substitution on the original text |
| TextEdits.ApplyLength | scripts/format-staged.py:186-195 | the length of the result is that of the text minus replaced spans plus new texts |
| TextEdits.ApplyOrderIrrelevant | scripts/format-staged.py:186-195 | with distinct starts permuting the edits does not change the result |
| ProtocolEdits.MeetsStandardForAllTexts | scripts/format-staged.py:186-195 | where lines are counted alike, proper edits meet section "TextEdit[]" for all choices of new texts if and only if no two share a start position |
| ProtocolEdits.MeetsStandardForAllEdits | scripts/format-staged.py:170-195 | all proper edits of a text with distinct starts meet section "TextEdit[]" if and only if no "\n" or "\r" stands behind one of eight given characters, those at which only str.splitlines ends lines |
| ProtocolEdits.PlainTextsMeet | scripts/format-staged.py:170-195 | for every text of tabs, "\n", "\r" and printable ASCII, proper edits with distinct starts meet section "TextEdit[]" |
| ProtocolEdits.SpaceEndsNoLine | scripts/format-staged.py:170-195 | replacing (1, 0) to (1, 1) in "a b\nc" by "X" gives "a b\nX" |
| ProtocolEdits.WholeDocument | scripts/format-staged.py:180-195 | an edit from the start to the end of the document, or to anywhere behind it, leaves its new text |
| ProtocolEdits.TwoInsertsReversed | scripts/format-staged.py:186-195 | inserting "a" and then "b" into the empty text gives "ba" |
| ProtocolEdits.InsertBeforeReplacement | scripts/format-staged.py:186-195 | inserting "x" before and replacing "a" by "y" gives "ya" instead of "xy" |
| Framing.ReadWrittenHeader | scripts/format-staged.py:117-131 | the header written for a body is read as its one field and consumed exactly |
| Framing.ReadWrittenFields | scripts/format-staged.py:122-131 | a header section of any fields in any order is read as what they say together: names regardless of case, the last of equal ones counting |
| Framing.ReadAnyFrame | scripts/format-staged.py:121-139 | a body comes through whatever fields surround the one that gives its length |
| Framing.ReadTypedFrame | scripts/format-staged.py:121-139 | the two fields of the protocol, Content-Length and Content-Type, may come in either order |
| Framing.ReadBareLine | scripts/format-staged.py:128-131 | a line without a colon is a field with an empty value |
| Framing.ReadNotAscii | scripts/format-staged.py:122-128 | whatever fields come first, a line with a byte above 127 ends the read in the decoding error, behind that line |
| Framing.ReadClosed | scripts/format-staged.py:124-126 | a stream that ends among the fields ends the read in the error for a closed server |
| Framing.ReadNoLength | scripts/format-staged.py:132 | a section without a length ends it in the missing key |
| Framing.ReadCutShort | scripts/format-staged.py:133-138 | a length beyond what is left ends it in the error for a server closed in mid-message |
| Framing.LowerLetters | scripts/format-staged.py:131 | the 26 capitals become their small letters and everything else stays |
| Framing.ReadWrittenFrame | scripts/format-staged.py:115-139 | a written frame reads back as its body and leaves what follows, whatever the body holds |
| Framing.ReadWrittenFrames | scripts/format-staged.py:115-139 | a concatenation of written frames reads back as the list of their bodies |
| Framing.ReadShrinks | scripts/format-staged.py:121-139 | a read of a non-empty stream consumes something, also when it fails |
| Framing.ParseIntDecimal | scripts/format-staged.py:117-132 | int() of the printed length is the length |
| Framing.ParseIntExactly | scripts/format-staged.py:132 | int() accepts digits with single underscores between them, behind at most one sign, and nothing else; the underscores do not count |
| LspClient.Client.ReadFields | scripts/format-staged.py:122-131 | the header loop computes `ReadHeader` of the stream and consumes exactly what it read |
| LspClient.Client.ReadBody | scripts/format-staged.py:133-138 | however the pipe cuts its reads, the body is exactly the announced bytes, or the stream ended |
| LspClient.Client.Read | scripts/format-staged.py:121-139 | a read is the frame at the head of the stream, or the exception the header deserves |
| LspClient.Client.Request | scripts/format-staged.py:141-153 | the outcome, the messages sent (request, then replies in order) and what is left unread are those of `Await` under a fresh id, which `AwaitMessages` and `AwaitBroken` spell out |
| LspClient.Client.WaitFor | scripts/format-staged.py:145-153 | the loop computes `Await` |
| LspClient.Client.Notify | scripts/format-staged.py:155-156 | a notification is sent and takes no id |
| LspClient.Client.constructor | scripts/format-staged.py:106-113 | a new client has sent nothing and numbers from 1 |
| LspClient.ItemsWritten | scripts/format-staged.py:115-139 | the messages a peer writes are those the client reads |
| LspClient.AwaitMessages | scripts/format-staged.py:145-153 | against any list of messages the first one with the request's id and a result or an error decides: its error is raised, or else its result returned; every server request before it got one null reply in order, and nothing behind it was read; without such a message the outcome is the end of the stream |
| LspClient.AwaitBroken | scripts/format-staged.py:121-150 | a frame that cannot be read, is no JSON or is no object ends the request in that error, with the replies owed until then sent |
| LspClient.RepliesOwed | scripts/format-staged.py:151-153 | the messages with an id and a method, and no others, are replied to, in order, each with its own id and a null result |
| LspClient.SentSeen | scripts/format-staged.py:144-156 | a server reads a request as version, id, method and params, a notification as version, method and params, a reply as version, id and null result, and no other fields |
| LspClient.MakeCalls | scripts/format-staged.py:141-153 | calls made on a client one after the other have the outcomes of `Run`, send what it sends and leave unread what it leaves |
| LspClient.RunScript | scripts/format-staged.py:141-153 | so over a client's whole life every call raises the error of its own answer or returns its result, and what the client wrote is the alternation of requests, with increasing ids, and owed replies |
| LspClient.OnlyOwnId | scripts/format-staged.py:147 | a message answers if and only if it has a result or an error and carries the id as a number, or as a boolean for ids 0 and 1; so only numbers answer if and only if the id is larger than 1 |
| CalendarEdges.EdgeRecord.AddIDs | core/ent/mutation.go:1778-1786 | the record stands for the calls so far and this Add |
| CalendarEdges.EdgeRecord.RemoveIDs | core/ent/mutation.go:1798-1807 | the same for Remove, which takes ids out of the added set and into the removed set |
| CalendarEdges.EdgeRecord.ClearAll | core/ent/mutation.go:1788-1791 | the same for Clear |
| CalendarEdges.EdgeRecord.ResetAll | core/ent/mutation.go:1825-1830 | the same for Reset |
| CalendarEdges.RecordReplays | core/ent/mutation.go:1778-1830 | for every history of calls and every stored set, the net effect of the record is the replay of the calls since the last Reset, over nothing if a Clear is among them |
| CalendarEdges.RecordPerforms | core/ent/mutation.go:1778-1807 | removing the removed ids once and then adding the added ones is performing all calls in order |
| CalendarEdges.RecordSinceReset | core/ent/mutation.go:1825-1830 | calls before the last Reset leave no trace |
| CalendarEdges.ClearInOrder | core/ent/mutation.go:1788-1830 | for every history: the calls since the last Reset act in their order if and only if there is no Clear among them, or every id pending at the last one is added or removed again afterwards |
| CalendarEdges.ClearForgotten | core/ent/mutation.go:1788-1791 | an id added before a Clear stays |
| CalendarEdges.EdgeRecord.Emit | core/ent/calendar_update.go:503-547 | the edge's part of the specification: all edges or the removed ids to clear, the added ids to add |
| CalendarEdges.EmittedNet | core/ent/calendar_update.go:503-592 | carrying out a specification extended by one edge does to that edge the record's net effect, and to the others what it did before |
| CalendarEdges.EmittedAccountNet | core/ent/calendar_update.go:474-502 | for every history of the unique edge: the last id set since the last reset, or none if cleared, or what was stored |
| CalendarEdges.AccountHistory | core/ent/mutation.go:1739-1776 | the pending account is the one set last, if no reset came behind; the edge is cleared if some clearing has no reset behind it |
| CalendarEdges.CalendarMutation.Check | core/ent/calendar_update.go:373-389 | a field the validators refuse, or else an account that was set and cleared, in whatever order, without a reset behind either |
| CalendarEdges.CalendarMutation.Specify | core/ent/calendar_update.go:474-592 | carrying out the specification of a mutation leaves every edge as the replay of its calls over what was stored |
| CalendarEdges.CalendarMutation.SqlSave | core/ent/calendar_update.go:373-604 | a save fails with the refused field, with the account set and cleared, or with the store's refusal, a missing row as not found, and changes nothing; or every edge is the replay of its calls over what was stored and the mutation is done |
| CalendarEdges.CalendarMutation.SqlSaveOne | core/ent/calendar_update.go:988-1215 | the same for one calendar, with the errors for a missing id and for a selected field that is no column behind the checks |
| FieldRecords.ListField.SetValue | core/ent/mutation.go:3362-3366 | value, appends and clearing are those of the calls so far and this Set: the value is set, pending appends are forgotten |
| FieldRecords.ListField.AppendValue | core/ent/mutation.go:3394-3397 | the append record is the in-order concatenation of the appends since the last other call |
| FieldRecords.ListField.ClearValue | core/ent/mutation.go:3407-3412 | Clear forgets value and appends |
| FieldRecords.ListField.ResetValue | core/ent/mutation.go:3420-3425 | Reset forgets value, appends and the clearing |
| FieldRecords.ConcatLast | core/ent/mutation.go:3394-3397 | appending last is concatenating behind all earlier appends |
| FieldRecords.NumberField.SetNumber | core/ent/mutation.go:5269-5273 | value and addition are those of the calls so far and this Set: the value is set, pending additions are forgotten |
| FieldRecords.NumberField.AddNumber | core/ent/mutation.go:5301-5308 | the number record is the 64-bit sum of the additions since the last other call |
| FieldRecords.NumberField.ResetField | core/ent/mutation.go:5319-5323 | Reset forgets value and additions |
| FieldRecords.WrapOnce | core/ent/mutation.go:5301-5308 | wrapping at every addition is wrapping the whole sum once |
| FieldRecords.OldRow.ReadOld | core/ent/mutation.go:2473-2493 | every read is answered like the first; the row is fetched once at most and never after done |
| FieldRecords.OldRow.WriteRow | core/ent/event_update.go:1514-1521 | the save writes the row without touching the memo |
| FieldRecords.OldRow.SetDone | core/ent/event_update.go:1522 | the flag is set behind it |
| FieldRecords.OldRowIsOld | core/ent/mutation.go:2473-2493 | if the save is one step, no read of any run sees a row the mutation wrote |
| FieldRecords.OldRowExposed | core/ent/event_update.go:1514-1522 | a save in two steps hands out the new row if and only if the first read falls between them |
| FieldRecords.NewRowForOld | core/ent/event_update.go:1514-1522 | a write, a read and the flag: the read gets the new row |
| Hooks.WithHooks | core/ent/ent.go:504-535 | with a nil hook nothing runs; otherwise the result is that of the nested closures, which is the execution itself without hooks |
| Hooks.NestRunsPhases | core/ent/ent.go:511-534 | for any hooks with a before and an after part: before-parts in index order, the innermost mutator once on the mutation handed down if none stopped, after-parts of the hooks passed in reverse order |
| Hooks.ChainExecutes | core/ent/ent.go:511-534 | the execution runs once, on the builder holding the mutation that the hooks handed down; a mutation of another type, or a value that is no node at the end, is the error for it |
| Hooks.PassingHooks | core/ent/ent.go:508-530 | hooks whose mutators do what the next one does give the result of the path without hooks |
| BulkCreate.EventCreate.Defaults | core/ent/event_create.go:369-387 | set fields stay, missing ones of the four get their defaults, the times being the clock's readings |
| BulkCreate.CheckAccepts | core/ent/event_create.go:389-434 | the checks pass if and only if uid, summary, status, start, end, all_day, created, updated and calendar are set, the uid is not empty, the status is one of three, and an id, if set, has 1 to 64 characters |
| BulkCreate.CheckRefuses | core/ent/event_create.go:389-434 | otherwise the error is that of the first of twelve demands, in the order listed, that is not met |
| BulkCreate.WrittenOnlyIfValid | core/ent/event_create.go:1646-1700 | whatever the hooks do, the batch is written only if every check passed |
| BulkCreate.AllOrNothing | core/ent/event_create.go:1646-1700 | with hooks that pass on: the error is that of the lowest failing builder, or that of the batch; the batch is written if and only if all checks pass; all mutations are done on success and none otherwise |
| BulkCreate.WrittenExactly | core/ent/event_create.go:1646-1700 | the batch is written if and only if all checks pass and all hooks call on |
| BulkCreate.ChainCloses | core/ent/event_create.go:1655-1692 | whatever hooks answer or make of a verdict: the verdict is the end of the way in, carried out through the hooks of the builders that entered; a mutation is done if and only if its builder entered and a success came out of those behind it |
| BulkCreate.DoneExactly | core/ent/event_create.go:1681-1690 | a mutation is done if and only if its builder entered and the chain behind it reports success |
| BulkCreate.DoneIsSuffix | core/ent/event_create.go:1681-1690 | done mutations are followed by done ones only, if and only if no later builder that the chain reaches has hooks that report a success of their own, by answering with it or by making it of a failure |
| BulkCreate.SuccessMeansStored | core/ent/event_create.go:1646-1700 | success is reported only for a batch written with success, whatever checks and database say, if and only if a way in that ends early, by a hook that answers or by a failed check, comes out of the hooks in front as a failure |
| BulkCreate.AllOrNothingExactly | core/ent/event_create.go:1646-1700 | all or nothing, whatever checks and database say, if and only if a way in that ends early is a failure for every builder in front and the hooks let a success of the batch through |
| BulkCreate.SuccessTurned | core/ent/event_create.go:1681-1698 | two builders and a hook that fails a success: an error, though the batch is written and both mutations are done |
| BulkCreate.FailureHidden | core/ent/event_create.go:1663-1698 | two builders and a hook that hides a failed check: success and a done mutation, though nothing is written |
| BulkCreate.SuccessAnswered | core/ent/event_create.go:1663-1698 | two builders and a hook that answers with a success in place of the second: success and a done mutation, though nothing is written |
| BulkCreate.EventCreate.WayIn | core/ent/event_create.go:1688-1690 | the hooks in list order set fields and call on, up to the first one that answers |
| BulkCreate.EventCreateBulk.Mutate | core/ent/event_create.go:1655-1692 | builder i's mutator on the shared slices has the verdict, the batches and the done flags of the chain from i on |
| BulkCreate.EventCreateBulk.Build | core/ent/event_create.go:1656-1668 | check the fields that the hooks left first, then the mutation goes into the builder, and specification and node into their slots |
| BulkCreate.EventCreateBulk.WrittenIfAccepted | core/ent/event_create.go:1646-1700 | a batch is written if and only if there are builders, all their hooks call on, and every event as these leave it is acceptable |
| BulkCreate.EventCreateBulk.Save | core/ent/event_create.go:1646-1700 | on objects: defaults for all, then the chain; one batch at most, of acceptable events only, holding what the hooks left of all builders' fields, in order; nodes in order on success |
| EventRows.ScanValues | core/ent/event.go:101-121 | an empty holder per column: bytes for the five JSON columns, time for the five times, flag for all_day, any value for names that are no column, text for the rest |
| EventRows.Event.AssignValues | core/ent/event.go:123-316 | the loop assigns the holders column by column up to the first error |
| EventRows.ReadHolds | core/ent/event.go:101-316 | for every column list, in any order and with repetitions, the holders allocated are accepted and the entity holds exactly the cells of the listed columns |
| EventRows.ColumnOrder | core/ent/event.go:101-316 | lists of the same columns read the same entity |
| EventRows.ForcedForeignKey | core/ent/event_query.go:384-394 | with the foreign key forced, every selection reads the row's key and id |
| EventRows.UnforcedForeignKey | core/ent/event_query.go:384-394 | otherwise the key is read if and only if it was selected by name |
| EventRows.SelectionRead | core/ent/event_query.go:470-478 | every selected column is read, with the id and no other one; without a selection all fields are; the key if it is forced or selected |
| EventRows.CreateSpec | core/ent/event_create.go:459-591 | the row to write and the node to hand out, field by field and with the calendar's key |
| EventRows.WriteReadBack | core/ent/event_create.go:459-591 | a written row reads back as the node that was handed out, unset fields at zero |
| EagerLoad.IndexCalendars | core/ent/calendar_query.go:539-547 | the keys of all nodes in order, the map that keeps the last node of an id, and empty lists |
| EagerLoad.AttachEvents | core/ent/calendar_query.go:556-566 | up to the first nil or unknown key, every neighbor is appended to the last node with its key; the error is the one for that key |
| EagerLoad.SqlAll | core/ent/event_query.go:372-415 | one new entity per row, read through the query's columns, or the error of the first row that cannot be read |
| EagerLoad.FetchPlaces | core/ent/calendar_query.go:549-553 | the query fetches exactly the rows whose key is among the ids and that the caller keeps, each once and in table order |
| EagerLoad.LoadEvents | core/ent/calendar_query.go:538-568 | loading ends with the first unreadable row, else with the first nil or unknown key, else without error; on a table whose rows have their key, no selection leads to an error, and every calendar that is the last with its id holds what is read from exactly the rows at the places of its id, in table order |
| EagerLoad.GivenIsJoin | core/ent/calendar_query.go:538-568 | a node's list is its side of the nested-loop join if and only if it is the last with its id or the join has nothing for it |
| EagerLoad.JoinsExactly | core/ent/account_query.go:455-485 | grouping through the map is the nested-loop join for all neighbors if and only if ids are distinct |
| EagerLoad.DuplicateMisses | core/ent/calendar_query.go:538-568 | of two nodes with one id the first misses the neighbor the join gives it |
| EagerLoad.EachInOneList | core/ent/calendar_query.go:556-566 | together the lists hold every neighbor as often as it was fetched |
| EagerLoad.AttachedOnce | core/ent/calendar_query.go:556-566 | the same of the lists in the node objects |
| EagerLoad.AskedOnce | core/ent/event_query.go:418-429 | the ids asked for are distinct and in order of first occurrence |
| EagerLoad.AskedMembers | core/ent/event_query.go:418-429 | they are the non-nil keys of the nodes |
| EagerLoad.CollectKeys | core/ent/event_query.go:418-429 | the loop computes these ids and groups the nodes by key |
| EagerLoad.AttachCalendars | core/ent/event_query.go:438-447 | up to the first calendar nobody asked for, every one is assigned to all nodes with its id as key |
| EagerLoad.LoadCalendar | core/ent/event_query.go:417-448 | nothing is asked without keys; an error of the query is handed on and changes nothing; else no error is possible, nodes whose parent is in the table get one shared entity per key, and the others keep their edge |
| EagerLoad.DirectionsAgree | core/ent/calendar_query.go:538-568 | over the same objects, an event is in a calendar's list if and only if that calendar is the event's; with distinct ids, if and only if the ids agree |
| EagerLoad.LoadNested | core/ent/event_query.go:404-413 | one run that loads events of calendars and with them the calendars of the events: it ends with the first error of its steps, or every event loaded is in a calendar's list if and only if its own calendar has that calendar's id, for calendars that are the last with their id and that the second query finds again |
| Releases.ScanIsSearch | scripts/flatpak-sync.py:20 | a one-pass scanner finds exactly the leftmost, non-overlapping matches of the regular expression, with their starts |
| Releases.StartsInText | scripts/flatpak-sync.py:63-66 | at the start of a match a line begins, and the text before it holds the matches before it |
| Releases.EntryText | scripts/flatpak-sync.py:55-59 | the entry written for a version, a date and notes, line by line |
| Releases.EntryInserted | scripts/flatpak-sync.py:55-67 | inserting an entry anywhere adds its version there and nothing else if and only if it is at the beginning of a line, or in its leading spaces, and the version is neither empty nor quoted |
| Releases.NotesPlain | scripts/flatpak-sync.py:31-44 | whatever the subjects are, no line of the notes can be taken for a release |
| Releases.NotesShown | scripts/flatpak-sync.py:36-44 | the notes hold, one escaped item each and in the order of the log, the first ten subjects that are neither empty nor skipped; one fixed line if there are none |
| Releases.EscapeRoundTrip | scripts/flatpak-sync.py:43 | escaping five characters one after the other loses nothing and leaves no markup |
| Releases.KeyOfDotted | scripts/flatpak-sync.py:23-24 | the key of dotted numbers is their list |
| Releases.LessAtDifference | scripts/flatpak-sync.py:63-66 | one key is less than another if and only if they agree up to a place at which the first has ended or has the smaller number |
| Releases.DottedOlder | scripts/flatpak-sync.py:23-24 | so dotted versions are compared by their numbers |
| Releases.BetweenReleases | scripts/flatpak-sync.py:63-66 | in the list 1.2, 1.0 the place of 1.1 is in front of 1.0 |
| Releases.SyncInserts | scripts/flatpak-sync.py:47-67 | the text around the entry is kept; the version is added exactly under the condition above, which holds whenever some release is older; with none older the entry stands in front of the first closing tag |
| Releases.SyncKeepsOrder | scripts/flatpak-sync.py:63-66 | where the entry is added, the list descends afterwards if and only if it did before and, if no release is older, none behind the insertion point is newer |
| Releases.SyncOnce | scripts/flatpak-sync.py:50-52 | an entry is written only for a version that is not listed, and a second run writes nothing |
| Releases.SyncKeepsUnique | scripts/flatpak-sync.py:50-67 | a list without duplicates stays one |
| Releases.MetainfoLists | scripts/flatpak-sync.py:47-68 | the command as a whole, for a tag newer than some listed release: the tag without a leading "v" is entered once, in front of the first older one; order and uniqueness are kept, and a second run changes nothing |
| Releases.NothingWritten | scripts/flatpak-sync.py:50-62 | nothing is written if and only if the text holds an entry for the version, or else holds no closing tag of the releases; the outcome says which |
| Releases.ClosedOnOneLine | scripts/flatpak-sync.py:60-66 | with the releases element opened and closed on one line, the entry that is written is not found |

## Left out

- SQL generation and execution, drivers, transactions and upserts: a store carries out a specification or refuses it, a query filters a table, a batch is answered.
- JSON is an invertible codec given as a parameter; text is a sequence of characters, so the UTF-16 columns of the protocol against Python's code points are not modelled; bytes are characters in `Framing`.
- Subprocesses, git, files, qmllint, `cmd_pin`, `main` and the other scripts; write errors of a broken pipe and int()'s limit of 4300 digits.
- Edits whose positions `offset` clamps, other than the end of the edit that is applied first: they read a length that earlier steps have changed, and no promise is made for them. Of positions on no line of the document the protocol says nothing.
- LspClient.OnlyOwnId: numbers are integers; fractional forms such as 2.0, which Python takes for 2 as well, are not modelled.
- LspClient.Client.Request: the dialogue of a single thread; the reply to a request of the server carries the null result only, as the source does.
- CalendarEdges.CalendarMutation.SqlSave: the plain fields of a calendar and its timestamps are not modelled; the verdict of field validators and the store's refusal are parameters.
- The same records for other entities and edges (tasks of an event, secrets of an account) are copies of the ones modelled.
- Hooks.WithHooks: mutations are values handed along; what two holders of one mutation pointer see of each other's writes is not captured. `withInterceptors` nests in the same way.
- BulkCreate.EventCreateBulk.Save: hooks set fields and call the next mutator once with the mutation they were given, or answer without calling it, and may change the verdict that comes back; hooks that call on several times, or with another mutation, are not modelled. The clock's readings are a parameter.
- BulkCreate.EventCreateBulk.Mutate: the same hooks; so in the results about chains.
- EventRows.WriteReadBack: entity fields are one map keyed by column instead of one struct field each; a holder for a selected expression is kept as it is.
- EagerLoad.LoadCalendar: the calendars fetched are known by their ids only, and an error of their query is a parameter; of nested eager loading only that of calendars inside the events query is modelled.
- Releases.MetainfoLists: the pattern of SKIP_SUBJECT is a parameter, and digits are the ASCII digits.
- Getters, setters, `X`-panic wrappers, `SetField` and `OldField` switches, `String` methods, configuration and the listener: one-branch facts.
