# NetconfPy: framing, request correlation, tree editing

A Dafny model of the parts of NetconfPy that carry state: the NETCONF transport of its `ncclient` copy,
the editable trees behind its views, and a few small lists and matchers. `dafny verify dfyconfig.toml`
checks everything.

## What is modelled

**Message framing** (`Strings`, `ChunkedFraming`, `EomFraming`, `Receiving`). The grammar of chunked framing
(section 4.2 of RFC 6242) is given independently of any parser, and the reference parser `Scan` is proved to
be its exact inverse. End-of-message framing (section 4.3 of RFC 6242) has the plain leftmost split as its
reference. `_parse10`, with its resume position and dropped blank remainders, and `_parse11`, with its
residual buffer and fragment list, are proved to dispatch what the references give, for every way of
cutting the stream into reads.

**The session** (`Correlation`, `SessionRuns`, `SessionFailures`, `SessionProgress`, `EndToEnd`, `SessionObjects`).
Requests, the reply table, listeners, the notification queue, the send queue with partial writes, and the main loop with its failure path form a
step system; each operation of the loop or of a client thread is one atomic step, in any order. The invariants
hold in every reachable state. `SessionProgress` says what gets done: what is queued is sent, what is read is dispatched,
notifications are handed out in order. `SessionFailures` says exactly when a turn of the loop raises, and what each cause
of its end does to the pending requests. `EndToEnd` closes the loop with a peer that answers in any order and any
chunking over a network that delivers pieces of any size. The classes of `SessionObjects` update fields in place
as the library does and are proved to compute the functions the theorems are about.

**Trees** (`Lists`, `Forests`, `Addressing`, `TreeObjects`; `Trees`, `ItemPlaces`, `UndoStack`, `Columns`, `TreeEditing`).
Moves, drag and drop, and location lists need the identity of items: they are stated on parent and children links, and
proved of items linked on the heap. Rows, columns, the undo commands and the undo stack are stated on tree values, where
`ItemPlaces` follows the items that commands keep from place to place; so are runs that mix row edits, column edits,
undos and redos.

**Small refinements** (`Histories`, `ExemptErrors`). Three most-recently-used lists against the plain recency order,
and the four pattern lists of the device handler against wildcard matching.

## Where the code does not do what one would expect

Each of these is proved with its exact condition.

- A message that contains `]]>]]>` or ends in `]]>` does not survive end-of-message framing (`EomRoundTrip`,
  `UnsafeExample`).
- The documentation of `_parse11` promises a `NetconfFramingError` for a misplaced delimiter. The pattern is matched
  anchored, so that branch cannot be reached: the parser waits. The model follows the code. Waiting helps exactly when
  the text at the front looks like the beginning of a chunk header or an end mark (`CompletableIff`,
  `MisplacedExamples`). Behind any other text nothing is dispatched again and no read raises: requests get no reply,
  and stay pending until the loop ends in another way (`WedgedRun`, `WedgedReceive`, `MisplacedExample`).
- A closed stream after `close` leaves pending requests pending for ever (`CleanExitAbandons`, `CleanExitExample`);
  every other end of the loop resolves them (`LoopEnds`).
- A move cannot be undone if its target row lies past the end or its destination index is in another column than the
  first (`MoveUndoIff`, `MovePastEndFails`, `MoveOtherColumnFails`); nor can a deletion of rows that do not exist or
  whose parent index is in another column (`DeleteUndoIff`, `DeleteBeyondEndExample`, `DeleteOtherColumnExample`).
- An addition or a move keeps its parent item, not the item's place. Undoing it after a deletion above that item was
  undone works on the item that the deletion took away (`ActReplaysIff`, `LeavesOnRedoIff`, `LeavesOnUndoIff`,
  `LostItemExample`).
- A location list whose steps do not all exist resolves to an unrelated item (`LocationsOfResolve`,
  `StaleLocationsExample`).
- Undoing a deletion after a column edit leaves rows of two widths unless the saved rows have the present width; so
  does removing columns past the end (`ApplyUniformIff`, `RunUniformIff`, `ColumnEditBreaksUndo`,
  `RemovePastEndExample`).
- Deleting while enumerating misses an equal neighbour (`PurgeCompleteIff`, `PurgeExample`).
- A recent session that is already first keeps its old data (`UpdateRecently`).

## Model

| member | source | states |
|---|---|---|
| Strings.StripEmptyIffBlank | ncclient/transport/parser.py:140 | the test for a blank remainder holds exactly on blank text |
| Strings.SpaceChars | ncclient/transport/parser.py:140 | the blanks are the ten ASCII characters that Python strips |
| Strings.StripExact | ncclient/transport/parser.py:133 | stripping gives the one text without blanks at either end from which the input differs by blanks around it |
| Strings.DecRoundTrip | ncclient/transport/session.py:227-228 | reading a printed decimal length gives the length |
| Strings.DigitChars | ncclient/transport/session.py:227-228 | the digits are the characters `0` to `9`; each prints as itself and reads as its value |
| Strings.Decimal | ncclient/transport/parser.py:214 | numerals are decimal: one more digit multiplies what stands before it by ten and adds its value, printing and reading |
| ChunkedFraming.HeaderMatches | ncclient/transport/parser.py:62 | every chunk header, with any digits and anything behind it, is matched with its length and value |
| ChunkedFraming.NextTokenExact | ncclient/transport/parser.py:178-220 | the delimiter pattern and the length test decide the grammar: at most one complete chunk or end mark stands at the front, and it is found if and only if it is there |
| ChunkedFraming.CompletableIff | ncclient/transport/parser.py:178-195 | text at the front that holds no complete token becomes one with more input if and only if it is the beginning of an end mark or of a chunk header, or a chunk not all there |
| ChunkedFraming.MisplacedStays | ncclient/transport/parser.py:178-195 | other text never becomes one, whatever arrives behind it |
| ChunkedFraming.MisplacedExamples | ncclient/transport/parser.py:192-195 | a message without a header, a letter in a size and a size without digits are such text |
| ChunkedFraming.PrintOfScan | ncclient/transport/parser.py:170-239 | all input is accounted for: legal tokens with the meaning reported, then a rest that starts with no complete token |
| ChunkedFraming.ScanCharacterised | ncclient/transport/parser.py:170-239 | an outcome is the parser's if and only if the input reads as legal tokens of that meaning with nothing readable left |
| ChunkedFraming.ScanConcat | ncclient/transport/parser.py:231-239 | parsing a part, keeping fragments and rest, and parsing the remainder behind it equals parsing both at once |
| ChunkedFraming.FrameIsFrameOf | ncclient/transport/session.py:253-255 | the sender's frame is a legal frame of its message, in one chunk |
| ChunkedFraming.FrameExample | ncclient/transport/session.py:253-255 | the octets of the frame of `abc`, written out |
| ChunkedFraming.HeaderExample | ncclient/transport/parser.py:62 | a header with the size 12, written out, is matched with that size |
| ChunkedFraming.FramesRoundTrip | ncclient/transport/session.py:253-255 | the frames of any messages, whatever they contain, parse to those messages and leave nothing |
| ChunkedFraming.FramesOfRoundTrip | ncclient/transport/parser.py:178-222 | the same for frames cut into any legal chunks, zero-length and zero-padded ones included |
| ChunkedFraming.TruncatedFrames | ncclient/transport/session.py:263-267 | of frames cut off anywhere a receiver sees only the first messages, whole and in order |
| EomFraming.SplitConcat | ncclient/transport/parser.py:130-149 | splitting more input goes on from the text behind the last delimiter |
| EomFraming.SplitBlankPrefix | ncclient/transport/parser.py:133-149 | dropping a blank text in front changes no stripped message, and the rest only by that text |
| EomFraming.DelimInFrame | ncclient/transport/session.py:256-257 | a delimiter starts inside a framed message only if it lies in it or uses its last three characters |
| EomFraming.FrameRoundTrip | ncclient/transport/session.py:256-257 | one message comes back alone and whole if and only if it neither contains the delimiter nor ends in half of it |
| EomFraming.UnsafeExample | ncclient/transport/session.py:256-257 | a message ending in `]]>` comes back shortened and leaves a rest |
| EomFraming.FramesRoundTrip | ncclient/transport/session.py:256-257 | any number of messages that survive the framing come back in order |
| Receiving.Parse10Splits | ncclient/transport/parser.py:120-154 | from any state where no delimiter starts before the resume position: the stripped parts of the plain split are dispatched; the buffer kept is its rest, unless that is blank behind a message, and the resume position is six characters before its end, or its beginning |
| Receiving.Parse11Scans | ncclient/transport/parser.py:156-240 | messages, fragments and buffer are those of the reference parser |
| Receiving.Parse10Failed | ncclient/transport/parser.py:128-149 | when a dispatch raises, the messages before it are dispatched and gone; the buffer starts with the message that raised |
| Receiving.Parse11Failed | ncclient/transport/parser.py:196-239 | the same under chunked framing, where the fragments that came with earlier reads are lost |
| Receiving.ChunkedSegmentation | ncclient/transport/parser.py:105-118 | for every cut into reads, from every state: the messages, the exception, the fragments and the buffer are those of the whole stream parsed at once |
| Receiving.MisplacedRead | ncclient/transport/parser.py:178-191 | a read behind misplaced text dispatches nothing, raises nothing and keeps the buffer growing |
| Receiving.ChunkedCutsAgree | ncclient/transport/parser.py:105-118 | two cuts of one stream are indistinguishable |
| Receiving.EomSegmentation | ncclient/transport/parser.py:105-118 | for every cut into reads: the stripped parts of the plain split of the whole stream are dispatched, and the buffer is its rest up to blank text |
| Receiving.ChunkedRoundTrip | ncclient/transport/parser.py:156-240 | messages in any legal chunks and any reads are dispatched as sent, leaving nothing |
| Receiving.EomRoundTrip | ncclient/transport/parser.py:128-149 | for every cut: one stripped copy and an empty buffer if and only if the message survives the framing |
| Receiving.EomFramesRoundTrip | ncclient/transport/parser.py:128-149 | messages that survive the framing are dispatched stripped and in order, for every cut |
| Correlation.FreshIdUnregistered | ncclient/transport/session.py:74-78 | an id just issued is not in the table, so that registering replaces nothing |
| Correlation.NewRpcKeepsInv | ncclient/operations/rpc.py:344-349 | a new request is pending under its own id and disturbs no other |
| Correlation.ReplyAcceptedIff | ncclient/operations/rpc.py:259-279 | a reply is accepted if and only if it names a pending request; then that request alone is resolved and unregistered, otherwise nothing changes and the error is the right one |
| Correlation.DispatchErrorDrains | ncclient/operations/rpc.py:281-286 | every pending request gets the error, no other changes, and the table is empty |
| Correlation.DispatchRaisesIff | ncclient/transport/session.py:80-104 | dispatching raises if and only if the repair has no root either, a reply names no pending request, or a notification is not well-formed; the error of each |
| Correlation.DispatchWithoutRoot | ncclient/transport/session.py:87-96 | without a root and a repair nothing raises: a refusal gives every pending request its error, silence changes nothing |
| Correlation.DispatchToNobody | ncclient/transport/session.py:100-104 | a root that concerns no listener changes nothing |
| Correlation.ListenerOrderIrrelevant | ncclient/transport/session.py:100-104 | effect and exception do not depend on the order in which the listener set is enumerated |
| Correlation.DispatchKeepsInv | ncclient/transport/session.py:80-104 | a dispatched message, however it ends, keeps each request pending and registered or resolved once, and no outcome is changed |
| Correlation.DispatchKeepsRepliesGenuine | ncclient/operations/rpc.py:414-424 | every reply held is a dispatched message carrying the id of its request |
| Correlation.DispatchQueuesNotifications | ncclient/transport/session.py:406-409 | a dispatched message is queued if and only if it is a well-formed notification |
| SessionRuns.SendAllConserves | ncclient/transport/session.py:263-267 | for any partial writes: accepted and unsent bytes make up the frame, and nothing is unsent unless a write failed |
| SessionRuns.SendAllStopsIff | ncclient/transport/session.py:263-267 | something is unsent if and only if a write takes nothing before the frame is out; what is unsent is what the writes before it did not take |
| SessionRuns.ReadDispatches | ncclient/transport/parser.py:105-118 | under either framing a read dispatches the messages that the buffer and the data complete, up to the first exception |
| SessionRuns.TransmitKeepsWireInv | ncclient/transport/session.py:251-267 | the bytes written stay the frames of the messages sent, in order, cut short only by a failure |
| SessionRuns.StepKeepsCoreInv | ncclient/transport/session.py:224-271 | every step of every thread keeps the request and notification invariants and changes no outcome |
| SessionRuns.RunKeepsInv | ncclient/transport/session.py:224-271 | so does every run |
| SessionRuns.Reachable | ncclient/transport/session.py:224-300 | in every reachable state: requests pending and registered or resolved exactly once and genuinely; notifications taken and queued are those that arrived, in order; bytes written are the frames in order |
| SessionProgress.TurnSends | ncclient/transport/session.py:251-267 | a turn that goes on after its read and is ready takes the first message off the queue; it writes the whole frame and goes on if no write is refused, and otherwise what the writes before that one took |
| SessionProgress.ReadyTurnsSend | ncclient/transport/session.py:234-267 | along every run that the loop survives each ready turn sends one message as long as any accepted before is queued |
| SessionProgress.EverythingSent | ncclient/transport/session.py:234-267 | with as many ready turns as were queued messages, all those are written, whole and in order |
| SessionProgress.EverythingReceivedChunked | ncclient/transport/session.py:253-267 | a peer that parses chunked framing then has them all |
| SessionProgress.EverythingReceivedEom | ncclient/transport/session.py:256-267 | so does one that splits on the delimiter, if they survive it |
| SessionProgress.SendingTurnsSendAll | ncclient/transport/session.py:251-267 | ready turns with nothing to read and no refused write keep the loop alive and empty the queue |
| SessionProgress.FirstMessage | ncclient/transport/session.py:251-290 | from the start, the octets of the first message under either framing, written out |
| SessionProgress.SendStep | ncclient/transport/session.py:285-290 | a message is queued if and only if the session is connected |
| SessionProgress.ClosedAcceptsNothing | ncclient/transport/session.py:285-290 | a session closed, on purpose or by a failure, accepts no message along any run |
| SessionProgress.TakesInOrder | ncclient/transport/session.py:296-300 | taking hands out the queued notifications one by one and in order, then none |
| SessionProgress.EverythingRead | ncclient/transport/session.py:234-267 | everything that a surviving loop reads, however it was cut and whatever was sent in between, is dispatched as the reference of the framing has it |
| SessionFailures.FailureDrains | ncclient/transport/session.py:268-271 | however a turn fails, afterwards the loop has ended, the table is empty, the requests pending at that moment have the error, and all others keep their outcome |
| SessionFailures.FailureReachesPending | ncclient/transport/session.py:268-271 | a request pending before a failing turn ends with that error or with a genuine reply of that turn |
| SessionFailures.TurnRaisesIff | ncclient/transport/session.py:236-271 | a turn raises if and only if the stream ends unexpectedly, a message that the read completes raises, or a write takes nothing before the frame is out |
| SessionFailures.ShortReadDrains | ncclient/transport/session.py:248-250 | an unexpected end of the stream ends the loop; every pending request gets the error |
| SessionFailures.RefusedWriteDrains | ncclient/transport/session.py:263-271 | a refused write ends the loop; every request still pending gets an error that holds the unsent bytes |
| SessionFailures.BadReplyDrains | ncclient/operations/rpc.py:264-275 | a read with a reply without id, with an unknown id or with an answered id, under either framing, ends the loop with that error; every request still pending gets it |
| SessionFailures.DuplicateReplyDrains | ncclient/operations/rpc.py:264-279 | so does a read with two replies to one id, wherever they stand in it |
| SessionFailures.EndedLoopResolvesNothing | ncclient/transport/session.py:234-271 | after the loop has ended no run resolves any request |
| SessionFailures.CleanExitAbandons | ncclient/transport/session.py:245-247 | the expected end of the stream leaves pending requests pending for ever |
| SessionFailures.CleanExitExample | ncclient/transport/session.py:245-247 | a request, a close, an end of the stream: the request stays pending along every later run |
| SessionFailures.LoopEnds | ncclient/transport/session.py:238-271 | the loop ends either so, with no request changed, or with an empty table |
| SessionFailures.WedgedReceive | ncclient/transport/parser.py:178-191 | with misplaced text at the front a read raises only at the end of the stream, and dispatches nothing |
| SessionFailures.WedgedRun | ncclient/transport/parser.py:178-195 | along every run from there nothing is dispatched, no request gets a reply, and those pending stay pending while the loop lives |
| SessionFailures.MisplacedExample | ncclient/transport/parser.py:192-195 | a first reply without a chunk header is never delivered, on any run |
| SessionRuns.PeerReceivesChunked | ncclient/transport/session.py:253-267 | parsing the bytes written gives the first messages sent, in order; all that left the queue while the loop lives |
| SessionRuns.PeerReceivesEom | ncclient/transport/session.py:256-267 | the same under end-of-message framing for messages that survive it |
| EndToEnd.MessagesArrive | ncclient/operations/rpc.py:259-279 | dispatching any first part of the messages under way raises nothing and leaves the others under way |
| EndToEnd.EveryAnswerArrives | ncclient/operations/rpc.py:255-279 | along every run with a correct peer no request fails; when the bytes are delivered every answered request holds its own answer, delivered exactly once, and the parser holds nothing |
| SessionObjects.RPC.constructor | ncclient/operations/rpc.py:344-349 | the session state becomes that with one fresh registered request |
| SessionObjects.RPC.DeliverReply | ncclient/operations/rpc.py:414-424 | reply and event are set, nothing else |
| SessionObjects.RPC.DeliverError | ncclient/operations/rpc.py:426-429 | error and event are set, nothing else |
| SessionObjects.RPCReplyListener.Register | ncclient/operations/rpc.py:255-257 | the request is entered under its id |
| SessionObjects.RPCReplyListener.Callback | ncclient/operations/rpc.py:259-279 | table, requests and exception are those of the reply step |
| SessionObjects.RPCReplyListener.Errback | ncclient/operations/rpc.py:281-286 | the loop over the table, in any order, is the draining step |
| SessionObjects.Session.NextId | ncclient/transport/session.py:74-78 | the counter goes up by one and the id is its decimal |
| SessionObjects.Session.CallListeners | ncclient/transport/session.py:100-104 | calling the listener set in any order is the dispatch to listeners |
| SessionObjects.Session.DispatchMessage | ncclient/transport/session.py:80-104 | the method, with the device handler's repair, refusal or silence, is the dispatch step |
| SessionObjects.Session.DispatchError | ncclient/transport/session.py:106-114 | the method is the error step |
| SessionObjects.Session.Send | ncclient/transport/session.py:285-290 | a message is appended to the queue if and only if the session is connected |
| SessionObjects.Session.TakeNotification | ncclient/transport/session.py:296-300 | the first queued notification, or none |
| SessionObjects.Session.WriteAll | ncclient/transport/session.py:263-267 | the write loop accepts and leaves what `SendAll` says |
| SessionObjects.Session.Turn | ncclient/transport/session.py:234-267 | one turn of the loop is the turn of the step system |
| SessionObjects.Session.Run | ncclient/transport/session.py:224-271 | the loop with its failure handler is the run of its turns |
| SessionObjects.DefaultXMLParser.Parse | ncclient/transport/parser.py:105-118 | one read is the parsing step |
| SessionObjects.DefaultXMLParser.Parse10 | ncclient/transport/parser.py:120-154 | buffer, resume position, dispatches and exception are those of the function proved against the plain split |
| SessionObjects.DefaultXMLParser.TakeChunks | ncclient/transport/parser.py:175-229 | the loop over the buffer takes the chunks up to an end mark or to what is incomplete |
| SessionObjects.DefaultXMLParser.Parse11 | ncclient/transport/parser.py:156-240 | buffer, fragments, dispatches and exception are those of the function proved against the reference parser |
| Forests.ReparentRanked | qanytree/qanytreemodel.py:84-91 | hanging a node under one outside its subtree closes no cycle |
| Forests.ReparentCycle | qanytree/qanytreemodel.py:89 | hanging it under itself or a descendant always would |
| Forests.MoveCoherent | qanytree/qanytreemodel.py:76-94 | a move keeps the links of a tree, changes one parent, and leaves the other lists of children alone |
| Forests.MoveKeepsOrder | qanytree/qanytreeitem.py:44-47 | the node gets the row asked for, the last at most, and all other siblings keep their order |
| Forests.MoveBack | qanytree/qanytreemodel.py:223-229 | moving to an existing row and back restores every link, within a list both ways and across two |
| Forests.DropSafe | favorite.py:356-358 | when no item is the destination or above it, every intermediate state of the drop is a proper tree on the same nodes in which only the items moved so far have a new parent |
| Addressing.ResolveLocations | qanytree/qanytreemodel.py:323-340 | the location list of an index leads back to its row, column and item |
| Addressing.LocationsInjective | qanytree/qanytreemodel.py:332-340 | different indexes have different lists |
| Addressing.LocationsOfResolve | qanytree/qanytreemodel.py:323-329 | a list is the one of what it resolves to if and only if each of its steps finds an index |
| Addressing.ResolveInjective | qanytree/qanytreemodel.py:323-329 | different lists whose every step finds an index lead to different indexes |
| Addressing.StaleLocationsExample | qanytree/qanytreemodel.py:323-329 | a list with a missing step resolves to an unrelated item |
| Addressing.RowFound | qanytree/qanytreemodel.py:20-32 | the row a move takes: the child in that row if the source index is in the first column and has it, the root otherwise |
| Addressing.MoveUndoIff | qanytree/qanytreemodel.py:223-229 | undoing a one-row move restores the tree if and only if the destination index is in the first column and has the target row |
| Addressing.MovePastEndFails | qanytree/qanytreemodel.py:223-229 | a move past the end is made, and its undo raises |
| Addressing.MoveOtherColumnFails | qanytree/qanytreemodel.py:21-22 | a move into an index of the second column is made, and its undo raises |
| Addressing.MoveRowOfItem | favorite.py:356-358 | a drop moves each item from the index of its present parent and its present row |
| Addressing.TopsMembers | favorite.py:348-354 | what is moved is exactly what is dragged and whose parent is not |
| Addressing.DropParents | favorite.py:331-358 | every item dropped gets the parent that the place says: the root, the open category dropped on, or the parent of the item dropped on; no other item changes its parent |
| Addressing.DropOneRow | favorite.py:331-358 | one item dropped stands last under the root, first in the category, or in the row of the item dropped on, the last at most; the others keep their order |
| Addressing.DropBlockLands | favorite.py:331-358 | several items from elsewhere stand there as a block, in the order in which they were dragged |
| Addressing.TargetOutside | favorite.py:331-346 | what the guard keeps out of the item dropped on and its ancestors is not above the target either |
| Addressing.NextAncestor | favorite.py:315-323 | one step of the guard's walk up |
| TreeObjects.QAnyTreeItem.ChildNumber | qanytree/qanytreeitem.py:31-35 | the item's position among its parent's children |
| TreeObjects.QAnyTreeItem.MoveChild | qanytree/qanytreeitem.py:44-47 | one child is taken out and put in at the new row |
| TreeObjects.QAnyTreeItem.SetParent | qanytree/qanytreemodel.py:89 | an exception if and only if the new parent is the item or below it; otherwise the item becomes the last child there |
| TreeObjects.TreeModel.MoveRows | qanytree/qanytreemodel.py:76-94 | the links after moving one row between any two indexes, a row not found meaning the root, are those of `MoveRow`, and the tree stays one tree |
| TreeObjects.TreeModel.GetItem | qanytree/qanytreemodel.py:196-202 | the item of an index, the root for the invalid one |
| TreeObjects.TreeModel.IndexOf | qanytree/qanytreemodel.py:20-32 | the index of a child, only under the first column |
| TreeObjects.TreeModel.ParentIndex | qanytree/qanytreemodel.py:34-44 | the index of the parent item, none below the root |
| TreeObjects.TreeModel.GetIndexLocations | qanytree/qanytreemodel.py:332-340 | the upward walk, reversed, is the location list |
| TreeObjects.TreeModel.GetIndexFromLocations | qanytree/qanytreemodel.py:323-329 | the downward walk resolves the list |
| TreeObjects.FavoriteTreeView.DragMoveEvent | favorite.py:303-325 | the drag is accepted if and only if no dragged item is the item under the cursor or above it |
| TreeObjects.FavoriteTreeView.RealDragged | favorite.py:348-354 | items whose parent is dragged too are left out, the others keep their order |
| TreeObjects.FavoriteTreeView.DropEvent | favorite.py:327-361 | after an accepted drag the moves all succeed and the tree is that of the drop: every item has the parent that the place dropped on says, and one item moved alone has the row that it says |
| Trees.PutElsewhere | qanytree/qanytreemodel.py:295-297 | an edit at a path leaves every node neither above nor below it alone |
| Trees.LocateExisting | qanytree/qanytreemodel.py:323-340 | a list of rows that all exist leads to its own node |
| Trees.LocateRestarts | qanytree/qanytreemodel.py:323-329 | a step that finds no row drops all before it: the rest is followed from the root |
| Trees.RestoreRowsBlock | qanytree/qanytreemodel.py:286-291 | appending and moving the saved rows one by one puts the block back in order |
| Trees.DeleteUndoIff | qanytree/qanytreemodel.py:268-297 | delete and undo restore the tree if and only if no row is named, or the rows exist and the parent index is in the first column |
| Trees.DeleteBeyondEndExample | qanytree/qanytreemodel.py:270-273 | the undo of a refused deletion inserts a copy of the whole tree |
| Trees.DeleteOtherColumnExample | qanytree/qanytreemodel.py:270-273 | under an index of the second column the row goes, and the undo puts a copy of the whole tree in its place |
| Trees.InsertUndo | qanytree/qanytreemodel.py:248-252 | undoing an insertion restores the children, even a refused one |
| Trees.MoveUndo | qanytree/qanytreemodel.py:223-229 | undoing a move within a list of children restores it |
| Trees.DeleteEffect | qanytree/qanytreemodel.py:295-297 | a deletion takes exactly the saved block and leaves the rest of the tree alone |
| Trees.AddEffect | qanytree/qanytreeitem.py:49-65 | an addition puts blank rows as wide as the root where it says and leaves the rest of the tree alone; beyond the end it is refused |
| Trees.MoveEffect | qanytree/qanytreemodel.py:223-229 | a move takes one row to the row named, keeps the order of the others and leaves the rest of the tree alone |
| Trees.ModifyEffect | qanytree/qanytreemodel.py:318-320 | a modification writes one cell and leaves the rest of the tree alone |
| Trees.UndoInvertsRedo | qanytree/qanytreemodel.py:208-320 | each command undoes what it did, under any parent, if the item it keeps is where it was |
| ItemPlaces.FollowRedoFinds | qanytree/qanytreemodel.py:208-320 | where the item at a place goes when a command is executed: it is found there with all below it |
| ItemPlaces.FollowUndoFinds | qanytree/qanytreemodel.py:208-320 | the same for undoing |
| ItemPlaces.LeavesOnRedoIff | qanytree/qanytreemodel.py:295-297 | executing a command takes an item out of the tree if and only if it deletes the row that the item is or is under |
| ItemPlaces.LeavesOnUndoIff | qanytree/qanytreemodel.py:248-249 | undoing does if and only if it takes back an addition that made that row |
| UndoStack.ActReplaysIff | qanytree/qanytreemodel.py:208-320 | after a push, an undo or a redo the tree is what the commands then done make of the initial tree if and only if the item that the addition or move keeps is in the tree, or the command changes nothing |
| UndoStack.PushSteps | qanytree/qanytreemodel.py:53-57 | a push does the new command on top of those done and forgets those undone |
| UndoStack.UndoSteps | qanytree/qanytreemodel.py:280-293 | an undo takes back exactly the last command done and keeps it |
| UndoStack.RedoSteps | qanytree/qanytreemodel.py:295-297 | a redo does exactly the next command again |
| UndoStack.UndoThenRedo | qanytree/qanytreemodel.py:280-297 | what an undo took back a redo restores: tree, commands and index |
| UndoStack.RedoThenUndo | qanytree/qanytreemodel.py:280-297 | what a redo did an undo takes back |
| UndoStack.RunReplays | qanytree/qanytreemodel.py:208-320 | along every run of pushes, undos and redos in which these items are in the tree, it is what the commands below the stack index make of the initial tree |
| UndoStack.UndoAllRestores | qanytree/qanytreemodel.py:208-320 | undoing everything gives the initial tree if the items of the commands done are in the tree when it starts |
| UndoStack.LostItemExample | qanytree/qanytreemodel.py:286-290 | rows are added under row 0, row 0 is deleted, both are undone: the rows added stay under its copy |
| Columns.InsertColumnsRect | qanytree/qanytreeitem.py:79-89 | inserting columns keeps all rows of one width |
| Columns.InsertColumnsEverywhere | qanytree/qanytreeitem.py:79-89 | every row of the tree gets the blank cells where they belong and keeps its others |
| Columns.RemoveColumnsRect | qanytree/qanytreeitem.py:91-101 | so does removing columns that exist |
| Columns.RemoveColumnsEverywhere | qanytree/qanytreeitem.py:91-101 | every row loses exactly these cells |
| Columns.RemoveColumnsRaisesIff | qanytree/qanytreeitem.py:91-101 | in any tree, popping raises if and only if under rows that all have the columns stands one in which they start and do not end |
| Columns.RemovedUpTo | qanytree/qanytreeitem.py:96-97 | the first child that raises ends the loop: the children before it are done, those behind it untouched |
| Columns.RemoveColumnsRectIff | qanytree/qanytreeitem.py:91-101 | exactly when a removal leaves rows of one width |
| Columns.RemovePastEndExample | qanytree/qanytreeitem.py:91-101 | removing two columns from the second on leaves the root narrower than its row |
| Columns.ColumnsInverse | qanytree/qanytreeitem.py:79-101 | inserting columns and removing the same range restores every row of the tree |
| Columns.RedoKeepsRect | qanytree/qanytreemodel.py:208-320 | doing any command again, whatever the tree has become, keeps all rows of one width |
| Columns.UndoRectIff | qanytree/qanytreemodel.py:208-320 | undoing any command does so too, a deletion if and only if the rows saved have that width |
| Columns.ApplyUniformIff | qanytree/qanytreemodel.py:116-131 | an undo-stack action or a column edit leaves one width if and only if rows to restore have the present width and columns to remove exist |
| Columns.DropLastColumn | qanytree/qanytreemodel.py:123-131 | when no column is left the rows go by one command, and undoing it brings them back; otherwise the stack does not change |
| Columns.RunUniformIff | qanytree/qanytreemodel.py:53-131 | along every run of row edits, column edits, undos and redos all rows have one width at all times if and only if every edit is of that kind |
| Columns.RunKeepsRect | qanytree/qanytreemodel.py:208-320 | without column edits every run of the undo stack keeps one width, also in the rows saved |
| Columns.ColumnEditBreaksUndo | qanytree/qanytreemodel.py:116-131 | delete, insert a column, undo: rows of two widths |
| TreeEditing.InsertChildren | qanytree/qanytreeitem.py:49-65 | inserting blank rows one by one at one place inserts the block, or refuses |
| TreeEditing.RemoveChildren | qanytree/qanytreeitem.py:67-74 | removing from the last row to the first removes the block, or refuses |
| TreeEditing.RestoreChildren | qanytree/qanytreemodel.py:286-291 | the restoring loop |
| TreeEditing.SaveRows | qanytree/qanytreemodel.py:268-273 | the backup loop, with the root for rows that their index does not find |
| TreeEditing.InsertColumnsIn | qanytree/qanytreeitem.py:79-89 | the recursive insertion of cells |
| TreeEditing.RemoveColumnsIn | qanytree/qanytreeitem.py:91-101 | the recursive popping of cells, with the exception past the end |
| TreeEditing.QAnyTreeModel.FindPath | qanytree/qanytreemodel.py:323-329 | the walk down a list of rows, from the root again where a step finds none |
| TreeEditing.QAnyTreeModel.WriteCell | qanytree/qanytreemodel.py:151-158 | one cell is written, none for the invalid index |
| TreeEditing.QAnyTreeModel.Push | qanytree/qanytreemodel.py:53-57 | pushing any command executes it on the item it keeps and drops the undone ones; if the command is ready, the tree is the replay of the commands done and the new one |
| TreeEditing.QAnyTreeModel.Undo | qanytree/qanytreemodel.py:280-293 | undo goes one step back and keeps the commands; if the item is in the tree, the tree is the replay of the commands still done |
| TreeEditing.QAnyTreeModel.Redo | qanytree/qanytreemodel.py:295-297 | redo goes one step forward and keeps the commands; if the item is in the tree, the tree is the replay with the next command |
| TreeEditing.QAnyTreeModel.InsertRows | qanytree/qanytreemodel.py:53-68 | rows are inserted under any item, none beyond the end, and undoing the command made gives the old tree |
| TreeEditing.QAnyTreeModel.MoveRow | qanytree/qanytreemodel.py:70-94 | a row is moved within any item, and undoing the command made gives the old tree |
| TreeEditing.QAnyTreeModel.RemoveRows | qanytree/qanytreemodel.py:96-111 | the rows are gone, or none if they do not exist; undoing the command made gives the old tree if and only if the rows existed and the parent index is in the first column |
| TreeEditing.QAnyTreeModel.SetData | qanytree/qanytreemodel.py:141-158 | the cell is written, none for the invalid index; the command keeps what the cell held, and undoing it gives the old tree |
| TreeEditing.QAnyTreeModel.InsertColumns | qanytree/qanytreemodel.py:116-121 | columns are inserted in every row, past the undo stack |
| TreeEditing.QAnyTreeModel.RemoveColumns | qanytree/qanytreemodel.py:123-131 | columns are removed up to the first exception; when none is left no row is left either, by a command whose undo brings the rows back; otherwise the undo stack is unchanged |
| Histories.WithoutPrefix | history.py:66-75 | removing an entry from a list and from its beginning keeps one the beginning of the other |
| Histories.PurgeCompleteIff | data.py:158-162 | the deleting enumeration removes all occurrences if and only if no two are neighbours |
| Histories.PurgeNoDup | xmleditor.py:396-400 | without duplicates it removes the one occurrence |
| Histories.PurgeExample | xmleditor.py:396-400 | of two equal neighbours one stays |
| Histories.HistoryModel.AddHistory | history.py:66-75 | the list stays without duplicates, at most 1001 long and a beginning of the recency order; its exact new contents |
| Histories.HistoryModel.RemoveRow | history.py:48-54 | a negative row is refused, one past the end raises, and otherwise exactly the entry at the row goes, also from the recency order |
| Histories.HistoryModel.BatchRemoveRows | history.py:56-64 | distinct existing rows: exactly their entries go; a missing row raises before anything is removed; a row named twice raises when the entries of the rows before it are gone |
| Histories.SearchHistory.UpdateHistory | xmleditor.py:392-403 | the same invariant with bound 30; its exact new contents |
| Histories.RecentSessions.UpdateRecently | data.py:145-166 | the same by name with bound 20; a session already first keeps its data |
| ExemptErrors.CharsMatch | ncclient/devices/default.py:199-201 | matching without wildcards is equality |
| ExemptErrors.SuffixMatch | ncclient/devices/default.py:203-205 | a leading star is a suffix test |
| ExemptErrors.PrefixMatch | ncclient/devices/default.py:207-209 | a trailing star is a prefix test |
| ExemptErrors.InfixMatch | ncclient/devices/default.py:211-213 | stars at both ends are a containment test |
| ExemptErrors.KindDecides | ncclient/devices/default.py:71-81 | for every pattern, `*` included, the test of its list is wildcard matching |
| ExemptErrors.LowerLetters | ncclient/devices/default.py:194 | each capital becomes the small letter in its place in the alphabet, other characters stay |
| ExemptErrors.SubjectExact | ncclient/devices/default.py:193-196 | the text compared is the lower-case one without blanks at either end |
| ExemptErrors.SubjectOfNothing | ncclient/devices/default.py:195-196 | what stands for a missing text |
| ExemptErrors.DefaultDeviceHandler.constructor | ncclient/devices/default.py:67-81 | each pattern goes, stripped of its stars, into the list of its kind, in order |
| ExemptErrors.DefaultDeviceHandler.IsRpcErrorExempt | ncclient/devices/default.py:193-215 | true if and only if some pattern matches the trimmed lower-case text |

## Left out

- Bytes are ASCII characters, so that decoding and encoding are the identity. `_parse10` re-encodes a decoded remainder and `_parse11` decodes chunk by chunk; for other text the statements hold when reads and chunks end on character boundaries.
- Logging, including the strict decoding in a debug argument of `_parse11`, and the limit of recent Python versions on the digits of an integer.
- Sockets, SSH, TLS, selectors and authentication: reads and write results are free inputs of the steps.
- XML: a message is text; its root, the device handler's repair and well-formedness are functions of it (`Device`).
- The SAX parser, the Junos parser switch, and device handlers whose `perform_qualify_check` is false.
- `HelloHandler` and the capability exchange: selecting base 1.1 is a step that may come at any time. `EndToEnd` starts when it is selected and the buffer is empty.
- Races inside one statement: `RPC.__init__` registers before its event exists; constructing a request is one step here.
- The blocking wait of `_request`, its timeout and the raising of reply errors; timestamps.
- SessionObjects.RPCReplyListener.constructor: the listener object exists from the start and is installed by the first request, as in the library it is created then.
- SessionObjects.Session.Run: the loop is given a finite list of turns; the steps of other threads between turns are in `SessionRuns.Step` only.
- anytree's `NodeMixin`: the parent setter, its loop check and the order of children are taken from its documentation, and assigning `children` is one step; so are its exporter and importer, whose round trip is a copy.
- TreeObjects.TreeModel.MoveRows: one row at a time, as `moveRow` calls it; with more rows the code's row index goes stale.
- Moves on the undo stack are within one parent, as `QAnyTreeView` makes them; moves between two parents and their undo are in `Addressing.MoveUndoIff`. Row and column numbers are natural numbers.
- Rows and columns are edited on tree values, not on linked objects: aliasing of items is not captured there, and where an item goes is computed (`ItemPlaces`). An item that a command keeps is taken to live on outside the tree.
- TreeObjects.FavoriteTreeView.DropEvent: nothing is claimed about the row of each of several items dropped when some are under the target already; the code does not keep their order.
- Histories.RecentSessions.UpdateRecently: the list is a field, not a stored setting; a loaded list is assumed free of duplicates and within the bound, as the operations keep it.
- ExemptErrors.DefaultDeviceHandler.IsRpcErrorExempt: lower case is that of ASCII.
- Qt signals, views, dialogs, `importFavorite`, session windows, device management, update check and packaging: user interface, or nothing hard to prove.
