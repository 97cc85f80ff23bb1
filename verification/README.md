# GoClipboard, verified

A Dafny model of the core of GoClipboard, a shared text editor built on a character-level
sequence CRDT (an RGA), and proofs about it. The model has six parts.

**The document.** `Ids`, `Rga`, `RgaEdits`, `Ops`, `Views`, `Snapshots`, `Chains` and `Wire`
give the document as a value: items, child lists sorted newest first, tombstones, the
recursive preorder, batches, and the rebuild and elision forms. `Docs.Doc` is the mutable
document of the server, with its loops over maps and an explicit stack, each method tied to
the value functions. `Convergence` proves strong list order, convergence under any causal
delivery with repetitions, and what replay does. `IdText` relates the pairs the model uses
to the texts on the wire, `Utf8` its lengths and its order of sites to the bytes.

**Editing.** `Growth` and `Edits` prove that a diff reaches the new text on any document.
`Undo` says when revived tombstones come back in their places, `Entries` what undo and redo make
of the entry just made, `Stacks` of any number of entries, `Later` of an entry at any later moment,
`Bursts` that the code's merged entries are such entries, `SingleEdits` and `PureTyping` what that
means for one edit and for typing, and `UndoLimits` where undo and redo fail. `Editors.Editor` is the browser's editing state. `Merge` gives the three-way
merge in closed form, `Carets` the caret arithmetic.

**The browser's order.** JavaScript orders sites by UTF-16 units, the server by bytes. The modules
on editing use one order, by code points. `Utf16` says where the two differ, `Browser` and
`BrowserEdits` that a browser's document is exactly the one those modules speak of once its sites
are re-ranked, and how it compares with the server's.

**The store.** `Rooms` and `Shops` describe rooms and the effect of every critical section on
values, `ShopLaws` what every run keeps, `ShopGrants` exactly when each call is granted and with
which error it is refused, `ShopOutcomes` what it delivers, and
`Stores.Store` is the store itself: maps, sizes, a running total, marks, updated in place, with
documents on the heap.

**Delivery and disk.** `Protocol` and `InOrder` model server events, state and diff frames, a
network that loses, repeats and reorders, and a client that reads; `ShopFeeds` shows that the store
is what they take it to be. `Persistence` is the persister as interleaved atomic steps,
`Persisters.Persister` its code, `Restart` the way back from disk.

**Rate limits.** `Buckets` has the token bucket and the per-address limiter.

Four results differ from what one might expect of the code.

- Undo and redo do not always restore the text. For any number of consecutive entries, merged
  ones included, `Stacks.UndoAllExactlyWhen` and `Stacks.RedoAllExactlyWhen` have the exact conditions for
  every character to return to its place; they are sufficient for the text, and necessary for it where no
  character occurs twice. For each character that these entries both typed and deleted, within one entry
  (`UndoLimits.TypedAndErased`) or by two (`UndoLimits.ErasedCharacterReturns`), one too many is shown.
  Redo of a single edit always shows the edited text; redo of several insertions can misplace a typed
  character (`UndoLimits.RedoMisplaces`), and an edit of somebody else's a revived one
  (`UndoLimits.UndoMisplaces`). `Later.UndoLaterExactlyWhen` says what one undo or redo shows at any later
  moment, also after operations of others.
- Server and browser can order siblings differently (`Browser.SitesCanPart`); `Utf16.OrdersAgreeExactlyWhen`
  says for which sites.
- A subscriber that was told a room is gone takes no later frame of that incarnation
  (`InOrder.GoneStaysGone`), which keeps late frames from reviving it, and is the one case in which it does
  not catch up with a live room (`InOrder.ClientCatchesUp`).
- `FormatID` and `ParseID` are not inverse in the other direction: `a:1` and `a:01` are different
  items that compare as equal siblings. `IdText` says exactly for which texts this happens; everywhere
  else ids are pairs, which is faithful to the texts `FormatID` writes.

`dafny verify dfyconfig.toml` checks everything.

## Model

| member | source | states |
|---|---|---|
| `Ids.SiblingOrderTotal` | internal/crdt/id.go:75-99 | sibling comparison is antisymmetric and is 0 only on equal ids |
| `Ids.SiblingOrderTransitive` | internal/crdt/id.go:75-99 | newer clock first, then site: the sibling order is transitive |
| `IdText.FormatThenParse` | internal/crdt/id.go:10-34 | `ParseID` reads back every valid site and 64-bit clock that `FormatID` writes |
| `IdText.CanonicalExactlyWhen` | internal/crdt/id.go:15-34 | a text that parses is the one `FormatID` writes if and only if its clock starts with neither a sign nor a zero |
| `IdText.ParsesExactlyWhen` | internal/crdt/id.go:15-34 | a text parses as an id if and only if it is the site, a colon and the positive 64-bit clock in decimal, behind an optional plus sign and any zeros |
| `IdText.ComparesPairs` | internal/crdt/id.go:75-99 | on texts that parse, the text comparison is the comparison of the pairs, and is 0 exactly on texts of one pair |
| `IdText.TiesExactlyWhenNotCanonical` | internal/crdt/id.go:75-99 | a text is canonical if and only if no other canonical text ties with it |
| `IdText.ArrivalDecides` | internal/crdt/doc.go:77-91 | two distinct texts of one pair: whichever is inserted last stands first, so sibling order depends on arrival |
| `IdText.ArrivalDecidesForInstance` | internal/crdt/doc.go:77-91 | the concrete case `a:1` and `a:01` |
| `Ids.PathLessTotal` | internal/crdt/doc.go:259-278 | document order on root paths: any two distinct paths are comparable |
| `Ids.PathLessTransitive` | internal/crdt/doc.go:259-278 | document order on root paths is transitive |
| `Rga.SortedSiblingsUnique` | internal/crdt/doc.go:77-91 | a child list is determined by its members |
| `Rga.LinksAreDetermined` | internal/crdt/doc.go:77-91 | a linked document is determined by its items alone, child lists included |
| `Rga.OrderIsSortedListing` | internal/crdt/doc.go:259-278 | the recursive preorder lists exactly the items connected to the root, each once, sorted by root path |
| `Rga.OrderIsUnique` | internal/crdt/doc.go:259-278 | every sorted listing of the connected items is the document order |
| `Rga.ParentsComeFirst` | internal/crdt/doc.go:259-278 | a parent is visited before its children |
| `Rga.PrecedesIffBefore` | internal/crdt/doc.go:259-278 | position in the walk is decided by the two root paths alone |
| `RgaEdits.InsertSortedKeepsOrder` | internal/crdt/doc.go:77-91 | the insertion scan keeps child lists sorted and puts a newest child first |
| `RgaEdits.InsertKeepsTree` | internal/crdt/doc.go:42-66 | an accepted insert keeps the document well-formed |
| `RgaEdits.TombstoneKeepsTree` | internal/crdt/doc.go:68-75 | a deletion keeps the document well-formed and moves nothing |
| `RgaEdits.StrongListOrder` | internal/crdt/doc.go:42-91 | two documents that agree on the parents of common items never disagree on the order of a common pair |
| `RgaEdits.OrderOfPart` | internal/crdt/doc.go:259-278 | a document with some of another one's items lists them in the other one's order |
| `RgaEdits.NewestStandsBehindParent` | internal/crdt/id.go:66-74 | an item with a clock above its siblings' lands immediately behind its parent: the promise made for Lamport clocks |
| `Docs.Doc.Insert` | internal/crdt/doc.go:42-66 | all error and no-op branches, and the new maps, as the value function `Ops.Insert` |
| `Docs.Doc.Delete` | internal/crdt/doc.go:68-75 | as the value function `Ops.Delete`; the flag says whether anything changed |
| `Docs.Doc.InsertChild` | internal/crdt/doc.go:77-91 | the scanning loop inserts where the sorted insertion does, once |
| `Docs.Doc.Walk` | internal/crdt/doc.go:259-278 | the explicit-stack walk terminates on every linked document, parent cycles included, and visits in recursive preorder |
| `Docs.Doc.Items` | internal/crdt/doc.go:127-133 | the items in document order, tombstones included |
| `Docs.Doc.VisibleIDs` | internal/crdt/doc.go:116-124 | the ids of the items that are not deleted, in document order |
| `Docs.Doc.Materialize` | internal/crdt/doc.go:105-113 | the text the visible items spell in document order |
| `Docs.Doc.MaxClock` | internal/crdt/doc.go:94-102 | a clock that occurs (or 0) and that no item exceeds |
| `Docs.Doc.ContentByteLen` | internal/crdt/op.go:107-115 | the UTF-8 length of the text, without building it |
| `Utf8.LengthIsEncoded` | internal/crdt/op.go:107-115 | the length counted is the number of bytes of the UTF-8 encoding |
| `Utf8.LeadByte` | internal/crdt/op.go:107-115 | one to four bytes in the four ranges of code points, told apart by the first byte |
| `Utf8.ByteOrderIsCodePointOrder` | internal/crdt/id.go:75-99 | comparing sites character by character, as the model does, is comparing the bytes of their encodings, as the server does |
| `Docs.Doc.Clone` | internal/crdt/doc.go:221-232 | a fresh object with the same document |
| `Docs.Doc.FromItems` | internal/crdt/doc.go:188-218 | register, then link: accepts and rejects like the value function `Snapshots.FromItems`, with the same error |
| `Docs.Doc.BuildFromString` | internal/crdt/doc.go:236-255 | one insert per code point makes the linear chain, or the error for a bad site |
| `Docs.Doc.LinearChain` | internal/crdt/doc.go:143-184 | on every linked document, parent cycles included, answers with a site exactly for the chains of it (and with the empty site for the empty document) |
| `Docs.Doc.Apply` | internal/crdt/op.go:68-87 | validation, size cap, then insert or delete, as `Ops.Apply` |
| `Docs.Doc.ApplyBatch` | internal/crdt/op.go:90-104 | validates the whole batch, then stops at the first failing operation with what was done so far |
| `Docs.Doc.JsApply` | static/crdt.js:120-130 | the browser's apply, with siblings by code points: no size cap, only what it checks |
| `Docs.Doc.JsApplyBatch` | static/crdt.js:132-143 | the browser's batch, with siblings by code points: no validation pass |
| `Views.TextSpellsVisible` | internal/crdt/doc.go:105-124 | text and visible ids have one length, and the text has each visible item's character at its place |
| `Views.VisibleIsDistinct` | internal/crdt/doc.go:116-124 | no id is visible twice |
| `Ops.FirstInvalid` | internal/crdt/op.go:52-65 | a batch is rejected by validation exactly if one of its operations is malformed |
| `Ops.InsertedExactlyWhen` | internal/crdt/doc.go:42-66 | an insert changes the document if and only if its id is readable and new, its value one code point and its parent there; then the items gain just that item; otherwise which error |
| `Ops.RunSucceedsExactlyWhenAccepted` | internal/crdt/op.go:90-104 | a valid batch is applied without error if and only if every insert finds its parent and the size cap is never hit |
| `Ops.BatchAcceptedExactlyWhen` | internal/crdt/op.go:52-104 | the server's batch succeeds if and only if it has 1 to 4096 operations, every one of them has a readable id, a readable parent or the head, and one code point, and every insert finds its parent and fewer than 2,000,000 items; it is then the operations one after the other |
| `Ops.BatchRefusedUnread` | internal/crdt/op.go:26-65 | a batch of a wrong size, or with a malformed operation, changes nothing and is answered by the error of the size or of the first malformed operation |
| `Ops.BatchFailsAt` | internal/crdt/op.go:68-104 | a well-made batch that fails has applied the operations before the first insert without a parent or room, and nothing after it; the error says which of the two it was |
| `Ops.JsBatchAcceptedExactlyWhen` | static/crdt.js:100-143 | the browser's batch succeeds if and only if it is not empty, every operation has a readable id and every insert one code point, and every insert finds its parent |
| `Ops.JsRunSucceedsExactlyWhenAccepted` | static/crdt.js:132-143 | the same without a size cap, as in the browser |
| `Ops.UncappedAgrees` | internal/crdt/op.go:90-104 | whatever the server accepts, the run without validation pass and size cap applies with the same result |
| `Ops.RunStays` | internal/crdt/op.go:90-104 | any batch, even one that fails half-way, leaves a well-formed document |
| `Ops.JsRunStays` | static/crdt.js:132-143 | the same for the browser |
| `Convergence.RunDelivers` | internal/crdt/op.go:68-104 | what an accepted delivery leaves depends only on the set of its operations and on which deletions met their item |
| `Convergence.Converge` | internal/crdt/op.go:68-104 | two deliveries of one set of operations, any causal orders, any repetitions: both succeed and give one document |
| `Convergence.DeliveriesConverge` | static/crdt.js:132-143 | the same for uncapped runs |
| `Convergence.DeliveriesAgreeExactlyOnEffect` | internal/crdt/op.go:68-104 | without the insert-before-delete assumption: the documents are equal if and only if the same deletions take effect |
| `Convergence.EarlyDeletionIsLost` | internal/crdt/doc.go:68-75 | a deletion that arrives before its insert is lost: a concrete pair of deliveries that differ |
| `Convergence.UnchangedExactlyWhenContained` | internal/crdt/op.go:90-104 | a batch reports no change if and only if the document already contains it, and then leaves it alone |
| `Convergence.ReplayIsIdle` | internal/crdt/op.go:68-104 | replaying any part of a causal delivery, in any order, succeeds and reports no change |
| `Convergence.ReplicasAgree` | internal/crdt/doc.go:42-91 | replicas that saw different parts of one set of operations agree on parents |
| `Convergence.OneOrderForAll` | internal/crdt/doc.go:42-91 | strong list order: the replica with all operations fixes the order in which every other one lists its items, tombstones included |
| `Convergence.BatchKeepsOrder` | internal/crdt/op.go:90-104 | a batch never reorders items that are already there |
| `ShopOutcomes.ChangedExactlyWhenDifferent` | internal/crdt/op.go:90-104 | the changed flag is set if and only if the document differs, also after a failed batch |
| `Snapshots.FromItemsExact` | internal/crdt/doc.go:188-218 | accepted if and only if ids are valid and distinct, values single code points and parents known; every accepted item is linked, cycles included |
| `Snapshots.FromItemsRefuses` | internal/crdt/doc.go:188-218 | a refused list is refused for the first entry that is malformed or repeats an id, whatever the parents are, and else for an unknown parent |
| `Snapshots.RebuildFromAnyPermutation` | internal/crdt/doc.go:127-133 | rebuilding from the items of a document, shuffled in any way, gives the document back |
| `Chains.ChainText` | internal/crdt/doc.go:236-255 | a built document is well-formed, spells the text and has ids site:1..n in order |
| `Chains.BuiltExactlyWhen` | internal/crdt/doc.go:236-255 | a text is built on any non-empty site, without a colon if there is a character to build; otherwise which error |
| `Chains.ElisionIsExact` | internal/crdt/doc.go:143-184 | a non-empty document passes as a chain of a site if and only if it equals what building its text on that site makes |
| `Chains.BuiltIsRecognised` | internal/crdt/doc.go:143-184 | every non-empty built document is recognised, with its own site and no other |
| `Wire.RebuildInvertsDescription` | static/app.js:2512-2524 | the client rebuilds the server's document from a state frame (elided chain, item list or empty): same items, same children, in the browser's order; the very document if and only if no two siblings of one clock are told apart |
| `Wire.DescriptionExists` | internal/handler/handler.go:1448-1463 | every well-formed document has such a frame |
| `Wire.RebuildExactly` | static/app.js:2512-2524 | for every frame, also one no server sends: a list of items that can be rebuilt is; any other frame gives the text typed in one go on the chain's site, the tab's or the server's, or nothing if no site can carry it |
| `Utf16.JsOrderIsRanked` | static/crdt.js:41-51 | JavaScript's string order is the code-point order of re-ranked strings |
| `Utf16.OrdersAgreeExactlyWhen` | static/crdt.js:41-51 | server and browser order a pair of sites alike if and only if the first difference does not set a character beyond U+FFFF against one from U+E000 to U+FFFF |
| `Utf16.PlainStringsAgree` | static/crdt.js:41-51 | so they agree on sites without characters beyond U+FFFF, ASCII ones among them |
| `Browser.BrowserRunIsRanked` | static/crdt.js:83-143 | with every site re-ranked, a batch in the browser does exactly what the uncapped run of the model does, errors included |
| `Browser.BrowserFollows` | static/crdt.js:83-143 | for any sites: whatever the server accepts the browser accepts, and keeps the same items and children, sorted by its own order |
| `Browser.OneDocumentExactlyWhen` | static/crdt.js:83-93 | the two documents are one if and only if no two children of one parent with one clock have sites that the two orders tell apart |
| `Browser.PlainSitesAgree` | static/crdt.js:41-51 | which holds on sites without characters beyond U+FFFF |
| `Browser.SitesCanPart` | static/crdt.js:41-51 | two items of one clock and parent, at sites U+FF61 and U+1F600, that server and browser put in opposite order |
| `Browser.BrowserFromItemsFollows` | static/crdt.js:191-220 | the browser accepts the item lists the server accepts, and builds the same document in its own order |
| `Browser.ChainsAgree` | static/crdt.js:228-239 | a chain is the same document under either order, and building it step by step is, too |
| `BrowserEdits.BrowserShows` | static/crdt.js:145-176 | the browser shows the text of the re-ranked document, under the re-ranked ids |
| `BrowserEdits.BrowserAdopts` | static/app.js:2772-2793 | adopting a text in the browser is adopting it in the re-ranked document, and shows that text, for any sites |
| `BrowserEdits.BrowserUndoes` | static/app.js:961-1023 | undoing in the browser is undoing in the re-ranked document |
| `Edits.FindSpan` | static/crdt.js:245-262 | the two trimming loops compute the span of the edit |
| `Edits.SpanIsTight` | static/crdt.js:245-262 | outside the span the texts agree, it cannot be narrowed at either end, and it is empty exactly for equal texts |
| `Edits.ComputeDiff` | static/crdt.js:245-293 | operations, next ids and next clock as the value function `Edits.DiffToOps` |
| `Edits.DiffIsSplice` | static/crdt.js:245-293 | a diff deletes one stretch and types one run in its place; it is empty exactly for equal texts |
| `Edits.DiffReachesNewText` | static/crdt.js:245-293 | on a document with any forks and tombstones, applying a diff succeeds, shows exactly the new text under exactly the announced ids, and the clock stays ahead |
| `Edits.SpliceReachesText` | static/crdt.js:245-293 | replacing any visible stretch by a run typed at its left end splices text and ids |
| `Edits.SpliceVisible` | internal/crdt/doc.go:77-91 | the same on visible ids, for any edit whose run is typed left to right past every clock |
| `Growth.GrownStep` | internal/crdt/doc.go:77-91 | where each typed item stands against every earlier item of the document |
| `Growth.GrownThen` | static/crdt.js:99-143 | two edits in a row place every typed item as one edit of all their operations, even when the second deletes what the first typed |
| `Growth.ClockedIsNewest` | static/crdt.js:245-293 | ids allocated past every clock of the document outrank all siblings they meet |
| `Editors.Editor.BumpClockFromDoc` | static/app.js:2371-2374 | the clock covers the document, stays if it is ahead, and is some item's if it moves |
| `Editors.Editor.BumpClockFromOps` | static/app.js:2376-2382 | the clock covers every operation id, stays if it is ahead, and is some operation's if it moves |
| `Editors.Editor.PushUndoEntry` | static/app.js:942-954 | an empty batch is ignored; entries within the coalescing window merge, the stack is capped, redo is cleared |
| `Editors.PushedExactly` | static/app.js:942-954 | within 800 ms of the newest entry a batch joins it and dates it anew; otherwise it becomes an entry, for which the oldest of 100 goes |
| `Editors.Editor.ApplyLocalText` | static/app.js:2772-2793 | the document shows the new text, by the diff's operations at the local clock, which become pending and undoable; the clock still covers the document; equal text changes nothing |
| `Editors.Editor.InverseOf` | static/app.js:961-980 | the loop over the batch in reverse computes the inverse and draws its clocks |
| `Editors.Editor.ApplyOpsLocal` | static/app.js:984-996 | applies all or reports failure; operations become pending only on success, and then the clock covers the document and the batch |
| `Editors.Editor.UndoLast` | static/app.js:998-1023 | pops, inverts and applies; on failure the entry goes back and nothing becomes pending; the clock covers the document, also on failure. Where the document has been through the stacked entries, it never fails, and shows at any moment what `Later.ReturnsExactly` says |
| `Editors.Editor.RedoLast` | static/app.js:1025-1048 | the mirror image of undo on the other stack, equally exact |
| `Editors.Editor.ApplyRemoteOps` | static/app.js:2643-2655 | a batch of another author, applied or failing half-way, leaves every stacked entry ready for undo and redo |
| `Editors.Editor.TypeAll` | static/app.js:942-954 | texts that follow each other within the coalescing window become one entry, holding all their operations |
| `Editors.Editor.TypeUndoRedo` | static/app.js:942-1048 | type any texts as one entry, undo, redo: the last text, then the old and the last one again, each exactly under its condition; always for redo of a single text |
| `Editors.Editor.UndoMany` | static/app.js:998-1023 | takes back the last k entries, whose undo batches end up on the redo stack in order |
| `Editors.Editor.RedoMany` | static/app.js:1025-1048 | the mirror image |
| `Editors.Editor.TypeSessions` | static/app.js:942-954 | bursts with pauses become an entry each, on top of the stack |
| `Editors.Editor.TypeUndoRedoAll` | static/app.js:942-1048 | type several entries, undo them all, redo them all: each text shown, exactly under its condition on all the operations together |
| `Undo.CopyAgainstOld` | static/app.js:961-980 | a revived copy stands immediately behind the old parent of its original, as far as earlier items are concerned |
| `Undo.CopyAgainstCopy` | static/app.js:961-980 | of two copies the later one stands first exactly if its parent stands at or before the other's |
| `Undo.InverseSplits` | static/app.js:961-980 | the inverse of any batch deletes what it inserted and revives what it deleted, each in reverse, one clock tick per revival |
| `Undo.MixedRun` | static/crdt.js:132-143 | deletions and inserts with fresh consecutive clocks, mixed in any way, succeed and place every insert |
| `Undo.RevivalIsExactlyRevivable` | static/app.js:961-980 | tombstones revived one after the other come back in their places if and only if nothing that stayed stands between one and its parent, and pairs of them are in order with their parents |
| `Entries.UndoRestoresExactlyWhenRevivable` | static/app.js:998-1023 | undo of an entry, merged ones included, in the document the entry left: every deleted character returns to its place if and only if the entry deleted nothing it had typed and the rest was revivable before the entry |
| `Entries.UndoRestoresTextExactlyWhenRevivable` | static/app.js:998-1023 | there, on a text without repeated characters, the same condition decides whether the text comes back |
| `Entries.UndoShowsTakenBack` | static/app.js:998-1023 | there undo shows one character too many for each one the entry both typed and deleted |
| `Entries.RedoRestoresExactlyWhenInPlace` | static/app.js:1025-1048 | redo straight after that undo: every typed character returns to its place if and only if the entry deleted nothing it had typed and pairs of typed items are in order with their parents |
| `Entries.RedoRestoresText` | static/app.js:1025-1048 | then the edited text is shown again; without repeated characters only then |
| `Entries.RedoShowsTakenBack` | static/app.js:1025-1048 | that redo shows one character too many for each one the entry both typed and deleted |
| `Stacks.UndoneTwice` | static/app.js:998-1023 | undoing two entries in stack order is undoing their concatenation, clock and undo batches included |
| `Stacks.UndoneAllIsUndone` | static/app.js:998-1023 | so is undoing any number of entries that the document knows |
| `Stacks.RedoneAllIsRedone` | static/app.js:1025-1048 | and redoing them all is redoing the concatenation |
| `Stacks.FollowedIsTold` | static/app.js:942-954 | entries that took the document on, one after the other, are together one entry |
| `Stacks.UndoAllExactlyWhen` | static/app.js:998-1023 | so any number of undos is exact if and only if nothing typed by one of the entries was deleted by one of them and the rest was revivable before the first; otherwise one character too many is shown for each such one |
| `Stacks.RedoAllExactlyWhen` | static/app.js:1025-1048 | and any number of redos if and only if nothing was taken back and what the entries typed is in order with its parents |
| `Stacks.SessionsUndoAndRedo` | static/app.js:942-1048 | texts typed with pauses, all undone and all redone, show what the same texts typed without a pause would |
| `Later.UndoLaterExactlyWhen` | static/app.js:998-1048 | undo, or redo, of an entry at any later moment, whatever was typed, undone or received since: nothing it inserted is left, and what it deleted returns to its place among what is visible then if and only if it is revivable in that document |
| `Later.UndoLaterShows` | static/app.js:998-1048 | then the text is what those items spell |
| `Later.ReturningIsOld` | static/app.js:998-1023 | straight after an entry that took nothing back, those items are the ones visible before it |
| `Later.HappenedStays` | static/app.js:2643-2655 | no operations, from whomever, take an entry out of that theorem |
| `Later.HappenedThen` | static/app.js:942-954 | nor does a further batch merged into the entry, whatever came in between |
| `Later.InverseHappened` | static/app.js:1014-1039 | and the undo batch is such an entry itself |
| `Bursts.TypingIsTold` | static/app.js:942-954 | the merged diffs of successive texts are such an entry, and the last text is shown |
| `Bursts.BurstUndoesExactlyWhen` | static/app.js:998-1023 | undo of any burst of texts, on ids, text and length |
| `Bursts.BurstRedoesExactlyWhen` | static/app.js:1025-1048 | redo of any burst of texts, on ids, text and length |
| `Bursts.TypingOnwardAlwaysRedoes` | static/app.js:1025-1048 | a burst in which each typed item hangs off the one before is redone exactly |
| `SingleEdits.StretchIsRevivable` | static/app.js:961-980 | for one deleted stretch the condition says: what is visible between a deleted item and its parent is deleted with it and is its sibling |
| `SingleEdits.EditUndoRedo` | static/app.js:942-1048 | one text: undo is exact if and only if the deleted stretch is revivable, redo always shows the new text |
| `SingleEdits.TypedTextIsRevivable` | static/app.js:961-980 | where each visible item hangs off its left neighbour, anything deleted in any order is revivable |
| `SingleEdits.ChainBurstsUndoExactlyWhen` | static/app.js:998-1023 | on a linear chain, undo of a burst restores the text if and only if the burst deleted nothing it had typed |
| `PureTyping.PureTypingUndoes` | static/app.js:998-1023 | texts that each extend the one before at some place: undo is exact, down to the ids |
| `PureTyping.AppendingUndoesAndRedoes` | static/app.js:998-1048 | texts that each extend the one before at its end: undo and redo are exact |
| `UndoLimits.TypedAndErased` | static/app.js:942-1048 | type any text over any document and go back to the old text within one entry: undo and redo each show as many characters too many as had been typed |
| `UndoLimits.ErasedCharacterReturns` | static/app.js:998-1048 | type a text, erase its last character as an entry of its own, undo both: the erased character is left; redo both: one character too many |
| `UndoLimits.UndoMisplaces` | static/app.js:961-980 | for every text of two or more characters: type x behind the first, delete the second, undo, and it comes back in front of x |
| `UndoLimits.RedoMisplaces` | static/app.js:1025-1048 | for any three letters: type b, a in front of it, c between them; undo is exact, redo shows another text |
| `Merge.MergeClosedForm` | static/app.js:3254-3265 | both sides' operations apply, and the text is the base without both deleted stretches, with each side's run contiguous at its place, mine first on a tie |
| `Merge.MergeIgnoresTurn` | static/app.js:3254-3265 | applying the other side's operations first gives the same document |
| `Merge.SidesCommute` | static/app.js:3254-3265 | edits of two different sites made against any one document commute |
| `Merge.Merge3` | static/app.js:3254-3265 | the function returns that text |
| `Carets.Utf16ToCodePointOffset` | static/crdt.js:296-306 | the smallest code point offset whose UTF-16 offset reaches the clamped index |
| `Carets.CodePointToUtf16Offset` | static/crdt.js:309-319 | the UTF-16 offset of the clamped code point index |
| `Carets.CodePointRoundTrip` | static/crdt.js:296-320 | code point to UTF-16 and back is the identity up to clamping |
| `Carets.Utf16RoundTrip` | static/crdt.js:296-320 | UTF-16 to code point and back is the identity on boundaries and rounds up inside a surrogate pair |
| `Carets.MapCaretIndex` | static/app.js:3301-3324 | clamps and maps a caret through the edit span |
| `Carets.MappedCaretKeepsPlace` | static/app.js:3301-3324 | a mapped caret stays inside the new text and next to the unchanged text it was next to |
| `Carets.MappedCaretIsMonotone` | static/app.js:3301-3324 | carets never overtake each other |
| `Carets.AnchorIdAt` | static/app.js:3338-3342 | the id left of the clamped caret |
| `Carets.PosFromAfterId` | static/app.js:3344-3350 | the position behind the anchor, or the answer for a missing one |
| `Carets.AnchorsSurviveBatches` | static/app.js:3338-3350 | after any batch an anchor still follows the same character while it is visible, and anchored carets keep their order |
| `Protocol.Board.NoteOps` | internal/handler/handler.go:1277-1290 | remembers the diff under its version and generation, for this key only |
| `Protocol.Board.NoteFullState` | internal/handler/handler.go:1292-1302 | remembers that the version is no diff |
| `Protocol.Board.TakeEvent` | internal/handler/handler.go:1310-1318 | hands out the event only for exactly its version and generation |
| `Protocol.Board.EnqueueRoomState` | internal/handler/handler.go:1320-1369 | nothing is sent exactly if nothing is forced and the room is as the connection remembers it; a diff only to a connection at the immediate predecessor in the same generation; a dropped send leaves the connection's memory alone |
| `Protocol.ChosenExactly` | internal/handler/handler.go:1340-1364 | exactly when nothing, a diff or a full state is chosen, field by field; once a frame is enqueued the same room gives nothing more |
| `Protocol.Subscriber.OnState` | static/app.js:2481-2589 | a state frame is judged stale or replaces document and known version, as the value function `Protocol.HandleState` |
| `Protocol.StaleExactlyWhen` | static/app.js:2451-2465 | a state frame is stale exactly if it would lead back: to an earlier incarnation, to an earlier version of the same one, or to one known to be gone |
| `Protocol.Subscriber.OnOps` | static/app.js:2591-2687 | the diff that follows on is applied, an earlier one dropped; a snapshot is requested exactly for a later incarnation, a vanished room, a gap or a failed batch |
| `Protocol.NextKeeps` | internal/handler/handler.go:1277-1375 | every step of server, network and client keeps the invariant that events, frames and the client speak about published documents |
| `Protocol.SubscriberIsConsistent` | static/app.js:2451-2465 | in every run, whatever is lost, repeated, coalesced or reordered, a client that believes the room exists holds the document the server had at the generation and version it knows, in the browser's order; the very document if and only if no two siblings of one clock are told apart |
| `InOrder.DiffsArriveInOrder` | internal/handler/handler.go:1332-1369 | on one connection's ordered line, no diff reaches a client that believes the room exists but lacks its predecessor |
| `InOrder.DiffMeetsVanishedRoom` | internal/handler/handler.go:1162-1169 | a client that believes the room gone can meet a diff: a run in which a late answer to a sync request does it |
| `InOrder.HandlersLearn` | static/app.js:2591-2687 | a consistent client's known version moves exactly as the frames say |
| `InOrder.CatchesUpExactlyWhen` | internal/handler/handler.go:1340-1369 | after an enqueue that fits for a room at (generation, version), a client that reads the whole queue knows just that if and only if it would have known of no later incarnation, no later version of this one, and not that this one is gone |
| `InOrder.ClientCatchesUp` | internal/handler/handler.go:1332-1369 | over every run, whatever was dropped: after an enqueue for the newest room so far the client catches up with it, if and only if it has not been told that this very incarnation is gone |
| `InOrder.DroppedIsRetried` | internal/handler/handler.go:1366-1374 | a frame that did not fit is not forgotten: the next enqueue for the room finds something to send, whatever the board holds |
| `InOrder.GoneStaysGone` | static/app.js:2451-2465 | a client told that an incarnation is gone takes no later frame of it or of an earlier one, in any order |
| `Buckets.TokenBucket.Allow` | internal/handler/handler.go:1663-1676 | let through if and only if min(tokens + rate * elapsed, burst) is at least 1; that level, less 1 if let through, is left |
| `Buckets.TokensAreConserved` | internal/handler/handler.go:1663-1676 | over every monotone run, calls let through plus tokens left never exceed the start plus rate * time |
| `Buckets.EarnedCallsPass` | internal/handler/handler.go:1663-1676 | nothing earned is lost: along any run, refused calls included, a call is let through whenever min(start + rate * time, burst) less the calls let through since is at least 1 |
| `Buckets.WindowBound` | internal/handler/handler.go:1663-1676 | in any window of length T of any run at most burst + rate * T calls are let through |
| `Buckets.RateLimiter.Allow` | internal/middleware/middleware.go:247-270 | the same for the address's bucket, which is created full; the other addresses keep theirs |
| `Buckets.RateLimiter.Cleanup` | internal/middleware/middleware.go:272-285 | drops exactly the entries idle for more than five minutes |
| `Buckets.EvictionIsInvisible` | internal/middleware/middleware.go:247-285 | when five minutes refill a bucket, a limiter that sweeps decides every later call like one that never does |
| `Buckets.EvictionShows` | internal/middleware/middleware.go:247-285 | when they do not, there is a run on which sweeping lets a call through that would have been refused |
| `Buckets.EvictionIsInvisibleExactlyWhen` | internal/middleware/middleware.go:247-285 | so sweeping is invisible if and only if rate * 300 reaches the burst |
| `Rooms.CaptureKeepsTrail` | internal/store/store.go:803-832 | a capture keeps the trail: at most 20 entries, none empty, neighbours differ, versions rise, automatic entries 5 s apart, each text published at its version |
| `Rooms.CapturedExactly` | internal/store/store.go:803-832 | a capture is skipped exactly for an empty, repeated or throttled text; otherwise the new entry follows the newest 19 of the old ones |
| `Stores.Store.RemoveLocked` | internal/store/store.go:760-770 | room, size and dirty mark go, the deletion is marked, the running total stays the exact sum and its clamp does nothing |
| `Stores.Store.PutLocked` | internal/store/store.go:750-758 | the room is stored and marked, and the running total stays the exact sum |
| `Stores.Store.CanAcceptLocked` | internal/store/store.go:736-748 | refuses a new room at the room limit, and growth past the byte limit |
| `Stores.Store.GetLiveLocked` | internal/store/store.go:467-502 | an expired room is removed on sight; a live one is returned as it is |
| `Stores.Store.MaybeCapture` | internal/store/store.go:803-832 | appends unless empty, repeated or throttled, and trims to 20; the flag says whether it did |
| `Stores.Store.BytesOf` | internal/store/store.go:772-788 | the estimate for content, items and history |
| `Stores.Store.AdmitLocked` | internal/store/store.go:276-287 | stores exactly if the limits, measured on the sum over all rooms, allow it |
| `Stores.Store.SaveWithBase` | internal/store/store.go:177-289 | refines `Shops.SaveTurn` in every branch; returns a copy; modifies no document that existed before |
| `Stores.Store.ApplyOps` | internal/store/store.go:321-443 | refines `Shops.ApplyTurn` in every branch; the batch runs on a clone and modifies no document that existed before |
| `Stores.Store.SetPassword` | internal/store/store.go:646-705 | refines `Shops.SetPasswordTurn`: lock, rotate, rescope, unlock, or refuse |
| `Stores.Store.CaptureHistory` | internal/store/store.go:856-884 | refines `Shops.CaptureTurn` and returns the trail |
| `Stores.Store.ClearHistory` | internal/store/store.go:889-914 | refines `Shops.ClearTurn`: on success the trail is empty and the rest of the room the same |
| `Stores.Store.CleanupExpired` | internal/store/store.go:707-720 | whatever the iteration order, removes exactly the expired rooms |
| `Stores.Store.DeleteAuth` | internal/store/store.go:513-526 | refines `Shops.DeleteTurn`: on success the room is gone and its key marked deleted, not dirty |
| `Stores.Store.Get` | internal/store/store.go:130-140 | a deep copy of the room if one is stored that expires after now, else nothing |
| `Stores.Store.Peek` | internal/store/store.go:148-156 | the stored document itself, if the room expires after now, which no method of the store ever modifies |
| `Stores.Store.NewGenerationLocked` | internal/store/store.go:449-455 | a generation above the last one handed out, and positive |
| `ShopLaws.LeastNewGeneration` | internal/store/store.go:449-455 | a new generation is the least positive one above the last |
| `ShopLaws.TotalWith` | internal/store/store.go:750-758 | the total after a write is the old one minus the old size plus the new one |
| `ShopLaws.StepKeeps` | internal/store/store.go:130-914 | every critical section keeps the limits, the stamps, the trails and the marks, and moves each key only forward |
| `ShopLaws.RunKeeps` | internal/store/store.go:130-914 | over every run: total at most the byte limit, rooms at most the room limit, every text its document's, every trail what was published, published documents unchanged under their stamps |
| `ShopLaws.SameStampSameDocument` | internal/store/store.go:445-465 | between any two moments a key's (generation, version) never decreases, across re-creation too, and equal pairs mean equal documents |
| `ShopLaws.RefusalChangesNoLiveRoom` | internal/store/store.go:148-465 | a refused call changes no room that has not expired |
| `ShopOutcomes.AdmittedExactlyWithinLimits` | internal/store/store.go:736-748 | a write is admitted if and only if the store after it is within both the room and the byte limit |
| `ShopGrants.ChargedExactly` | internal/store/store.go:772-801 | a room is charged 256 bytes, its text in UTF-8, 192 bytes an item (a character, for an empty document), and 64 bytes and the text for each trail entry |
| `ShopGrants.SaveGrantedExactlyWhen` | internal/store/store.go:177-289 | a save is granted if and only if the text is at most 1 MiB, a lock on the live room opens, a base version asked for is the room's, and either text and ttl are the room's or the store with the asked-for room is within both limits; otherwise which error; the reply is that room |
| `ShopGrants.ApplyGrantedExactlyWhen` | internal/store/store.go:321-443 | a batch is granted if and only if a lock opens, a missing room gets a ttl, the batch is empty or accepted on the document, the text is at most 1 MiB, and either nothing changes in a live room, or something does (or the batch is empty) and the limits allow the asked-for room; otherwise which error; the reply is that room |
| `ShopGrants.PasswordGrantedExactlyWhen` | internal/store/store.go:646-705 | a password change is granted if and only if there is a live room, the current password opens it, and a key was derived if one is needed; the whole room it leaves, or which error |
| `ShopGrants.CaptureGrantedExactlyWhen` | internal/store/store.go:856-884 | a manual capture is granted if and only if there is a live room, its lock opens, and there is nothing to record or the longer trail fits; the whole room it leaves, or which error |
| `ShopGrants.ClearGrantedExactlyWhen` | internal/store/store.go:889-914 | a granted clearing leaves the trail empty and all else as it was; it is granted if and only if there is a live room whose lock opens (for callers: read off the definition) |
| `ShopGrants.DeleteGrantedExactlyWhen` | internal/store/store.go:504-526 | a deletion is granted unless a lock is in its way; then the key has no room, is marked deleted and no longer dirty, and nothing else changed (for callers: read off the definition) |
| `ShopGrants.GetFinds` | internal/store/store.go:130-156 | a read finds a room if and only if one is stored that expires after now, and it is that room; an expired one is removed and marked (for callers: read off the definition) |
| `ShopGrants.CleanupRemovesExpired` | internal/store/store.go:707-720 | the sweep removes and marks exactly the rooms that have expired |
| `ShopOutcomes.SaveDelivers` | internal/store/store.go:208-289 | a granted save leaves exactly the text, ttl, expiry and author asked for, typed in one go, with an automatic capture; the version moves unless only the expiry does; locks survive or are claimed; a new room gets a new generation |
| `ShopOutcomes.ConflictExactlyWhenBaseMoved` | internal/store/store.go:208-212 | a save conflicts if and only if a base version was given and the live room is not at it, size and lock permitting (for callers: read off the definition) |
| `ShopOutcomes.ApplyDelivers` | internal/store/store.go:321-443 | a granted batch leaves the document with the whole batch applied, with an automatic capture if it differs; the flag is whether it differs; a changed ttl alone moves the version |
| `ShopOutcomes.LockedOut` | internal/store/store.go:547-565 | whoever fails a lock's check changes nothing behind it (for callers: read off the definition) |
| `ShopOutcomes.PasswordDelivers` | internal/store/store.go:646-705 | given a new salt, a granted password change leaves the lock asked for and moves the version exactly if the lock changed (for callers: read off the definition) |
| `ShopOutcomes.CaptureDelivers` | internal/store/store.go:856-884 | after a granted capture of a non-empty room the newest entry is its text (for callers: read off the definition) |
| `ShopOutcomes.OtherRoomsUntouched` | internal/store/store.go:130-914 | a call under one key leaves every other room and mark as it was |
| `ShopFeeds.StepIsAWorldStep` | internal/store/store.go:130-914 | every critical section is, for every key, what the delivery protocol assumes of the store: no change, a removal, a document under a stamp never used, or a committed batch under the next version |
| `ShopFeeds.StoreRunIsAWorldRun` | internal/store/store.go:130-914 | so every run of a fresh store is, for every key, a run of the protocol's world |
| `Persistence.AdvanceKeepsKey` | internal/store/persist.go:77-91 | a mutator between two steps of a flush leaves each key in order or marked |
| `Persistence.NextKeeps` | internal/store/persist.go:139-226 | swap, removal, snapshot, rename, re-check and every mutator keep the persister's invariant |
| `Persistence.RecheckIsRedundant` | internal/store/persist.go:210-226 | without the re-check the marks alone keep the invariant: as the mutators stand, it is a second line of defence |
| `Persistence.TakenExactly` | internal/store/persist.go:159-190 | a file has every field of its room, expiry and update time rounded down to the second, the ttl toward zero |
| `Persistence.RecheckExactly` | internal/store/persist.go:210-226 | the re-check removes the file of a room that is gone, and marks a room again if and only if its version, generation, salt or trail length is not the file's (for callers: read off the definition) |
| `Persistence.DiskFollowsMemory` | internal/store/persist.go:139-226 | over every interleaving: where disk and memory differ on document, text, ttl, version, generation, lock or history, the key is marked or in the running flush; at quiescence they agree and absent rooms have no file |
| `Persisters.Persister.TakeSnapshot` | internal/store/persist.go:159-199 | the first critical section: expiry, then elided chain or item list with all fields; the times are the room's, rounded down to the second |
| `Persisters.Persister.Recheck` | internal/store/persist.go:210-226 | the last critical section: drop the file of a vanished room, re-mark a stale one |
| `Persisters.Persister.WriteSnapshot` | internal/store/persist.go:159-226 | without interruption the key's file is the room's, with its times rounded down to the second, no other file changes, and nothing is re-marked |
| `Persisters.Persister.FlushDirty` | internal/store/persist.go:139-157 | an uninterrupted flush leaves no dirty mark, and disk and memory agree on every key |
| `Persisters.Persister.LoadPersisted` | internal/store/persist.go:230-353 | loads in directory order like `Restart.LoadAll`, and leaves exactly the files of `Restart.DiskAfter` |
| `Restart.LoadingRespectsLimits` | internal/store/persist.go:309-324 | whatever the directory holds, loading stays within both limits |
| `Restart.TreeSurvives` | internal/store/persist.go:285-307 | from any of the three encodings the document comes back with the same ids, tombstones and child order |
| `Restart.RestoredTreeExactly` | internal/store/persist.go:285-307 | for every file: a list of items that can be rebuilt is; any other file gives its text typed in one go on the chain's site, its author's or the server's, or is skipped |
| `Restart.RoomSurvivesRestart` | internal/store/persist.go:279-337 | the file of a room gives the whole room back, with the times, the author and the ttl the file has, and a lock that says its scope |
| `Restart.TimesSurviveRestart` | internal/store/persist.go:159-190 | a room comes back with the expiry, update time and ttl it was written with, less than a second short of them, and with the same author |
| `Restart.LoadedIsItsFile` | internal/store/persist.go:230-353 | whatever the directory holds, a loaded room has not expired and is what its own file says, field by field |
| `Restart.LoadsEachThatFits` | internal/store/persist.go:230-353 | one more file in the directory becomes a room if and only if it is its key's, has a ttl and has not expired, its document can be had, and room count and bytes allow it: stopping early at a full store loses nothing |
| `Restart.RemovedExactly` | internal/store/persist.go:279-313 | whatever the directory holds, exactly the files that have run out are removed, as far as loading gets |
| `Restart.RestartRestores` | internal/store/persist.go:230-353 | from a disk that agrees with memory, in any directory order, exactly the rooms come back whose file has a ttl of a second or more and has not expired; each is live and the whole room it was, but for the times, author and spelled-out scope, which are the file's |
| `Restart.RestartKeeps` | internal/store/persist.go:338-340 | the restarted store satisfies the store's invariant against the old log if and only if its generation counter is not below an old generation |
| `Restart.RestartSyncsExactlyWhen` | internal/store/persist.go:253-282 | the restarted store and the remaining files agree on a key exactly unless its file has a ttl under a second, or outlives the restart with a lock that names no scope |
| `Restart.RestartStartsInOrder` | internal/store/persist.go:230-353 | without such files the next process starts where `Persistence.DiskFollowsMemory` starts, with the same log |

## Left out

- Ids as texts: outside `IdText` ids are (site, clock) pairs. The browser's `parseID` also takes forms such as `a:1e1`, which the server rejects; that is not modelled.
- Text values are code points; ill-formed UTF-8 and its replacement character are not modelled.
- Clocks, versions, generations, sizes and times are unbounded integers; only `ParseInt` in `IdText` has its 64-bit range. Token buckets and the limiter use reals in place of floating point.
- Password hashing: a check enters as whether it succeeded, a derivation as a fresh salt and hash or a failure. `preAuthorize`, which only looks before taking the lock, and the read-only password queries are not modelled.
- Expiry callbacks of the store, and the branch of `getLiveLocked` for rooms without a document, which no modelled run produces.
- A store without a persistence directory: the model always keeps marks.
- Failing file operations, crashes before a flush, JSON, file names that are no keys, and the migration of legacy plaintext passwords in `loadPersisted`.
- Persistence.DiskFollowsMemory: does not speak of the expiry time and of who updated a room when, because plain refreshes do not mark a room dirty.
- Restart.RestartRestores: ttl and expiry come back in whole seconds, and the expiry is the one last written, which a later refresh may have moved in memory only.
- Convergence of clients that write at the same time: acknowledgements, self-echo and pending operations of the protocol. `Protocol` has reading clients only.
- Protocol.SubscriberIsConsistent: safety only; a delayed frame that says the room does not exist carries no generation, and later states of that generation are then judged stale.
- InOrder.ClientCatchesUp: one ordered connection without view-protected rooms; a client told that the live incarnation is gone waits for the next one (`InOrder.GoneStaysGone`), as the code has it.
- InOrder.DiffsArriveInOrder: one ordered connection without view-protected rooms; silent about clients that believe the room gone.
- Protocol.Board.NoteOps: leaves out the author and content fields of the event, which the choice of a frame does not read.
- Protocol.Board.NoteFullState: leaves out the author and content fields of the event, which the choice of a frame does not read.
- Protocol.Subscriber.OnState: leaves out the replay of pending operations and the drafts of a client that writes.
- Protocol.Subscriber.OnOps: leaves out own echoes and the content-only fallback.
- Persisters.Persister.LoadPersisted: files have valid names and hold no legacy passwords.
- Docs.Doc.JsApply: orders siblings by code points; by `Browser.BrowserRunIsRanked` it describes the browser with its sites re-ranked.
- Docs.Doc.JsApplyBatch: orders siblings by code points, likewise. The same goes for `Editors`.
- Entries.UndoRestoresExactlyWhenRevivable: speaks of the document the entry left; `Stacks` and `Later` speak of every other one.
- Undo and redo after a snapshot replaced the document by one that lacks items of stacked entries: `UndoLast` and `RedoLast` then promise only their general contract.
- Undo and redo around `clearUndoHistory`, and around a reload through REST, which resets the clock to 0 and leaves it there until the next edit (static/app.js:3830).
- Documents the browser invents ids for (`applyLoadedSnapshot`, `putReplace`, `mergeServerState`), and operations sent across a full-document save.
- Merge.Merge3: the fallback that returns one side when building the base fails cannot happen with the sites it uses, and a differing order of operation batches is covered by `Merge.MergeIgnoresTurn` only.
- HTTP routing, WebSocket plumbing, presence cursors, files, the page and its rendering.
- The connection limiter, blocklists and file store, which would only add easy members.
