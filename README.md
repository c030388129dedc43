# tmate decoder: a verified model

tmate-slave mirrors a remote tmux session. Its decoder, `tmate-decoder.c`, takes
MessagePack messages from the tmate master:
- It reads each message through a typed cursor (`struct tmate_unpacker`).
- It dispatches on the leading opcode.
- It applies the message to the local tmux state. A header checks the
  protocol version. A window sync creates or updates the main session, a
  window and that window's panes. A pty-data message feeds output bytes to
  one pane.

The window sync reconciles the window's panes against the list the master
sends, in four steps:
1. Mark every pane of the window with `PANE_KILL`.
2. Merge the listed panes, creating the ones that do not exist.
3. Sweep away the panes that are still marked.
4. Select the trailing active pane id.

This project models that core in Dafny and proves what it does.

- `values.dfy` (`Values`) has the decoded MessagePack objects and the integer
  conversions the C code performs. `via.i64` reinterprets an unsigned 64-bit
  pattern as a signed value. Storing an out-of-range `int64_t` in an `int` is
  implementation-defined in C (C11 6.3.1.3p3); `ToInt32` follows the
  two's-complement truncation to the low 32 bits that GCC and Clang perform.
- `unpacker.dfy` (`Cursor`) holds the cursor. The pure `Pop*` functions say
  what one pop does. The class `Unpacker` is the cursor itself: its methods
  advance `pos` in place, as `argv++`/`argc--` do.
- `state.dfy` (`MuxState`) holds the part of tmux state the decoder touches:
  - the main session and its size;
  - the windows, each with its name, size, pane list in TAILQ order, active
    pane and `WINDOW_SILENCE`;
  - the global pane registry searched by `window_pane_find_by_id`, with each
    pane's window, geometry, `PANE_KILL`, `PANE_REDRAW` and the bytes fed to
    it.

  Two predicates are defined on this state. `Valid` is the shape tmux keeps.
  `Realizes` relates a real state to the reference state when the two differ
  only in which pane tmux makes active after removing the active one.
- `protocol.dfy` (`Protocol`) has one pure reference function per handler,
  from a state and the remaining fields to an `Outcome`. The Outcome is the
  new state plus `Done` or `Failed(error)`. On failure the state is the
  partial state the C code had reached when it called `decoder_error` or
  `tmate_fatal`.
- `decoder.dfy` (`Decoder`) has the class `Mirror`, whose fields are the
  tmux state. Its methods are the handlers written as the C code runs them:
  popping from cursors, looping over the pane list, removing panes during
  the pass. Each method is proved against its reference function.
- `invariants.dfy` (`Invariants`) proves that every handler keeps `Valid`.
  `refinement.dfy` (`Refinement`) proves that every handler preserves
  `Realizes`.
- `reconcile.dfy` (`Reconciliation`) and `messages.dfy` (`Messages`) state
  the reconciliation and each message's effect in terms of the message's
  fields. Idempotence, order independence and a worked example are proved
  there.

In three places `tmate-decoder.c` does something other than what a reader of
the protocol might expect, and the model follows `tmate-decoder.c`:
- `window_pane_find_by_id` searches all panes, not just the window's.
  - A listed id whose pane belongs to another window is updated in place.
  - That pane stays in its own window and is not added to the synced window.
  - `ReconcileRegistry` states this.
- The protocol number is compared after it has been stored in an `int`, so
  2^32 + 1 is accepted (`HeaderWraps`).
- Reordering the pane list does not change the registry's ids, the set of
  the window's panes, or an active id that ends up in the window. This holds
  for every list, repeated ids included (`ReorderPanes`). The geometry of
  the registered panes is order-insensitive only for lists without repeated
  ids: with repeats, the last copy of an id wins (`ReconcilePermutation`).
  The order of the window's pane list, and the provisional active pane,
  follow the list.

## Model

| member | source | states |
|---|---|---|
| Values.AsInt64 | tmate-decoder.c:39 | `via.i64` of a negative integer is its value; of a positive one it is the same 64-bit pattern, equal to the value below 2^63 |
| Values.ToInt32 | tmate-decoder.c:118-122 | storing an `int64_t` into an `int` keeps it modulo 2^32 and leaves values in int range unchanged |
| Cursor.PopInt | tmate-decoder.c:28-45 | unpack_int fails exactly when the cursor is empty (Exhausted) or the next element is not a positive or negative integer (WrongType); otherwise it returns that element's `via.i64` and the rest after exactly one element |
| Cursor.PopRaw | tmate-decoder.c:47-61 | unpack_raw fails exactly when the cursor is empty or the next element is not raw; otherwise it returns its bytes and the rest after one element |
| Cursor.PopString | tmate-decoder.c:63-76 | unpack_string fails exactly as unpack_raw; otherwise returns len+1 bytes whose first len are the raw bytes (zero bytes included) and whose last is NUL |
| Cursor.PopArray | tmate-decoder.c:78-88 | unpack_array fails on an empty cursor or a non-array element; otherwise returns exactly that element's items and the parent's rest after one element |
| Cursor.Unpacker.Init | tmate-decoder.c:18-26 | init_unpacker fails on a non-array and otherwise points the cursor at exactly its items |
| Cursor.Unpacker.UnpackInt | tmate-decoder.c:28-45 | the cursor's pop: the result is PopInt's, `pos` advances by one on success and not at all on failure |
| Cursor.Unpacker.UnpackRaw | tmate-decoder.c:47-61 | the same for unpack_raw, against PopRaw |
| Cursor.Unpacker.UnpackString | tmate-decoder.c:63-76 | the same for unpack_string, against PopString |
| Cursor.Unpacker.UnpackArray | tmate-decoder.c:78-88 | the nested cursor is over exactly the next element's items and the parent advances by one; on an empty cursor or a non-array element it fails and the parent does not move |
| Cursor.Unpacker.Skip | tmate-decoder.c:90-93 | the step of unpack_each: the temporary cursor advances by exactly one element |
| Protocol.ParsePaneSpec | tmate-decoder.c:117-122 | a list element is accepted exactly when it is an array whose first five items are integers, and then gives their narrowed values as id, sx, sy, xoff, yoff |
| Protocol.MarkPanes | tmate-decoder.c:114-115 | the registry keeps its ids; exactly the panes in the window's list get PANE_KILL, nothing else changes |
| Protocol.MergeSpec | tmate-decoder.c:124-136 | one merge step keeps the session and every other window, and window `w`'s name, size and WINDOW_SILENCE |
| Protocol.MergeSpecs | tmate-decoder.c:117-137 | the merge loop keeps the session and every other window, and window `w`'s name, size and WINDOW_SILENCE |
| Protocol.MergeValues | tmate-decoder.c:117-137 | the unpack_each loop, parsing each element in turn, keeps the session, every other window, and window `w`'s name, size and WINDOW_SILENCE |
| Protocol.Sweep | tmate-decoder.c:139-142 | the sweep keeps the session, every other window, and window `w`'s name, size and WINDOW_SILENCE |
| Protocol.SelectActive | tmate-decoder.c:144-147 | the final selection keeps the session, every other window, and window `w`'s name, size and WINDOW_SILENCE |
| Protocol.Reconcile | tmate-decoder.c:114-147 | the four phases on a parsed list keep the session, every other window, and window `w`'s name, size and WINDOW_SILENCE |
| Protocol.SyncWindowPanes | tmate-decoder.c:107-148 | tmate_sync_window_panes, on success or failure, keeps the session, every other window, and window `w`'s name, size and WINDOW_SILENCE |
| Protocol.SyncWindowHead | tmate-decoder.c:157-182 | after the head of a sync the window with the message's index exists |
| Protocol.Mark | tmate-decoder.c:114-115 | the mark pass on window `w`'s list; MarkPanes states that exactly the listed panes get PANE_KILL, and Invariants.MarkValid that it keeps the state well formed |
| Protocol.NewPane | tmate-decoder.c:126-127 | the pane window_add_pane creates: in window `w`, the window's size, no flags, no input; Reconciliation.MergeRegistry states what the merge then makes of it |
| Protocol.AddPane | tmate-decoder.c:126-128 | window_add_pane followed by window_set_active_pane; Reconciliation.MergeWindow states the resulting list and active pane, Invariants.AppendNoDup that the list stays free of repeats |
| Protocol.Live | tmate-decoder.c:139-142 | the panes the sweep keeps; Invariants.LiveMembers, LiveNotKilled and LiveNoDup characterise them, Reconciliation.SweepMarked states them after mark and merge |
| Protocol.Doomed | tmate-decoder.c:139-142 | the panes the sweep removes; Reconciliation.SweepMarked states that after mark and merge they are exactly the window's unlisted panes |
| Protocol.ParseSyncHead | tmate-decoder.c:157-160 | the four pops of a sync head; Messages.ParseSyncHeadFields states when it succeeds and what it yields |
| Protocol.NewWindow | tmate-decoder.c:170-176 | the window session_new creates: named, sized like the session, without panes; Invariants.AddWindowValid states that adding it keeps the state well formed |
| Protocol.SyncWindow | tmate-decoder.c:150-187 | tmate_sync_window; Messages.SyncWindowEffects, SyncNewWindow and SyncWindowIdempotent state its effect |
| Protocol.PtyData | tmate-decoder.c:189-207 | tmate_pty_data keeps the session, the registry's ids and the window indices; Messages.PtyDataEffects states its whole effect |
| Protocol.Header | tmate-decoder.c:95-103 | tmate_header never changes the state; Messages.HeaderAccepts and HeaderWraps state its status |
| Protocol.HandleMessage | tmate-decoder.c:209-223 | handle_message; Messages.HandleMessageDispatch states the dispatch and its failures |
| Protocol.HandleAll | tmate-decoder.c:232-234 | the messages in arrival order, stopping at the first failure; Messages.HandleAllAppend states how batches compose |
| Protocol.Commit | tmate-decoder.c:225-241 | tmate_decoder_commit; Messages.CommitOrder states that the size check follows the handling of the complete messages |
| Invariants.LiveMembers | tmate-decoder.c:139-142 | the sweep keeps exactly the listed panes without PANE_KILL |
| Invariants.LiveNotKilled | tmate-decoder.c:139-142 | a pane the sweep keeps was listed and not marked |
| Invariants.LiveNoDup | tmate-decoder.c:139-142 | the swept list has no repeated pane |
| Invariants.SweepStep | tmate-decoder.c:139-142 | one step of the sweep destroys the current pane exactly when it is marked, and it was not destroyed before |
| Invariants.KeptStep | tmate-decoder.c:139-142 | one step of the sweep extends the kept prefix by the current pane exactly when it is not marked |
| Invariants.MarkValid | tmate-decoder.c:114-115 | marking keeps the tmux state well formed |
| Invariants.AppendNoDup | tmate-decoder.c:127 | adding a new id to the list, as window_add_pane does, keeps the list free of repeats |
| Invariants.MergeSpecValid | tmate-decoder.c:124-136 | one merge step keeps the state well formed |
| Invariants.MergeSpecsValid | tmate-decoder.c:117-137 | the merge keeps the state well formed |
| Invariants.MergeValuesValid | tmate-decoder.c:117-137 | the merge over raw elements, even when it stops at a bad one, keeps the state well formed |
| Invariants.SweepValid | tmate-decoder.c:139-142 | the sweep keeps the state well formed: no listed pane is left unregistered and no active pane is left unlisted |
| Invariants.SelectActiveValid | tmate-decoder.c:144-147 | the final selection keeps the state well formed |
| Invariants.SyncWindowPanesValid | tmate-decoder.c:107-148 | tmate_sync_window_panes keeps the state well formed on every path |
| Invariants.RetitleValid | tmate-decoder.c:179-182 | renaming and resizing a window keeps the state well formed |
| Invariants.AddWindowValid | tmate-decoder.c:170-176 | adding a window without panes keeps the state well formed |
| Invariants.SyncWindowHeadValid | tmate-decoder.c:157-182 | session creation, window creation, name and size keep the state well formed |
| Invariants.PtyDataValid | tmate-decoder.c:189-207 | pty data keeps the state well formed |
| Invariants.HandleMessageValid | tmate-decoder.c:209-223 | every message, accepted or not, keeps the state well formed |
| Invariants.RealizesValid | tmate-decoder.c:139-142 | a state that differs from a well-formed one only in the choice of active pane after a removal is well formed |
| Refinement.RealizesRefl | tmate-decoder.c:139-142 | every state realizes itself |
| Refinement.RealizesTrans | tmate-decoder.c:139-142 | realizing composes |
| Refinement.SameLists | tmate-decoder.c:139-142 | a realizing state has the same pane lists as the reference |
| Refinement.MarkRealizes | tmate-decoder.c:114-115 | marking two related states gives related states |
| Refinement.MergeSpecRealizes | tmate-decoder.c:124-136 | one merge step on related states gives related states |
| Refinement.MergeValuesRealizes | tmate-decoder.c:117-137 | the merge on related states gives related states and the same status |
| Refinement.SweepRealizes | tmate-decoder.c:139-142 | the sweep on related states gives related states |
| Refinement.SelectActiveRealizes | tmate-decoder.c:144-147 | the final selection on related states gives related states |
| Refinement.SyncWindowPanesRealizes | tmate-decoder.c:107-148 | tmate_sync_window_panes on related states gives related states and the same status |
| Refinement.SyncWindowHeadRealizes | tmate-decoder.c:157-182 | the head of a sync on related states gives related states |
| Refinement.PtyDataRealizes | tmate-decoder.c:189-207 | pty data on related states gives related states and the same status |
| Refinement.HandleMessageRealizes | tmate-decoder.c:209-223 | a message on related states gives related states and the same status |
| Refinement.HandleAllRealizes | tmate-decoder.c:232-234 | a batch of messages on related states gives related states and the same status |
| Reconciliation.IdsCons | tmate-decoder.c:117-118 | the ids of a list are its head's id and the ids of its tail |
| Reconciliation.CreatedMembers | tmate-decoder.c:124-129 | the merge creates exactly the listed ids that were not registered, each once |
| Reconciliation.MergeRegistry | tmate-decoder.c:117-137 | after the merge every listed id is registered and has the geometry of its last list element, PANE_KILL cleared and PANE_REDRAW set; every other pane is unchanged and no other pane appears |
| Reconciliation.MergeWindow | tmate-decoder.c:124-129 | the merge adds the created panes to the window's list in creation order (at the tail, as AddPane models window_add_pane) and the last one created is active (the old active pane if none is created) |
| Reconciliation.MarkedBase | tmate-decoder.c:114-136 | marking a pane does not change what the merge makes of it |
| Reconciliation.MarkMerge | tmate-decoder.c:114-137 | after mark and merge, listed panes are placed and unmarked, the window's other panes are still marked, other windows' unlisted panes are untouched |
| Reconciliation.MarkMergeList | tmate-decoder.c:114-137 | after mark and merge the window lists its old panes then the created ones (tail insertion, as AddPane models it), and PANE_KILL is set exactly on the unlisted ones |
| Reconciliation.SweepMarked | tmate-decoder.c:139-142 | the sweep of a list marked exactly where unlisted destroys exactly the unlisted old panes and keeps exactly the listed ones |
| Reconciliation.MarkMergeSweep | tmate-decoder.c:114-142 | after mark, merge and sweep, exactly the window's unlisted panes are destroyed and the window has exactly its listed old panes and the created ones |
| Reconciliation.ReconcileRegistry | tmate-decoder.c:114-147 | after a successful reconciliation the registry holds exactly the listed ids and the other windows' panes. Listed panes have their last element's geometry, PANE_KILL cleared and PANE_REDRAW set; other panes are untouched. The window has exactly the listed ids that are new or already its own |
| Reconciliation.SelectListed | tmate-decoder.c:144-147 | in a well-formed state the trailing id is selected exactly when it is one of the window's panes; otherwise the active pane stays |
| Reconciliation.SweptActive | tmate-decoder.c:124-142 | before the final selection, the active pane is the last one created, otherwise the old active pane if it was listed, otherwise none |
| Reconciliation.ReconcileActive | tmate-decoder.c:124-147 | after reconciliation the active pane is the trailing id if it ended up in the window, otherwise the last pane created, otherwise the old active pane if it survived, otherwise none |
| Reconciliation.ReconcileValid | tmate-decoder.c:114-147 | reconciliation keeps the state well formed |
| Reconciliation.LiveAll | tmate-decoder.c:139-142 | a sweep that finds nothing marked keeps the list unchanged |
| Reconciliation.ReconcileEmptyWindow | tmate-decoder.c:114-147 | a window without panes ends up with exactly the panes the merge creates, in creation order |
| Reconciliation.CreatedNone | tmate-decoder.c:124-129 | when every listed id is registered the merge creates nothing |
| Reconciliation.ReconcileKeepsOrder | tmate-decoder.c:114-147 | if the list names every pane of the window and only registered panes, the window's pane order is unchanged |
| Reconciliation.PanesFixpoint | tmate-decoder.c:117-142 | the registry description of ReconcileRegistry applied twice gives the same registry |
| Reconciliation.IdempotentPanes | tmate-decoder.c:114-147 | reconciling again with the same list gives the same registry |
| Reconciliation.IdempotentWindow | tmate-decoder.c:114-147 | reconciling again with the same list gives the same window: same pane order, same active pane |
| Reconciliation.ReconcileIdempotent | tmate-decoder.c:114-147 | reconciling a window twice against the same list and active id gives the same state as once |
| Reconciliation.LastSpecIn | tmate-decoder.c:117-137 | the winning element for an id is in the list and has that id, and in a list without repeated ids it is the only such element |
| Reconciliation.SameSpecs | tmate-decoder.c:117-137 | two reorderings of a list without repeated ids name the same ids with the same geometry |
| Reconciliation.SameIds | tmate-decoder.c:117-137 | two lists holding the same elements in any order name the same pane ids |
| Reconciliation.ReorderPanes | tmate-decoder.c:114-147 | any reordering of the list, repeated ids included, gives the same registry ids, the same set of window panes and, when the trailing id ends up in the window, the same active pane |
| Reconciliation.PermutationRegistry | tmate-decoder.c:114-147 | reordering a list without repeated ids changes neither the registry nor the set of the window's panes |
| Reconciliation.ReconcilePermutation | tmate-decoder.c:114-147 | reordering a list without repeated ids gives the same registry, the same set of window panes and, when the trailing id ends up in the window, the same active pane |
| Messages.ParseAll | tmate-decoder.c:117-122 | the whole pane list parses exactly when every element parses, and then gives each element's spec in order |
| Messages.MergeValuesParsed | tmate-decoder.c:117-137 | the merge over raw elements succeeds exactly when the whole list parses and is then the merge of the parsed list; otherwise it fails with the first bad element's error |
| Messages.SyncWindowPanesPhases | tmate-decoder.c:107-148 | a missing list leaves the panes marked. With a good list and active id the result is the reconciliation. A missing or non-integer active id fails after the sweep, so the unlisted panes are already destroyed |
| Messages.ParseSyncHeadFields | tmate-decoder.c:157-160 | a sync head is accepted exactly when it is integer, raw, integer, integer; it gives the narrowed id and sizes and the name with a NUL appended |
| Messages.SyncWindowEffects | tmate-decoder.c:150-184 | a sync whose head parses sets the session size and the window's name and size, creates the window if its index is new, and leaves every other window unchanged whatever the pane list does; a bad head fails with the state unchanged |
| Messages.SyncNewWindow | tmate-decoder.c:170-184 | a successful sync of a new window gives it exactly the listed ids that were not registered, in list order |
| Messages.SyncHeadSame | tmate-decoder.c:162-182 | a head repeating the session size and the window's name and size changes nothing |
| Messages.SyncWindowIdempotent | tmate-decoder.c:150-187 | handling a successful sync message's fields a second time gives the same state and status |
| Messages.SyncMessageIdempotent | tmate-decoder.c:209-223 | receiving a successful sync message twice leaves the state as receiving it once |
| Messages.PtyDataEffects | tmate-decoder.c:189-207 | pty data succeeds exactly when its fields are an integer and a raw and the pane exists. It then appends exactly the bytes to that pane's input and sets WINDOW_SILENCE on its window, changing nothing else. An unknown pane fails with UnknownPane and no change |
| Messages.HeaderAccepts | tmate-decoder.c:95-103 | the header never changes the state and is accepted exactly when its field is an integer whose narrowed value is 1; any other integer fails with BadProtocol |
| Messages.HeaderWraps | tmate-decoder.c:97-100 | the narrowing makes 2^32 + 1 pass the protocol check, while 2 fails |
| Messages.HandleMessageDispatch | tmate-decoder.c:209-223 | a non-array, an empty array, a non-integer opcode and an unknown opcode fail without changing the state; opcodes 1, 2, 3 go to the header, sync and pty-data handlers with the remaining fields |
| Messages.HandleAllAppend | tmate-decoder.c:232-234 | handling a batch in two parts is handling the first part, then, if it succeeded, the second from where it left off |
| Messages.CommitOrder | tmate-decoder.c:225-241 | commit handles all complete messages before checking the pending size; a too-large pending message fails with TooLarge only after they have taken effect |
| Messages.ExampleHead | tmate-decoder.c:157-160 | the example sync's head parses to window 0, name "w" with NUL, size 80x24 |
| Messages.ExampleList | tmate-decoder.c:117-122 | the example pane list parses to panes 2 and 4 with their geometry |
| Messages.ExampleSpecs | tmate-decoder.c:117-137 | the example list names panes 2 and 4, each once |
| Messages.ExampleRegistry | tmate-decoder.c:114-142 | with window 0 holding panes 1, 2, 3, syncing to 2 and 4 destroys 1 and 3, resizes 2 and creates 4 with the listed geometry |
| Messages.ExampleWindow | tmate-decoder.c:124-147 | in that example the window ends with panes 2 and 4, and 4 is active |
| Messages.ExampleOutcome | tmate-decoder.c:209-223 | the example message is dispatched as a sync that reconciles window 0 against the list with active id 4 |
| Messages.ExampleSync | tmate-decoder.c:150-187 | the example message, end to end: panes 1 and 3 gone, 2 resized, 4 created and active |
| Decoder.UnpackPaneSpec | tmate-decoder.c:118-122 | the five unpack_int calls of an element give what ParsePaneSpec gives for that element |
| Decoder.SweepPanes | tmate-decoder.c:139-142 | the sweep loop keeps exactly the unmarked listed panes in order and removes exactly the marked ones from the registry. A surviving active pane stays active; any other choice is a listed pane or none |
| Decoder.Mirror.constructor | tmate-decoder.c:3 | before any message there is no session, no window and no pane |
| Decoder.Mirror.MarkWindow | tmate-decoder.c:114-115 | the first pass leaves the state Mark describes |
| Decoder.Mirror.MergePane | tmate-decoder.c:124-136 | one merge step leaves the state MergeSpec describes |
| Decoder.Mirror.MergeList | tmate-decoder.c:117-137 | the unpack_each loop leaves the state and status MergeValues describes |
| Decoder.Mirror.SweepWindow | tmate-decoder.c:139-142 | the removal pass leaves a state that realizes Sweep |
| Decoder.Mirror.SelectListedActive | tmate-decoder.c:144-147 | popping the trailing id and selecting it leaves the state and status of the final phase |
| Decoder.Mirror.SyncWindowPanes | tmate-decoder.c:107-148 | tmate_sync_window_panes leaves a state realizing the reference, with the reference's status |
| Decoder.Mirror.SyncWindow | tmate-decoder.c:150-187 | tmate_sync_window leaves a state realizing the reference, with the reference's status |
| Decoder.Mirror.PtyData | tmate-decoder.c:189-207 | tmate_pty_data leaves exactly the reference state and status |
| Decoder.Mirror.Header | tmate-decoder.c:95-103 | tmate_header changes no tmux state and has the reference's status |
| Decoder.Mirror.HandleMessage | tmate-decoder.c:209-223 | handle_message keeps the state well formed and leaves a state realizing the reference, with its status |
| Decoder.Mirror.Commit | tmate-decoder.c:225-241 | tmate_decoder_commit handles the messages in order and, if all succeed, fails when the pending size is over the limit; the state realizes Commit's and keeps Valid |

## Left out

- MessagePack framing and buffer management are not modelled. This covers
  `msgpack_unpacker_buffer_consumed`, `msgpack_unpacker_next`,
  `tmate_decoder_get_buffer` and `tmate_decoder_init`
  (tmate-decoder.c:229-231, 243-260). They are calls into libmsgpack, whose
  code is not part of this model.
  - `Commit` takes the sequence of already-decoded messages and the size of
    the incomplete message as parameters.
  - Independence of how the bytes were chunked is not claimed.
- The constants in `tmate.h` are not part of this model.
  - The opcode values are assumed: header 1, sync window 2, pty data 3.
  - `TMATE_MAX_MESSAGE_SIZE` is a parameter of `Commit`.
  - `TMATE_HLIMIT` (the history limit of a new pane) is not modelled.
- Aborting with `decoder_error` or `tmate_fatal`, the trace and the debug
  log (tmate-decoder.c:10-16, 102) become a `Failed(error)` status. The
  state returned with it is the partial state at the point of the abort.
  Nothing is modelled after it, because the process exits.
- tmux internals are modelled only by their effect on the mirrored state.
  - `session_create` creates the session only when there is none. Its name,
    command and the failure to create it (tmate-decoder.c:163-166) are not
    modelled.
  - `session_new` also spawns a shell pane in the new window. That pane is
    not modelled: the new window starts with no panes. The shell pane takes
    the id in `next_window_pane_id`. If the master lists that id, line 124
    finds the pane instead of creating it, so it comes first in the window's
    list and line 128 does not make it active. The list order and the
    provisional active pane stated by Messages.SyncNewWindow rest on this
    omission as well as on the tail insertion of Protocol.AddPane. The failure
    of `session_new` (tmate-decoder.c:173-174, `tmate_fatal`) is not modelled
    either.
  - Which window `session_select` makes current is not modelled.
  - `window_remove_pane` picks another active pane when it removes the
    active one. The reference functions choose none there. The class
    allows any pane the window still lists, or none. `Realizes` relates
    the two.
  - `window_pane_resize` is modelled as setting `sx`/`sy`; terminal resizing
    is not.
  - `server_redraw_window`, rendering, and the interpretation of pane output
    by `input_parse` are not modelled. A pane's input is every byte
    `evbuffer_add` delivered to it.
  - `next_window_pane_id` is not modelled beyond giving the new pane the
    listed id.
- The conversion of narrowed `int` values to `u_int` is not modelled. This
  covers the id passed to the pane lookup, and `sx`, `sy`, `xoff` and `yoff`,
  which reach `w->sx`, `w->sy`, `wp->xoff`, `wp->yoff` and the parameters of
  `window_pane_resize` and `session_create`. The conversion is one-to-one, so
  the model keeps every one of them as a 32-bit `int`.
- Protocol.SyncWindowHead: `session_new` is modelled as placing the new
  window at index `id`. tmux's `winlink_add` does that only for `id >= 0`.
  For a negative index it uses the first free index at or above `-id-1`, so a
  window created for a negative id never sits at `id`. Every later sync with
  that id then misses at tmate-decoder.c:170 and creates yet another window.
  The window-index statements are therefore exact only for non-negative ids.
  These are Messages.SyncWindowEffects (`windows.Keys == old + {h.id}`),
  Messages.SyncNewWindow, Messages.SyncWindowIdempotent and
  Messages.SyncMessageIdempotent. The relocation belongs to tmux, whose code
  is not part of this model.
- Protocol.AddPane: `window_add_pane` (tmate-decoder.c:127) is modelled as
  inserting the new pane at the tail of the window's list. Where it goes is
  decided by tmux, not by this file, and some tmux versions insert it after
  the active pane instead. The order statements of
  Reconciliation.MergeWindow, Reconciliation.MarkMergeList,
  Reconciliation.ReconcileEmptyWindow, Messages.SyncNewWindow and
  Messages.ExampleWindow rest on this. The statements about which panes a
  window holds do not, nor do ReconcileKeepsOrder and IdempotentWindow,
  where nothing is created.
- `xmalloc`/`free` of the window name and allocation failure are not
  modelled. The name is kept as a byte sequence with its NUL terminator.
- Decoder.Mirror.SweepWindow: stated up to `Realizes`, because which pane tmux makes active after removing the active one is not part of this model.
- Decoder.Mirror.SyncWindowPanes: stated up to `Realizes`, for the same reason.
- Decoder.Mirror.SyncWindow: stated up to `Realizes`, for the same reason.
- Decoder.Mirror.HandleMessage: stated up to `Realizes`, for the same reason.
- Decoder.Mirror.Commit: stated up to `Realizes`, for the same reason.
