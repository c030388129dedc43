/** The decoder's handlers as functions from the state before a message to
    the state after it and a status.  On an error the state is the one the
    handler had reached when the failing pop or lookup happened, since
    tmate-decoder.c aborts at that point without undoing anything. */
module Protocol {
  import opened Wrappers
  import opened Values
  import opened Cursor
  import opened MuxState

  /** Opcodes and the one protocol version accepted. */
  const TMATE_HEADER: int64 := 1
  const TMATE_SYNC_WINDOW: int64 := 2
  const TMATE_PTY_DATA: int64 := 3
  const PROTOCOL_VERSION: int32 := 1

  datatype Outcome = Outcome(st: State, status: Status)

  /** One element of a window sync's pane list, fields in wire order. */
  datatype PaneSpec = PaneSpec(id: int32, sx: int32, sy: int32, xoff: int32, yoff: int32)

  /** The five unpack_int calls on one pane-list element. */
  function ParsePaneSpec(v: Value): (r: Result<PaneSpec>)
    ensures r.Ok? <==> v.Array? && |v.items| >= 5
                       && forall i | 0 <= i < 5 :: v.items[i].IsInteger()
    ensures r.Ok? ==> r.value == PaneSpec(ToInt32(AsInt64(v.items[0])), ToInt32(AsInt64(v.items[1])),
                                          ToInt32(AsInt64(v.items[2])), ToInt32(AsInt64(v.items[3])),
                                          ToInt32(AsInt64(v.items[4])))
  {
    if !v.Array? then Err(WrongType)
    else
      var id :- PopInt(v.items);
      var sx :- PopInt(id.1);
      var sy :- PopInt(sx.1);
      var xoff :- PopInt(sy.1);
      var yoff :- PopInt(xoff.1);
      assert v.items[1..] == id.1 && v.items[2..] == sx.1 && v.items[3..] == sy.1 && v.items[4..] == xoff.1;
      Ok(PaneSpec(ToInt32(id.0), ToInt32(sx.0), ToInt32(sy.0), ToInt32(xoff.0), ToInt32(yoff.0)))
  }

  /* ---- mark ---- */

  /** wp->flags |= PANE_KILL on the pane with id `p`. */
  function SetKill(P: map<int32, Pane>, p: int32): map<int32, Pane>
  {
    if p in P then P[p := P[p].(kill := true)] else P
  }

  /** The first TAILQ_FOREACH: PANE_KILL on every pane of the list `ids`. */
  function MarkPanes(P: map<int32, Pane>, ids: seq<int32>): (r: map<int32, Pane>)
    ensures r.Keys == P.Keys
    ensures forall p | p in r :: r[p] == if p in ids then P[p].(kill := true) else P[p]
    decreases |ids|
  {
    if ids == [] then P else MarkPanes(SetKill(P, ids[0]), ids[1..])
  }

  function Mark(st: State, w: int32): State
    requires w in st.windows
  {
    st.(panes := MarkPanes(st.panes, st.windows[w].panes))
  }

  /* ---- merge ---- */

  /** The pane window_add_pane creates in window `w` (it takes the window's
      size; everything else starts empty). */
  function NewPane(w: int32, win: Window): Pane
  {
    Pane(w, win.sx, win.sy, 0, 0, false, false, [])
  }

  /** window_add_pane with next_window_pane_id set to `id`, followed by
      window_set_active_pane on the new pane. */
  function AddPane(st: State, w: int32, id: int32): State
    requires w in st.windows
  {
    var win := st.windows[w];
    st.(panes := st.panes[id := NewPane(w, win)],
        windows := st.windows[w := win.(panes := win.panes + [id], active := Some(id))])
  }

  /** The loop body of the merge for one parsed element: find the pane by id
      anywhere, create it in `w` if there is none, then clear PANE_KILL, set
      the offsets and size and set PANE_REDRAW. */
  function MergeSpec(st: State, w: int32, s: PaneSpec): (r: State)
    requires w in st.windows
    ensures r.session == st.session && w in r.windows
    ensures r.windows == st.windows[w := st.windows[w].(panes := r.windows[w].panes, active := r.windows[w].active)]
  {
    var st1 := if s.id in st.panes then st else AddPane(st, w, s.id);
    var p := st1.panes[s.id];
    st1.(panes := st1.panes[s.id := p.(kill := false, xoff := s.xoff, yoff := s.yoff,
                                       sx := s.sx, sy := s.sy, redraw := true)])
  }

  /** The merge over already-parsed elements, in list order. */
  function MergeSpecs(st: State, w: int32, specs: seq<PaneSpec>): (r: State)
    requires w in st.windows
    ensures r.session == st.session && w in r.windows
    ensures r.windows == st.windows[w := st.windows[w].(panes := r.windows[w].panes, active := r.windows[w].active)]
    decreases |specs|
  {
    if specs == [] then st else MergeSpecs(MergeSpec(st, w, specs[0]), w, specs[1..])
  }

  /** The unpack_each loop of the merge over the raw list elements: each is
      parsed when its turn comes, so a bad element stops the loop after the
      elements before it have been merged. */
  function MergeValues(st: State, w: int32, elems: seq<Value>): (r: Outcome)
    requires w in st.windows
    ensures r.st.session == st.session && w in r.st.windows
    ensures r.st.windows == st.windows[w := st.windows[w].(panes := r.st.windows[w].panes,
                                                           active := r.st.windows[w].active)]
    decreases |elems|
  {
    if elems == [] then Outcome(st, Done)
    else match ParsePaneSpec(elems[0])
      case Err(e) => Outcome(st, Failed(e))
      case Ok(s) => MergeValues(MergeSpec(st, w, s), w, elems[1..])
  }

  /* ---- sweep ---- */

  predicate Killed(P: map<int32, Pane>, p: int32)
  {
    p in P && P[p].kill
  }

  /** The panes of `ids` that the sweep keeps, in order. */
  function Live(P: map<int32, Pane>, ids: seq<int32>): seq<int32>
    decreases |ids|
  {
    if ids == [] then []
    else (if Killed(P, ids[0]) then [] else [ids[0]]) + Live(P, ids[1..])
  }

  /** The panes of `ids` that the sweep removes. */
  function Doomed(P: map<int32, Pane>, ids: seq<int32>): set<int32>
  {
    set p | p in ids && Killed(P, p)
  }

  /** TAILQ_FOREACH_SAFE with window_remove_pane on every pane of `w` that
      still has PANE_KILL.  A removed active pane leaves the window without
      one here; see Realizes. */
  function Sweep(st: State, w: int32): (r: State)
    requires w in st.windows
    ensures r.session == st.session && w in r.windows
    ensures r.windows == st.windows[w := st.windows[w].(panes := r.windows[w].panes, active := r.windows[w].active)]
  {
    var win := st.windows[w];
    var kept := Live(st.panes, win.panes);
    st.(panes := st.panes - Doomed(st.panes, win.panes),
        windows := st.windows[w := win.(panes := kept,
                                        active := if win.active.Some? && win.active.value in kept
                                                  then win.active else None)])
  }

  /* ---- active pane ---- */

  /** window_set_active_pane on the pane `aid`, if it exists and is in `w`. */
  function SelectActive(st: State, w: int32, aid: int32): (r: State)
    requires w in st.windows
    ensures r.session == st.session && w in r.windows
    ensures r.windows == st.windows[w := st.windows[w].(panes := r.windows[w].panes, active := r.windows[w].active)]
  {
    if aid in st.panes && st.panes[aid].window == w
    then st.(windows := st.windows[w := st.windows[w].(active := Some(aid))])
    else st
  }

  /** The four phases on a parsed list and active id. */
  function Reconcile(st: State, w: int32, specs: seq<PaneSpec>, aid: int32): (r: State)
    requires w in st.windows
    ensures r.session == st.session && w in r.windows
    ensures r.windows == st.windows[w := st.windows[w].(panes := r.windows[w].panes, active := r.windows[w].active)]
  {
    SelectActive(Sweep(MergeSpecs(Mark(st, w), w, specs), w), w, aid)
  }

  /** tmate_sync_window_panes on the remaining fields `rest` of a sync
      message: mark, pop the pane list, merge, sweep, and only then pop the
      active pane id. */
  function SyncWindowPanes(st: State, w: int32, rest: seq<Value>): (r: Outcome)
    requires w in st.windows
    ensures r.st.session == st.session && w in r.st.windows
    ensures r.st.windows == st.windows[w := st.windows[w].(panes := r.st.windows[w].panes,
                                                           active := r.st.windows[w].active)]
  {
    var marked := Mark(st, w);
    match PopArray(rest)
    case Err(e) => Outcome(marked, Failed(e))
    case Ok(list) =>
      var merged := MergeValues(marked, w, list.0);
      if merged.status.Failed? then merged
      else
        var swept := Sweep(merged.st, w);
        match PopInt(list.1)
        case Err(e) => Outcome(swept, Failed(e))
        case Ok(aid) => Outcome(SelectActive(swept, w, ToInt32(aid.0)), Done)
  }

  /* ---- window sync ---- */

  /** The four leading fields of a sync message: id, name, sx, sy. */
  datatype SyncHead = SyncHead(id: int32, name: seq<byte>, sx: int32, sy: int32)

  function ParseSyncHead(rest: seq<Value>): Result<(SyncHead, seq<Value>)>
  {
    var id :- PopInt(rest);
    var name :- PopString(id.1);
    var sx :- PopInt(name.1);
    var sy :- PopInt(sx.1);
    Ok((SyncHead(ToInt32(id.0), name.0, ToInt32(sx.0), ToInt32(sy.0)), sy.1))
  }

  /** The window session_new creates (named, sized like the session, no panes). */
  function NewWindow(name: seq<byte>, size: Size): Window
  {
    Window(name, size.sx, size.sy, [], None, false)
  }

  /** Session, window, name and size updates of tmate_sync_window, before the
      pane list is handled. */
  function SyncWindowHead(st: State, h: SyncHead): (r: State)
    ensures h.id in r.windows
  {
    var s1 := if st.session.None? then st.(session := Some(Size(h.sx, h.sy))) else st;
    var s2 := if h.id in s1.windows then s1
              else s1.(windows := s1.windows[h.id := NewWindow(h.name, s1.session.value)]);
    s2.(session := Some(Size(h.sx, h.sy)),
        windows := s2.windows[h.id := s2.windows[h.id].(name := h.name, sx := h.sx, sy := h.sy)])
  }

  /** tmate_sync_window */
  function SyncWindow(st: State, rest: seq<Value>): Outcome
  {
    match ParseSyncHead(rest)
    case Err(e) => Outcome(st, Failed(e))
    case Ok(p) => SyncWindowPanes(SyncWindowHead(st, p.0), p.0.id, p.1)
  }

  /* ---- pty data and header ---- */

  /** tmate_pty_data: both fields are popped before the pane is looked up. */
  function PtyData(st: State, rest: seq<Value>): (r: Outcome)
    ensures r.st.session == st.session && r.st.panes.Keys == st.panes.Keys
    ensures r.st.windows.Keys == st.windows.Keys
  {
    match PopInt(rest)
    case Err(e) => Outcome(st, Failed(e))
    case Ok(id) =>
      match PopRaw(id.1)
      case Err(e) => Outcome(st, Failed(e))
      case Ok(data) =>
        var pid := ToInt32(id.0);
        if pid !in st.panes then Outcome(st, Failed(UnknownPane))
        else
          var p := st.panes[pid];
          var st1 := st.(panes := st.panes[pid := p.(input := p.input + data.0)]);
          if p.window in st1.windows
          then Outcome(st1.(windows := st1.windows[p.window := st1.windows[p.window].(silence := true)]), Done)
          else Outcome(st1, Done)
  }

  /** tmate_header: the protocol number is checked after narrowing to int. */
  function Header(st: State, rest: seq<Value>): (r: Outcome)
    ensures r.st == st
  {
    match PopInt(rest)
    case Err(e) => Outcome(st, Failed(e))
    case Ok(v) => if ToInt32(v.0) == PROTOCOL_VERSION then Outcome(st, Done)
                  else Outcome(st, Failed(BadProtocol))
  }

  /* ---- dispatch ---- */

  /** handle_message */
  function HandleMessage(st: State, obj: Value): Outcome
  {
    if !obj.Array? then Outcome(st, Failed(WrongType))
    else match PopInt(obj.items)
      case Err(e) => Outcome(st, Failed(e))
      case Ok(cmd) =>
        if cmd.0 == TMATE_HEADER then Header(st, cmd.1)
        else if cmd.0 == TMATE_SYNC_WINDOW then SyncWindow(st, cmd.1)
        else if cmd.0 == TMATE_PTY_DATA then PtyData(st, cmd.1)
        else Outcome(st, Failed(UnknownOpcode))
  }

  /** Each decoded message in arrival order, stopping at the first failure. */
  function HandleAll(st: State, msgs: seq<Value>): Outcome
    decreases |msgs|
  {
    if msgs == [] then Outcome(st, Done)
    else
      var o := HandleMessage(st, msgs[0]);
      if o.status.Failed? then o else HandleAll(o.st, msgs[1..])
  }

  /** tmate_decoder_commit, on the messages the framing layer cut off and the
      size of the still-incomplete message it reports afterwards. */
  function Commit(st: State, msgs: seq<Value>, pending: nat, maxSize: nat): Outcome
  {
    var o := HandleAll(st, msgs);
    if o.status.Failed? then o
    else if pending > maxSize then Outcome(o.st, Failed(TooLarge))
    else o
  }
}
