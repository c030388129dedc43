/** The handlers of tmate-decoder.c as they run: they pop fields off a
    cursor and update the mirrored tmux state in place.  Each is proved to
    produce the result its reference function in Protocol describes. */
module Decoder {
  import opened Wrappers
  import opened Values
  import opened Cursor
  import opened MuxState
  import opened Protocol
  import Invariants
  import Refinement

  /** The five unpack_int calls of one pane-list element, on a cursor that
      init_unpacker has just pointed at the element. */
  method UnpackPaneSpec(uk: Unpacker) returns (r: Result<PaneSpec>)
    requires uk.Valid()
    modifies uk
    ensures uk.Valid()
    ensures r == ParsePaneSpec(Array(old(uk.Rest())))
  {
    ghost var s := uk.Rest();
    var id := uk.UnpackInt();
    if id.Err? { return Err(id.error); }
    var sx := uk.UnpackInt();
    if sx.Err? { return Err(sx.error); }
    var sy := uk.UnpackInt();
    if sy.Err? { return Err(sy.error); }
    var xoff := uk.UnpackInt();
    if xoff.Err? { return Err(xoff.error); }
    var yoff := uk.UnpackInt();
    if yoff.Err? { return Err(yoff.error); }
    r := Ok(PaneSpec(ToInt32(id.value), ToInt32(sx.value), ToInt32(sy.value),
                     ToInt32(xoff.value), ToInt32(yoff.value)));
  }

  /** The loop of the third pass over the pane list `ps` of one window,
      with the registry `P` and the window's active pane `a0`: each pane
      still marked is removed.  When the active pane is removed, tmux picks
      another one; here that is any pane the window still lists, or none. */
  method SweepPanes(P: map<int32, Pane>, ps: seq<int32>, a0: Option<int32>)
    returns (kept: seq<int32>, remaining: map<int32, Pane>, active: Option<int32>)
    requires NoDup(ps)
    requires a0.None? || a0.value in ps
    ensures kept == Live(P, ps)
    ensures remaining == P - Doomed(P, ps)
    ensures a0.Some? && a0.value in kept ==> active == a0
    ensures active.None? || active.value in kept
  {
    remaining := P;
    active := a0;
    kept := [];
    ghost var gone: set<int32> := {};
    var i := 0;
    while i < |ps|
      invariant 0 <= i <= |ps|
      invariant kept + Live(P, ps[i..]) == Live(P, ps)
      invariant remaining == P - gone && gone == Doomed(P, ps[..i])
      invariant a0.Some? && a0.value in Live(P, ps) ==> active == a0
      invariant active.None? || active.value in kept + ps[i..]
    {
      var p := ps[i];
      Invariants.SweepStep(P, ps, i);
      Invariants.KeptStep(P, ps, i, kept);
      if p in remaining && remaining[p].kill {
        if a0.Some? && a0.value in Live(P, ps) {
          Invariants.LiveNotKilled(P, ps, a0.value);
        }
        remaining := remaining - {p};
        gone := gone + {p};
        if active == Some(p) {
          active :| active.None? || active.value in kept + ps[i + 1..];
        }
      } else {
        kept := kept + [p];
      }
      assert ps[i..] == [p] + ps[i + 1..];
      i := i + 1;
    }
    assert ps[..i] == ps && ps[i..] == [];
  }

  /** The tmux server state the decoder mirrors: main_session (with its
      size), the session's windows by index, and all panes by id. */
  class Mirror {
    var session: Option<Size>
    var windows: map<int32, Window>
    var panes: map<int32, Pane>

    function Snapshot(): State
      reads this
    {
      State(session, windows, panes)
    }

    /** No session, windows or panes before the first message. */
    constructor ()
      ensures Snapshot() == INITIAL
    {
      session, windows, panes := None, map[], map[];
    }

    /** First pass of tmate_sync_window_panes: PANE_KILL on every pane of
        window `w`. */
    method MarkWindow(w: int32)
      requires w in windows
      modifies this
      ensures Snapshot() == Mark(old(Snapshot()), w)
    {
      ghost var st0 := Snapshot();
      var ids := windows[w].panes;
      var i := 0;
      while i < |ids|
        invariant 0 <= i <= |ids|
        invariant session == st0.session && windows == st0.windows
        invariant MarkPanes(panes, ids[i..]) == MarkPanes(st0.panes, ids)
      {
        if ids[i] in panes {
          panes := panes[ids[i] := panes[ids[i]].(kill := true)];
        }
        assert ids[i..][1..] == ids[i + 1..];
        i := i + 1;
      }
    }

    /** The loop body of the second pass, for one parsed element. */
    method MergePane(w: int32, spec: PaneSpec)
      requires w in windows
      modifies this
      ensures Snapshot() == MergeSpec(old(Snapshot()), w, spec)
    {
      var id := spec.id;
      if id !in panes {
        panes := panes[id := NewPane(w, windows[w])];
        windows := windows[w := windows[w].(panes := windows[w].panes + [id], active := Some(id))];
      }
      panes := panes[id := panes[id].(kill := false, xoff := spec.xoff, yoff := spec.yoff,
                                       sx := spec.sx, sy := spec.sy, redraw := true)];
    }

    /** Second pass: the unpack_each loop over the pane list `tmp`.  Each
        element's pane is found by id among all panes, or created in `w` and
        made active; it then loses PANE_KILL, takes the listed offsets and
        size, and gains PANE_REDRAW. */
    method MergeList(w: int32, tmp: Unpacker) returns (r: Status)
      requires w in windows && tmp.Valid()
      modifies this, tmp
      ensures Snapshot() == MergeValues(old(Snapshot()), w, old(tmp.Rest())).st
      ensures r == MergeValues(old(Snapshot()), w, old(tmp.Rest())).status
    {
      ghost var goal := MergeValues(Snapshot(), w, tmp.Rest());
      var uk := new Unpacker();
      r := Done;
      while tmp.Argc() > 0
        invariant tmp.Valid() && uk.Valid() && w in windows && r == Done
        invariant MergeValues(Snapshot(), w, tmp.Rest()) == goal
        decreases tmp.Argc()
      {
        ghost var elems := tmp.Rest();
        ghost var elem := elems[0];
        r := uk.Init(tmp.items[tmp.pos]);
        if r.Failed? {
          assert ParsePaneSpec(elem) == Err(WrongType);
          return;
        }
        assert Array(uk.Rest()) == elem;
        var spec := UnpackPaneSpec(uk);
        if spec.Err? {
          return Failed(spec.error);
        }
        ghost var cur := Snapshot();
        MergePane(w, spec.value);
        tmp.Skip();
        assert MergeValues(cur, w, elems) == MergeValues(Snapshot(), w, tmp.Rest());
      }
    }

    /** Third pass: window_remove_pane on every pane of `w` still marked. */
    method SweepWindow(w: int32)
      requires w in windows && NoDup(windows[w].panes)
      requires windows[w].active.None? || windows[w].active.value in windows[w].panes
      modifies this
      ensures Realizes(Snapshot(), Sweep(old(Snapshot()), w))
    {
      var kept, remaining, active := SweepPanes(panes, windows[w].panes, windows[w].active);
      panes := remaining;
      windows := windows[w := windows[w].(panes := kept, active := active)];
    }

    /** Last step of tmate_sync_window_panes: pop the active pane id and make
        that pane active if it is one of window `w`'s. */
    method SelectListedActive(w: int32, wuk: Unpacker) returns (r: Status)
      requires w in windows && wuk.Valid()
      modifies this, wuk
      ensures wuk.Valid()
      ensures r == (match PopInt(old(wuk.Rest())) case Ok(_) => Done case Err(e) => Failed(e))
      ensures Snapshot() == (match PopInt(old(wuk.Rest()))
                             case Ok(aid) => SelectActive(old(Snapshot()), w, ToInt32(aid.0))
                             case Err(_) => old(Snapshot()))
    {
      var aid := wuk.UnpackInt();
      if aid.Err? {
        return Failed(aid.error);
      }
      var a := ToInt32(aid.value);
      if a in panes && panes[a].window == w {
        windows := windows[w := windows[w].(active := Some(a))];
      }
      r := Done;
    }

    /** tmate_sync_window_panes: mark every pane of window `w`, merge the
        listed panes, sweep the ones still marked, then select the listed
        active pane. */
    method SyncWindowPanes(w: int32, wuk: Unpacker) returns (r: Status)
      requires w in windows && Valid(Snapshot()) && wuk.Valid()
      modifies this, wuk
      ensures Realizes(Snapshot(), Protocol.SyncWindowPanes(old(Snapshot()), w, old(wuk.Rest())).st)
      ensures r == Protocol.SyncWindowPanes(old(Snapshot()), w, old(wuk.Rest())).status
    {
      ghost var st0 := Snapshot();
      MarkWindow(w);
      ghost var marked := Snapshot();
      Invariants.MarkValid(st0, w);

      var tmp := new Unpacker();
      r := wuk.UnpackArray(tmp);
      if r.Failed? {
        Refinement.RealizesRefl(Snapshot());
        return;
      }
      ghost var list := tmp.Rest();
      r := MergeList(w, tmp);
      if r.Failed? {
        Refinement.RealizesRefl(Snapshot());
        return;
      }
      ghost var merged := Snapshot();
      Invariants.MergeValuesValid(marked, w, list);
      assert Valid(merged);

      SweepWindow(w);
      ghost var swept := Snapshot();
      ghost var tail := wuk.Rest();
      r := SelectListedActive(w, wuk);
      if PopInt(tail).Ok? {
        Refinement.SelectActiveRealizes(swept, Sweep(merged, w), w, ToInt32(PopInt(tail).value.0));
      }
    }

    /** tmate_sync_window: pop id, name, sx and sy; create the main session
        on the first sync and the window if its index is new; replace the
        window's name and give window and session the new size; then
        reconcile the window's panes. */
    method SyncWindow(uk: Unpacker) returns (r: Status)
      requires Valid(Snapshot()) && uk.Valid()
      modifies this, uk
      ensures Realizes(Snapshot(), Protocol.SyncWindow(old(Snapshot()), old(uk.Rest())).st)
      ensures r == Protocol.SyncWindow(old(Snapshot()), old(uk.Rest())).status
    {
      ghost var st0 := Snapshot();
      ghost var rest0 := uk.Rest();
      var id := uk.UnpackInt();
      if id.Err? {
        Refinement.RealizesRefl(st0);
        return Failed(id.error);
      }
      var name := uk.UnpackString();
      if name.Err? {
        Refinement.RealizesRefl(st0);
        return Failed(name.error);
      }
      var sx := uk.UnpackInt();
      if sx.Err? {
        Refinement.RealizesRefl(st0);
        return Failed(sx.error);
      }
      var sy := uk.UnpackInt();
      if sy.Err? {
        Refinement.RealizesRefl(st0);
        return Failed(sy.error);
      }
      var h := SyncHead(ToInt32(id.value), name.value, ToInt32(sx.value), ToInt32(sy.value));
      assert ParseSyncHead(rest0) == Ok((h, uk.Rest()));

      if session.None? {
        session := Some(Size(h.sx, h.sy));
      }
      if h.id !in windows {
        windows := windows[h.id := NewWindow(h.name, session.value)];
      }
      windows := windows[h.id := windows[h.id].(name := h.name, sx := h.sx, sy := h.sy)];
      session := Some(Size(h.sx, h.sy));
      assert Snapshot() == SyncWindowHead(st0, h);
      Invariants.SyncWindowHeadValid(st0, h);

      r := SyncWindowPanes(h.id, uk);
    }

    /** tmate_pty_data: pop the pane id and the data; a pane id with no pane
        is fatal; otherwise the data is appended to the pane's input and the
        pane's window gets WINDOW_SILENCE. */
    method PtyData(uk: Unpacker) returns (r: Status)
      requires uk.Valid()
      modifies this, uk
      ensures Snapshot() == Protocol.PtyData(old(Snapshot()), old(uk.Rest())).st
      ensures r == Protocol.PtyData(old(Snapshot()), old(uk.Rest())).status
    {
      var id := uk.UnpackInt();
      if id.Err? {
        return Failed(id.error);
      }
      var data := uk.UnpackRaw();
      if data.Err? {
        return Failed(data.error);
      }
      var pid := ToInt32(id.value);
      if pid !in panes {
        return Failed(UnknownPane);
      }
      var p := panes[pid];
      panes := panes[pid := p.(input := p.input + data.value)];
      if p.window in windows {
        windows := windows[p.window := windows[p.window].(silence := true)];
      }
      r := Done;
    }

    /** tmate_header: the protocol number, narrowed to int, must be 1. */
    method Header(uk: Unpacker) returns (r: Status)
      requires uk.Valid()
      modifies uk
      ensures r == Protocol.Header(Snapshot(), old(uk.Rest())).status
      ensures Protocol.Header(Snapshot(), old(uk.Rest())).st == Snapshot()
    {
      var protocol := uk.UnpackInt();
      if protocol.Err? {
        return Failed(protocol.error);
      }
      if ToInt32(protocol.value) != PROTOCOL_VERSION {
        return Failed(BadProtocol);
      }
      r := Done;
    }

    /** handle_message: the message must be an array whose first element is
        an integer naming one of the three handlers. */
    method HandleMessage(obj: Value) returns (r: Status)
      requires Valid(Snapshot())
      modifies this
      ensures Valid(Snapshot())
      ensures Realizes(Snapshot(), Protocol.HandleMessage(old(Snapshot()), obj).st)
      ensures r == Protocol.HandleMessage(old(Snapshot()), obj).status
    {
      ghost var st0 := Snapshot();
      Refinement.RealizesRefl(st0);
      var uk := new Unpacker();
      r := uk.Init(obj);
      if r.Failed? {
        return;
      }
      var cmd := uk.UnpackInt();
      if cmd.Err? {
        return Failed(cmd.error);
      }
      if cmd.value == TMATE_HEADER {
        r := Header(uk);
      } else if cmd.value == TMATE_SYNC_WINDOW {
        r := SyncWindow(uk);
      } else if cmd.value == TMATE_PTY_DATA {
        r := PtyData(uk);
      } else {
        r := Failed(UnknownOpcode);
      }
      Invariants.HandleMessageValid(st0, obj);
      Invariants.RealizesValid(Snapshot(), Protocol.HandleMessage(st0, obj).st);
    }

    /** tmate_decoder_commit after the framing layer: handle the decoded
        messages `msgs` in order, stopping at the first failure, then refuse
        a still-incomplete message of `pending` bytes above `maxSize`. */
    method Commit(msgs: seq<Value>, pending: nat, maxSize: nat) returns (r: Status)
      requires Valid(Snapshot())
      modifies this
      ensures Valid(Snapshot())
      ensures Realizes(Snapshot(), Protocol.Commit(old(Snapshot()), msgs, pending, maxSize).st)
      ensures r == Protocol.Commit(old(Snapshot()), msgs, pending, maxSize).status
    {
      ghost var st0 := Snapshot();
      ghost var expected := st0;
      Refinement.RealizesRefl(st0);
      var i := 0;
      while i < |msgs|
        invariant 0 <= i <= |msgs|
        invariant Valid(Snapshot()) && Realizes(Snapshot(), expected)
        invariant HandleAll(expected, msgs[i..]) == HandleAll(st0, msgs)
      {
        ghost var before := Snapshot();
        assert msgs[i..][0] == msgs[i] && msgs[i..][1..] == msgs[i + 1..];
        r := HandleMessage(msgs[i]);
        Refinement.HandleMessageRealizes(before, expected, msgs[i]);
        Refinement.RealizesTrans(Snapshot(), Protocol.HandleMessage(before, msgs[i]).st,
                                 Protocol.HandleMessage(expected, msgs[i]).st);
        if r.Failed? {
          return;
        }
        expected := Protocol.HandleMessage(expected, msgs[i]).st;
        i := i + 1;
      }
      assert msgs[i..] == [];
      if pending > maxSize {
        return Failed(TooLarge);
      }
      r := Done;
    }
  }
}
