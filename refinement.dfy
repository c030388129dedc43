/** The choice left to tmux when the active pane is removed never changes
    anything but that window's active pane: every handler maps an actual
    state realizing a reference state to one realizing the handler's
    reference result, with the same status. */
module Refinement {
  import opened Wrappers
  import opened Values
  import opened Cursor
  import opened MuxState
  import opened Protocol

  lemma RealizesRefl(s: State)
    ensures Realizes(s, s)
  {
  }

  lemma RealizesTrans(a: State, b: State, c: State)
    requires Realizes(a, b) && Realizes(b, c)
    ensures Realizes(a, c)
  {
    forall w | w in c.windows
      ensures a.windows[w].panes == b.windows[w].panes
    {
      assert a.windows[w].(active := b.windows[w].active).panes == b.windows[w].panes;
    }
  }

  /** Realizing states list the same panes in every window. */
  lemma SameLists(a: State, b: State)
    requires Realizes(a, b)
    ensures forall w | w in b.windows :: a.windows[w].panes == b.windows[w].panes
  {
    forall w | w in b.windows
      ensures a.windows[w].panes == b.windows[w].panes
    {
      assert a.windows[w].(active := b.windows[w].active).panes == b.windows[w].panes;
    }
  }

  lemma MarkRealizes(a: State, b: State, w: int32)
    requires Realizes(a, b) && w in b.windows
    ensures Realizes(Mark(a, w), Mark(b, w))
  {
    SameLists(a, b);
  }

  lemma MergeSpecRealizes(a: State, b: State, w: int32, s: PaneSpec)
    requires Realizes(a, b) && w in b.windows
    ensures Realizes(MergeSpec(a, w, s), MergeSpec(b, w, s))
  {
    SameLists(a, b);
    var a1, b1 := MergeSpec(a, w, s), MergeSpec(b, w, s);
    forall v | v in b1.windows
      ensures a1.windows[v].(active := b1.windows[v].active) == b1.windows[v]
    {
      var x, y := a.windows[v], b.windows[v];
      assert x.(active := y.active) == y;
    }
  }

  lemma {:induction false} MergeValuesRealizes(a: State, b: State, w: int32, elems: seq<Value>)
    requires Realizes(a, b) && w in b.windows
    ensures Realizes(MergeValues(a, w, elems).st, MergeValues(b, w, elems).st)
    ensures MergeValues(a, w, elems).status == MergeValues(b, w, elems).status
    decreases |elems|
  {
    if elems != [] && ParsePaneSpec(elems[0]).Ok? {
      var s := ParsePaneSpec(elems[0]).value;
      MergeSpecRealizes(a, b, w, s);
      MergeValuesRealizes(MergeSpec(a, w, s), MergeSpec(b, w, s), w, elems[1..]);
    }
  }

  lemma SweepRealizes(a: State, b: State, w: int32)
    requires Realizes(a, b) && w in b.windows
    ensures Realizes(Sweep(a, w), Sweep(b, w))
  {
    SameLists(a, b);
    var a1, b1 := Sweep(a, w), Sweep(b, w);
    forall v | v in b1.windows
      ensures a1.windows[v].(active := b1.windows[v].active) == b1.windows[v]
    {
      var x, y := a.windows[v], b.windows[v];
      assert x.(active := y.active) == y;
    }
  }

  lemma SelectActiveRealizes(a: State, b: State, w: int32, aid: int32)
    requires Realizes(a, b) && w in b.windows
    ensures Realizes(SelectActive(a, w, aid), SelectActive(b, w, aid))
  {
    var a1, b1 := SelectActive(a, w, aid), SelectActive(b, w, aid);
    forall v | v in b1.windows
      ensures a1.windows[v].(active := b1.windows[v].active) == b1.windows[v]
    {
      var x, y := a.windows[v], b.windows[v];
      assert x.(active := y.active) == y;
    }
  }

  lemma SyncWindowPanesRealizes(a: State, b: State, w: int32, rest: seq<Value>)
    requires Realizes(a, b) && w in b.windows
    ensures Realizes(SyncWindowPanes(a, w, rest).st, SyncWindowPanes(b, w, rest).st)
    ensures SyncWindowPanes(a, w, rest).status == SyncWindowPanes(b, w, rest).status
  {
    MarkRealizes(a, b, w);
    if PopArray(rest).Ok? {
      var list := PopArray(rest).value;
      MergeValuesRealizes(Mark(a, w), Mark(b, w), w, list.0);
      var ma, mb := MergeValues(Mark(a, w), w, list.0), MergeValues(Mark(b, w), w, list.0);
      if mb.status.Done? {
        SweepRealizes(ma.st, mb.st, w);
        if PopInt(list.1).Ok? {
          SelectActiveRealizes(Sweep(ma.st, w), Sweep(mb.st, w), w, ToInt32(PopInt(list.1).value.0));
        }
      }
    }
  }

  lemma SyncWindowHeadRealizes(a: State, b: State, h: SyncHead)
    requires Realizes(a, b)
    ensures Realizes(SyncWindowHead(a, h), SyncWindowHead(b, h))
  {
    var a1, b1 := SyncWindowHead(a, h), SyncWindowHead(b, h);
    forall v | v in b1.windows
      ensures a1.windows[v].(active := b1.windows[v].active) == b1.windows[v]
    {
      if v in b.windows {
        var x, y := a.windows[v], b.windows[v];
        assert x.(active := y.active) == y;
      }
    }
  }

  lemma PtyDataRealizes(a: State, b: State, rest: seq<Value>)
    requires Realizes(a, b)
    ensures Realizes(PtyData(a, rest).st, PtyData(b, rest).st)
    ensures PtyData(a, rest).status == PtyData(b, rest).status
  {
    var a1, b1 := PtyData(a, rest).st, PtyData(b, rest).st;
    forall v | v in b1.windows
      ensures a1.windows[v].(active := b1.windows[v].active) == b1.windows[v]
    {
      var x, y := a.windows[v], b.windows[v];
      assert x.(active := y.active) == y;
    }
  }

  lemma HandleMessageRealizes(a: State, b: State, obj: Value)
    requires Realizes(a, b)
    ensures Realizes(HandleMessage(a, obj).st, HandleMessage(b, obj).st)
    ensures HandleMessage(a, obj).status == HandleMessage(b, obj).status
  {
    if obj.Array? && PopInt(obj.items).Ok? {
      var cmd := PopInt(obj.items).value;
      if cmd.0 == TMATE_SYNC_WINDOW {
        if ParseSyncHead(cmd.1).Ok? {
          var p := ParseSyncHead(cmd.1).value;
          SyncWindowHeadRealizes(a, b, p.0);
          SyncWindowPanesRealizes(SyncWindowHead(a, p.0), SyncWindowHead(b, p.0), p.0.id, p.1);
        }
      } else if cmd.0 == TMATE_PTY_DATA {
        PtyDataRealizes(a, b, cmd.1);
      }
    }
  }

  lemma {:induction false} HandleAllRealizes(a: State, b: State, msgs: seq<Value>)
    requires Realizes(a, b)
    ensures Realizes(HandleAll(a, msgs).st, HandleAll(b, msgs).st)
    ensures HandleAll(a, msgs).status == HandleAll(b, msgs).status
    decreases |msgs|
  {
    if msgs != [] {
      HandleMessageRealizes(a, b, msgs[0]);
      if HandleMessage(b, msgs[0]).status.Done? {
        HandleAllRealizes(HandleMessage(a, msgs[0]).st, HandleMessage(b, msgs[0]).st, msgs[1..]);
      }
    }
  }
}
