/** Every handler keeps the shape of tmux state described by Valid. */
module Invariants {
  import opened Wrappers
  import opened Values
  import opened Cursor
  import opened MuxState
  import opened Protocol

  /** The sweep keeps exactly the listed panes without PANE_KILL. */
  lemma {:induction false} LiveMembers(P: map<int32, Pane>, ids: seq<int32>)
    ensures forall x :: x in Live(P, ids) <==> x in ids && !Killed(P, x)
    decreases |ids|
  {
    if ids != [] {
      LiveMembers(P, ids[1..]);
      assert forall x :: x in ids <==> x == ids[0] || x in ids[1..];
    }
  }

  lemma LiveNotKilled(P: map<int32, Pane>, ids: seq<int32>, x: int32)
    requires x in Live(P, ids)
    ensures x in ids && !Killed(P, x)
  {
    LiveMembers(P, ids);
  }

  /** Filtering a list without repetitions gives one without repetitions. */
  lemma {:induction false} LiveNoDup(P: map<int32, Pane>, ids: seq<int32>)
    requires NoDup(ids)
    ensures NoDup(Live(P, ids))
    decreases |ids|
  {
    if ids != [] {
      assert NoDup(ids[1..]) by {
        forall i, j | 0 <= i < j < |ids[1..]| ensures ids[1..][i] != ids[1..][j] {
          assert ids[1..][i] == ids[i + 1] && ids[1..][j] == ids[j + 1];
        }
      }
      LiveNoDup(P, ids[1..]);
      LiveMembers(P, ids[1..]);
      assert ids[0] !in ids[1..] by {
        forall k | 0 <= k < |ids[1..]| ensures ids[1..][k] != ids[0] {
          assert ids[1..][k] == ids[k + 1];
        }
      }
      var head: seq<int32> := if Killed(P, ids[0]) then [] else [ids[0]];
      var tail := Live(P, ids[1..]);
      assert Live(P, ids) == head + tail;
      forall i, j | 0 <= i < j < |head + tail| ensures (head + tail)[i] != (head + tail)[j] {
        if i < |head| {
          assert (head + tail)[j] == tail[j - |head|];
          assert tail[j - |head|] in tail;
        } else {
          assert (head + tail)[i] == tail[i - |head|] && (head + tail)[j] == tail[j - |head|];
        }
      }
    }
  }

  /** One step of the sweep over `ps` at position `i`. */
  lemma SweepStep(P: map<int32, Pane>, ps: seq<int32>, i: nat)
    requires NoDup(ps) && i < |ps|
    ensures ps[i] !in Doomed(P, ps[..i])
    ensures Doomed(P, ps[..i + 1]) == Doomed(P, ps[..i]) + (if Killed(P, ps[i]) then {ps[i]} else {})
  {
    assert ps[..i + 1] == ps[..i] + [ps[i]];
    assert ps[i] !in ps[..i] by {
      forall k | 0 <= k < i ensures ps[..i][k] != ps[i] {
        assert ps[..i][k] == ps[k];
      }
    }
  }

  /** The kept prefix after one more step of the sweep. */
  lemma KeptStep(P: map<int32, Pane>, ps: seq<int32>, i: nat, kept: seq<int32>)
    requires i < |ps| && kept + Live(P, ps[i..]) == Live(P, ps)
    ensures (if Killed(P, ps[i]) then kept else kept + [ps[i]]) + Live(P, ps[i + 1..]) == Live(P, ps)
  {
    assert ps[i..][0] == ps[i] && ps[i..][1..] == ps[i + 1..];
    var tail := Live(P, ps[i + 1..]);
    if !Killed(P, ps[i]) {
      assert Live(P, ps[i..]) == [ps[i]] + tail;
      assert (kept + [ps[i]]) + tail == kept + ([ps[i]] + tail);
    }
  }

  lemma MarkValid(st: State, w: int32)
    requires Valid(st) && w in st.windows
    ensures Valid(Mark(st, w))
  {
  }

  /** Appending an id the list does not hold keeps it free of repetitions. */
  lemma AppendNoDup(s: seq<int32>, x: int32)
    requires NoDup(s) && x !in s
    ensures NoDup(s + [x])
  {
    forall i, j | 0 <= i < j < |s + [x]| ensures (s + [x])[i] != (s + [x])[j] {
      if j == |s| {
        assert (s + [x])[i] == s[i];
      } else {
        assert (s + [x])[i] == s[i] && (s + [x])[j] == s[j];
      }
    }
  }

  lemma MergeSpecValid(st: State, w: int32, s: PaneSpec)
    requires Valid(st) && w in st.windows
    ensures Valid(MergeSpec(st, w, s))
  {
    if s.id !in st.panes {
      AppendNoDup(st.windows[w].panes, s.id);
      var r := MergeSpec(st, w, s);
      forall v, p | v in r.windows && p in r.windows[v].panes
        ensures p in r.panes && r.panes[p].window == v
      {
        if v == w {
          assert p in st.windows[w].panes || p == s.id;
        }
      }
    }
  }

  lemma {:induction false} MergeSpecsValid(st: State, w: int32, specs: seq<PaneSpec>)
    requires Valid(st) && w in st.windows
    ensures Valid(MergeSpecs(st, w, specs))
    decreases |specs|
  {
    if specs != [] {
      MergeSpecValid(st, w, specs[0]);
      MergeSpecsValid(MergeSpec(st, w, specs[0]), w, specs[1..]);
    }
  }

  lemma {:induction false} MergeValuesValid(st: State, w: int32, elems: seq<Value>)
    requires Valid(st) && w in st.windows
    ensures Valid(MergeValues(st, w, elems).st)
    decreases |elems|
  {
    if elems != [] && ParsePaneSpec(elems[0]).Ok? {
      MergeSpecValid(st, w, ParsePaneSpec(elems[0]).value);
      MergeValuesValid(MergeSpec(st, w, ParsePaneSpec(elems[0]).value), w, elems[1..]);
    }
  }

  lemma SweepValid(st: State, w: int32)
    requires Valid(st) && w in st.windows
    ensures Valid(Sweep(st, w))
  {
    var ids := st.windows[w].panes;
    LiveMembers(st.panes, ids);
    LiveNoDup(st.panes, ids);
    var r := Sweep(st, w);
    forall p | p in r.panes
      ensures r.panes[p].window in r.windows && p in r.windows[r.panes[p].window].panes
    {
      assert p in st.panes && p !in Doomed(st.panes, ids);
    }
    forall v, p | v in r.windows && p in r.windows[v].panes
      ensures p in r.panes && r.panes[p].window == v
    {
      if v != w {
        assert p in st.windows[v].panes;
        assert p !in ids;
      }
    }
  }

  lemma SelectActiveValid(st: State, w: int32, aid: int32)
    requires Valid(st) && w in st.windows
    ensures Valid(SelectActive(st, w, aid))
  {
  }

  lemma SyncWindowPanesValid(st: State, w: int32, rest: seq<Value>)
    requires Valid(st) && w in st.windows
    ensures Valid(SyncWindowPanes(st, w, rest).st)
  {
    var marked := Mark(st, w);
    MarkValid(st, w);
    if PopArray(rest).Ok? {
      var list := PopArray(rest).value;
      MergeValuesValid(marked, w, list.0);
      var merged := MergeValues(marked, w, list.0);
      if merged.status.Done? {
        SweepValid(merged.st, w);
        if PopInt(list.1).Ok? {
          SelectActiveValid(Sweep(merged.st, w), w, ToInt32(PopInt(list.1).value.0));
        }
      }
    }
  }

  /** Replacing a window's name and size, or the session, keeps the shape. */
  lemma RetitleValid(st: State, w: int32, win: Window, size: Size)
    requires Valid(st) && w in st.windows
    requires win.panes == st.windows[w].panes && win.active == st.windows[w].active
    ensures Valid(st.(session := Some(size), windows := st.windows[w := win]))
  {
    var r := st.(session := Some(size), windows := st.windows[w := win]);
    assert forall v | v in r.windows :: r.windows[v].panes == st.windows[v].panes;
    assert forall v | v in r.windows :: r.windows[v].active == st.windows[v].active;
  }

  /** Adding a window with no panes at an unused index keeps the shape. */
  lemma AddWindowValid(st: State, w: int32, win: Window)
    requires Valid(st) && st.session.Some? && w !in st.windows
    requires win.panes == [] && win.active == None
    ensures Valid(st.(windows := st.windows[w := win]))
  {
    var r := st.(windows := st.windows[w := win]);
    forall p | p in r.panes
      ensures r.panes[p].window in r.windows && p in r.windows[r.panes[p].window].panes
    {
      assert st.panes[p].window in st.windows;
    }
  }

  lemma SyncWindowHeadValid(st: State, h: SyncHead)
    requires Valid(st)
    ensures Valid(SyncWindowHead(st, h))
  {
    var s1 := if st.session.None? then st.(session := Some(Size(h.sx, h.sy))) else st;
    assert Valid(s1);
    var s2 := if h.id in s1.windows then s1
              else s1.(windows := s1.windows[h.id := NewWindow(h.name, s1.session.value)]);
    if h.id !in s1.windows {
      AddWindowValid(s1, h.id, NewWindow(h.name, s1.session.value));
    }
    RetitleValid(s2, h.id, s2.windows[h.id].(name := h.name, sx := h.sx, sy := h.sy), Size(h.sx, h.sy));
  }

  lemma PtyDataValid(st: State, rest: seq<Value>)
    requires Valid(st)
    ensures Valid(PtyData(st, rest).st)
  {
  }

  lemma HandleMessageValid(st: State, obj: Value)
    requires Valid(st)
    ensures Valid(HandleMessage(st, obj).st)
  {
    if obj.Array? && PopInt(obj.items).Ok? {
      var cmd := PopInt(obj.items).value;
      if cmd.0 == TMATE_SYNC_WINDOW {
        if ParseSyncHead(cmd.1).Ok? {
          var p := ParseSyncHead(cmd.1).value;
          SyncWindowHeadValid(st, p.0);
          SyncWindowPanesValid(SyncWindowHead(st, p.0), p.0.id, p.1);
        }
      } else if cmd.0 == TMATE_PTY_DATA {
        PtyDataValid(st, cmd.1);
      }
    }
  }

  /** A state that realizes a valid reference state is valid. */
  lemma RealizesValid(actual: State, expected: State)
    requires Valid(expected) && Realizes(actual, expected)
    ensures Valid(actual)
  {
    forall w | w in actual.windows
      ensures actual.windows[w].panes == expected.windows[w].panes
    {
      var a, b := actual.windows[w], expected.windows[w];
      assert a.(active := b.active).panes == b.panes;
    }
  }
}
