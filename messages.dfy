/** What each message does, stated on the message's fields rather than on
    the order of pops that handles it. */
module Messages {
  import opened Wrappers
  import opened Values
  import opened Cursor
  import opened MuxState
  import opened Protocol
  import opened Reconciliation
  import Invariants

  /* ---- the pane list ---- */

  /** Every element of a pane list parsed, or the error of the first one
      that does not parse. */
  function ParseAll(elems: seq<Value>): (r: Result<seq<PaneSpec>>)
    ensures r.Ok? <==> forall i | 0 <= i < |elems| :: ParsePaneSpec(elems[i]).Ok?
    ensures r.Ok? ==> |r.value| == |elems|
                      && forall i | 0 <= i < |elems| :: r.value[i] == ParsePaneSpec(elems[i]).value
    decreases |elems|
  {
    if elems == [] then Ok([])
    else match ParsePaneSpec(elems[0])
      case Err(e) => Err(e)
      case Ok(s) =>
        match ParseAll(elems[1..])
        case Err(e) => Err(e)
        case Ok(t) =>
          assert forall i | 1 <= i < |elems| :: elems[i] == elems[1..][i - 1];
          Ok([s] + t)
  }

  /** The merge over raw elements succeeds exactly when every element
      parses, and then is the merge of the parsed list; otherwise it fails
      with the first element's error. */
  lemma {:induction false} MergeValuesParsed(st: State, w: int32, elems: seq<Value>)
    requires w in st.windows
    ensures var o, pa := MergeValues(st, w, elems), ParseAll(elems);
            (pa.Ok? ==> o == Outcome(MergeSpecs(st, w, pa.value), Done))
            && (pa.Err? ==> o.status == Failed(pa.error))
    decreases |elems|
  {
    if elems != [] {
      match ParsePaneSpec(elems[0])
      case Err(e) =>
      case Ok(s) =>
        MergeValuesParsed(MergeSpec(st, w, s), w, elems[1..]);
        var pa := ParseAll(elems[1..]);
        if pa.Ok? {
          assert ([s] + pa.value)[0] == s && ([s] + pa.value)[1..] == pa.value;
        }
    }
  }

  /** The phases of tmate_sync_window_panes on the fields after the window's
      head: with a well-formed list and active id it is Reconcile; a missing
      or non-integer active id is detected only after the sweep, so the
      unlisted panes are already destroyed; a missing list leaves the panes
      marked. */
  lemma SyncWindowPanesPhases(st: State, w: int32, rest: seq<Value>)
    requires w in st.windows
    ensures var o, l := SyncWindowPanes(st, w, rest), PopArray(rest);
            (l.Err? ==> o == Outcome(Mark(st, w), Failed(l.error)))
            && (l.Ok? && ParseAll(l.value.0).Err? ==> o.status == Failed(ParseAll(l.value.0).error))
            && (l.Ok? && ParseAll(l.value.0).Ok? ==>
                  var specs, a := ParseAll(l.value.0).value, PopInt(l.value.1);
                  (a.Err? ==> o == Outcome(Sweep(MergeSpecs(Mark(st, w), w, specs), w), Failed(a.error)))
                  && (a.Ok? ==> o == Outcome(Reconcile(st, w, specs, ToInt32(a.value.0)), Done)))
  {
    match PopArray(rest)
    case Err(e) =>
    case Ok(l) => MergeValuesParsed(Mark(st, w), w, l.0);
  }

  /* ---- window sync ---- */

  /** The head of a sync message is four fields: an integer id, a raw name,
      two integer sizes; each integer is narrowed to int and the name gets
      a NUL terminator. */
  lemma ParseSyncHeadFields(rest: seq<Value>)
    ensures var r := ParseSyncHead(rest);
            (r.Ok? <==> |rest| >= 4 && rest[0].IsInteger() && rest[1].Raw?
                        && rest[2].IsInteger() && rest[3].IsInteger())
            && (r.Ok? ==> r.value.0 == SyncHead(ToInt32(AsInt64(rest[0])), rest[1].bytes + [0],
                                                ToInt32(AsInt64(rest[2])), ToInt32(AsInt64(rest[3])))
                          && r.value.1 == rest[4..])
  {
    if |rest| >= 4 {
      assert rest[1..][1..] == rest[2..] && rest[2..][1..] == rest[3..] && rest[3..][1..] == rest[4..];
    }
  }

  /** A sync message whose head parses sets the main session and the
      window to the message's size, creates the window if it is new, names
      it, and leaves every other window as it was, whatever happens to the
      pane list afterwards. */
  lemma SyncWindowEffects(st: State, rest: seq<Value>)
    ensures var o := SyncWindow(st, rest);
            match ParseSyncHead(rest)
            case Err(e) => o == Outcome(st, Failed(e))
            case Ok(p) =>
              var h := p.0;
              o.st.session == Some(Size(h.sx, h.sy))
              && o.st.windows.Keys == st.windows.Keys + {h.id}
              && o.st.windows[h.id].name == h.name
              && o.st.windows[h.id].sx == h.sx && o.st.windows[h.id].sy == h.sy
              && (forall v | v in st.windows && v != h.id :: o.st.windows[v] == st.windows[v])
  {
  }

  /** A successful sync of a window that did not exist gives it exactly the
      panes the list creates, in list order, with no pane owned by another
      window moved. */
  lemma SyncNewWindow(st: State, rest: seq<Value>)
    requires Valid(st)
    requires ParseSyncHead(rest).Ok? && ParseSyncHead(rest).value.0.id !in st.windows
    ensures var o, h := SyncWindow(st, rest), ParseSyncHead(rest).value.0;
            var l := PopArray(ParseSyncHead(rest).value.1);
            o.status == Done && l.Ok? && ParseAll(l.value.0).Ok? ==>
              o.st.windows[h.id].panes == Created(st.panes.Keys, ParseAll(l.value.0).value)
              && forall p :: p in o.st.windows[h.id].panes <==> p in Ids(ParseAll(l.value.0).value) && p !in st.panes
  {
    var h := ParseSyncHead(rest).value.0;
    var tail := ParseSyncHead(rest).value.1;
    var st1 := SyncWindowHead(st, h);
    Invariants.SyncWindowHeadValid(st, h);
    SyncWindowPanesPhases(st1, h.id, tail);
    var l := PopArray(tail);
    if l.Ok? && ParseAll(l.value.0).Ok? && PopInt(l.value.1).Ok? {
      var specs := ParseAll(l.value.0).value;
      ReconcileRegistry(st1, h.id, specs, ToInt32(PopInt(l.value.1).value.0));
      assert st1.panes == st.panes;
      ReconcileEmptyWindow(st1, h.id, specs, ToInt32(PopInt(l.value.1).value.0));
      forall p | p in st.panes ensures st.panes[p].window != h.id {
      }
    }
  }

  /** A sync head that repeats the session size and the window's name and
      size changes nothing. */
  lemma SyncHeadSame(st: State, h: SyncHead)
    requires st.session == Some(Size(h.sx, h.sy)) && h.id in st.windows
    requires st.windows[h.id].name == h.name && st.windows[h.id].sx == h.sx && st.windows[h.id].sy == h.sy
    ensures SyncWindowHead(st, h) == st
  {
    assert st.windows[h.id].(name := h.name, sx := h.sx, sy := h.sy) == st.windows[h.id];
    assert st.windows[h.id := st.windows[h.id]] == st.windows;
  }

  /** Handling the same successful sync message a second time changes
      nothing. */
  lemma SyncWindowIdempotent(st: State, rest: seq<Value>)
    requires Valid(st) && SyncWindow(st, rest).status == Done
    ensures SyncWindow(SyncWindow(st, rest).st, rest) == SyncWindow(st, rest)
  {
    var h := ParseSyncHead(rest).value.0;
    var tail := ParseSyncHead(rest).value.1;
    var st1 := SyncWindowHead(st, h);
    Invariants.SyncWindowHeadValid(st, h);
    SyncWindowPanesPhases(st1, h.id, tail);
    var l := PopArray(tail).value;
    var specs := ParseAll(l.0).value;
    var aid := ToInt32(PopInt(l.1).value.0);
    var r := Reconcile(st1, h.id, specs, aid);
    assert SyncWindow(st, rest) == Outcome(r, Done);
    SyncHeadSame(r, h);
    ReconcileValid(st1, h.id, specs, aid);
    SyncWindowPanesPhases(r, h.id, tail);
    ReconcileIdempotent(st1, h.id, specs, aid);
  }

  /** The same at the level of whole messages: receiving a successful
      window sync twice leaves the state as receiving it once. */
  lemma SyncMessageIdempotent(st: State, obj: Value)
    requires Valid(st) && obj.Array? && obj.items != [] && obj.items[0].IsInteger()
    requires AsInt64(obj.items[0]) == TMATE_SYNC_WINDOW && HandleMessage(st, obj).status == Done
    ensures HandleMessage(HandleMessage(st, obj).st, obj) == HandleMessage(st, obj)
  {
    HandleMessageDispatch(st, obj);
    HandleMessageDispatch(HandleMessage(st, obj).st, obj);
    SyncWindowIdempotent(st, obj.items[1..]);
  }

  /* ---- pty data ---- */

  /** tmate_pty_data succeeds exactly when its two fields are an integer and
      a raw and the pane exists; it then appends the bytes to that pane's
      input and sets WINDOW_SILENCE on its window, and changes nothing else.
      An unknown pane fails with the state untouched. */
  lemma PtyDataEffects(st: State, rest: seq<Value>)
    requires Valid(st)
    ensures var o := PtyData(st, rest);
            (o.status == Done <==> |rest| >= 2 && rest[0].IsInteger() && rest[1].Raw?
                                   && ToInt32(AsInt64(rest[0])) in st.panes)
            && (o.status.Failed? ==> o.st == st)
            && (|rest| >= 2 && rest[0].IsInteger() && rest[1].Raw? && ToInt32(AsInt64(rest[0])) !in st.panes
                ==> o.status == Failed(UnknownPane))
            && (o.status == Done ==>
                  var id := ToInt32(AsInt64(rest[0]));
                  var p := st.panes[id];
                  o.st.session == st.session
                  && o.st.panes == st.panes[id := p.(input := p.input + rest[1].bytes)]
                  && o.st.windows == st.windows[p.window := st.windows[p.window].(silence := true)])
  {
    if |rest| >= 2 {
      assert rest[1..][0] == rest[1];
    }
  }

  /* ---- header ---- */

  /** The header never changes the state and is accepted exactly when its
      first field is an integer whose low 32 bits read as the int 1. */
  lemma HeaderAccepts(st: State, rest: seq<Value>)
    ensures var o := Header(st, rest);
            o.st == st
            && (o.status == Done <==> |rest| > 0 && rest[0].IsInteger() && ToInt32(AsInt64(rest[0])) == PROTOCOL_VERSION)
            && (|rest| > 0 && rest[0].IsInteger() && ToInt32(AsInt64(rest[0])) != PROTOCOL_VERSION
                ==> o.status == Failed(BadProtocol))
  {
  }

  /** Because the protocol number is stored in an int before it is
      compared, 2^32 + 1 is accepted as protocol 1. */
  lemma HeaderWraps(st: State)
    ensures Header(st, [PosInt((TWO_32 + 1) as uint64)]).status == Done
    ensures Header(st, [PosInt(2)]).status == Failed(BadProtocol)
  {
    assert ToInt32(AsInt64(PosInt((TWO_32 + 1) as uint64))) == 1;
  }

  /* ---- dispatch ---- */

  /** handle_message rejects a non-array, an empty array, a non-integer
      opcode and an unknown opcode without touching the state, and hands
      the remaining fields of a known opcode to its handler. */
  lemma HandleMessageDispatch(st: State, obj: Value)
    ensures var o := HandleMessage(st, obj);
            (!obj.Array? ==> o == Outcome(st, Failed(WrongType)))
            && (obj.Array? && obj.items == [] ==> o == Outcome(st, Failed(Exhausted)))
            && (obj.Array? && obj.items != [] && !obj.items[0].IsInteger() ==> o == Outcome(st, Failed(WrongType)))
            && (obj.Array? && obj.items != [] && obj.items[0].IsInteger() ==>
                  var cmd := AsInt64(obj.items[0]);
                  var rest := obj.items[1..];
                  o == if cmd == TMATE_HEADER then Header(st, rest)
                       else if cmd == TMATE_SYNC_WINDOW then SyncWindow(st, rest)
                       else if cmd == TMATE_PTY_DATA then PtyData(st, rest)
                       else Outcome(st, Failed(UnknownOpcode)))
  {
  }

  /** Handling a batch in two parts is handling the first part and, if it
      went through, the second from where the first left off. */
  lemma {:induction false} HandleAllAppend(st: State, a: seq<Value>, b: seq<Value>)
    ensures var o := HandleAll(st, a);
            HandleAll(st, a + b) == if o.status.Failed? then o else HandleAll(o.st, b)
    decreases |a|
  {
    if a == [] {
      assert a + b == b;
    } else {
      assert (a + b)[0] == a[0] && (a + b)[1..] == a[1..] + b;
      var o := HandleMessage(st, a[0]);
      if o.status == Done {
        HandleAllAppend(o.st, a[1..], b);
      }
    }
  }

  /** tmate_decoder_commit handles every complete message before it looks
      at the size of the incomplete one, so a too-large pending message
      fails only after the earlier messages have taken effect. */
  lemma CommitOrder(st: State, msgs: seq<Value>, pending: nat, maxSize: nat)
    ensures var o, h := Commit(st, msgs, pending, maxSize), HandleAll(st, msgs);
            o.st == h.st
            && (o.status == Done <==> h.status == Done && pending <= maxSize)
            && (h.status == Done && pending > maxSize ==> o.status == Failed(TooLarge))
            && (h.status.Failed? ==> o.status == h.status)
  {
  }

  /* ---- an example ---- */

  /** The geometry elements of the example sync. */
  const PANE_2: Value := Array([PosInt(2), PosInt(80), PosInt(12), PosInt(0), PosInt(0)])
  const PANE_4: Value := Array([PosInt(4), PosInt(80), PosInt(11), PosInt(0), PosInt(13)])
  const SPECS_2_4: seq<PaneSpec> := [PaneSpec(2, 80, 12, 0, 0), PaneSpec(4, 80, 11, 0, 13)]

  /** A sync of window 0 listing panes 2 and 4, with 4 active. */
  const SYNC_2_4: Value :=
    Array([PosInt(2), PosInt(0), Raw([119]), PosInt(80), PosInt(24), Array([PANE_2, PANE_4]), PosInt(4)])

  lemma ExampleHead(rest: seq<Value>)
    requires rest == SYNC_2_4.items[1..]
    ensures ParseSyncHead(rest) == Ok((SyncHead(0, [119, 0], 80, 24), [Array([PANE_2, PANE_4]), PosInt(4)]))
  {
    ParseSyncHeadFields(rest);
    assert rest == [PosInt(0), Raw([119]), PosInt(80), PosInt(24), Array([PANE_2, PANE_4]), PosInt(4)];
    assert ToInt32(AsInt64(rest[0])) == 0 && ToInt32(AsInt64(rest[2])) == 80 && ToInt32(AsInt64(rest[3])) == 24;
    assert rest[1].bytes + [0] == [119, 0];
  }

  lemma ExampleList(elems: seq<Value>)
    requires elems == [PANE_2, PANE_4]
    ensures ParseAll(elems) == Ok(SPECS_2_4)
  {
    assert ParsePaneSpec(elems[0]) == Ok(SPECS_2_4[0]) by {
      var v := elems[0].items;
      assert ToInt32(AsInt64(v[0])) == 2 && ToInt32(AsInt64(v[1])) == 80 && ToInt32(AsInt64(v[2])) == 12;
      assert ToInt32(AsInt64(v[3])) == 0 && ToInt32(AsInt64(v[4])) == 0;
    }
    assert ParsePaneSpec(elems[1]) == Ok(SPECS_2_4[1]) by {
      var v := elems[1].items;
      assert ToInt32(AsInt64(v[0])) == 4 && ToInt32(AsInt64(v[1])) == 80 && ToInt32(AsInt64(v[2])) == 11;
      assert ToInt32(AsInt64(v[3])) == 0 && ToInt32(AsInt64(v[4])) == 13;
    }
    var pa := ParseAll(elems);
    assert |pa.value| == 2 && pa.value[0] == SPECS_2_4[0] && pa.value[1] == SPECS_2_4[1];
    assert pa.value == SPECS_2_4;
  }

  lemma ExampleSpecs()
    ensures Ids(SPECS_2_4) == {2, 4}
    ensures LastSpec(SPECS_2_4, 2) == SPECS_2_4[0] && LastSpec(SPECS_2_4, 4) == SPECS_2_4[1]
  {
    assert SPECS_2_4[0] in SPECS_2_4 && SPECS_2_4[1] in SPECS_2_4;
    assert Ids(SPECS_2_4[1..]) == {4} by {
      assert SPECS_2_4[1..] == [SPECS_2_4[1]];
    }
  }

  /** A well-formed state in which window 0 has exactly the panes 1, 2 and
      3, and the session and window 0 already have the example's size and
      name. */
  ghost predicate ThreePaneWindow(st: State)
  {
    Valid(st) && 0 in st.windows && st.windows[0].panes == [1, 2, 3] && st.panes.Keys == {1, 2, 3}
    && st.session == Some(Size(80, 24))
    && st.windows[0].name == [119, 0] && st.windows[0].sx == 80 && st.windows[0].sy == 24
  }

  /** The registry after the example reconciliation: panes 1 and 3 are
      gone, pane 2 has the listed geometry, pane 4 is new in window 0. */
  lemma ExampleRegistry(st: State, specs: seq<PaneSpec>)
    requires ThreePaneWindow(st) && specs == SPECS_2_4
    ensures var r := Reconcile(st, 0, specs, 4);
            r.panes.Keys == {2, 4}
            && r.panes[2] == st.panes[2].(sx := 80, sy := 12, xoff := 0, yoff := 0, kill := false, redraw := true)
            && r.panes[4] == Pane(0, 80, 11, 0, 13, false, true, [])
  {
    ExampleSpecs();
    assert 2 in st.windows[0].panes;
    ReconcileRegistry(st, 0, specs, 4);
  }

  /** The window after the example reconciliation: panes 2 and 4, with the
      new pane 4 active. */
  lemma ExampleWindow(st: State, specs: seq<PaneSpec>)
    requires ThreePaneWindow(st) && specs == SPECS_2_4
    ensures var r := Reconcile(st, 0, specs, 4);
            (forall p :: p in r.windows[0].panes <==> p == 2 || p == 4)
            && r.windows[0].active == Some(4)
  {
    ExampleSpecs();
    assert 2 in st.windows[0].panes;
    ReconcileRegistry(st, 0, specs, 4);
    ReconcileActive(st, 0, specs, 4);
  }

  /** The example message is a sync of window 0 that reconciles it
      against the two listed panes with active id 4. */
  lemma ExampleOutcome(st: State, msg: Value)
    requires ThreePaneWindow(st) && msg == SYNC_2_4
    ensures HandleMessage(st, msg) == Outcome(Reconcile(st, 0, SPECS_2_4, 4), Done)
  {
    var tail := [Array([PANE_2, PANE_4]), PosInt(4)];
    HandleMessageDispatch(st, msg);
    assert AsInt64(msg.items[0]) == TMATE_SYNC_WINDOW;
    assert HandleMessage(st, msg) == SyncWindow(st, msg.items[1..]);
    ExampleHead(msg.items[1..]);
    ExampleList([PANE_2, PANE_4]);
    var h := SyncHead(0, [119, 0], 80, 24);
    SyncHeadSame(st, h);
    assert SyncWindow(st, msg.items[1..]) == SyncWindowPanes(st, 0, tail);
    SyncWindowPanesPhases(st, 0, tail);
    assert PopArray(tail) == Ok(([PANE_2, PANE_4], [PosInt(4)]));
    assert PopInt([PosInt(4)]) == Ok((4, []));
    assert ToInt32(4) == 4;
  }

  /** Panes 1 and 3 are destroyed, pane 2 is resized, pane 4 is created with
      the listed geometry, and the new pane is the active one. */
  lemma ExampleSync(st: State, msg: Value)
    requires ThreePaneWindow(st) && msg == SYNC_2_4
    ensures var o := HandleMessage(st, msg);
            o.status == Done
            && o.st.panes.Keys == {2, 4}
            && o.st.panes[2] == st.panes[2].(sx := 80, sy := 12, xoff := 0, yoff := 0, kill := false, redraw := true)
            && o.st.panes[4] == Pane(0, 80, 11, 0, 13, false, true, [])
            && (forall p :: p in o.st.windows[0].panes <==> p == 2 || p == 4)
            && o.st.windows[0].active == Some(4)
  {
    ExampleOutcome(st, msg);
    ExampleRegistry(st, SPECS_2_4);
    ExampleWindow(st, SPECS_2_4);
  }
}
