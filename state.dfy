/** The part of tmux's server state that the decoder reads and writes: the
    main session, its windows by index, and the global pane registry that
    window_pane_find_by_id searches. */
module MuxState {
  import opened Wrappers
  import opened Values

  /** A pane: its window (by window index), size, offsets, the two flags the
      decoder uses, and every byte handed to it as pty output. */
  datatype Pane = Pane(
    window: int32,
    sx: int32, sy: int32,
    xoff: int32, yoff: int32,
    kill: bool,       // PANE_KILL
    redraw: bool,     // PANE_REDRAW
    input: seq<byte>) // bytes added to wp->event_input

  /** A window: its name (the NUL-terminated copy made by unpack_string),
      size, its pane list in TAILQ order, its active pane and whether it has
      WINDOW_SILENCE. */
  datatype Window = Window(
    name: seq<byte>,
    sx: int32, sy: int32,
    panes: seq<int32>,
    active: Option<int32>,
    silence: bool)

  datatype Size = Size(sx: int32, sy: int32)

  /** `session` is main_session (None until the first window sync), with its
      size; `windows` maps winlink index to window; `panes` is the registry of
      all panes by id. */
  datatype State = State(
    session: Option<Size>,
    windows: map<int32, Window>,
    panes: map<int32, Pane>)

  /** The state before any message. */
  const INITIAL: State := State(None, map[], map[])

  predicate NoDup<T(==)>(s: seq<T>)
  {
    forall i, j :: 0 <= i < j < |s| ==> s[i] != s[j]
  }

  /** The shape tmux keeps: each window lists each of its panes once, a
      pane listed by a window is registered as that window's pane, every
      registered pane is listed by its window, the active pane is one of the
      window's panes, and windows exist only inside the main session. */
  ghost predicate Valid(st: State)
  {
    (st.session.None? ==> st.windows == map[])
    && (forall w | w in st.windows :: NoDup(st.windows[w].panes))
    && (forall w, p | w in st.windows && p in st.windows[w].panes ::
          p in st.panes && st.panes[p].window == w)
    && (forall p | p in st.panes ::
          st.panes[p].window in st.windows && p in st.windows[st.panes[p].window].panes)
    && (forall w | w in st.windows ::
          st.windows[w].active.None? || st.windows[w].active.value in st.windows[w].panes)
  }

  /** Which pane tmux makes active when window_remove_pane removes the active
      one is not part of this model.  The reference functions pick None there;
      an actual state `actual` realizes the reference state `expected` when they agree
      on everything but such a choice: where `expected` has an active pane, `actual`
      has the same one, and where `expected` has none, `actual` has none or one of
      the window's panes. */
  ghost predicate Realizes(actual: State, expected: State)
  {
    actual.session == expected.session
    && actual.panes == expected.panes
    && actual.windows.Keys == expected.windows.Keys
    && forall w | w in expected.windows ::
         var a, b := actual.windows[w], expected.windows[w];
         a.(active := b.active) == b
         && (b.active.Some? ==> a.active == b.active)
         && (b.active.None? ==> a.active.None? || a.active.value in a.panes)
  }
}
