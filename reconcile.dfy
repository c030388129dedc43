/** What reconciling a window's panes against a pane list achieves. */
module Reconciliation {
  import opened Wrappers
  import opened Values
  import opened MuxState
  import opened Protocol
  import Invariants

  /** The ids a pane list names. */
  function Ids(specs: seq<PaneSpec>): set<int32>
  {
    set s | s in specs :: s.id
  }

  /** The last element of the list with id `p`: the one whose geometry wins. */
  function LastSpec(specs: seq<PaneSpec>, p: int32): PaneSpec
    requires p in Ids(specs)
    decreases |specs|
  {
    if specs[0].id == p && p !in Ids(specs[1..]) then specs[0]
    else
      assert p in Ids(specs[1..]) by {
        var s :| s in specs && s.id == p;
        if s != specs[0] {
          assert s in specs[1..];
        }
      }
      LastSpec(specs[1..], p)
  }

  /** A pane after the merge has handled the element `s` naming it. */
  function Placed(base: Pane, s: PaneSpec): Pane
  {
    base.(kill := false, xoff := s.xoff, yoff := s.yoff, sx := s.sx, sy := s.sy, redraw := true)
  }

  /** The pane the merge starts from for id `p`: the registered one, found
      whatever window it is in, or a new pane in `w`. */
  function Base(st: State, w: int32, p: int32): Pane
    requires w in st.windows
  {
    if p in st.panes then st.panes[p] else NewPane(w, st.windows[w])
  }

  /** The ids the merge creates, in creation order, starting from the
      registered ids `keys`. */
  function Created(keys: set<int32>, specs: seq<PaneSpec>): seq<int32>
    decreases |specs|
  {
    if specs == [] then []
    else if specs[0].id in keys then Created(keys, specs[1..])
    else [specs[0].id] + Created(keys + {specs[0].id}, specs[1..])
  }

  /** The active pane after the merge: the last pane created, if any. */
  function ActiveAfter(a: Option<int32>, created: seq<int32>): Option<int32>
  {
    if created == [] then a else Some(created[|created| - 1])
  }

  lemma IdsCons(specs: seq<PaneSpec>)
    requires specs != []
    ensures Ids(specs) == {specs[0].id} + Ids(specs[1..])
  {
    forall p | p in Ids(specs) ensures p in {specs[0].id} + Ids(specs[1..]) {
      var s :| s in specs && s.id == p;
      if s != specs[0] {
        assert s in specs[1..];
      }
    }
    forall p | p in Ids(specs[1..]) ensures p in Ids(specs) {
      var s :| s in specs[1..] && s.id == p;
      assert s in specs;
    }
  }

  /** The merge creates exactly the listed ids that were not registered,
      each once. */
  lemma {:induction false} CreatedMembers(keys: set<int32>, specs: seq<PaneSpec>)
    ensures forall p :: p in Created(keys, specs) <==> p in Ids(specs) && p !in keys
    ensures NoDup(Created(keys, specs))
    decreases |specs|
  {
    if specs != [] {
      IdsCons(specs);
      var id := specs[0].id;
      if id in keys {
        CreatedMembers(keys, specs[1..]);
      } else {
        CreatedMembers(keys + {id}, specs[1..]);
        var c := Created(keys + {id}, specs[1..]);
        forall i, j | 0 <= i < j < |[id] + c| ensures ([id] + c)[i] != ([id] + c)[j] {
          assert ([id] + c)[j] == c[j - 1];
          if i > 0 {
            assert ([id] + c)[i] == c[i - 1];
          } else {
            assert c[j - 1] in c;
          }
        }
      }
    }
  }

  /** The registry after merging `specs` into window `w`: the listed panes
      carry their last element's geometry, cleared PANE_KILL and set
      PANE_REDRAW; every other pane is untouched. */
  lemma {:induction false} MergeRegistry(st: State, w: int32, specs: seq<PaneSpec>)
    requires w in st.windows
    ensures var r := MergeSpecs(st, w, specs);
            (forall p :: p in r.panes <==> p in st.panes || p in Ids(specs))
            && (forall p | p in Ids(specs) :: r.panes[p] == Placed(Base(st, w, p), LastSpec(specs, p)))
            && (forall p | p in r.panes && p !in Ids(specs) :: r.panes[p] == st.panes[p])
    decreases |specs|
  {
    if specs != [] {
      IdsCons(specs);
      var s := specs[0];
      var st1 := MergeSpec(st, w, s);
      MergeRegistry(st1, w, specs[1..]);
      var r := MergeSpecs(st, w, specs);
      assert r == MergeSpecs(st1, w, specs[1..]);
      forall p | p in Ids(specs)
        ensures r.panes[p] == Placed(Base(st, w, p), LastSpec(specs, p))
      {
        if p in Ids(specs[1..]) {
          assert LastSpec(specs, p) == LastSpec(specs[1..], p);
          assert Placed(Base(st1, w, p), LastSpec(specs, p)) == Placed(Base(st, w, p), LastSpec(specs, p));
        } else {
          assert p == s.id && LastSpec(specs, p) == s;
        }
      }
    }
  }

  /** The window after merging `specs` into it: the created panes are
      appended in creation order and the last one created is active. */
  lemma {:induction false} MergeWindow(st: State, w: int32, specs: seq<PaneSpec>)
    requires w in st.windows
    ensures var r := MergeSpecs(st, w, specs);
            var c := Created(st.panes.Keys, specs);
            r.windows[w].panes == st.windows[w].panes + c
            && r.windows[w].active == ActiveAfter(st.windows[w].active, c)
    decreases |specs|
  {
    if specs != [] {
      var s := specs[0];
      var st1 := MergeSpec(st, w, s);
      MergeWindow(st1, w, specs[1..]);
      if s.id !in st.panes {
        assert st1.panes.Keys == st.panes.Keys + {s.id};
        var c := Created(st.panes.Keys + {s.id}, specs[1..]);
        assert st.windows[w].panes + ([s.id] + c) == (st.windows[w].panes + [s.id]) + c;
      } else {
        assert st1.panes.Keys == st.panes.Keys;
      }
    }
  }

  /** Marking changes only PANE_KILL, which the merge overwrites. */
  lemma MarkedBase(st: State, w: int32, p: int32, s: PaneSpec)
    requires w in st.windows
    ensures Placed(Base(Mark(st, w), w, p), s) == Placed(Base(st, w, p), s)
  {
  }

  /** The registry after the mark and merge phases, in terms of the state
      before them: the listed panes are placed and unmarked, the window's
      other panes are still marked. */
  lemma MarkMerge(st: State, w: int32, specs: seq<PaneSpec>)
    requires Valid(st) && w in st.windows
    ensures var G := MergeSpecs(Mark(st, w), w, specs);
            var L := st.windows[w].panes;
            (forall p :: p in G.panes <==> p in st.panes || p in Ids(specs))
            && (forall p | p in Ids(specs) :: G.panes[p] == Placed(Base(st, w, p), LastSpec(specs, p)))
            && (forall p | p in G.panes && p !in Ids(specs) ::
                  G.panes[p] == if p in L then st.panes[p].(kill := true) else st.panes[p])
  {
    var M := Mark(st, w);
    MergeRegistry(M, w, specs);
    forall p | p in Ids(specs)
      ensures MergeSpecs(M, w, specs).panes[p] == Placed(Base(st, w, p), LastSpec(specs, p))
    {
      MarkedBase(st, w, p, LastSpec(specs, p));
    }
  }

  /** The window after the mark and merge phases: its old panes followed by
      the created ones, and PANE_KILL set exactly on the unlisted ones. */
  lemma MarkMergeList(st: State, w: int32, specs: seq<PaneSpec>)
    requires Valid(st) && w in st.windows
    ensures var G := MergeSpecs(Mark(st, w), w, specs);
            var L := st.windows[w].panes;
            var C := Created(st.panes.Keys, specs);
            G.windows[w].panes == L + C
            && G.windows[w].active == ActiveAfter(st.windows[w].active, C)
            && (forall p | p in L + C :: Killed(G.panes, p) <==> p !in Ids(specs))
  {
    var I := Ids(specs);
    var L := st.windows[w].panes;
    var M := Mark(st, w);
    var G := MergeSpecs(M, w, specs);
    MarkMerge(st, w, specs);
    MergeWindow(M, w, specs);
    assert M.panes.Keys == st.panes.Keys;
    var C := Created(st.panes.Keys, specs);
    CreatedMembers(st.panes.Keys, specs);
    forall p | p in L + C
      ensures Killed(G.panes, p) <==> p !in I
    {
      if p !in I {
        assert p in L;
      }
    }
  }

  /** The sweep of a list whose marked entries are exactly the unlisted ones. */
  lemma SweepMarked(P: map<int32, Pane>, L: seq<int32>, C: seq<int32>, I: set<int32>)
    requires forall p | p in L + C :: Killed(P, p) <==> p !in I
    requires forall p | p in C :: p in I
    ensures Doomed(P, L + C) == set p | p in L && p !in I
    ensures forall p :: p in Live(P, L + C) <==> (p in L || p in C) && p in I
  {
    Invariants.LiveMembers(P, L + C);
    forall p | p in Doomed(P, L + C) ensures p in L && p !in I {
      assert p in L + C;
    }
    forall p | p in L && p !in I ensures p in Doomed(P, L + C) {
      assert p in L + C;
    }
  }

  /** The sweep after mark and merge destroys exactly the window's panes
      that are not listed. */
  lemma MarkMergeSweep(st: State, w: int32, specs: seq<PaneSpec>)
    requires Valid(st) && w in st.windows
    ensures var G := MergeSpecs(Mark(st, w), w, specs);
            var S := Sweep(G, w);
            var L := st.windows[w].panes;
            var C := Created(st.panes.Keys, specs);
            S.panes == G.panes - (set p | p in L && p !in Ids(specs))
            && (forall p :: p in S.windows[w].panes <==> (p in L || p in C) && p in Ids(specs))
  {
    var G := MergeSpecs(Mark(st, w), w, specs);
    var C := Created(st.panes.Keys, specs);
    MarkMergeList(st, w, specs);
    CreatedMembers(st.panes.Keys, specs);
    SweepMarked(G.panes, st.windows[w].panes, C, Ids(specs));
  }

  /** The registry and the window's pane set after a successful
      reconciliation.  A listed id whose pane belongs to another window is
      updated in place and stays there, so the window ends up with exactly the
      listed ids that are new or already its own; every other pane of the
      window is destroyed, and panes of other windows that are not listed are
      untouched. */
  lemma ReconcileRegistry(st: State, w: int32, specs: seq<PaneSpec>, aid: int32)
    requires Valid(st) && w in st.windows
    ensures var r := Reconcile(st, w, specs, aid);
            (forall p :: p in r.panes <==> p in Ids(specs) || (p in st.panes && st.panes[p].window != w))
            && (forall p | p in Ids(specs) :: r.panes[p] == Placed(Base(st, w, p), LastSpec(specs, p)))
            && (forall p | p in r.panes && p !in Ids(specs) :: r.panes[p] == st.panes[p])
            && (forall p :: p in r.windows[w].panes <==>
                  p in Ids(specs) && (p !in st.panes || st.panes[p].window == w))
  {
    var I := Ids(specs);
    var L := st.windows[w].panes;
    var G := MergeSpecs(Mark(st, w), w, specs);
    var r := Reconcile(st, w, specs, aid);
    MarkMerge(st, w, specs);
    MarkMergeSweep(st, w, specs);
    CreatedMembers(st.panes.Keys, specs);
    assert r.panes == G.panes - (set p | p in L && p !in I);
    forall p
      ensures p in r.panes <==> p in I || (p in st.panes && st.panes[p].window != w)
    {
      if p in st.panes && st.panes[p].window == w {
        assert p in L;
      }
    }
    forall p | p in r.panes && p !in I
      ensures r.panes[p] == st.panes[p]
    {
      assert p !in L;
    }
    forall p
      ensures p in r.windows[w].panes <==> p in I && (p !in st.panes || st.panes[p].window == w)
    {
      if p in I && p in st.panes && st.panes[p].window == w {
        assert p in L;
      }
    }
  }

  /** In a well-formed state, window_set_active_pane is reached exactly when
      the pane is one of the window's panes. */
  lemma SelectListed(st: State, w: int32, aid: int32)
    requires Valid(st) && w in st.windows
    ensures SelectActive(st, w, aid).windows[w].active ==
              if aid in st.windows[w].panes then Some(aid) else st.windows[w].active
  {
  }

  /** The active pane after mark, merge and sweep. */
  lemma SweptActive(st: State, w: int32, specs: seq<PaneSpec>)
    requires Valid(st) && w in st.windows
    ensures var S := Sweep(MergeSpecs(Mark(st, w), w, specs), w);
            var C := Created(st.panes.Keys, specs);
            var a := st.windows[w].active;
            S.windows[w].active ==
              if C != [] then Some(C[|C| - 1])
              else if a.Some? && a.value in Ids(specs) then a
              else None
  {
    var C := Created(st.panes.Keys, specs);
    MarkMergeList(st, w, specs);
    MarkMergeSweep(st, w, specs);
    CreatedMembers(st.panes.Keys, specs);
    if C != [] {
      assert C[|C| - 1] in C;
    }
  }

  /** The active pane after a successful reconciliation: the pane named by
      the trailing id when it ended up in the window; otherwise the last pane
      the merge created; otherwise the old active pane if it was listed, and
      none if it was destroyed. */
  lemma ReconcileActive(st: State, w: int32, specs: seq<PaneSpec>, aid: int32)
    requires Valid(st) && w in st.windows
    ensures var r := Reconcile(st, w, specs, aid);
            var C := Created(st.panes.Keys, specs);
            var a := st.windows[w].active;
            r.windows[w].active ==
              if aid in r.windows[w].panes then Some(aid)
              else if C != [] then Some(C[|C| - 1])
              else if a.Some? && a.value in Ids(specs) then a
              else None
  {
    var G := MergeSpecs(Mark(st, w), w, specs);
    var S := Sweep(G, w);
    SweptActive(st, w, specs);
    Invariants.MarkValid(st, w);
    Invariants.MergeSpecsValid(Mark(st, w), w, specs);
    Invariants.SweepValid(G, w);
    SelectListed(S, w, aid);
  }

  /** Mark, merge, sweep and select keep the shape described by Valid. */
  lemma ReconcileValid(st: State, w: int32, specs: seq<PaneSpec>, aid: int32)
    requires Valid(st) && w in st.windows
    ensures Valid(Reconcile(st, w, specs, aid))
  {
    var G := MergeSpecs(Mark(st, w), w, specs);
    Invariants.MarkValid(st, w);
    Invariants.MergeSpecsValid(Mark(st, w), w, specs);
    Invariants.SweepValid(G, w);
    Invariants.SelectActiveValid(Sweep(G, w), w, aid);
  }

  /** A sweep that finds nothing marked keeps the list as it is. */
  lemma {:induction false} LiveAll(P: map<int32, Pane>, ids: seq<int32>)
    requires forall p | p in ids :: !Killed(P, p)
    ensures Live(P, ids) == ids
    decreases |ids|
  {
    if ids != [] {
      assert ids[0] in ids;
      assert forall p | p in ids[1..] :: p in ids;
      LiveAll(P, ids[1..]);
    }
  }

  /** A window that has no panes yet ends up with exactly the panes the
      merge creates, in creation order. */
  lemma ReconcileEmptyWindow(st: State, w: int32, specs: seq<PaneSpec>, aid: int32)
    requires Valid(st) && w in st.windows && st.windows[w].panes == []
    ensures Reconcile(st, w, specs, aid).windows[w].panes == Created(st.panes.Keys, specs)
  {
    var G := MergeSpecs(Mark(st, w), w, specs);
    var C := Created(st.panes.Keys, specs);
    MarkMergeList(st, w, specs);
    CreatedMembers(st.panes.Keys, specs);
    assert G.windows[w].panes == C;
    LiveAll(G.panes, C);
  }

  /** When every listed id is registered, the merge creates nothing. */
  lemma CreatedNone(keys: set<int32>, specs: seq<PaneSpec>)
    requires Ids(specs) <= keys
    ensures Created(keys, specs) == []
  {
    CreatedMembers(keys, specs);
  }

  /** A list that names every pane of the window and only registered panes
      leaves the window's pane order as it was. */
  lemma ReconcileKeepsOrder(st: State, w: int32, specs: seq<PaneSpec>, aid: int32)
    requires Valid(st) && w in st.windows
    requires Ids(specs) <= st.panes.Keys
    requires forall p | p in st.windows[w].panes :: p in Ids(specs)
    ensures Reconcile(st, w, specs, aid).windows[w].panes == st.windows[w].panes
  {
    var L := st.windows[w].panes;
    var G := MergeSpecs(Mark(st, w), w, specs);
    MarkMergeList(st, w, specs);
    CreatedNone(st.panes.Keys, specs);
    assert L + [] == L;
    LiveAll(G.panes, L);
  }

  /** The registry characterization of ReconcileRegistry, applied twice,
      reaches a fixpoint. */
  lemma PanesFixpoint(st: State, w: int32, specs: seq<PaneSpec>, R: map<int32, Pane>, R2: map<int32, Pane>)
    requires w in st.windows
    requires forall p :: p in R <==> p in Ids(specs) || (p in st.panes && st.panes[p].window != w)
    requires forall p | p in Ids(specs) :: R[p] == Placed(Base(st, w, p), LastSpec(specs, p))
    requires forall p | p in R && p !in Ids(specs) :: R[p] == st.panes[p]
    requires forall p :: p in R2 <==> p in Ids(specs) || (p in R && R[p].window != w)
    requires forall p | p in Ids(specs) :: R2[p] == Placed(R[p], LastSpec(specs, p))
    requires forall p | p in R2 && p !in Ids(specs) :: R2[p] == R[p]
    ensures R2 == R
  {
    assert R2.Keys == R.Keys;
  }

  /** The second reconciliation of the registry: every listed pane is
      placed again with the same geometry, the others are untouched. */
  lemma IdempotentPanes(st: State, w: int32, specs: seq<PaneSpec>, aid: int32)
    requires Valid(st) && w in st.windows
    ensures var r := Reconcile(st, w, specs, aid);
            Reconcile(r, w, specs, aid).panes == r.panes
  {
    var r := Reconcile(st, w, specs, aid);
    ReconcileValid(st, w, specs, aid);
    ReconcileRegistry(st, w, specs, aid);
    ReconcileRegistry(r, w, specs, aid);
    forall p | p in Ids(specs) ensures Base(r, w, p) == r.panes[p] {
    }
    PanesFixpoint(st, w, specs, r.panes, Reconcile(r, w, specs, aid).panes);
  }

  /** The second reconciliation of the window: same order, same active pane. */
  lemma IdempotentWindow(st: State, w: int32, specs: seq<PaneSpec>, aid: int32)
    requires Valid(st) && w in st.windows
    ensures var r := Reconcile(st, w, specs, aid);
            Reconcile(r, w, specs, aid).windows[w] == r.windows[w]
  {
    var r := Reconcile(st, w, specs, aid);
    ReconcileValid(st, w, specs, aid);
    ReconcileRegistry(st, w, specs, aid);
    ReconcileKeepsOrder(r, w, specs, aid);
    ReconcileActive(st, w, specs, aid);
    ReconcileActive(r, w, specs, aid);
    CreatedNone(r.panes.Keys, specs);
  }

  /** Reconciling a window a second time against the same list and active
      id changes nothing: a repeated snapshot is harmless. */
  lemma ReconcileIdempotent(st: State, w: int32, specs: seq<PaneSpec>, aid: int32)
    requires Valid(st) && w in st.windows
    ensures var r := Reconcile(st, w, specs, aid);
            Reconcile(r, w, specs, aid) == r
  {
    var r := Reconcile(st, w, specs, aid);
    IdempotentPanes(st, w, specs, aid);
    IdempotentWindow(st, w, specs, aid);
    assert Reconcile(r, w, specs, aid).windows == r.windows;
  }

  /** No two elements of the list name the same pane. */
  predicate DistinctIds(specs: seq<PaneSpec>)
  {
    forall i, j | 0 <= i < j < |specs| :: specs[i].id != specs[j].id
  }

  /** LastSpec picks an element of the list with the given id, and in a list
      without repeated ids that element is the only one. */
  lemma {:induction false} LastSpecIn(specs: seq<PaneSpec>, p: int32)
    requires p in Ids(specs)
    ensures LastSpec(specs, p) in specs && LastSpec(specs, p).id == p
    ensures DistinctIds(specs) ==> forall s | s in specs && s.id == p :: s == LastSpec(specs, p)
    decreases |specs|
  {
    if !(specs[0].id == p && p !in Ids(specs[1..])) {
      IdsCons(specs);
      LastSpecIn(specs[1..], p);
      if DistinctIds(specs) {
        assert DistinctIds(specs[1..]) by {
          forall i, j | 0 <= i < j < |specs[1..]| ensures specs[1..][i].id != specs[1..][j].id {
            assert specs[1..][i] == specs[i + 1] && specs[1..][j] == specs[j + 1];
          }
        }
        forall s | s in specs && s.id == p ensures s == LastSpec(specs, p) {
          var k :| 0 <= k < |specs[1..]| && specs[1..][k] == LastSpec(specs[1..], p);
          assert specs[1..][k] == specs[k + 1];
          if s == specs[0] {
            assert specs[0].id != specs[k + 1].id;
          } else {
            assert s in specs[1..];
          }
        }
      }
    } else if DistinctIds(specs) {
      forall s | s in specs && s.id == p ensures s == specs[0] {
      }
    }
  }

  /** Two lists holding the same elements name the same panes. */
  lemma SameIds(a: seq<PaneSpec>, b: seq<PaneSpec>)
    requires multiset(a) == multiset(b)
    ensures Ids(a) == Ids(b)
  {
    forall s ensures s in a <==> s in b {
      assert s in a <==> s in multiset(a);
      assert s in b <==> s in multiset(b);
    }
  }

  /** For any reordering of the pane list, repeated ids included, the
      registry holds the same ids, the window holds the same panes, and an
      active id that ends up in the window is selected either way. */
  lemma ReorderPanes(st: State, w: int32, a: seq<PaneSpec>, b: seq<PaneSpec>, aid: int32)
    requires Valid(st) && w in st.windows && multiset(a) == multiset(b)
    ensures var ra, rb := Reconcile(st, w, a, aid), Reconcile(st, w, b, aid);
            ra.panes.Keys == rb.panes.Keys
            && (forall p :: p in ra.windows[w].panes <==> p in rb.windows[w].panes)
            && (aid in ra.windows[w].panes ==> ra.windows[w].active == rb.windows[w].active == Some(aid))
  {
    SameIds(a, b);
    ReconcileRegistry(st, w, a, aid);
    ReconcileRegistry(st, w, b, aid);
    ReconcileActive(st, w, a, aid);
    ReconcileActive(st, w, b, aid);
  }

  /** Two lists without repeated ids holding the same elements name the same
      panes with the same geometry. */
  lemma SameSpecs(a: seq<PaneSpec>, b: seq<PaneSpec>)
    requires DistinctIds(a) && DistinctIds(b) && multiset(a) == multiset(b)
    ensures Ids(a) == Ids(b)
    ensures forall p | p in Ids(a) :: LastSpec(a, p) == LastSpec(b, p)
  {
    assert forall s :: s in a <==> s in b by {
      forall s ensures s in a <==> s in b {
        assert s in a <==> s in multiset(a);
        assert s in b <==> s in multiset(b);
      }
    }
    assert Ids(a) == Ids(b);
    forall p | p in Ids(a) ensures LastSpec(a, p) == LastSpec(b, p) {
      LastSpecIn(a, p);
      LastSpecIn(b, p);
    }
  }

  /** The registry and the window's pane set do not depend on the order of
      a list without repeated ids. */
  lemma PermutationRegistry(st: State, w: int32, a: seq<PaneSpec>, b: seq<PaneSpec>, aid: int32)
    requires Valid(st) && w in st.windows
    requires DistinctIds(a) && DistinctIds(b) && multiset(a) == multiset(b)
    ensures var ra, rb := Reconcile(st, w, a, aid), Reconcile(st, w, b, aid);
            ra.panes == rb.panes
            && (forall p :: p in ra.windows[w].panes <==> p in rb.windows[w].panes)
  {
    var ra, rb := Reconcile(st, w, a, aid), Reconcile(st, w, b, aid);
    SameSpecs(a, b);
    ReconcileRegistry(st, w, a, aid);
    ReconcileRegistry(st, w, b, aid);
    assert ra.panes.Keys == rb.panes.Keys;
  }

  /** Without repeated ids, the order of the pane list does not matter for
      the registry or for which panes the window has, and an active id that
      ends up in the window is selected either way. */
  lemma ReconcilePermutation(st: State, w: int32, a: seq<PaneSpec>, b: seq<PaneSpec>, aid: int32)
    requires Valid(st) && w in st.windows
    requires DistinctIds(a) && DistinctIds(b) && multiset(a) == multiset(b)
    ensures var ra, rb := Reconcile(st, w, a, aid), Reconcile(st, w, b, aid);
            ra.panes == rb.panes
            && (forall p :: p in ra.windows[w].panes <==> p in rb.windows[w].panes)
            && (aid in ra.windows[w].panes ==> ra.windows[w].active == rb.windows[w].active == Some(aid))
  {
    PermutationRegistry(st, w, a, b, aid);
    ReconcileActive(st, w, a, aid);
    ReconcileActive(st, w, b, aid);
  }
}
