/**
 Ownership of storage cells over every run, and what the individual operations promise.
 */
module HandleOwnershipProofs {
  import opened Basics
  import opened HandleOwnership

  // ---------------------------------------------------------------- the building blocks keep the invariant

  lemma DisposeSize(w: World, c: CellId)
    requires c in w.cells
    ensures |(w.cells - {c})| == |w.cells| - 1
  {
    assert (w.cells - {c}).Keys == w.cells.Keys - {c};
    assert |w.cells| == |w.cells.Keys| && |w.cells - {c}| == |(w.cells - {c}).Keys|;
  }

  lemma UpdateSize(m: map<CellId, Cell>, c: CellId, cell: Cell)
    ensures |m[c := cell]| == if c in m then |m| else |m| + 1
  {
    assert m[c := cell].Keys == m.Keys + {c};
    assert |m[c := cell]| == |m[c := cell].Keys| && |m| == |m.Keys|;
  }

  ghost predicate OnlySlotChanged(w: World, r: World, h: HandleId, slot: Option<CellId>) {
    h in w.handles && r.handles == w.handles[h := w.handles[h].(slot := slot)]
  }

  /** Nothing changed about any cell but `c`. */
  ghost predicate SameElsewhere(w: World, r: World, c: CellId) {
    && (forall d :: d in w.cells && d != c ==> d in r.cells && r.cells[d] == w.cells[d])
    && (forall d :: d in r.cells && d != c ==> d in w.cells)
    && (forall d :: d != c ==> (d in r.orphans <==> d in w.orphans))
    && (forall h, d :: d != c ==> (Names(r, h, d) <==> Names(w, h, d)))
    && (forall h :: h in w.handles && h in r.handles ==> r.handles[h].kind == w.handles[h].kind)
  }

  /** The invariant, as far as cell `c` is concerned. */
  ghost predicate CellOk(r: World, c: CellId) {
    && (c in r.orphans ==> c in r.cells)
    && (forall h :: Names(r, h, c) ==> c in r.cells && c !in r.orphans && r.cells[c].traced == r.handles[h].kind.TracedKind?)
    && (forall g, h :: Names(r, g, c) && Names(r, h, c) ==> g == h)
    && (c in r.cells && c !in r.orphans ==> exists h :: Names(r, h, c))
    && (c in r.cells && c !in r.orphans && r.cells[c].weakness.Phantom? ==> Names(r, r.cells[c].weakness.back, c))
    && (c in r.cells && r.cells[c].traced ==> r.cells[c].weakness.Strong?)
  }

  lemma InvCellOk(w: World, c: CellId)
    requires Inv(w)
    ensures CellOk(w, c)
  {}

  lemma AllCellsOk(r: World)
    requires forall c :: CellOk(r, c)
    requires r.created == r.disposed + |r.cells|
    ensures Inv(r)
  {
    forall h | h in r.handles && r.handles[h].slot.Some?
      ensures r.handles[h].slot.value in r.cells && r.handles[h].slot.value !in r.orphans
    {
      assert CellOk(r, r.handles[h].slot.value) && Names(r, h, r.handles[h].slot.value);
    }
    forall g, h | g in r.handles && h in r.handles && r.handles[g].slot.Some? && r.handles[g].slot == r.handles[h].slot
      ensures g == h
    {
      assert CellOk(r, r.handles[g].slot.value);
      assert Names(r, g, r.handles[g].slot.value) && Names(r, h, r.handles[g].slot.value);
    }
    forall c | c in r.orphans ensures c in r.cells { assert CellOk(r, c); }
    forall c | c in r.cells && c !in r.orphans ensures exists h :: Names(r, h, c) { assert CellOk(r, c); }
    forall c | c in r.cells && c !in r.orphans && r.cells[c].weakness.Phantom?
      ensures Names(r, r.cells[c].weakness.back, c)
    {
      assert CellOk(r, c);
    }
    forall h, c | Names(r, h, c) && c in r.cells ensures r.cells[c].traced == r.handles[h].kind.TracedKind? {
      assert CellOk(r, c);
    }
    forall c | c in r.cells && r.cells[c].traced ensures r.cells[c].weakness.Strong? { assert CellOk(r, c); }
  }

  /** A change to one cell and its handles keeps the invariant if it keeps it for that cell. */
  lemma OneCellChanged(w: World, r: World, c: CellId)
    requires Inv(w) && SameElsewhere(w, r, c) && CellOk(r, c)
    requires r.created == r.disposed + |r.cells|
    ensures Inv(r)
  {
    forall d ensures CellOk(r, d) {
      if d != c {
        InvCellOk(w, d);
        if d in r.cells && d !in r.orphans {
          var h :| Names(w, h, d);
          assert Names(r, h, d);
        }
      }
    }
    AllCellsOk(r);
  }

  lemma DisposeOwned(w: World, h: HandleId, c: CellId)
    requires Inv(w) && Names(w, h, c)
    ensures Inv(WithSlot(Dispose(w, c), h, None))
  {
    DisposeSize(w, c);
    OneCellChanged(w, WithSlot(Dispose(w, c), h, None), c);
  }

  lemma GiveUp(w: World, h: HandleId, c: CellId, value: Word)
    requires Inv(w) && Names(w, h, c) && w.cells[c].traced
    ensures Inv(WithSlot(w.(cells := w.cells[c := w.cells[c].(value := value)], orphans := w.orphans + {c}), h, None))
  {
    var r := WithSlot(w.(cells := w.cells[c := w.cells[c].(value := value)], orphans := w.orphans + {c}), h, None);
    UpdateSize(w.cells, c, r.cells[c]);
    OneCellChanged(w, r, c);
  }

  /** Reset keeps the invariant, empties the handle and touches no other handle. */
  lemma ResetKeeps(w: World, h: HandleId)
    requires Inv(w) && h in w.handles
    ensures Inv(Reset(w, h)) && OnlySlotChanged(w, Reset(w, h), h, None)
    ensures forall c :: c in Reset(w, h).cells && c !in Reset(w, h).orphans ==> c in w.cells && Reset(w, h).cells[c] == w.cells[c]
  {
    match w.handles[h].slot
    case None => assert w.handles[h := w.handles[h].(slot := None)] == w.handles;
    case Some(c) =>
      assert Names(w, h, c);
      if !w.handles[h].kind.TracedKind? || (!w.sweeping && !w.marking) {
        DisposeOwned(w, h, c);
      } else {
        GiveUp(w, h, c, if w.sweeping then w.cells[c].value else 0);
        assert w.cells[c := w.cells[c].(value := w.cells[c].value)] == w.cells;
      }
  }

  lemma GlobalizeKeeps(w: World, h: HandleId, value: Word, c: CellId)
    requires Inv(w) && h in w.handles && IsEmpty(w, h) && c !in w.cells
    ensures Inv(Globalize(w, h, value, c))
  {
    var r := Globalize(w, h, value, c);
    UpdateSize(w.cells, c, r.cells[c]);
    assert Names(r, h, c);
    OneCellChanged(w, r, c);
  }

  /** Handing a cell from one handle to an empty one. */
  ghost predicate Handover(w: World, r: World, from: HandleId, to: HandleId, c: CellId) {
    && Names(w, from, c) && to in w.handles && IsEmpty(w, to) && from != to
    && r == w.(handles := w.handles[to := w.handles[to].(slot := Some(c))][from := w.handles[from].(slot := None)],
               cells := r.cells)
    && c in w.cells && c in r.cells && r.cells == w.cells[c := r.cells[c]]
    && r.cells[c].traced == w.cells[c].traced == w.handles[to].kind.TracedKind?
    && (w.cells[c].traced ==> r.cells[c].weakness == w.cells[c].weakness)
    && (r.cells[c].weakness.Phantom? ==> r.cells[c].weakness.back == to)
  }

  lemma HandoverElsewhere(w: World, r: World, from: HandleId, to: HandleId, c: CellId)
    requires Handover(w, r, from, to, c)
    ensures SameElsewhere(w, r, c)
  {
    forall h, d | d != c ensures Names(r, h, d) <==> Names(w, h, d) {}
  }

  lemma HandoverCell(w: World, r: World, from: HandleId, to: HandleId, c: CellId)
    requires CellOk(w, c) && Handover(w, r, from, to, c)
    ensures CellOk(r, c)
  {
    assert Names(r, to, c);
    forall h | Names(r, h, c) ensures h == to {
      assert h != from && h != to ==> !Names(w, h, c);
    }
  }

  lemma HandoverKeeps(w: World, r: World, from: HandleId, to: HandleId, c: CellId)
    requires Inv(w) && Handover(w, r, from, to, c)
    ensures Inv(r)
  {
    UpdateSize(w.cells, c, r.cells[c]);
    HandoverElsewhere(w, r, from, to, c);
    InvCellOk(w, c);
    HandoverCell(w, r, from, to, c);
    OneCellChanged(w, r, c);
  }

  /** Empty handles come and go without any effect. */
  lemma SameNames(w: World, r: World)
    requires Inv(w)
    requires r.cells == w.cells && r.orphans == w.orphans && r.created == w.created && r.disposed == w.disposed
    requires forall h, c :: Names(r, h, c) <==> Names(w, h, c)
    requires forall h, c :: Names(w, h, c) ==> h in r.handles && r.handles[h].kind == w.handles[h].kind
    ensures Inv(r)
  {
    forall c ensures CellOk(r, c) {
      InvCellOk(w, c);
      if c in r.cells && c !in r.orphans {
        var h :| Names(w, h, c);
        assert Names(r, h, c);
      }
    }
    AllCellsOk(r);
  }

  lemma AddHandle(w: World, h: HandleId, kind: Kind)
    requires Inv(w) && h !in w.handles
    ensures Inv(w.(handles := w.handles[h := Handle(kind, None)]))
  {
    SameNames(w, w.(handles := w.handles[h := Handle(kind, None)]));
  }

  lemma RemoveEmpty(w: World, h: HandleId)
    requires Inv(w) && h in w.handles && IsEmpty(w, h)
    ensures Inv(w.(handles := w.handles - {h}))
  {
    SameNames(w, w.(handles := w.handles - {h}));
  }

  lemma RemoveLeaving(w: World, h: HandleId, c: CellId)
    requires Inv(w) && Names(w, h, c)
    ensures Inv(w.(handles := w.handles - {h}, orphans := w.orphans + {c}))
  {
    OneCellChanged(w, w.(handles := w.handles - {h}, orphans := w.orphans + {c}), c);
  }

  lemma OverwriteKeeps(w: World, h: HandleId)
    requires Inv(w) && h in w.handles
    ensures Inv(Overwritten(w, h))
  {
    if !IsEmpty(w, h) {
      var c := w.handles[h].slot.value;
      assert Names(w, h, c);
      InvCellOk(w, c);
      OneCellChanged(w, WithSlot(w.(orphans := w.orphans + {c}), h, None), c);
    }
  }

  lemma WeaknessKeeps(w: World, c: CellId, weakness: Weakness)
    requires Inv(w) && c in w.cells && !w.cells[c].traced
    requires weakness.Phantom? && c !in w.orphans ==> Names(w, weakness.back, c)
    ensures Inv(SetWeakness(w, c, weakness))
  {
    var r := SetWeakness(w, c, weakness);
    UpdateSize(w.cells, c, r.cells[c]);
    InvCellOk(w, c);
    if c !in w.orphans {
      var g :| Names(w, g, c);
      assert Names(r, g, c);
    }
    OneCellChanged(w, r, c);
  }

  lemma SweepKeeps(w: World, c: CellId)
    requires Inv(w) && c in w.orphans
    ensures Inv(Dispose(w, c).(orphans := w.orphans - {c}))
  {
    DisposeSize(w, c);
    OneCellChanged(w, Dispose(w, c).(orphans := w.orphans - {c}), c);
  }

  // ---------------------------------------------------------------- every step, every run

  lemma TransferKeeps(w: World, from: HandleId, to: HandleId, c: CellId)
    requires Inv(w) && Names(w, from, c) && to in w.handles && IsEmpty(w, to) && from != to
    requires !w.handles[from].kind.TracedKind? && !w.handles[to].kind.TracedKind?
    ensures c in w.cells && Inv(Transfer(w, from, to, c))
  {
    assert Handover(w, Transfer(w, from, to, c), from, to, c);
    HandoverKeeps(w, Transfer(w, from, to, c), from, to, c);
  }

  lemma CopyKeeps(w: World, h: HandleId, other: HandleId, c: CellId)
    requires Inv(w) && h in w.handles && other in w.handles && FreeAfterReset(w, h, c)
    ensures Inv(CopyFrom(w, h, other, c))
  {
    ResetKeeps(w, h);
    var r := Reset(w, h);
    if !IsEmpty(r, other) {
      GlobalizeKeeps(r, h, ValueIn(r, other).value, c);
    }
  }

  lemma MoveAssignKeeps(w: World, h: HandleId, rhs: HandleId)
    requires Inv(w) && Enabled(w, Move(h, rhs))
    ensures Inv(MoveAssign(w, h, rhs))
  {
    if h != rhs {
      ResetKeeps(w, h);
      var r := Reset(w, h);
      if w.handles[rhs].slot.Some? {
        var c := w.handles[rhs].slot.value;
        assert Names(r, rhs, c);
        TransferKeeps(r, rhs, h, c);
      }
    }
  }

  lemma MoveConstructKeeps(w: World, h: HandleId, other: HandleId)
    requires Inv(w) && Enabled(w, MoveNew(h, other))
    ensures Inv(MoveConstruct(w, h, other))
  {
    AddHandle(w, h, GlobalKind);
    var n := w.(handles := w.handles[h := Handle(GlobalKind, None)]);
    if w.handles[other].slot.Some? {
      assert Names(n, other, w.handles[other].slot.value);
      TransferKeeps(n, other, h, w.handles[other].slot.value);
    }
  }

  lemma TracedMoveKeeps(w: World, h: HandleId, rhs: HandleId)
    requires Inv(w) && Enabled(w, MoveTraced(h, rhs))
    ensures Inv(TracedMove(w, h, rhs))
  {
    if h != rhs {
      ResetKeeps(w, h);
      var r := Reset(w, h);
      if w.handles[rhs].slot.Some? {
        var c := w.handles[rhs].slot.value;
        assert Names(r, rhs, c);
        InvCellOk(r, c);
        var t := WithSlot(WithSlot(r, h, Some(c)), rhs, None);
        assert r.cells == r.cells[c := r.cells[c]];
        HandoverKeeps(r, t, rhs, h, c);
      }
    }
  }

  lemma DestroyKeeps(w: World, h: HandleId)
    requires Inv(w) && h in w.handles
    ensures Inv(Destroy(w, h))
  {
    if ResetsInDestructor(w.handles[h].kind) {
      ResetKeeps(w, h);
      RemoveEmpty(Reset(w, h), h);
    } else if IsEmpty(w, h) {
      RemoveEmpty(w, h);
      assert w.orphans + {} == w.orphans;
    } else {
      RemoveLeaving(w, h, w.handles[h].slot.value);
    }
  }

  lemma ClearPhantomKeeps(w: World, c: CellId)
    requires Inv(w) && Enabled(w, CollectPhantom(c))
    ensures Inv(ClearPhantom(w, c))
  {
    var back := w.cells[c].weakness.back;
    if c in w.orphans {
      SweepKeeps(w, c);
      if back in w.handles {
        OverwriteKeeps(Dispose(w, c).(orphans := w.orphans - {c}), back);
      }
    } else {
      InvCellOk(w, c);
      DisposeOwned(w, back, c);
      assert w.orphans - {c} == w.orphans;
    }
  }

  lemma MakingStepKeeps(w: World, step: Step)
    requires Inv(w) && Enabled(w, step)
    requires step.Construct? || step.ResetStep? || step.ResetLocal? || step.Copy? || step.CopyTraced? || step.Destruct?
    ensures Inv(Apply(w, step))
  {
    match step
    case Construct(h, kind, local, c) =>
      AddHandle(w, h, kind);
      if local.Some? {
        GlobalizeKeeps(w.(handles := w.handles[h := Handle(kind, None)]), h, local.value, c);
      }
    case ResetStep(h) => ResetKeeps(w, h);
    case ResetLocal(h, local, c) =>
      ResetKeeps(w, h);
      if local.Some? {
        GlobalizeKeeps(Reset(w, h), h, local.value, c);
      }
    case Copy(h, other, c) => CopyKeeps(w, h, other, c);
    case CopyTraced(h, rhs, c) =>
      if h != rhs {
        CopyKeeps(w, h, rhs, c);
      }
    case Destruct(h) => DestroyKeeps(w, h);
  }

  lemma WeakStepKeeps(w: World, h: HandleId, weakness: Weakness)
    requires Inv(w) && IsHandle(w, h, false) && !IsEmpty(w, h)
    requires weakness.Phantom? ==> weakness.back == h
    ensures var c := w.handles[h].slot.value; c in w.cells && Inv(SetWeakness(w, c, weakness))
  {
    var c := w.handles[h].slot.value;
    assert Names(w, h, c);
    InvCellOk(w, c);
    WeaknessKeeps(w, c, weakness);
  }

  /** Every step keeps the ownership invariant. */
  lemma StepKeeps(w: World, step: Step)
    requires Inv(w) && Enabled(w, step)
    ensures Inv(Apply(w, step))
  {
    match step
    case MoveNew(h, other) => MoveConstructKeeps(w, h, other);
    case Move(h, rhs) => MoveAssignKeeps(w, h, rhs);
    case MoveTraced(h, rhs) => TracedMoveKeeps(w, h, rhs);
    case SetWeakPhantom(h) => WeakStepKeeps(w, h, Phantom(h));
    case SetWeakCallback(h) => WeakStepKeeps(w, h, Callback);
    case ClearWeak(h) => WeakStepKeeps(w, h, Strong);
    case CollectPhantom(c) => ClearPhantomKeeps(w, c);
    case CollectCallback(c) => InvCellOk(w, c); WeaknessKeeps(w, c, NearDeath);
    case SweepTraced(c) => SweepKeeps(w, c);
    case SetPhase(marking, sweeping) =>
      SameNames(w, w.(marking := marking, sweeping := sweeping));
    case _ => MakingStepKeeps(w, step);
  }

  ghost predicate EnabledRun(w: World, steps: seq<Step>)
    requires Inv(w)
    decreases |steps|
  {
    steps == [] ||
    (Enabled(w, steps[0]) && (StepKeeps(w, steps[0]); EnabledRun(Apply(w, steps[0]), steps[1..])))
  }

  ghost function Run(w: World, steps: seq<Step>): (r: World)
    requires Inv(w) && EnabledRun(w, steps)
    ensures Inv(r)
    decreases |steps|
  {
    if steps == [] then w else StepKeeps(w, steps[0]); Run(Apply(w, steps[0]), steps[1..])
  }

  // ---------------------------------------------------------------- conservation

  function NonEmpty(w: World): set<HandleId> {
    set h | h in w.handles && w.handles[h].slot.Some?
  }

  function NamedBy(w: World, hs: set<HandleId>): set<CellId>
    requires hs <= NonEmpty(w)
  {
    set h | h in hs :: w.handles[h].slot.value
  }

  lemma {:induction false} NamedCount(w: World, hs: set<HandleId>)
    requires hs <= NonEmpty(w) && OwnersDistinct(w)
    ensures |NamedBy(w, hs)| == |hs|
    decreases |hs|
  {
    if hs == {} {
      assert NamedBy(w, hs) == {};
    } else {
      var h :| h in hs;
      NamedCount(w, hs - {h});
      var c := w.handles[h].slot.value;
      assert NamedBy(w, hs) == NamedBy(w, hs - {h}) + {c};
      assert c !in NamedBy(w, hs - {h});
    }
  }

  lemma CellPartition(w: World)
    requires Inv(w)
    ensures w.cells.Keys == NamedBy(w, NonEmpty(w)) + w.orphans
    ensures NamedBy(w, NonEmpty(w)) !! w.orphans
  {
    var named := NamedBy(w, NonEmpty(w));
    forall c | c in w.cells && c !in w.orphans ensures c in named {
      var h :| Names(w, h, c);
      assert h in NonEmpty(w);
    }
  }

  /** The cells in use are those of the non-empty handles, one each, and the orphans. */
  lemma CellCount(w: World)
    requires Inv(w)
    ensures |w.cells| == |NonEmpty(w)| + |w.orphans|
  {
    CellPartition(w);
    NamedCount(w, NonEmpty(w));
    assert |w.cells| == |w.cells.Keys|;
  }

  /** Over every run of every kind of handle: cells created minus cells disposed is the
      number of non-empty handles plus the cells given up without being freed. */
  lemma Conservation(w: World, steps: seq<Step>)
    requires Inv(w) && EnabledRun(w, steps)
    ensures var r := Run(w, steps); r.created - r.disposed == |NonEmpty(r)| + |r.orphans|
  {
    CellCount(Run(w, steps));
  }

  /** The world before the first handle. */
  lemma EmptyWorldInv()
    ensures Inv(EMPTY_WORLD)
  {}

  // ---------------------------------------------------------------- handles that reset themselves

  /** Only handles that free their cell when they are destroyed, and no cell given up. */
  ghost predicate NothingLeaks(w: World) {
    && w.orphans == {}
    && forall h :: h in w.handles ==> ResetsInDestructor(w.handles[h].kind)
  }

  lemma ResetLeaksNothing(w: World, h: HandleId)
    requires Inv(w) && NothingLeaks(w) && h in w.handles
    ensures NothingLeaks(Reset(w, h))
  {
    ResetKeeps(w, h);
  }

  lemma TransferLeaksNothing(w: World, from: HandleId, to: HandleId, c: CellId)
    requires NothingLeaks(w) && from in w.handles && to in w.handles && c in w.cells
    ensures NothingLeaks(Transfer(w, from, to, c))
  {}

  lemma MoveNewLeaksNothing(w: World, h: HandleId, other: HandleId)
    requires Inv(w) && Enabled(w, MoveNew(h, other)) && NothingLeaks(w)
    ensures NothingLeaks(MoveConstruct(w, h, other))
  {
    var n := w.(handles := w.handles[h := Handle(GlobalKind, None)]);
    if !IsEmpty(w, other) {
      TransferLeaksNothing(n, other, h, w.handles[other].slot.value);
    }
  }

  lemma MoveLeaksNothing(w: World, h: HandleId, rhs: HandleId)
    requires Inv(w) && Enabled(w, Move(h, rhs)) && NothingLeaks(w)
    ensures NothingLeaks(MoveAssign(w, h, rhs))
  {
    if h != rhs {
      ResetLeaksNothing(w, h);
      ResetKeeps(w, h);
      if !IsEmpty(w, rhs) {
        var c := w.handles[rhs].slot.value;
        assert Names(Reset(w, h), rhs, c);
        TransferLeaksNothing(Reset(w, h), rhs, h, c);
      }
    }
  }

  lemma MakingLeaksNothing(w: World, step: Step)
    requires Inv(w) && Enabled(w, step) && NothingLeaks(w)
    requires step.Construct? ==> ResetsInDestructor(step.kind)
    requires step.Construct? || step.ResetStep? || step.ResetLocal? || step.Copy? || step.Destruct?
    ensures NothingLeaks(Apply(w, step))
  {
    if !step.Construct? {
      ResetLeaksNothing(w, step.h);
    }
  }

  lemma StepLeaksNothing(w: World, step: Step)
    requires Inv(w) && Enabled(w, step) && NothingLeaks(w)
    requires step.Construct? ==> ResetsInDestructor(step.kind)
    ensures NothingLeaks(Apply(w, step))
  {
    match step
    case Construct(_, _, _, _) => MakingLeaksNothing(w, step);
    case ResetStep(_) => MakingLeaksNothing(w, step);
    case ResetLocal(_, _, _) => MakingLeaksNothing(w, step);
    case Copy(_, _, _) => MakingLeaksNothing(w, step);
    case Destruct(_) => MakingLeaksNothing(w, step);
    case MoveNew(h, other) => MoveNewLeaksNothing(w, h, other);
    case Move(h, rhs) => MoveLeaksNothing(w, h, rhs);
    case _ =>
  }

  lemma {:induction false} RunLeaksNothing(w: World, steps: seq<Step>)
    requires Inv(w) && EnabledRun(w, steps) && NothingLeaks(w)
    requires forall i :: 0 <= i < |steps| && steps[i].Construct? ==> ResetsInDestructor(steps[i].kind)
    ensures NothingLeaks(Run(w, steps))
    decreases |steps|
  {
    if steps == [] {
    } else {
      StepKeeps(w, steps[0]);
      StepLeaksNothing(w, steps[0]);
      RunLeaksNothing(Apply(w, steps[0]), steps[1..]);
    }
  }

  /** In a program of globals and self-resetting persistents, live cells are non-empty
      handles, no matter how they were moved; when no handle is left, no cell is. */
  lemma GlobalsFreeEverything(steps: seq<Step>)
    requires (EmptyWorldInv(); EnabledRun(EMPTY_WORLD, steps))
    requires forall i :: 0 <= i < |steps| && steps[i].Construct? ==>
               steps[i].kind == GlobalKind || steps[i].kind == PersistentKind(true)
    ensures var r := (EmptyWorldInv(); Run(EMPTY_WORLD, steps));
            && |r.cells| == |NonEmpty(r)| == r.created - r.disposed
            && (r.handles == map[] ==> r.cells == map[])
  {
    EmptyWorldInv();
    RunLeaksNothing(EMPTY_WORLD, steps);
    var r := Run(EMPTY_WORLD, steps);
    CellCount(r);
    if r.handles == map[] {
      assert NonEmpty(r) == {};
    }
  }

  // ---------------------------------------------------------------- the collector and moved handles

  /** Clearing a phantom cell empties the handle that owns it now, wherever it was moved
      to, and no other handle. */
  lemma CollectEmptiesOwner(w: World, c: CellId)
    requires Inv(w) && Enabled(w, CollectPhantom(c)) && c !in w.orphans
    ensures var owner := w.cells[c].weakness.back;
            && Names(w, owner, c)
            && (forall h :: Names(w, h, c) ==> h == owner)
            && ClearPhantom(w, c).handles == w.handles[owner := w.handles[owner].(slot := None)]
            && ClearPhantom(w, c).cells == w.cells - {c}
  {
    InvCellOk(w, c);
  }

  /** Clearing `c` writes to a handle that exists, and every handle but the one that named
      `c` keeps its cell. */
  ghost predicate ClearsOnlyOwner(w: World, c: CellId)
    requires c in w.cells && w.cells[c].weakness.Phantom?
  {
    && w.cells[c].weakness.back in w.handles
    && forall h :: h in w.handles && !Names(w, h, c) ==>
         h in ClearPhantom(w, c).handles && ClearPhantom(w, c).handles[h] == w.handles[h]
  }

  /** The write is harmless, if and only if the cell still has its handle, or the handle
      that lives at the address now is empty; a write to an address where no handle lives
      is not. */
  lemma CollectIsSafeIff(w: World, c: CellId)
    requires Inv(w) && Enabled(w, CollectPhantom(c))
    ensures var back := w.cells[c].weakness.back;
            ClearsOnlyOwner(w, c) <==> c !in w.orphans || (back in w.handles && IsEmpty(w, back))
  {
    InvCellOk(w, c);
    var back := w.cells[c].weakness.back;
    if c in w.orphans && back in w.handles && !IsEmpty(w, back) {
      assert !Names(w, back, c);
      assert IsEmpty(ClearPhantom(w, c), back);
    }
  }

  /** A persistent handle at address 1 that does not reset itself is made weak and
      destroyed, and a global takes its place. */
  const PLACE_TAKEN: seq<Step> := [
    Construct(1, PersistentKind(false), Some(7), 5), SetWeakPhantom(1), Destruct(1),
    Construct(1, GlobalKind, Some(8), 6)
  ]

  const LOST_HANDLE := World(
    map[1 := Handle(GlobalKind, Some(6))], map[5 := Cell(7, Phantom(1), false), 6 := Cell(8, Strong, false)], {5},
    2, 0, false, false)

  const HELD := World(
    map[1 := Handle(PersistentKind(false), Some(5))], map[5 := Cell(7, Strong, false)], {}, 1, 0, false, false)
  const WEAK := HELD.(cells := map[5 := Cell(7, Phantom(1), false)])
  const ABANDONED := WEAK.(handles := map[], orphans := {5})

  lemma Held()
    ensures Inv(EMPTY_WORLD) && Enabled(EMPTY_WORLD, PLACE_TAKEN[0]) && Apply(EMPTY_WORLD, PLACE_TAKEN[0]) == HELD
    ensures Inv(HELD)
  {
    EmptyWorldInv();
    StepKeeps(EMPTY_WORLD, PLACE_TAKEN[0]);
  }

  lemma MadeWeak()
    requires Inv(HELD)
    ensures Enabled(HELD, PLACE_TAKEN[1]) && Apply(HELD, PLACE_TAKEN[1]) == WEAK && Inv(WEAK)
  {
    StepKeeps(HELD, PLACE_TAKEN[1]);
  }

  lemma Abandoned()
    requires Inv(WEAK)
    ensures Enabled(WEAK, PLACE_TAKEN[2]) && Apply(WEAK, PLACE_TAKEN[2]) == ABANDONED && Inv(ABANDONED)
  {
    assert WEAK.handles - {1} == map[];
    StepKeeps(WEAK, PLACE_TAKEN[2]);
  }

  lemma Replaced()
    requires Inv(ABANDONED)
    ensures Enabled(ABANDONED, PLACE_TAKEN[3]) && Apply(ABANDONED, PLACE_TAKEN[3]) == LOST_HANDLE && Inv(LOST_HANDLE)
  {
    StepKeeps(ABANDONED, PLACE_TAKEN[3]);
  }

  lemma PlaceTaken()
    ensures Inv(EMPTY_WORLD) && EnabledRun(EMPTY_WORLD, PLACE_TAKEN) && Run(EMPTY_WORLD, PLACE_TAKEN) == LOST_HANDLE
  {
    Held();
    MadeWeak();
    Abandoned();
    Replaced();
    RunFour(EMPTY_WORLD, HELD, WEAK, ABANDONED, LOST_HANDLE, PLACE_TAKEN);
  }

  lemma RunFour(w0: World, w1: World, w2: World, w3: World, w4: World, steps: seq<Step>)
    requires Inv(w0) && Inv(w1) && Inv(w2) && Inv(w3) && Inv(w4) && |steps| == 4
    requires Enabled(w0, steps[0]) && Apply(w0, steps[0]) == w1
    requires Enabled(w1, steps[1]) && Apply(w1, steps[1]) == w2
    requires Enabled(w2, steps[2]) && Apply(w2, steps[2]) == w3
    requires Enabled(w3, steps[3]) && Apply(w3, steps[3]) == w4
    ensures EnabledRun(w0, steps) && Run(w0, steps) == w4
  {
    var after3, after2, after1 := steps[3..], steps[2..], steps[1..];
    assert after3[1..] == [] && after2[1..] == after3 && after1[1..] == after2;
    assert EnabledRun(w4, []) && Run(w4, []) == w4;
    assert EnabledRun(w3, after3) && Run(w3, after3) == w4;
    assert EnabledRun(w2, after2) && Run(w2, after2) == w4;
    assert EnabledRun(w1, after1) && Run(w1, after1) == w4;
  }

  /** Clearing the old cell then empties the global, which never was weak. */
  lemma LostHandleEmptiesAnother()
    ensures Inv(LOST_HANDLE) && Enabled(LOST_HANDLE, CollectPhantom(5))
    ensures ValueIn(LOST_HANDLE, 1) == Some(8) && ValueIn(ClearPhantom(LOST_HANDLE, 5), 1) == None
    ensures 6 in ClearPhantom(LOST_HANDLE, 5).cells && !ClearsOnlyOwner(LOST_HANDLE, 5)
  {
    PlaceTaken();
    CollectIsSafeIff(LOST_HANDLE, 5);
  }

  // ---------------------------------------------------------------- what copies and moves promise

  /** A copy, and `Reset` from another handle, gives the handle the other's value, if and
      only if the two are different handles or the other one is empty: the handle is
      emptied before the other is read, so a copy of a handle to itself loses the value. */
  lemma CopyGivesValue(w: World, h: HandleId, other: HandleId, c: CellId)
    requires Inv(w) && Enabled(w, Copy(h, other, c))
    ensures ValueIn(CopyFrom(w, h, other, c), h) == ValueIn(w, other) <==> h != other || IsEmpty(w, other)
    ensures h != other ==> ValueIn(CopyFrom(w, h, other, c), other) == ValueIn(w, other)
  {
    if h != other {
      CopyBetween(w, h, other, c);
    } else {
      ResetKeeps(w, h);
    }
  }

  /** A persistent handle at address 1 with the value 7, copied to itself, is empty. */
  lemma SelfCopyLosesValue()
    ensures var w := World(map[1 := Handle(PersistentKind(true), Some(5))], map[5 := Cell(7, Strong, false)], {}, 1, 0, false, false);
            && Inv(w) && Enabled(w, Copy(1, 1, 5))
            && ValueIn(w, 1) == Some(7) && ValueIn(CopyFrom(w, 1, 1, 5), 1) == None
  {
    var w := World(map[1 := Handle(PersistentKind(true), Some(5))], map[5 := Cell(7, Strong, false)], {}, 1, 0, false, false);
    assert Names(w, 1, 5);
    assert |w.cells| == 1;
  }

  /** A traced copy gives the value, also to itself and while marking or sweeping runs;
      the source keeps its value. */
  lemma TracedCopyGivesValue(w: World, h: HandleId, rhs: HandleId, c: CellId)
    requires Inv(w) && Enabled(w, CopyTraced(h, rhs, c))
    ensures ValueIn(TracedCopy(w, h, rhs, c), h) == ValueIn(w, rhs)
    ensures ValueIn(TracedCopy(w, h, rhs, c), rhs) == ValueIn(w, rhs)
  {
    if h != rhs {
      CopyBetween(w, h, rhs, c);
    }
  }

  /** Copying between two handles. */
  lemma CopyBetween(w: World, h: HandleId, other: HandleId, c: CellId)
    requires Inv(w) && h in w.handles && other in w.handles && h != other && FreeAfterReset(w, h, c)
    ensures ValueIn(CopyFrom(w, h, other, c), h) == ValueIn(w, other)
    ensures ValueIn(CopyFrom(w, h, other, c), other) == ValueIn(w, other)
  {
    ResetKeepsValue(w, h, other);
    ResetKeeps(w, h);
    var r := Reset(w, h);
    if !IsEmpty(r, other) {
      GlobalizeGivesValue(r, h, other, ValueIn(r, other).value, c);
    }
  }

  lemma GlobalizeGivesValue(r: World, h: HandleId, other: HandleId, value: Word, c: CellId)
    requires SlotsAllocated(r) && h in r.handles && other in r.handles && h != other && c !in r.cells
    ensures ValueIn(Globalize(r, h, value, c), h) == Some(value)
    ensures ValueIn(Globalize(r, h, value, c), other) == ValueIn(r, other)
  {}

  /** Resetting one handle leaves the others their values. */
  lemma ResetKeepsValue(w: World, h: HandleId, other: HandleId)
    requires Inv(w) && h in w.handles && other in w.handles && h != other
    ensures other in Reset(w, h).handles && Reset(w, h).handles[other] == w.handles[other]
    ensures ValueIn(Reset(w, h), other) == ValueIn(w, other)
  {
    ResetKeeps(w, h);
    if !IsEmpty(w, other) {
      var d := w.handles[other].slot.value;
      assert Names(w, other, d);
      InvCellOk(w, d);
      assert Names(Reset(w, h), other, d);
    }
  }

  /** A move, also of a handle to itself, leaves the source's value in the target. */
  lemma MoveGivesValue(w: World, h: HandleId, rhs: HandleId)
    requires Inv(w) && Enabled(w, Move(h, rhs))
    ensures ValueIn(MoveAssign(w, h, rhs), h) == ValueIn(w, rhs)
    ensures h != rhs ==> ValueIn(MoveAssign(w, h, rhs), rhs) == None
  {
    if h != rhs {
      ResetKeeps(w, h);
      if !IsEmpty(w, rhs) {
        assert Names(w, rhs, w.handles[rhs].slot.value);
      }
    }
  }

  /** A move frees the target's old cell and no other, and makes none. */
  lemma MoveFreesOldCell(w: World, h: HandleId, rhs: HandleId)
    requires Inv(w) && Enabled(w, Move(h, rhs))
    ensures MoveAssign(w, h, rhs).cells.Keys ==
            w.cells.Keys - (if h != rhs && !IsEmpty(w, h) then {w.handles[h].slot.value} else {})
  {
    if h != rhs {
      ResetKeeps(w, h);
    }
  }

  lemma TracedMoveGivesValue(w: World, h: HandleId, rhs: HandleId)
    requires Inv(w) && Enabled(w, MoveTraced(h, rhs))
    ensures ValueIn(TracedMove(w, h, rhs), h) == ValueIn(w, rhs)
    ensures h != rhs ==> ValueIn(TracedMove(w, h, rhs), rhs) == None
  {
    ResetKeeps(w, h);
    if !IsEmpty(w, rhs) {
      var d := w.handles[rhs].slot.value;
      assert Names(w, rhs, d);
      InvCellOk(w, d);
    }
  }
}
