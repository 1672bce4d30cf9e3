/**
 What each operation on a handle does, said without the operation's own definition: which
 cells come and go, what the handles read afterwards, and that nothing else changes.
 */
module HandleOwnershipEffects {
  import opened Basics
  import opened HandleOwnership
  import opened HandleOwnershipProofs

  // ---------------------------------------------------------------- cells that come and go

  /** Exactly cell `c` is freed. */
  ghost predicate Frees(w: World, r: World, c: CellId) {
    && r.cells == w.cells - {c} && r.orphans == w.orphans
    && r.created == w.created && r.disposed == w.disposed + 1
  }

  /** Cell `c` is given up without being freed, and no other cell changes. */
  ghost predicate GivesUp(w: World, r: World, c: CellId) {
    && r.cells.Keys == w.cells.Keys && r.orphans == w.orphans + {c}
    && (forall d :: d in w.cells && d != c ==> r.cells[d] == w.cells[d])
    && r.created == w.created && r.disposed == w.disposed
  }

  ghost predicate SameCells(w: World, r: World) {
    r.cells == w.cells && r.orphans == w.orphans && r.created == w.created && r.disposed == w.disposed
  }

  /** Resetting a global or persistent handle frees its cell. */
  lemma ResetFrees(w: World, h: HandleId)
    requires Inv(w) && IsHandle(w, h, false)
    ensures var r := Reset(w, h);
            && r.handles == w.handles[h := Handle(w.handles[h].kind, None)]
            && (if IsEmpty(w, h) then SameCells(w, r) else Frees(w, r, w.handles[h].slot.value))
  {
    assert IsEmpty(w, h) ==> w.handles[h := Handle(w.handles[h].kind, None)] == w.handles;
  }

  /** Resetting a traced handle frees its cell, if and only if neither marking nor sweeping
      runs; during marking the cell is nulled, so that it keeps nothing alive. */
  lemma TracedResetFreesIff(w: World, h: HandleId)
    requires Inv(w) && IsHandle(w, h, true) && !IsEmpty(w, h)
    ensures var r, c := Reset(w, h), w.handles[h].slot.value;
            && r.handles == w.handles[h := Handle(TracedKind, None)]
            && (c !in r.cells <==> !w.marking && !w.sweeping)
            && (if w.marking || w.sweeping then GivesUp(w, r, c) else Frees(w, r, c))
            && (w.sweeping ==> r.cells[c] == w.cells[c])
            && (w.marking && !w.sweeping ==> r.cells[c] == w.cells[c].(value := 0))
  {}

  lemma DestroyResetting(w: World, h: HandleId)
    requires Inv(w) && h in w.handles && (w.handles[h].kind == GlobalKind || w.handles[h].kind == PersistentKind(true))
    ensures Destroy(w, h).handles == w.handles - {h}
    ensures if IsEmpty(w, h) then SameCells(w, Destroy(w, h)) else Frees(w, Destroy(w, h), w.handles[h].slot.value)
  {
    ResetFrees(w, h);
    assert w.handles[h := Handle(w.handles[h].kind, None)] - {h} == w.handles - {h};
  }

  lemma DestroyAbandoning(w: World, h: HandleId)
    requires Inv(w) && h in w.handles && (w.handles[h].kind == PersistentKind(false) || w.handles[h].kind == TracedKind)
    ensures Destroy(w, h).handles == w.handles - {h} && Destroy(w, h).cells == w.cells
    ensures if IsEmpty(w, h) then SameCells(w, Destroy(w, h)) else GivesUp(w, Destroy(w, h), w.handles[h].slot.value)
  {
    assert w.orphans + {} == w.orphans;
  }

  /** A destructor frees the cell of a global and of a persistent that asks for it, and
      abandons the cell of any other handle; the handle is gone in every case. */
  lemma DestroyFrees(w: World, h: HandleId)
    requires Inv(w) && h in w.handles
    ensures Destroy(w, h).handles == w.handles - {h}
    ensures IsEmpty(w, h) ==> SameCells(w, Destroy(w, h))
    ensures !IsEmpty(w, h) ==>
              var c := w.handles[h].slot.value;
              match w.handles[h].kind
              case GlobalKind => Frees(w, Destroy(w, h), c)
              case PersistentKind(resetInDestructor) =>
                if resetInDestructor then Frees(w, Destroy(w, h), c)
                else GivesUp(w, Destroy(w, h), c) && Destroy(w, h).cells == w.cells
              case TracedKind => GivesUp(w, Destroy(w, h), c) && Destroy(w, h).cells == w.cells
  {
    match w.handles[h].kind
    case GlobalKind => DestroyResetting(w, h);
    case PersistentKind(resetInDestructor) =>
      if resetInDestructor {
        DestroyResetting(w, h);
      } else {
        DestroyAbandoning(w, h);
      }
    case TracedKind => DestroyAbandoning(w, h);
  }

  /** The collector frees the phantom cell that it clears, and sets the handle at the
      remembered address to null; if that handle named another cell, the cell is given up. */
  lemma CollectFrees(w: World, c: CellId)
    requires Inv(w) && Enabled(w, CollectPhantom(c))
    ensures var r, back := ClearPhantom(w, c), w.cells[c].weakness.back;
            && r.cells == w.cells - {c} && r.created == w.created && r.disposed == w.disposed + 1
            && (back in w.handles ==> r.handles == w.handles[back := Handle(w.handles[back].kind, None)])
            && (back !in w.handles ==> r.handles == w.handles)
            && r.orphans == w.orphans - {c} +
                 (if c in w.orphans && back in w.handles && !IsEmpty(w, back) then {w.handles[back].slot.value} else {})
  {
    InvCellOk(w, c);
    var back := w.cells[c].weakness.back;
    if back in w.handles && IsEmpty(w, back) {
      assert w.handles[back := Handle(w.handles[back].kind, None)] == w.handles;
    }
    if back in w.handles && !IsEmpty(w, back) {
      assert Names(w, back, w.handles[back].slot.value);
    }
  }

  /** A sweep frees the one cell. */
  lemma SweepFrees(w: World, c: CellId)
    requires Inv(w) && Enabled(w, SweepTraced(c))
    ensures var r := Apply(w, SweepTraced(c));
            && r.cells == w.cells - {c} && r.orphans == w.orphans - {c} && r.handles == w.handles
            && r.created == w.created && r.disposed == w.disposed + 1
  {}

  /** A change of phase changes nothing else. */
  lemma PhaseOnly(w: World, marking: bool, sweeping: bool)
    requires Inv(w) && Enabled(w, SetPhase(marking, sweeping))
    ensures var r := Apply(w, SetPhase(marking, sweeping));
            SameCells(w, r) && r.handles == w.handles && r.marking == marking && r.sweeping == sweeping
  {}

  // ---------------------------------------------------------------- what handles read

  /** The handle names a new strong cell with the value, and no other cell changes. */
  ghost predicate Makes(w: World, r: World, h: HandleId, value: Word, c: CellId) {
    && h in w.handles && c !in w.cells
    && r.handles == w.handles[h := Handle(w.handles[h].kind, Some(c))]
    && r.cells == w.cells[c := Cell(value, Strong, w.handles[h].kind == TracedKind)]
    && r.orphans == w.orphans && r.created == w.created + 1 && r.disposed == w.disposed
  }

  lemma GlobalizeMakes(w: World, h: HandleId, value: Word, c: CellId)
    requires h in w.handles && c !in w.cells
    ensures Makes(w, Globalize(w, h, value, c), h, value, c)
    ensures ValueIn(Globalize(w, h, value, c), h) == Some(value)
  {}

  /** A handle reset to a local reads the local's value, and is empty for an empty local. */
  lemma ResetToLocalGivesValue(w: World, h: HandleId, local: Option<Word>, c: CellId)
    requires Inv(w) && Enabled(w, ResetLocal(h, local, c))
    ensures ValueIn(ResetToLocal(w, h, local, c), h) == local
    ensures local.None? ==> ResetToLocal(w, h, local, c) == Reset(w, h)
    ensures local.Some? ==> Makes(Reset(w, h), ResetToLocal(w, h, local, c), h, local.value, c)
  {
    ResetKeeps(w, h);
    if local.Some? {
      GlobalizeMakes(Reset(w, h), h, local.value, c);
    }
  }

  /** A new handle reads the local it was made from. */
  lemma ConstructGivesValue(w: World, h: HandleId, kind: Kind, local: Option<Word>, c: CellId)
    requires Inv(w) && Enabled(w, Construct(h, kind, local, c))
    ensures var r := Apply(w, Construct(h, kind, local, c));
            ValueIn(r, h) == local && h in r.handles && r.handles[h].kind == kind
    ensures local.None? ==> SameCells(w, Apply(w, Construct(h, kind, local, c)))
    ensures local.Some? ==>
              var n := w.(handles := w.handles[h := Handle(kind, None)]);
              Makes(n, Apply(w, Construct(h, kind, local, c)), h, local.value, c)
  {
    if local.Some? {
      GlobalizeMakes(w.(handles := w.handles[h := Handle(kind, None)]), h, local.value, c);
    }
  }

  /** A copy from another, non-empty handle is a new strong cell with its value. */
  lemma CopyMakesCell(w: World, h: HandleId, other: HandleId, c: CellId)
    requires Inv(w) && Enabled(w, Copy(h, other, c)) && h != other && !IsEmpty(w, other)
    ensures Makes(Reset(w, h), CopyFrom(w, h, other, c), h, ValueIn(w, other).value, c)
  {
    ResetKeepsValue(w, h, other);
    ResetKeeps(w, h);
    GlobalizeMakes(Reset(w, h), h, ValueIn(w, other).value, c);
  }

  // ---------------------------------------------------------------- moves

  /** The cell `c` passes from `from` to `to` as it is, except that a phantom cell now
      points back at `to`. */
  ghost predicate HandsOver(w: World, r: World, from: HandleId, to: HandleId, c: CellId) {
    && to in w.handles && Names(w, from, c) && c in w.cells
    && r.handles == w.handles[to := w.handles[to].(slot := Some(c))][from := w.handles[from].(slot := None)]
    && r.cells == w.cells[c := w.cells[c].(weakness := if w.cells[c].weakness.Phantom? then Phantom(to) else w.cells[c].weakness)]
    && r.orphans == w.orphans && r.created == w.created && r.disposed == w.disposed
  }

  lemma TransferHandsOver(w: World, from: HandleId, to: HandleId, c: CellId)
    requires Names(w, from, c) && to in w.handles && from != to && c in w.cells
    ensures HandsOver(w, Transfer(w, from, to, c), from, to, c)
  {
    assert w.cells[c].(weakness := w.cells[c].weakness) == w.cells[c];
  }

  /** A handle constructed by a move takes over the value, the cell and the back-pointer;
      the source is empty and nothing else changes. */
  lemma MoveConstructHandsOver(w: World, h: HandleId, other: HandleId)
    requires Inv(w) && Enabled(w, MoveNew(h, other))
    ensures var r := MoveConstruct(w, h, other);
            && ValueIn(r, h) == ValueIn(w, other) && ValueIn(r, other) == None
            && h in r.handles && r.handles[h] == Handle(GlobalKind, w.handles[other].slot)
            && r.handles.Keys == w.handles.Keys + {h}
            && (forall g :: g in w.handles && g != other ==> r.handles[g] == w.handles[g])
            && r.cells.Keys == w.cells.Keys && r.created == w.created && r.disposed == w.disposed
    ensures var n := w.(handles := w.handles[h := Handle(GlobalKind, None)]);
            if IsEmpty(w, other) then MoveConstruct(w, h, other) == n
            else HandsOver(n, MoveConstruct(w, h, other), other, h, w.handles[other].slot.value)
  {
    var n := w.(handles := w.handles[h := Handle(GlobalKind, None)]);
    if !IsEmpty(w, other) {
      var c := w.handles[other].slot.value;
      assert Names(n, other, c);
      TransferHandsOver(n, other, h, c);
    }
  }

  /** A move assignment first frees the target's cell and then hands the source's over. */
  lemma MoveAssignHandsOver(w: World, h: HandleId, rhs: HandleId)
    requires Inv(w) && Enabled(w, Move(h, rhs))
    ensures if h == rhs then MoveAssign(w, h, rhs) == w
            else if IsEmpty(w, rhs) then MoveAssign(w, h, rhs) == Reset(w, h)
            else HandsOver(Reset(w, h), MoveAssign(w, h, rhs), rhs, h, w.handles[rhs].slot.value)
  {
    if h != rhs && !IsEmpty(w, rhs) {
      ResetKeepsValue(w, h, rhs);
      ResetKeeps(w, h);
      var c := w.handles[rhs].slot.value;
      assert Names(Reset(w, h), rhs, c);
      TransferHandsOver(Reset(w, h), rhs, h, c);
    }
  }

  /** A traced move gives the target's cell up and hands the source's over. */
  lemma TracedMoveHandsOver(w: World, h: HandleId, rhs: HandleId)
    requires Inv(w) && Enabled(w, MoveTraced(h, rhs))
    ensures if h == rhs then TracedMove(w, h, rhs) == w
            else if IsEmpty(w, rhs) then TracedMove(w, h, rhs) == Reset(w, h)
            else HandsOver(Reset(w, h), TracedMove(w, h, rhs), rhs, h, w.handles[rhs].slot.value)
  {
    if h != rhs && !IsEmpty(w, rhs) {
      ResetKeepsValue(w, h, rhs);
      ResetKeeps(w, h);
      var r, c := Reset(w, h), w.handles[rhs].slot.value;
      assert Names(r, rhs, c);
      InvCellOk(r, c);
      assert r.cells[c := r.cells[c]] == r.cells;
    }
  }

  // ---------------------------------------------------------------- nothing else changes

  /** Handle `g` and its cell are as they were. */
  ghost predicate Untouched(w: World, r: World, g: HandleId) {
    && g in w.handles && g in r.handles && r.handles[g] == w.handles[g]
    && (w.handles[g].slot.Some? ==>
          var c := w.handles[g].slot.value;
          c in w.cells && c in r.cells && r.cells[c] == w.cells[c])
  }

  /** The handles that a step is about: those it is applied to, those it moves from, and
      those that the collector's write or mark reaches. */
  ghost predicate IsAbout(w: World, step: Step, g: HandleId) {
    match step
    case Construct(h, _, _, _) => g == h
    case ResetStep(h) => g == h
    case ResetLocal(h, _, _) => g == h
    case Copy(h, _, _) => g == h
    case MoveNew(h, other) => g == h || g == other
    case Move(h, rhs) => g == h || g == rhs
    case MoveTraced(h, rhs) => g == h || g == rhs
    case CopyTraced(h, _, _) => g == h
    case Destruct(h) => g == h
    case SetWeakPhantom(h) => g == h
    case SetWeakCallback(h) => g == h
    case ClearWeak(h) => g == h
    case CollectPhantom(c) => c in w.cells && w.cells[c].weakness.Phantom? && g == w.cells[c].weakness.back
    case CollectCallback(c) => Names(w, g, c)
    case SweepTraced(_) => false
    case SetPhase(_, _) => false
  }

  lemma ResetUntouched(w: World, h: HandleId, g: HandleId)
    requires Inv(w) && h in w.handles && g in w.handles && g != h
    ensures Untouched(w, Reset(w, h), g)
  {
    if !IsEmpty(w, h) && !IsEmpty(w, g) {
      assert w.handles[h].slot != w.handles[g].slot;
    }
  }

  lemma MadeUntouched(w: World, r: World, h: HandleId, value: Word, c: CellId, g: HandleId)
    requires SlotsAllocated(w) && Makes(w, r, h, value, c) && g in w.handles && g != h
    ensures Untouched(w, r, g)
  {}

  lemma HandedOverUntouched(w: World, r: World, from: HandleId, to: HandleId, c: CellId, g: HandleId)
    requires Inv(w) && HandsOver(w, r, from, to, c) && g in w.handles && g != from && g != to
    ensures Untouched(w, r, g)
  {
    assert !Names(w, g, c);
  }

  lemma CopyUntouched(w: World, h: HandleId, other: HandleId, c: CellId, g: HandleId)
    requires Inv(w) && h in w.handles && other in w.handles && FreeAfterReset(w, h, c) && g in w.handles && g != h
    ensures Untouched(w, CopyFrom(w, h, other, c), g)
  {
    ResetUntouched(w, h, g);
    ResetKeeps(w, h);
    var r := Reset(w, h);
    if !IsEmpty(r, other) {
      GlobalizeMakes(r, h, ValueIn(r, other).value, c);
      MadeUntouched(r, Globalize(r, h, ValueIn(r, other).value, c), h, ValueIn(r, other).value, c, g);
    }
  }

  lemma LocalUntouched(w: World, h: HandleId, local: Option<Word>, c: CellId, g: HandleId)
    requires Inv(w) && Enabled(w, ResetLocal(h, local, c)) && g in w.handles && g != h
    ensures Untouched(w, ResetToLocal(w, h, local, c), g)
  {
    ResetUntouched(w, h, g);
    ResetKeeps(w, h);
    ResetToLocalGivesValue(w, h, local, c);
    if local.Some? {
      MadeUntouched(Reset(w, h), ResetToLocal(w, h, local, c), h, local.value, c, g);
    }
  }

  lemma MoveUntouched(w: World, step: Step, g: HandleId)
    requires Inv(w) && Enabled(w, step) && (step.Move? || step.MoveTraced?)
    requires g in w.handles && g != step.h && g != step.rhs
    ensures Untouched(w, Apply(w, step), g)
  {
    var h, rhs := step.h, step.rhs;
    ResetUntouched(w, h, g);
    ResetKeeps(w, h);
    if step.Move? {
      MoveAssignHandsOver(w, h, rhs);
    } else {
      TracedMoveHandsOver(w, h, rhs);
    }
    if h == rhs {
      assert Untouched(w, w, g);
    } else if !IsEmpty(w, rhs) {
      HandedOverUntouched(Reset(w, h), Apply(w, step), rhs, h, w.handles[rhs].slot.value, g);
    }
  }

  lemma MoveNewUntouched(w: World, h: HandleId, other: HandleId, g: HandleId)
    requires Inv(w) && Enabled(w, MoveNew(h, other)) && g in w.handles && g != other
    ensures Untouched(w, MoveConstruct(w, h, other), g)
  {
    MoveConstructHandsOver(w, h, other);
    if !IsEmpty(w, other) && !IsEmpty(w, g) {
      assert w.handles[other].slot != w.handles[g].slot;
    }
  }

  lemma CellStepUntouched(w: World, step: Step, g: HandleId)
    requires Inv(w) && Enabled(w, step) && g in w.handles && !IsAbout(w, step, g)
    requires step.SetWeakPhantom? || step.SetWeakCallback? || step.ClearWeak? || step.CollectCallback? ||
             step.SweepTraced? || step.SetPhase?
    ensures Untouched(w, Apply(w, step), g)
  {
    if !IsEmpty(w, g) {
      var c := w.handles[g].slot.value;
      assert Names(w, g, c);
      InvCellOk(w, c);
    }
  }

  lemma CollectUntouched(w: World, c: CellId, g: HandleId)
    requires Inv(w) && Enabled(w, CollectPhantom(c)) && g in w.handles && !IsAbout(w, CollectPhantom(c), g)
    ensures Untouched(w, ClearPhantom(w, c), g)
  {
    InvCellOk(w, c);
    if !IsEmpty(w, g) {
      assert Names(w, g, w.handles[g].slot.value);
      InvCellOk(w, w.handles[g].slot.value);
    }
  }

  lemma DestroyUntouched(w: World, h: HandleId, g: HandleId)
    requires Inv(w) && h in w.handles && g in w.handles && g != h
    ensures Untouched(w, Destroy(w, h), g)
  {
    DestroyFrees(w, h);
    if !IsEmpty(w, h) && !IsEmpty(w, g) {
      assert w.handles[h].slot != w.handles[g].slot;
    }
  }

  /** Every step leaves every handle that it is not about, and the cell of that handle,
      exactly as they were. */
  lemma OthersUntouched(w: World, step: Step, g: HandleId)
    requires Inv(w) && Enabled(w, step) && g in w.handles && !IsAbout(w, step, g)
    ensures Untouched(w, Apply(w, step), g)
  {
    match step
    case Construct(h, kind, local, c) => ConstructGivesValue(w, h, kind, local, c);
    case ResetStep(h) => ResetUntouched(w, h, g);
    case ResetLocal(h, local, c) => LocalUntouched(w, h, local, c, g);
    case Copy(h, other, c) => CopyUntouched(w, h, other, c, g);
    case MoveNew(h, other) => MoveNewUntouched(w, h, other, g);
    case Move(_, _) => MoveUntouched(w, step, g);
    case MoveTraced(_, _) => MoveUntouched(w, step, g);
    case CopyTraced(h, rhs, c) =>
      if h != rhs {
        CopyUntouched(w, h, rhs, c, g);
      }
    case Destruct(h) => DestroyUntouched(w, h, g);
    case CollectPhantom(c) => CollectUntouched(w, c, g);
    case _ => CellStepUntouched(w, step, g);
  }

  lemma CopySameHandles(w: World, h: HandleId, other: HandleId, c: CellId)
    requires Inv(w) && h in w.handles && other in w.handles && FreeAfterReset(w, h, c)
    ensures CopyFrom(w, h, other, c).handles.Keys == w.handles.Keys
  {
    ResetKeeps(w, h);
    var u := Reset(w, h);
    if !IsEmpty(u, other) {
      GlobalizeMakes(u, h, ValueIn(u, other).value, c);
    }
  }

  lemma LocalSameHandles(w: World, h: HandleId, local: Option<Word>, c: CellId)
    requires Inv(w) && Enabled(w, ResetLocal(h, local, c))
    ensures ResetToLocal(w, h, local, c).handles.Keys == w.handles.Keys
  {
    ResetKeeps(w, h);
    ResetToLocalGivesValue(w, h, local, c);
  }

  lemma MoveSameHandles(w: World, step: Step)
    requires Inv(w) && Enabled(w, step) && (step.Move? || step.MoveTraced?)
    ensures Apply(w, step).handles.Keys == w.handles.Keys
  {
    ResetKeeps(w, step.h);
    if step.Move? {
      MoveAssignHandsOver(w, step.h, step.rhs);
    } else {
      TracedMoveHandsOver(w, step.h, step.rhs);
    }
  }

  lemma CollectSameHandles(w: World, c: CellId)
    requires Inv(w) && Enabled(w, CollectPhantom(c))
    ensures ClearPhantom(w, c).handles.Keys == w.handles.Keys
  {}

  lemma CellStepSameHandles(w: World, step: Step)
    requires Inv(w) && Enabled(w, step)
    requires step.SetWeakPhantom? || step.SetWeakCallback? || step.ClearWeak? || step.CollectCallback? ||
             step.SweepTraced? || step.SetPhase?
    ensures Apply(w, step).handles == w.handles
  {}

  lemma ResetSameHandles(w: World, step: Step)
    requires Inv(w) && Enabled(w, step) && (step.ResetStep? || step.ResetLocal? || step.Copy? || step.CopyTraced?)
    ensures Apply(w, step).handles.Keys == w.handles.Keys
  {
    match step
    case ResetStep(h) => ResetKeeps(w, h);
    case ResetLocal(h, local, c) => LocalSameHandles(w, h, local, c);
    case Copy(h, other, c) => CopySameHandles(w, h, other, c);
    case CopyTraced(h, rhs, c) => CopySameHandles(w, h, rhs, c);
  }

  /** No handle comes or goes with any other step. */
  lemma SameHandles(w: World, step: Step)
    requires Inv(w) && Enabled(w, step) && !step.Construct? && !step.MoveNew? && !step.Destruct?
    ensures Apply(w, step).handles.Keys == w.handles.Keys
  {
    if step.ResetStep? || step.ResetLocal? || step.Copy? || step.CopyTraced? {
      ResetSameHandles(w, step);
    } else if step.Move? || step.MoveTraced? {
      MoveSameHandles(w, step);
    } else if step.CollectPhantom? {
      CollectSameHandles(w, step.c);
    } else {
      CellStepSameHandles(w, step);
    }
  }

  // ---------------------------------------------------------------- weak and strong handles

  /** A handle made weak without a callback is emptied, and its cell freed, when the
      collector clears the cell. */
  lemma WeakHandleIsCleared(w: World, h: HandleId)
    requires Inv(w) && Enabled(w, SetWeakPhantom(h))
    ensures var r, c := Apply(w, SetWeakPhantom(h)), w.handles[h].slot.value;
            && Inv(r) && Enabled(r, CollectPhantom(c)) && r.handles == w.handles
            && ValueIn(r, h) == ValueIn(w, h)
            && ValueIn(Apply(r, CollectPhantom(c)), h) == None && Frees(r, Apply(r, CollectPhantom(c)), c)
  {
    var r, c := Apply(w, SetWeakPhantom(h)), w.handles[h].slot.value;
    StepKeeps(w, SetWeakPhantom(h));
    assert Names(w, h, c);
    InvCellOk(w, c);
    assert r.orphans - {c} == r.orphans;
  }

  /** A handle made weak with a callback keeps naming its cell when the collector finds the
      cell dead; the cell waits for the callback. */
  lemma CallbackKeepsHandle(w: World, h: HandleId)
    requires Inv(w) && Enabled(w, SetWeakCallback(h))
    ensures var r, c := Apply(w, SetWeakCallback(h)), w.handles[h].slot.value;
            && Inv(r) && Enabled(r, CollectCallback(c))
            && Apply(r, CollectCallback(c)).handles == w.handles
            && Apply(r, CollectCallback(c)).cells == w.cells[c := w.cells[c].(weakness := NearDeath)]
  {
    StepKeeps(w, SetWeakCallback(h));
  }

  /** Handle `h` names a strong cell, and no abandoned phantom cell remembers its address. */
  ghost predicate Secure(w: World, h: HandleId) {
    && h in w.handles && w.handles[h].slot.Some?
    && w.handles[h].slot.value in w.cells && w.cells[w.handles[h].slot.value].weakness.Strong?
    && forall c :: c in w.orphans && c in w.cells && w.cells[c].weakness.Phantom? ==> w.cells[c].weakness.back != h
  }

  /** The step is applied to `h` or moves from it. */
  predicate AppliedTo(step: Step, h: HandleId) {
    match step
    case CollectPhantom(_) => false
    case CollectCallback(_) => false
    case SweepTraced(_) => false
    case SetPhase(_, _) => false
    case MoveNew(g, other) => h == g || h == other
    case Move(g, rhs) => h == g || h == rhs
    case MoveTraced(g, rhs) => h == g || h == rhs
    case _ => step.h == h
  }

  /** `ClearWeak` makes a handle's cell strong. */
  lemma ClearWeakIsStrong(w: World, h: HandleId)
    requires Inv(w) && Enabled(w, ClearWeak(h))
    ensures var r, c := Apply(w, ClearWeak(h)), w.handles[h].slot.value;
            && r.handles == w.handles && r.cells == w.cells[c := w.cells[c].(weakness := Strong)]
            && ValueIn(r, h) == ValueIn(w, h)
  {}

  /** Every orphan of `r` was one before, with the same weakness, or was named by a handle
      other than `h`. */
  ghost predicate OrphansFrom(w: World, r: World, h: HandleId) {
    forall c :: c in r.orphans && c in r.cells && r.cells[c].weakness.Phantom? ==>
      && c in w.cells && r.cells[c].weakness == w.cells[c].weakness
      && (c in w.orphans || exists g :: g != h && Names(w, g, c))
  }

  lemma OrphansOfReset(w: World, g: HandleId, h: HandleId)
    requires Inv(w) && g in w.handles && g != h
    ensures OrphansFrom(w, Reset(w, g), h)
  {
    if !IsEmpty(w, g) {
      assert Names(w, g, w.handles[g].slot.value);
    }
  }

  lemma OrphansOfCollect(w: World, c: CellId, h: HandleId)
    requires Inv(w) && Enabled(w, CollectPhantom(c)) && Secure(w, h)
    ensures OrphansFrom(w, ClearPhantom(w, c), h)
  {
    InvCellOk(w, c);
    var back := w.cells[c].weakness.back;
    assert back != h;
    if back in w.handles && !IsEmpty(w, back) {
      assert Names(w, back, w.handles[back].slot.value);
    }
  }

  /** A new cell is no orphan. */
  lemma OrphansOfMaking(w: World, u: World, r: World, g: HandleId, value: Word, c: CellId, h: HandleId)
    requires OrphansFrom(w, u, h) && u.orphans <= u.cells.Keys && Makes(u, r, g, value, c)
    ensures OrphansFrom(w, r, h)
  {}

  lemma OrphansOfConstruct(w: World, step: Step, h: HandleId)
    requires Inv(w) && Enabled(w, step) && step.Construct?
    ensures OrphansFrom(w, Apply(w, step), h)
  {
    ConstructGivesValue(w, step.h, step.kind, step.local, step.c);
    if step.local.Some? {
      var n := w.(handles := w.handles[step.h := Handle(step.kind, None)]);
      OrphansOfMaking(w, n, Apply(w, step), step.h, step.local.value, step.c, h);
    }
  }

  lemma OrphansOfLocal(w: World, g: HandleId, local: Option<Word>, c: CellId, h: HandleId)
    requires Inv(w) && Enabled(w, ResetLocal(g, local, c)) && g != h
    ensures OrphansFrom(w, ResetToLocal(w, g, local, c), h)
  {
    OrphansOfReset(w, g, h);
    ResetKeeps(w, g);
    ResetToLocalGivesValue(w, g, local, c);
    if local.Some? {
      OrphansOfMaking(w, Reset(w, g), ResetToLocal(w, g, local, c), g, local.value, c, h);
    }
  }

  lemma OrphansOfCopy(w: World, g: HandleId, other: HandleId, c: CellId, h: HandleId)
    requires Inv(w) && g in w.handles && other in w.handles && FreeAfterReset(w, g, c) && g != h
    ensures OrphansFrom(w, CopyFrom(w, g, other, c), h)
  {
    OrphansOfReset(w, g, h);
    ResetKeeps(w, g);
    var u := Reset(w, g);
    if !IsEmpty(u, other) {
      var value := ValueIn(u, other).value;
      GlobalizeMakes(u, g, value, c);
      OrphansOfMaking(w, u, Globalize(u, g, value, c), g, value, c, h);
    }
  }

  lemma OrphansOfDestroy(w: World, g: HandleId, h: HandleId)
    requires Inv(w) && g in w.handles && g != h
    ensures OrphansFrom(w, Destroy(w, g), h)
  {
    DestroyFrees(w, g);
    if !IsEmpty(w, g) {
      assert Names(w, g, w.handles[g].slot.value);
    }
  }

  lemma OrphansOfMove(w: World, step: Step, h: HandleId)
    requires Inv(w) && Enabled(w, step) && h in w.handles && !AppliedTo(step, h)
    requires step.Move? || step.MoveTraced?
    ensures OrphansFrom(w, Apply(w, step), h)
  {
    OrphansOfReset(w, step.h, h);
    ResetKeeps(w, step.h);
    var u, rhs := Reset(w, step.h), step.rhs;
    if step.Move? {
      MoveAssignHandsOver(w, step.h, rhs);
    } else {
      TracedMoveHandsOver(w, step.h, rhs);
    }
    if step.h != rhs && !IsEmpty(w, rhs) {
      InvCellOk(u, w.handles[rhs].slot.value);
    }
  }

  lemma OrphansOfMoveNew(w: World, g: HandleId, other: HandleId, h: HandleId)
    requires Inv(w) && Enabled(w, MoveNew(g, other)) && other != h
    ensures OrphansFrom(w, MoveConstruct(w, g, other), h)
  {
    MoveConstructHandsOver(w, g, other);
    if !IsEmpty(w, other) {
      assert Names(w, other, w.handles[other].slot.value);
      InvCellOk(w, w.handles[other].slot.value);
    }
  }

  lemma OrphansOfCellStep(w: World, step: Step, h: HandleId)
    requires Inv(w) && Enabled(w, step)
    requires step.SetWeakPhantom? || step.SetWeakCallback? || step.ClearWeak? || step.CollectCallback? ||
             step.SweepTraced? || step.SetPhase?
    ensures OrphansFrom(w, Apply(w, step), h)
  {
    if step.SetWeakPhantom? {
      assert Names(w, step.h, w.handles[step.h].slot.value);
      InvCellOk(w, w.handles[step.h].slot.value);
    }
  }

  lemma StepOrphans(w: World, step: Step, h: HandleId)
    requires Inv(w) && Enabled(w, step) && Secure(w, h) && !AppliedTo(step, h)
    ensures OrphansFrom(w, Apply(w, step), h)
  {
    match step
    case CollectPhantom(c) => OrphansOfCollect(w, c, h);
    case Move(_, _) => OrphansOfMove(w, step, h);
    case MoveTraced(_, _) => OrphansOfMove(w, step, h);
    case MoveNew(g, other) => OrphansOfMoveNew(w, g, other, h);
    case Construct(_, _, _, _) => OrphansOfConstruct(w, step, h);
    case ResetStep(g) => OrphansOfReset(w, g, h);
    case ResetLocal(g, local, c) => OrphansOfLocal(w, g, local, c, h);
    case Copy(g, other, c) => OrphansOfCopy(w, g, other, c, h);
    case CopyTraced(g, rhs, c) =>
      if g != rhs {
        OrphansOfCopy(w, g, rhs, c, h);
      }
    case Destruct(g) => OrphansOfDestroy(w, g, h);
    case _ => OrphansOfCellStep(w, step, h);
  }

  lemma NotAboutSecure(w: World, step: Step, h: HandleId)
    requires Inv(w) && Enabled(w, step) && Secure(w, h) && !AppliedTo(step, h) && !step.CollectCallback?
    ensures !IsAbout(w, step, h)
  {
    if step.CollectPhantom? {
      InvCellOk(w, step.c);
    }
  }

  lemma SecureStep(w: World, step: Step, h: HandleId)
    requires Inv(w) && Enabled(w, step) && Secure(w, h) && !AppliedTo(step, h)
    ensures Untouched(w, Apply(w, step), h) && Secure(Apply(w, step), h)
  {
    var r := Apply(w, step);
    if step.CollectCallback? {
      assert !Names(w, h, step.c);
    } else {
      NotAboutSecure(w, step, h);
    }
    OthersUntouched(w, step, h);
    StepOrphans(w, step, h);
    forall c | c in r.orphans && c in r.cells && r.cells[c].weakness.Phantom? ensures r.cells[c].weakness.back != h {
      if c !in w.orphans {
        var g :| g != h && Names(w, g, c);
        InvCellOk(w, c);
      }
    }
  }

  /** A strong handle that no abandoned phantom cell remembers is not emptied, and reads the
      same value, over every run that is not applied to it: no collection reaches it until
      it is made weak. */
  lemma {:induction false} StrongHandleStays(w: World, steps: seq<Step>, h: HandleId)
    requires Inv(w) && EnabledRun(w, steps) && Secure(w, h)
    requires forall i :: 0 <= i < |steps| ==> !AppliedTo(steps[i], h)
    ensures var r := Run(w, steps);
            Secure(r, h) && r.handles[h] == w.handles[h] && ValueIn(r, h) == ValueIn(w, h)
    decreases |steps|
  {
    if steps == [] {
    } else {
      StepKeeps(w, steps[0]);
      SecureStep(w, steps[0], h);
      StrongHandleStays(Apply(w, steps[0]), steps[1..], h);
    }
  }
}
