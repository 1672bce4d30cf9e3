/**
 The handle operations as the program runs them: slots and cells are updated in place,
 one after the other, also when both operands are the same handle.
 */
module HandleOwnershipCode {
  import opened Basics
  import opened HandleOwnership

  class HandleStore {
    var handles: map<HandleId, Handle>
    var cells: map<CellId, Cell>
    var created: nat
    var disposed: nat
    var marking: bool
    var sweeping: bool
    ghost var orphans: set<CellId>

    ghost function Contents(): World
      reads this
    {
      World(handles, cells, orphans, created, disposed, marking, sweeping)
    }

    constructor ()
      ensures Contents() == EMPTY_WORLD
    {
      handles, cells, created, disposed, marking, sweeping, orphans := map[], map[], 0, 0, false, false, {};
    }

    method SetSlot(h: HandleId, slot: Option<CellId>)
      requires h in handles
      modifies this`handles
      ensures Contents() == WithSlot(old(Contents()), h, slot)
    {
      handles := handles[h := handles[h].(slot := slot)];
    }

    /** A second disposal of the same cell would fail the check that the node is in use. */
    method DisposeGlobal(c: CellId)
      requires c in cells
      modifies this`cells, this`disposed
      ensures Contents() == Dispose(old(Contents()), c)
    {
      cells := cells - {c};
      disposed := disposed + 1;
    }

    method DisposeTracedReference(c: CellId)
      requires c in cells
      modifies this`cells, this`disposed, this`orphans
      ensures Contents() == DisposeTraced(old(Contents()), c)
    {
      if sweeping {
        orphans := orphans + {c};
        return;
      }
      if marking {
        cells := cells[c := cells[c].(value := 0)];
        orphans := orphans + {c};
        return;
      }
      DisposeGlobal(c);
    }

    method Clear(h: HandleId)
      requires h in handles && SlotsAllocated(Contents())
      modifies this
      ensures Contents() == Reset(old(Contents()), h)
    {
      if handles[h].slot.None? {
        return;
      }
      if handles[h].kind.TracedKind? {
        DisposeTracedReference(handles[h].slot.value);
      } else {
        DisposeGlobal(handles[h].slot.value);
      }
      SetSlot(h, None);
    }

    method GlobalizeReference(h: HandleId, value: Word, c: CellId)
      requires h in handles
      modifies this
      ensures Contents() == Globalize(old(Contents()), h, value, c)
    {
      cells := cells[c := Cell(value, Strong, handles[h].kind.TracedKind?)];
      created := created + 1;
      SetSlot(h, Some(c));
    }

    method ResetToLocalHandle(h: HandleId, local: Option<Word>, c: CellId)
      requires h in handles && SlotsAllocated(Contents())
      modifies this
      ensures Contents() == ResetToLocal(old(Contents()), h, local, c)
    {
      Clear(h);
      if local.None? {
        return;
      }
      GlobalizeReference(h, local.value, c);
    }

    /** The source is read only after the target was cleared. */
    method CopyHandle(h: HandleId, other: HandleId, c: CellId)
      requires h in handles && other in handles
      requires SlotsAllocated(Contents()) && OwnersDistinct(Contents())
      modifies this
      ensures Contents() == CopyFrom(old(Contents()), h, other, c)
    {
      Clear(h);
      if handles[other].slot.None? {
        return;
      }
      GlobalizeReference(h, cells[handles[other].slot.value].value, c);
    }

    method MoveGlobalReference(to: HandleId, c: CellId)
      requires c in cells
      modifies this`cells
      ensures cells == old(cells)[c := if old(cells)[c].weakness.Phantom?
                                       then old(cells)[c].(weakness := Phantom(to)) else old(cells)[c]]
    {
      if cells[c].weakness.Phantom? {
        cells := cells[c := cells[c].(weakness := Phantom(to))];
      }
    }

    method MoveConstructor(h: HandleId, other: HandleId)
      requires h !in handles && other in handles && SlotsAllocated(Contents())
      modifies this
      ensures Contents() == MoveConstruct(old(Contents()), h, other)
      ensures h in handles && handles[h] == Handle(GlobalKind, old(handles[other].slot))
      ensures other in handles && handles[other] == Handle(old(handles[other].kind), None)
    {
      handles := handles[h := Handle(GlobalKind, handles[other].slot)];
      if handles[other].slot.Some? {
        MoveGlobalReference(h, handles[other].slot.value);
        SetSlot(other, None);
      }
    }

    /** The three statements that hand a cell over. */
    method TakeOver(h: HandleId, rhs: HandleId)
      requires h in handles && rhs in handles && h != rhs
      requires handles[rhs].slot.Some? && handles[rhs].slot.value in cells
      modifies this`handles, this`cells
      ensures Contents() == Transfer(old(Contents()), rhs, h, old(handles)[rhs].slot.value)
    {
      SetSlot(h, handles[rhs].slot);
      MoveGlobalReference(h, handles[rhs].slot.value);
      SetSlot(rhs, None);
    }

    method MoveAssignment(h: HandleId, rhs: HandleId)
      requires h in handles && rhs in handles
      requires SlotsAllocated(Contents()) && OwnersDistinct(Contents())
      modifies this
      ensures Contents() == MoveAssign(old(Contents()), h, rhs)
    {
      if h != rhs {
        Clear(h);
        if handles[rhs].slot.Some? {
          TakeOver(h, rhs);
        }
      }
    }

    method TracedMoveAssignment(h: HandleId, rhs: HandleId)
      requires h in handles && rhs in handles && handles[h].kind.TracedKind? && SlotsAllocated(Contents())
      modifies this
      ensures Contents() == TracedMove(old(Contents()), h, rhs)
    {
      if h != rhs {
        var from, to := handles[rhs].slot, handles[h].slot;
        if to.Some? {
          DisposeTracedReference(to.value);
        }
        SetSlot(h, from);
        if from.Some? {
          SetSlot(rhs, None);
        }
      }
    }

    method TracedCopyAssignment(h: HandleId, rhs: HandleId, c: CellId)
      requires h in handles && rhs in handles
      requires SlotsAllocated(Contents()) && OwnersDistinct(Contents())
      modifies this
      ensures Contents() == TracedCopy(old(Contents()), h, rhs, c)
    {
      if h != rhs {
        CopyHandle(h, rhs, c);
      }
    }

    method DestroyHandle(h: HandleId)
      requires h in handles && SlotsAllocated(Contents())
      modifies this
      ensures Contents() == Destroy(old(Contents()), h)
      ensures handles == old(handles) - {h}
      ensures old(handles[h].slot).Some? ==>
                var c, kind := old(handles[h].slot).value, old(handles[h].kind);
                if kind == GlobalKind || kind == PersistentKind(true) then cells == old(cells) - {c}
                else cells == old(cells) && orphans == old(orphans) + {c}
    {
      if ResetsInDestructor(handles[h].kind) {
        Clear(h);
      } else if handles[h].slot.Some? {
        orphans := orphans + {handles[h].slot.value};
      }
      handles := handles - {h};
    }
  }
}
