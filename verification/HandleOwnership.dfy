/**
 Who owns which storage cell: global, persistent and traced handles over one table of
 cells, with construction, reset, copy, move, destruction, weakness and the collector's
 steps.  A handle is named by its address.  The cell an allocation returns is an input;
 any cell that is not in use may be returned, also one that was freed a moment before.
 */
module HandleOwnership {
  import opened Basics

  type HandleId = nat
  type CellId = nat
  type Word = int

  datatype Kind = GlobalKind | PersistentKind(resetInDestructor: bool) | TracedKind

  datatype Handle = Handle(kind: Kind, slot: Option<CellId>)

  /** `Phantom(back)`: the collector will clear the handle at address `back`. */
  datatype Weakness = Strong | Phantom(back: HandleId) | Callback | NearDeath

  datatype Cell = Cell(value: Word, weakness: Weakness, traced: bool)

  /** `orphans` are cells that were given up without being freed: a handle was destroyed
      without a reset, a traced cell was destroyed while marking or sweeping ran, or the
      collector wrote null to a handle that does not own the cell it cleared. */
  datatype World = World(handles: map<HandleId, Handle>, cells: map<CellId, Cell>, orphans: set<CellId>,
                         created: nat, disposed: nat, marking: bool, sweeping: bool)

  const EMPTY_WORLD := World(map[], map[], {}, 0, 0, false, false)

  // ---------------------------------------------------------------- building blocks

  predicate IsEmpty(w: World, h: HandleId)
    requires h in w.handles
  {
    w.handles[h].slot.None?
  }

  function WithSlot(w: World, h: HandleId, slot: Option<CellId>): World
    requires h in w.handles
  {
    w.(handles := w.handles[h := w.handles[h].(slot := slot)])
  }

  /** A new strong cell, named by handle `h`. */
  function Globalize(w: World, h: HandleId, value: Word, c: CellId): World
    requires h in w.handles
  {
    WithSlot(w.(cells := w.cells[c := Cell(value, Strong, w.handles[h].kind.TracedKind?)], created := w.created + 1),
             h, Some(c))
  }

  function Dispose(w: World, c: CellId): World {
    w.(cells := w.cells - {c}, disposed := w.disposed + 1)
  }

  /** A traced cell is freed at once only when neither marking nor sweeping runs. */
  function DisposeTraced(w: World, c: CellId): World
    requires c in w.cells
  {
    if w.sweeping then w.(orphans := w.orphans + {c})
    else if w.marking then w.(cells := w.cells[c := w.cells[c].(value := 0)], orphans := w.orphans + {c})
    else Dispose(w, c)
  }

  ghost predicate SlotsAllocated(w: World) {
    forall h :: h in w.handles && w.handles[h].slot.Some? ==> w.handles[h].slot.value in w.cells
  }

  // ---------------------------------------------------------------- the operations

  ghost function Reset(w: World, h: HandleId): World
    requires h in w.handles && SlotsAllocated(w)
  {
    match w.handles[h].slot
    case None => w
    case Some(c) =>
      WithSlot(if w.handles[h].kind.TracedKind? then DisposeTraced(w, c) else Dispose(w, c), h, None)
  }

  /** `Reset(isolate, local)`. */
  ghost function ResetToLocal(w: World, h: HandleId, local: Option<Word>, c: CellId): World
    requires h in w.handles && SlotsAllocated(w)
  {
    var r := Reset(w, h);
    match local
    case None => r
    case Some(value) => Globalize(r, h, value, c)
  }

  /** The handle a slot would read; a missing cell reads as 0. */
  function ValueIn(w: World, h: HandleId): Option<Word> {
    if h in w.handles && w.handles[h].slot.Some? then
      Some(if w.handles[h].slot.value in w.cells then w.cells[w.handles[h].slot.value].value else 0)
    else None
  }

  /** `Reset(isolate, other)` and `Persistent::Copy`. */
  ghost function CopyFrom(w: World, h: HandleId, other: HandleId, c: CellId): World
    requires h in w.handles && other in w.handles && SlotsAllocated(w)
  {
    var r := Reset(w, h);
    if IsEmpty(r, other) then r else Globalize(r, h, ValueIn(r, other).value, c)
  }

  /** Gives the cell of `from` to `to`; a phantom cell must learn its handle's new address. */
  function Transfer(w: World, from: HandleId, to: HandleId, c: CellId): World
    requires from in w.handles && to in w.handles && c in w.cells
  {
    var cell := w.cells[c];
    var moved := if cell.weakness.Phantom? then cell.(weakness := Phantom(to)) else cell;
    WithSlot(WithSlot(w.(cells := w.cells[c := moved]), to, Some(c)), from, None)
  }

  ghost function MoveConstruct(w: World, h: HandleId, other: HandleId): World
    requires other in w.handles && h !in w.handles && SlotsAllocated(w)
  {
    var n := w.(handles := w.handles[h := Handle(GlobalKind, None)]);
    match w.handles[other].slot
    case None => n
    case Some(c) => Transfer(n, other, h, c)
  }

  ghost function MoveAssign(w: World, h: HandleId, rhs: HandleId): World
    requires h in w.handles && rhs in w.handles && SlotsAllocated(w) && OwnersDistinct(w)
  {
    if h == rhs then w
    else
      var r := Reset(w, h);
      match w.handles[rhs].slot
      case None => r
      case Some(c) => Transfer(r, rhs, h, c)
  }

  ghost function TracedMove(w: World, h: HandleId, rhs: HandleId): World
    requires h in w.handles && rhs in w.handles && SlotsAllocated(w)
  {
    if h == rhs then w
    else
      var r := Reset(w, h);
      match w.handles[rhs].slot
      case None => r
      case Some(c) => WithSlot(WithSlot(r, h, Some(c)), rhs, None)
  }

  ghost function TracedCopy(w: World, h: HandleId, rhs: HandleId, c: CellId): World
    requires h in w.handles && rhs in w.handles && SlotsAllocated(w)
  {
    if h == rhs then w else CopyFrom(w, h, rhs, c)
  }

  predicate ResetsInDestructor(kind: Kind) {
    kind.GlobalKind? || (kind.PersistentKind? && kind.resetInDestructor)
  }

  ghost function Destroy(w: World, h: HandleId): World
    requires h in w.handles && SlotsAllocated(w)
  {
    if ResetsInDestructor(w.handles[h].kind) then
      var r := Reset(w, h);
      r.(handles := r.handles - {h})
    else
      w.(handles := w.handles - {h},
         orphans := w.orphans + (match w.handles[h].slot case None => {} case Some(c) => {c}))
  }

  function SetWeakness(w: World, c: CellId, weakness: Weakness): World
    requires c in w.cells
  {
    w.(cells := w.cells[c := w.cells[c].(weakness := weakness)])
  }

  /** Null is written to handle `h`, whatever it names; a cell it named is given up. */
  function Overwritten(w: World, h: HandleId): World
    requires h in w.handles
  {
    match w.handles[h].slot
    case None => w
    case Some(c) => WithSlot(if c in w.cells then w.(orphans := w.orphans + {c}) else w, h, None)
  }

  /** The collector clears a dead phantom cell: it writes null to the address in the cell
      and frees the cell.  If no handle lives at that address, no handle sees the write. */
  function ClearPhantom(w: World, c: CellId): World
    requires c in w.cells && w.cells[c].weakness.Phantom?
  {
    var back := w.cells[c].weakness.back;
    var d := Dispose(w, c).(orphans := w.orphans - {c});
    if back in w.handles then Overwritten(d, back) else d
  }

  // ---------------------------------------------------------------- steps and runs

  datatype Step =
    | Construct(h: HandleId, kind: Kind, local: Option<Word>, c: CellId)
    | ResetStep(h: HandleId)
    | ResetLocal(h: HandleId, local: Option<Word>, c: CellId)
    | Copy(h: HandleId, other: HandleId, c: CellId)
    | MoveNew(h: HandleId, other: HandleId)
    | Move(h: HandleId, rhs: HandleId)
    | MoveTraced(h: HandleId, rhs: HandleId)
    | CopyTraced(h: HandleId, rhs: HandleId, c: CellId)
    | Destruct(h: HandleId)
    | SetWeakPhantom(h: HandleId)
    | SetWeakCallback(h: HandleId)
    | ClearWeak(h: HandleId)
    | CollectPhantom(c: CellId)
    | CollectCallback(c: CellId)
    | SweepTraced(c: CellId)
    | SetPhase(marking: bool, sweeping: bool)

  ghost predicate IsHandle(w: World, h: HandleId, traced: bool) {
    h in w.handles && w.handles[h].kind.TracedKind? == traced
  }

  /** A cell the allocator may hand out once `h` has been reset. */
  ghost predicate FreeAfterReset(w: World, h: HandleId, c: CellId)
    requires h in w.handles && SlotsAllocated(w)
  {
    c !in Reset(w, h).cells
  }

  ghost predicate Enabled(w: World, step: Step)
    requires Inv(w)
  {
    match step
    case Construct(h, _, _, c) => h !in w.handles && c !in w.cells
    case ResetStep(h) => h in w.handles
    case ResetLocal(h, _, c) => h in w.handles && FreeAfterReset(w, h, c)
    case Copy(h, other, c) => IsHandle(w, h, false) && IsHandle(w, other, false) && FreeAfterReset(w, h, c)
    case MoveNew(h, other) => h !in w.handles && other in w.handles && w.handles[other].kind.GlobalKind?
    case Move(h, rhs) =>
      h in w.handles && rhs in w.handles && w.handles[h].kind.GlobalKind? && w.handles[rhs].kind.GlobalKind?
    case MoveTraced(h, rhs) => IsHandle(w, h, true) && IsHandle(w, rhs, true)
    case CopyTraced(h, rhs, c) => IsHandle(w, h, true) && IsHandle(w, rhs, true) && FreeAfterReset(w, h, c)
    case Destruct(h) => h in w.handles
    case SetWeakPhantom(h) => IsHandle(w, h, false) && !IsEmpty(w, h)
    case SetWeakCallback(h) => IsHandle(w, h, false) && !IsEmpty(w, h)
    case ClearWeak(h) => IsHandle(w, h, false) && !IsEmpty(w, h)
    case CollectPhantom(c) => c in w.cells && w.cells[c].weakness.Phantom?
    case CollectCallback(c) => c in w.cells && w.cells[c].weakness.Callback?
    case SweepTraced(c) => c in w.orphans && c in w.cells && w.cells[c].traced
    case SetPhase(_, _) => true
  }

  ghost function Apply(w: World, step: Step): World
    requires Inv(w) && Enabled(w, step)
  {
    match step
    case Construct(h, kind, local, c) =>
      var n := w.(handles := w.handles[h := Handle(kind, None)]);
      (match local case None => n case Some(value) => Globalize(n, h, value, c))
    case ResetStep(h) => Reset(w, h)
    case ResetLocal(h, local, c) => ResetToLocal(w, h, local, c)
    case Copy(h, other, c) => CopyFrom(w, h, other, c)
    case MoveNew(h, other) => MoveConstruct(w, h, other)
    case Move(h, rhs) => MoveAssign(w, h, rhs)
    case MoveTraced(h, rhs) => TracedMove(w, h, rhs)
    case CopyTraced(h, rhs, c) => TracedCopy(w, h, rhs, c)
    case Destruct(h) => Destroy(w, h)
    case SetWeakPhantom(h) => SetWeakness(w, w.handles[h].slot.value, Phantom(h))
    case SetWeakCallback(h) => SetWeakness(w, w.handles[h].slot.value, Callback)
    case ClearWeak(h) => SetWeakness(w, w.handles[h].slot.value, Strong)
    case CollectPhantom(c) => ClearPhantom(w, c)
    case CollectCallback(c) => SetWeakness(w, c, NearDeath)
    case SweepTraced(c) => Dispose(w, c).(orphans := w.orphans - {c})
    case SetPhase(marking, sweeping) => w.(marking := marking, sweeping := sweeping)
  }

  // ---------------------------------------------------------------- the invariant

  ghost predicate OwnersDistinct(w: World) {
    forall g, h :: g in w.handles && h in w.handles && w.handles[g].slot.Some? && w.handles[g].slot == w.handles[h].slot ==>
      g == h
  }

  ghost predicate OrphansUnnamed(w: World) {
    && w.orphans <= w.cells.Keys
    && forall h :: h in w.handles && w.handles[h].slot.Some? ==> w.handles[h].slot.value !in w.orphans
  }

  ghost predicate Names(w: World, h: HandleId, c: CellId) {
    h in w.handles && w.handles[h].slot == Some(c)
  }

  ghost predicate EveryCellHeld(w: World) {
    forall c :: c in w.cells && c !in w.orphans ==> exists h :: Names(w, h, c)
  }

  /** A phantom cell points back at the handle that owns it. */
  ghost predicate BackPointersOk(w: World) {
    forall c :: c in w.cells && c !in w.orphans && w.cells[c].weakness.Phantom? ==> Names(w, w.cells[c].weakness.back, c)
  }

  ghost predicate TablesOk(w: World) {
    && (forall h, c :: Names(w, h, c) && c in w.cells ==> w.cells[c].traced == w.handles[h].kind.TracedKind?)
    && (forall c :: c in w.cells && w.cells[c].traced ==> w.cells[c].weakness.Strong?)
  }

  ghost predicate Inv(w: World) {
    && SlotsAllocated(w) && OwnersDistinct(w) && OrphansUnnamed(w)
    && EveryCellHeld(w) && BackPointersOk(w) && TablesOk(w)
    && w.created == w.disposed + |w.cells|
  }
}
