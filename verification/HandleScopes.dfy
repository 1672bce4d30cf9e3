/**
 The local-handle allocator: a bump-pointer stack over chained blocks, driven by
 `next`, `limit`, `level` and `sealed_level`, with the values that every open scope
 object saved on the native stack.

 Addresses are counted in words, and 0 is the null pointer.  The memory allocator is
 an input: a step that may need a new block carries the address it would be given.
 */
module HandleScopes {
  import opened Basics

  type Address = nat
  type Word = int

  const HANDLE_BLOCK_SIZE: nat := 1022

  // ---------------------------------------------------------------- state

  /** The isolate's handle-scope data together with the block list and the address
      remembered when a persistent scope began. */
  datatype Cfg = Cfg(next: Address, limit: Address, level: int, sealedLevel: int,
                     blocks: seq<Address>, mark: Option<Address>)

  /** A scope object on the native stack, with the fields it saved. */
  datatype Frame =
    | Scope(prevNext: Address, prevLimit: Address)
    | Escapable(prevNext: Address, prevLimit: Address, escapeSlot: Address)
    | Seal(prevLimit: Address, prevSealedLevel: int)
    | Persistent(firstBlock: Address, prevLimit: Address, prevNext: Address)

  /** `foreign` holds the blocks that were handed over to detached persistent handles. */
  datatype State = State(cfg: Cfg, spare: Address, mem: map<Address, Word>,
                         frames: seq<Frame>, foreign: set<Address>)

  /** The container that receives the blocks of a persistent scope. */
  datatype PersistentHandles =
    PersistentHandles(blocks: seq<Address>, blockNext: Address, blockLimit: Address)

  const EMPTY_CFG := Cfg(0, 0, 0, 0, [], None)
  const INITIAL := State(EMPTY_CFG, 0, map[], [], {})

  function Last<T>(s: seq<T>): T
    requires s != []
  {
    s[|s| - 1]
  }

  function Front<T>(s: seq<T>): seq<T>
    requires s != []
  {
    s[..|s| - 1]
  }

  // ---------------------------------------------------------------- the operations

  predicate InBlock(block: Address, a: Address) {
    block < a <= block + HANDLE_BLOCK_SIZE
  }

  /** The block list once every trailing block that does not hold `limit` is popped. */
  function Kept(blocks: seq<Address>, limit: Address): (kept: seq<Address>)
    ensures kept <= blocks
    ensures kept != [] ==> InBlock(Last(kept), limit)
  {
    if blocks == [] then []
    else if InBlock(Last(blocks), limit) then blocks
    else Kept(Front(blocks), limit)
  }

  /** The spare block once those blocks are popped: the one popped last. */
  function SpareAfter(blocks: seq<Address>, limit: Address, spare: Address): Address {
    var kept := |Kept(blocks, limit)|;
    if kept == |blocks| then spare else blocks[kept]
  }

  function CloseScope(s: State, prevNext: Address, prevLimit: Address): State {
    var c := s.cfg.(next := prevNext, level := s.cfg.level - 1);
    if s.cfg.limit != prevLimit then
      s.(cfg := c.(limit := prevLimit, blocks := Kept(c.blocks, prevLimit)),
         spare := SpareAfter(c.blocks, prevLimit, s.spare))
    else
      s.(cfg := c)
  }

  function SpareOrNewBlock(s: State, alloc: Address): Address {
    if s.spare != 0 then s.spare else alloc
  }

  /** None is the failed API check "Cannot create a handle without a HandleScope". */
  function Extend(s: State, alloc: Address): Option<(State, Address)> {
    var c := s.cfg;
    if c.level == c.sealedLevel then None
    else
      var limit := if c.blocks != [] then Last(c.blocks) + HANDLE_BLOCK_SIZE else c.limit;
      if c.next == limit then
        var block := SpareOrNewBlock(s, alloc);
        Some((s.(cfg := c.(limit := block + HANDLE_BLOCK_SIZE, blocks := c.blocks + [block]), spare := 0), block))
      else
        Some((s.(cfg := c.(limit := limit)), c.next))
  }

  function CreateHandle(s: State, value: Word, alloc: Address): Option<(State, Address)> {
    var r := if s.cfg.next == s.cfg.limit then Extend(s, alloc) else Some((s, s.cfg.next));
    match r
    case None => None
    case Some((t, slot)) => Some((t.(cfg := t.cfg.(next := slot + 1), mem := t.mem[slot := value]), slot))
  }

  /** Pops blocks off the block list down to and including `first`, into `into`. */
  function PopThrough(blocks: seq<Address>, first: Address, into: seq<Address>): (r: (seq<Address>, seq<Address>))
    ensures r.0 <= blocks
    ensures |r.1| == |into| + |blocks| - |r.0|
  {
    if blocks == [] then (blocks, into)
    else if Last(blocks) == first then (Front(blocks), into + [Last(blocks)])
    else PopThrough(Front(blocks), first, into + [Last(blocks)])
  }

  function SwapEnds(s: seq<Address>): seq<Address> {
    if s == [] then s else s[0 := Last(s)][|s| - 1 := s[0]]
  }

  function DetachPersistent(c: Cfg, first: Address): (Cfg, PersistentHandles) {
    var (left, popped) := PopThrough(c.blocks, first, []);
    var blocks := SwapEnds(popped);
    var limit := if blocks == [] then 0 else Last(blocks) + HANDLE_BLOCK_SIZE;
    (c.(blocks := left, mark := None), PersistentHandles(blocks, c.next, limit))
  }

  // ---------------------------------------------------------------- steps and runs

  datatype Step =
    | OpenScope
    | Close
    | Create(value: Word, alloc: Address)
    | OpenEscapable(hole: Word, alloc: Address)
    | Escape(depth: nat, from: Address)
    | CloseAndEscape(from: Address, alloc: Address)
    | OpenSeal
    | CloseSeal
    | OpenPersistent(alloc: Address)
    | ClosePersistent

  predicate Separate(x: Address, y: Address) {
    x + HANDLE_BLOCK_SIZE <= y || y + HANDLE_BLOCK_SIZE <= x
  }

  /** All blocks the isolate or a detached container still holds. */
  ghost function Owned(s: State): set<Address> {
    (set b | b in s.cfg.blocks) + (if s.spare == 0 then {} else {s.spare}) + s.foreign
  }

  /** What any allocator guarantees for the block it returns. */
  ghost predicate Allocatable(s: State, block: Address) {
    block != 0 && forall b :: b in Owned(s) ==> Separate(b, block)
  }

  predicate IsPlainScope(f: Frame) {
    f.Scope? || f.Escapable?
  }

  /** A seal can only go onto a block that already holds a handle. */
  predicate CanSeal(c: Cfg) {
    c.blocks == [] || Last(c.blocks) < c.next
  }

  /** The discipline that scopes on the native stack obey: last opened, first closed; a
      handle that is read is a live one; at most one persistent scope at a time. */
  ghost predicate Enabled(s: State, step: Step) {
    match step
    case OpenScope => true
    case Close => s.frames != [] && IsPlainScope(Last(s.frames))
    case Create(_, alloc) => Allocatable(s, alloc)
    case OpenEscapable(_, alloc) => Allocatable(s, alloc)
    case Escape(depth, from) => depth < |s.frames| && s.frames[depth].Escapable? && from in Live(s)
    case CloseAndEscape(from, alloc) =>
      s.frames != [] && Last(s.frames).Scope? && from in Live(s) && Allocatable(s, alloc)
    case OpenSeal => CanSeal(s.cfg)
    case CloseSeal => s.frames != [] && Last(s.frames).Seal?
    case OpenPersistent(alloc) => s.cfg.mark.None? && Allocatable(s, alloc)
    case ClosePersistent => s.frames != [] && Last(s.frames).Persistent?
  }

  ghost function Apply(s: State, step: Step): Option<State>
    requires Enabled(s, step)
  {
    match step
    case OpenScope => Some(Opened(s))
    case Close => Some(Closed(s))
    case Create(value, alloc) =>
      (match CreateHandle(s, value, alloc)
       case None => None
       case Some((t, _)) => Some(t))
    case OpenEscapable(hole, alloc) =>
      (match CreateHandle(s, hole, alloc)
       case None => None
       case Some((t, slot)) =>
         Some(OpenedEscapable(t, slot)))
    case Escape(depth, from) =>
      if from in s.mem then Some(s.(mem := s.mem[s.frames[depth].escapeSlot := s.mem[from]])) else None
    case CloseAndEscape(from, alloc) =>
      if from !in s.mem then None
      else
        (match CreateHandle(Closed(s), s.mem[from], alloc)
         case None => None
         case Some((t, _)) => Some(Opened(t)))
    case OpenSeal => Some(Sealed(s))
    case CloseSeal =>
      var f := Last(s.frames);
      Some(s.(cfg := s.cfg.(limit := f.prevLimit, sealedLevel := f.prevSealedLevel), frames := Front(s.frames)))
    case OpenPersistent(alloc) => Some(OpenedPersistent(s, alloc))
    case ClosePersistent => Some(ClosedPersistent(s))
  }

  function Opened(s: State): State {
    s.(cfg := s.cfg.(level := s.cfg.level + 1), frames := s.frames + [Scope(s.cfg.next, s.cfg.limit)])
  }

  /** An escapable scope on top of the state in which its slot was created. */
  function OpenedEscapable(s: State, slot: Address): State {
    Opened(s).(frames := s.frames + [Escapable(s.cfg.next, s.cfg.limit, slot)])
  }

  function Closed(s: State): State
    requires s.frames != [] && IsPlainScope(Last(s.frames))
  {
    var f := Last(s.frames);
    CloseScope(s, f.prevNext, f.prevLimit).(frames := Front(s.frames))
  }

  function OpenedPersistent(s: State, alloc: Address): State {
    var block := SpareOrNewBlock(s, alloc);
    var c := s.cfg.(next := block, limit := block + HANDLE_BLOCK_SIZE, level := s.cfg.level + 1,
                    blocks := s.cfg.blocks + [block], mark := Some(s.cfg.next));
    s.(cfg := c, spare := 0, frames := s.frames + [Persistent(block, s.cfg.limit, s.cfg.next)])
  }

  /** `Detach` followed by the destructor. */
  function ClosedPersistent(s: State): State
    requires s.frames != [] && Last(s.frames).Persistent?
  {
    var f := Last(s.frames);
    var (c, ph) := DetachPersistent(s.cfg, f.firstBlock);
    s.(cfg := c.(next := f.prevNext, limit := f.prevLimit, level := c.level - 1),
       frames := Front(s.frames), foreign := s.foreign + (set b | b in ph.blocks))
  }

  function Sealed(s: State): State {
    s.(cfg := s.cfg.(limit := s.cfg.next, sealedLevel := s.cfg.level),
       frames := s.frames + [Seal(s.cfg.limit, s.cfg.sealedLevel)])
  }

  ghost predicate EnabledRun(s: State, steps: seq<Step>)
    decreases |steps|
  {
    steps == [] ||
    (Enabled(s, steps[0]) &&
     (Apply(s, steps[0]).Some? ==> EnabledRun(Apply(s, steps[0]).value, steps[1..])))
  }

  /** None once a step fails its API check. */
  ghost function Run(s: State, steps: seq<Step>): Option<State>
    requires EnabledRun(s, steps)
    decreases |steps|
  {
    if steps == [] then Some(s)
    else match Apply(s, steps[0])
      case None => None
      case Some(t) => Run(t, steps[1..])
  }

  // ---------------------------------------------------------------- live handles

  function Range(lo: Address, hi: Address): (r: seq<Address>)
    ensures |r| == if lo <= hi then hi - lo else 0
    ensures forall i :: 0 <= i < |r| ==> r[i] == lo + i
  {
    seq(if lo <= hi then hi - lo else 0, i requires 0 <= i => lo + i)
  }

  /** Every slot of every block, in allocation order. */
  function Full(blocks: seq<Address>): seq<Address> {
    if blocks == [] then [] else Full(Front(blocks)) + Range(Last(blocks), Last(blocks) + HANDLE_BLOCK_SIZE)
  }

  /** The slots handed out when blocks are used up in order and the last one up to `next`. */
  function Slots(blocks: seq<Address>, next: Address): seq<Address> {
    if blocks == [] then [] else Full(Front(blocks)) + Range(Last(blocks), next)
  }

  function IndexOf(blocks: seq<Address>, b: Address): (k: nat)
    ensures k <= |blocks|
    ensures k < |blocks| ==> blocks[k] == b
    ensures forall i :: 0 <= i < k ==> blocks[i] != b
  {
    if blocks == [] then 0
    else
      var k := IndexOf(Front(blocks), b);
      if k < |blocks| - 1 then k else if Last(blocks) == b then |blocks| - 1 else |blocks|
  }

  /** The configuration that closing frame `f` is meant to restore. */
  function Below(c: Cfg, f: Frame): Cfg {
    match f
    case Scope(pn, pl) => c.(next := pn, limit := pl, level := c.level - 1, blocks := Kept(c.blocks, pl))
    case Escapable(pn, pl, _) => c.(next := pn, limit := pl, level := c.level - 1, blocks := Kept(c.blocks, pl))
    case Seal(pl, ps) => c.(limit := pl, sealedLevel := ps)
    case Persistent(first, pl, pn) =>
      c.(next := pn, limit := pl, level := c.level - 1, blocks := c.blocks[..IndexOf(c.blocks, first)], mark := None)
  }

  /** The slots handed out between two points of the same block list. */
  function Between(kept: seq<Address>, prevNext: Address, blocks: seq<Address>, next: Address): seq<Address>
    requires kept <= blocks
  {
    if |kept| == |blocks| then Range(prevNext, next)
    else (if kept == [] then [] else Range(prevNext, Last(kept) + HANDLE_BLOCK_SIZE)) + Slots(blocks[|kept|..], next)
  }

  /** The handles that belong to the innermost scope `f`. */
  function Own(c: Cfg, f: Frame): seq<Address> {
    match f
    case Scope(pn, pl) => Between(Kept(c.blocks, pl), pn, c.blocks, c.next)
    case Escapable(pn, pl, _) => Between(Kept(c.blocks, pl), pn, c.blocks, c.next)
    case Seal(_, _) => []
    case Persistent(first, _, _) => Slots(c.blocks[IndexOf(c.blocks, first)..], c.next)
  }

  /** The handles of every open scope, outermost first. */
  function Handles(c: Cfg, frames: seq<Frame>): (hs: seq<seq<Address>>)
    ensures |hs| == |frames|
    decreases |frames|
  {
    if frames == [] then [] else Handles(Below(c, Last(frames)), Front(frames)) + [Own(c, Last(frames))]
  }

  function Flatten<T>(ss: seq<seq<T>>): seq<T> {
    if ss == [] then [] else Flatten(Front(ss)) + Last(ss)
  }

  function Live(s: State): seq<Address> {
    Flatten(Handles(s.cfg, s.frames))
  }

  // ---------------------------------------------------------------- invariant

  ghost predicate Core(c: Cfg) {
    && c.level >= c.sealedLevel
    && (if c.blocks == [] then c.next == 0 && c.limit == 0
        else
          && Last(c.blocks) <= c.next <= c.limit <= Last(c.blocks) + HANDLE_BLOCK_SIZE
          && Last(c.blocks) < c.limit
          && (c.mark.None? ==> Last(c.blocks) < c.next))
  }

  /** How the saved fields of the innermost scope relate to the current configuration. */
  ghost predicate Link(c: Cfg, f: Frame, rest: seq<Frame>) {
    match f
    case Scope(pn, pl) => Kept(c.blocks, pl) == c.blocks ==> pn <= c.next
    case Escapable(pn, pl, slot) =>
      && (Kept(c.blocks, pl) == c.blocks ==> pn <= c.next)
      && rest != []
      && Own(Below(c, f), Last(rest)) != []
      && Last(Own(Below(c, f), Last(rest))) == slot
    case Seal(_, _) => c.level == c.sealedLevel && c.next == c.limit
    case Persistent(first, _, pn) => first in c.blocks && c.mark == Some(pn)
  }

  ghost predicate Chain(c: Cfg, frames: seq<Frame>)
    decreases |frames|
  {
    && Core(c)
    && (if frames == [] then c == EMPTY_CFG
        else Link(c, Last(frames), Front(frames)) && Chain(Below(c, Last(frames)), Front(frames)))
  }

  ghost predicate Spaced(bs: set<Address>) {
    0 !in bs && forall x, y :: x in bs && y in bs && x != y ==> Separate(x, y)
  }

  ghost predicate Storage(s: State) {
    && Distinct(s.cfg.blocks)
    && Spaced(Owned(s))
    && s.spare !in s.cfg.blocks
    && s.spare !in s.foreign
    && (forall b :: b in s.cfg.blocks ==> b !in s.foreign)
  }

  ghost predicate Inv(s: State) {
    && Storage(s)
    && Chain(s.cfg, s.frames)
    && (forall a :: a in Live(s) ==> a in s.mem)
  }
}
