/**
 Every operation of the handle-scope allocator keeps the invariant and acts on the
 open scopes exactly as the corresponding operation acts on a plain stack of lists.
 */
module HandleScopeSteps {
  import opened Basics
  import opened HandleScopes
  import opened HandleScopeSlots

  // ---------------------------------------------------------------- the stack of lists

  datatype Kind = PlainScope | EscapableScope | SealedScope | PersistentScope

  datatype List = List(kind: Kind, values: seq<Word>)

  datatype ListStep =
    | Push(kind: Kind)
    | PushEscapable(hole: Word)
    | Pop
    | Append(value: Word)
    | FillEscape(depth: nat, value: Word)
    | PopAndAppend(value: Word)

  predicate CanAppend(stack: seq<List>) {
    stack != [] && !Last(stack).kind.SealedScope?
  }

  function Appended(stack: seq<List>, value: Word): seq<List>
    requires CanAppend(stack)
  {
    Front(stack) + [Last(stack).(values := Last(stack).values + [value])]
  }

  /** The reference: a stack of lists of values, with no addresses and no blocks. */
  function ListApply(stack: seq<List>, step: ListStep): Option<seq<List>> {
    match step
    case Push(kind) => Some(stack + [List(kind, [])])
    case PushEscapable(hole) =>
      if CanAppend(stack) then Some(Appended(stack, hole) + [List(EscapableScope, [])]) else None
    case Pop => if stack == [] then None else Some(Front(stack))
    case Append(value) => if CanAppend(stack) then Some(Appended(stack, value)) else None
    case FillEscape(depth, value) =>
      if 0 < depth <= |stack| && stack[depth - 1].values != [] then
        var l := stack[depth - 1];
        Some(stack[depth - 1 := l.(values := Front(l.values) + [value])])
      else None
    case PopAndAppend(value) =>
      if stack != [] && CanAppend(Front(stack)) then
        Some(Appended(Front(stack), value) + [List(PlainScope, [])])
      else None
  }

  function ListRun(stack: seq<List>, steps: seq<ListStep>): Option<seq<List>>
    decreases |steps|
  {
    if steps == [] then Some(stack)
    else match ListApply(stack, steps[0])
      case None => None
      case Some(next) => ListRun(next, steps[1..])
  }

  // ---------------------------------------------------------------- abstraction

  function KindOf(f: Frame): Kind {
    match f
    case Scope(_, _) => PlainScope
    case Escapable(_, _, _) => EscapableScope
    case Seal(_, _) => SealedScope
    case Persistent(_, _, _) => PersistentScope
  }

  function Read(mem: map<Address, Word>, a: Address): Word {
    if a in mem then mem[a] else 0
  }

  function ValuesAt(mem: map<Address, Word>, slots: seq<Address>): seq<Word> {
    seq(|slots|, i requires 0 <= i < |slots| => Read(mem, slots[i]))
  }

  function View(s: State): seq<List> {
    var hs := Handles(s.cfg, s.frames);
    seq(|s.frames|, i requires 0 <= i < |s.frames| => List(KindOf(s.frames[i]), ValuesAt(s.mem, hs[i])))
  }

  function Observe(s: State, step: Step): ListStep {
    match step
    case OpenScope => Push(PlainScope)
    case Close => Pop
    case Create(value, _) => Append(value)
    case OpenEscapable(hole, _) => PushEscapable(hole)
    case Escape(depth, from) => FillEscape(depth, Read(s.mem, from))
    case CloseAndEscape(from, _) => PopAndAppend(Read(s.mem, from))
    case OpenSeal => Push(SealedScope)
    case CloseSeal => Pop
    case OpenPersistent(_) => Push(PersistentScope)
    case ClosePersistent => Pop
  }

  // ---------------------------------------------------------------- one new handle

  /** The two ways a configuration grows by the handle at `slot`. */
  ghost predicate Grown(c: Cfg, d: Cfg, slot: Address) {
    || (&& c.blocks != []
        && slot == c.next < d.limit <= Last(c.blocks) + HANDLE_BLOCK_SIZE
        && d == c.(next := slot + 1, limit := d.limit))
    || (&& slot != 0
        && (forall b :: b in c.blocks ==> Separate(b, slot))
        && (c.blocks != [] ==> c.next == Last(c.blocks) + HANDLE_BLOCK_SIZE)
        && d == c.(blocks := c.blocks + [slot], next := slot + 1, limit := slot + HANDLE_BLOCK_SIZE))
  }

  lemma SlotsGrow(c: Cfg, d: Cfg, slot: Address, k: nat)
    requires Core(c) && Grown(c, d, slot)
    requires k <= |c.blocks|
    ensures Slots(d.blocks[k..], d.next) ==
            if k < |c.blocks| then Slots(c.blocks[k..], c.next) + [slot]
            else if d.blocks == c.blocks then [] else [slot]
  {
    var before, after := c.blocks[k..], d.blocks[k..];
    if d.blocks == c.blocks {
      if before != [] {
        assert Range(Last(before), slot + 1) == Range(Last(before), slot) + [slot];
      }
    } else {
      assert after == before + [slot];
      NewBlockSlots(before, c.next, slot);
    }
  }

  lemma NewBlockSlots(blocks: seq<Address>, next: Address, slot: Address)
    requires blocks != [] ==> next == Last(blocks) + HANDLE_BLOCK_SIZE
    ensures Slots(blocks + [slot], slot + 1) == Slots(blocks, next) + [slot]
  {
    assert Front(blocks + [slot]) == blocks;
    assert Range(slot, slot + 1) == [slot];
  }

  lemma KeptSame(c: Cfg, d: Cfg, slot: Address, pl: Address)
    requires Core(c) && Grown(c, d, slot)
    requires BlocksSpaced(c.blocks)
    requires Kept(c.blocks, pl) == [] ==> pl == 0
    ensures Kept(d.blocks, pl) == Kept(c.blocks, pl)
  {
    if d.blocks != c.blocks {
      assert Front(d.blocks) == c.blocks;
      var kept := Kept(c.blocks, pl);
      if kept != [] {
        assert Last(kept) == c.blocks[|kept| - 1];
        assert Last(kept) in c.blocks;
      }
    }
  }

  lemma BetweenGrows(c: Cfg, d: Cfg, slot: Address, kept: seq<Address>, pn: Address)
    requires Core(c) && Grown(c, d, slot)
    requires kept <= c.blocks
    requires kept == [] ==> pn == 0
    requires kept == c.blocks ==> pn <= c.next
    ensures Between(kept, pn, d.blocks, d.next) == Between(kept, pn, c.blocks, c.next) + [slot]
  {
    if |kept| == |c.blocks| && d.blocks == c.blocks {
      assert Range(pn, slot + 1) == Range(pn, slot) + [slot];
    } else if |kept| == |c.blocks| {
      BetweenNewBlock(c, d, slot, pn);
    } else {
      BetweenLongTail(c, d, slot, kept, pn);
    }
  }

  lemma BetweenLongTail(c: Cfg, d: Cfg, slot: Address, kept: seq<Address>, pn: Address)
    requires Core(c) && Grown(c, d, slot) && kept < c.blocks
    ensures Between(kept, pn, d.blocks, d.next) == Between(kept, pn, c.blocks, c.next) + [slot]
  {
    var head := if kept == [] then [] else Range(pn, Last(kept) + HANDLE_BLOCK_SIZE);
    var slots := Slots(c.blocks[|kept|..], c.next);
    SlotsGrow(c, d, slot, |kept|);
    assert head + (slots + [slot]) == (head + slots) + [slot];
  }

  lemma BetweenNewBlock(c: Cfg, d: Cfg, slot: Address, pn: Address)
    requires Core(c) && Grown(c, d, slot) && d.blocks != c.blocks
    requires c.blocks == [] ==> pn == 0
    requires pn <= c.next
    ensures Between(c.blocks, pn, d.blocks, d.next) == Between(c.blocks, pn, c.blocks, c.next) + [slot]
  {
    assert d.blocks[|c.blocks|..] == [slot];
    assert Slots([slot], slot + 1) == [slot] by {
      assert Front([slot]) == [] && Range(slot, slot + 1) == [slot];
    }
  }

  lemma ScopeGrows(c: Cfg, d: Cfg, slot: Address, pn: Address, pl: Address)
    requires Core(c) && Grown(c, d, slot)
    requires BlocksSpaced(c.blocks)
    requires Kept(c.blocks, pl) == [] ==> pl == 0 && pn == 0
    requires Kept(c.blocks, pl) == c.blocks ==> pn <= c.next
    ensures Kept(d.blocks, pl) == Kept(c.blocks, pl)
    ensures Between(Kept(d.blocks, pl), pn, d.blocks, d.next) ==
            Between(Kept(c.blocks, pl), pn, c.blocks, c.next) + [slot]
    ensures Kept(d.blocks, pl) == d.blocks ==> pn <= d.next
  {
    KeptSame(c, d, slot, pl);
    BetweenGrows(c, d, slot, Kept(c.blocks, pl), pn);
  }

  lemma IndexOfSnoc(blocks: seq<Address>, b: Address, first: Address)
    requires first in blocks
    ensures IndexOf(blocks + [b], first) == IndexOf(blocks, first) < |blocks|
  {
    assert Front(blocks + [b]) == blocks;
  }

  lemma PersistentGrows(c: Cfg, d: Cfg, slot: Address, first: Address)
    requires Core(c) && Grown(c, d, slot)
    requires first in c.blocks
    ensures var k := IndexOf(c.blocks, first);
            && IndexOf(d.blocks, first) == k
            && d.blocks[..k] == c.blocks[..k]
            && Slots(d.blocks[k..], d.next) == Slots(c.blocks[k..], c.next) + [slot]
            && first in d.blocks
  {
    var k := IndexOf(c.blocks, first);
    if d.blocks != c.blocks {
      IndexOfSnoc(c.blocks, slot, first);
    }
    SlotsGrow(c, d, slot, k);
    assert d.blocks[k] == first;
  }

  lemma GrowPlain(c: Cfg, d: Cfg, slot: Address, f: Frame, rest: seq<Frame>)
    requires Core(c) && Link(c, f, rest) && Core(Below(c, f)) && IsPlainScope(f)
    requires Grown(c, d, slot)
    requires BlocksSpaced(c.blocks)
    ensures Below(d, f) == Below(c, f)
    ensures Own(d, f) == Own(c, f) + [slot]
    ensures Link(d, f, rest)
  {
    ScopeGrows(c, d, slot, f.prevNext, f.prevLimit);
    assert Below(d, f) == Below(c, f);
  }

  lemma GrowPersistent(c: Cfg, d: Cfg, slot: Address, f: Frame, rest: seq<Frame>)
    requires Core(c) && Link(c, f, rest) && f.Persistent?
    requires Grown(c, d, slot)
    ensures Below(d, f) == Below(c, f)
    ensures Own(d, f) == Own(c, f) + [slot]
    ensures Link(d, f, rest)
  {
    PersistentGrows(c, d, slot, f.firstBlock);
  }

  lemma ChainTop(c: Cfg, frames: seq<Frame>)
    requires Chain(c, frames) && frames != []
    ensures var f, rest := Last(frames), Front(frames);
            Core(c) && Link(c, f, rest) && Chain(Below(c, f), rest) && Core(Below(c, f))
  {
    assert Chain(Below(c, Last(frames)), Front(frames));
  }

  /** A new handle goes to the end of the innermost scope; every outer scope is as before. */
  lemma GrowTop(c: Cfg, d: Cfg, slot: Address, frames: seq<Frame>)
    requires Chain(c, frames) && frames != [] && !Last(frames).Seal?
    requires Grown(c, d, slot)
    requires BlocksSpaced(c.blocks)
    ensures Below(d, Last(frames)) == Below(c, Last(frames))
    ensures Own(d, Last(frames)) == Own(c, Last(frames)) + [slot]
    ensures Chain(d, frames)
  {
    ChainTop(c, frames);
    if IsPlainScope(Last(frames)) {
      GrowPlain(c, d, slot, Last(frames), Front(frames));
    } else {
      GrowPersistent(c, d, slot, Last(frames), Front(frames));
    }
  }

  lemma GrownUnused(c: Cfg, d: Cfg, slot: Address)
    requires Core(c) && Grown(c, d, slot)
    requires BlocksSpaced(c.blocks)
    ensures !Used(c.blocks, c.next, slot)
  {
    forall i: nat | i < |c.blocks| ensures !UsedIn(c.blocks, c.next, i, slot) {
      assert c.blocks[i] in c.blocks;
    }
  }

  /** A new block keeps the storage apart. */
  lemma StorageGrows(s: State, t: State, alloc: Address, block: Address)
    requires Storage(s) && Allocatable(s, alloc) && block == SpareOrNewBlock(s, alloc)
    requires t.cfg.blocks == s.cfg.blocks + [block] && t.spare == 0 && t.foreign == s.foreign
    ensures Storage(t) && block != 0 && forall b :: b in s.cfg.blocks ==> Separate(b, block)
  {
    assert forall b :: b in s.cfg.blocks || b in s.foreign ==> b in Owned(s);
    if s.spare != 0 {
      assert s.spare in Owned(s);
    }
    assert Owned(t) <= Owned(s) + {block};
  }

  lemma CreateGrows(s: State, value: Word, alloc: Address)
    requires Inv(s) && Allocatable(s, alloc)
    requires s.frames != [] && !Last(s.frames).Seal?
    ensures CreateHandle(s, value, alloc).Some?
    ensures var (t, slot) := CreateHandle(s, value, alloc).value;
            && Grown(s.cfg, t.cfg, slot) && Storage(t)
            && t == s.(cfg := t.cfg, spare := t.spare, mem := s.mem[slot := value])
  {
    var c, f := s.cfg, Last(s.frames);
    ChainTop(c, s.frames);
    assert c.level > c.sealedLevel;
    var (t, slot) := CreateHandle(s, value, alloc).value;
    if t.cfg.blocks != c.blocks {
      StorageGrows(s, t, alloc, slot);
    } else {
      assert Owned(t) == Owned(s);
    }
  }

  lemma CreateFails(s: State, value: Word, alloc: Address)
    requires Inv(s)
    requires s.frames == [] || Last(s.frames).Seal?
    ensures CreateHandle(s, value, alloc).None?
  {}

  // ---------------------------------------------------------------- views

  lemma HandlesTop(c: Cfg, d: Cfg, frames: seq<Frame>)
    requires frames != []
    requires Below(d, Last(frames)) == Below(c, Last(frames))
    ensures Handles(d, frames) == Handles(c, frames)[|frames| - 1 := Own(d, Last(frames))]
  {}

  lemma LiveHas(hs: seq<seq<Address>>, i: nat, a: Address)
    requires i < |hs| && a in hs[i]
    ensures a in Flatten(hs)
  {
    if i < |hs| - 1 {
      LiveHas(Front(hs), i, a);
    }
  }

  /** One new handle, in a slot that no live handle occupies, at the end of the innermost scope. */
  lemma CreateStep(s: State, value: Word, alloc: Address)
    requires Inv(s) && Allocatable(s, alloc)
    requires s.frames != [] && !Last(s.frames).Seal?
    ensures CreateHandle(s, value, alloc).Some?
    ensures var (t, slot) := CreateHandle(s, value, alloc).value;
            && Inv(t)
            && slot !in Live(s) && Live(t) == Live(s) + [slot]
            && t.mem == s.mem[slot := value]
            && t.frames == s.frames && t.foreign == s.foreign
            && Below(t.cfg, Last(t.frames)) == Below(s.cfg, Last(s.frames))
            && Own(t.cfg, Last(t.frames)) == Own(s.cfg, Last(s.frames)) + [slot]
  {
    CreateGrows(s, value, alloc);
    var (t, slot) := CreateHandle(s, value, alloc).value;
    StorageSpaced(s);
    GrowTop(s.cfg, t.cfg, slot, s.frames);
    LiveSlots(s.cfg, s.frames);
    GrownUnused(s.cfg, t.cfg, slot);
    LiveGrows(s.cfg, t.cfg, s.frames, slot);
  }

  lemma LiveGrows(c: Cfg, d: Cfg, frames: seq<Frame>, slot: Address)
    requires frames != []
    requires Below(d, Last(frames)) == Below(c, Last(frames))
    requires Own(d, Last(frames)) == Own(c, Last(frames)) + [slot]
    ensures Flatten(Handles(d, frames)) == Flatten(Handles(c, frames)) + [slot]
  {
    var outer := Handles(Below(c, Last(frames)), Front(frames));
    FlattenSnoc(outer, Own(c, Last(frames)));
    FlattenSnoc(outer, Own(d, Last(frames)));
  }

  lemma ValuesAppended(mem: map<Address, Word>, slots: seq<Address>, slot: Address)
    ensures ValuesAt(mem, slots + [slot]) == ValuesAt(mem, slots) + [Read(mem, slot)]
  {}

  lemma ViewAppend(s: State, t: State, value: Word, slot: Address)
    requires s.frames == t.frames != []
    requires KindOf(Last(s.frames)) != SealedScope
    requires slot !in Live(s) && t.mem == s.mem[slot := value]
    requires Below(t.cfg, Last(t.frames)) == Below(s.cfg, Last(s.frames))
    requires Own(t.cfg, Last(t.frames)) == Own(s.cfg, Last(s.frames)) + [slot]
    ensures View(t) == Appended(View(s), value)
  {
    HandlesTop(s.cfg, t.cfg, s.frames);
    var hs, ht := Handles(s.cfg, s.frames), Handles(t.cfg, t.frames);
    forall i | 0 <= i < |hs| ensures ValuesAt(t.mem, hs[i]) == ValuesAt(s.mem, hs[i]) {
      forall j | 0 <= j < |hs[i]| ensures hs[i][j] != slot {
        LiveHas(hs, i, hs[i][j]);
      }
    }
    ValuesAppended(t.mem, Last(hs), slot);
  }
}
