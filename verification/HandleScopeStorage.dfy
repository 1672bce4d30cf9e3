/**
 Where the blocks of the handle-scope allocator come from and go to: which block a new
 handle is put in, and that no step loses a block or takes one that it does not need.
 */
module HandleScopeStorage {
  import opened Basics
  import opened HandleScopes
  import opened HandleScopeSlots
  import opened HandleScopeSteps
  import opened HandleScopeRefinement
  import opened HandleScopeRoots

  /** The last block has a slot left. */
  predicate HasRoom(c: Cfg) {
    c.blocks != [] && c.next < Last(c.blocks) + HANDLE_BLOCK_SIZE
  }

  /** What the system allocator supplies for one more block: nothing if there is a spare. */
  function Supplied(s: State, alloc: Address): set<Address> {
    if s.spare == 0 then {alloc} else {}
  }

  /** The block list grew by one block, the spare if there was one. */
  ghost predicate TakesBlock(s: State, t: State, alloc: Address) {
    && |t.cfg.blocks| == |s.cfg.blocks| + 1 && Front(t.cfg.blocks) == s.cfg.blocks
    && (s.spare != 0 ==> Last(t.cfg.blocks) == s.spare)
    && (s.spare == 0 ==> Last(t.cfg.blocks) == alloc)
    && t.spare == 0 && t.foreign == s.foreign
    && Owned(t) == Owned(s) + Supplied(s, alloc)
  }

  lemma BlockTaken(s: State, t: State, alloc: Address)
    requires Storage(s)
    requires t.cfg.blocks == s.cfg.blocks + [if s.spare != 0 then s.spare else alloc]
    requires t.spare == 0 && t.foreign == s.foreign
    ensures TakesBlock(s, t, alloc)
  {
    assert forall b :: b in t.cfg.blocks <==> b in s.cfg.blocks || b == Last(t.cfg.blocks);
  }

  /** A handle goes to `next` while the last block has room, whatever the limit says, and
      no block changes hands; otherwise it goes to the first slot of the spare or of a new
      block, and the whole rest of that block is available. */
  lemma CreateTakes(s: State, value: Word, alloc: Address)
    requires Inv(s) && Allocatable(s, alloc) && CreateHandle(s, value, alloc).Some?
    ensures var (t, slot) := CreateHandle(s, value, alloc).value;
            if HasRoom(s.cfg) then
              slot == s.cfg.next && t.cfg.blocks == s.cfg.blocks && t.spare == s.spare && Owned(t) == Owned(s)
            else
              && TakesBlock(s, t, alloc) && slot == Last(t.cfg.blocks)
              && t.cfg.limit - t.cfg.next == HANDLE_BLOCK_SIZE - 1
  {
    if s.frames == [] || Last(s.frames).Seal? {
      CreateFails(s, value, alloc);
    } else {
      CreateGrows(s, value, alloc);
      var (t, slot) := CreateHandle(s, value, alloc).value;
      if HasRoom(s.cfg) {
        assert t.cfg.blocks == s.cfg.blocks;
        assert Owned(t) == Owned(s);
      } else {
        BlockTaken(s, t, alloc);
      }
    }
  }

  lemma OpenEscapableTakes(s: State, hole: Word, alloc: Address)
    requires Inv(s) && Enabled(s, OpenEscapable(hole, alloc)) && Apply(s, OpenEscapable(hole, alloc)).Some?
    ensures Owned(Apply(s, OpenEscapable(hole, alloc)).value) == Owned(s) + (if HasRoom(s.cfg) then {} else Supplied(s, alloc))
  {
    CreateTakes(s, hole, alloc);
    var (u, slot) := CreateHandle(s, hole, alloc).value;
    assert Owned(OpenedEscapable(u, slot)) == Owned(u);
  }

  /** A persistent scope always begins with a block of its own, all of it available. */
  lemma OpenPersistentTakes(s: State, alloc: Address)
    requires Inv(s) && Enabled(s, OpenPersistent(alloc))
    ensures var t := Apply(s, OpenPersistent(alloc));
            && t.Some? && TakesBlock(s, t.value, alloc)
            && t.value.cfg.next == Last(t.value.cfg.blocks)
            && t.value.cfg.limit - t.value.cfg.next == HANDLE_BLOCK_SIZE
            && t.value.cfg.level == s.cfg.level + 1
  {
    BlockTaken(s, OpenedPersistent(s, alloc), alloc);
  }

  lemma CloseAndEscapeTakes(s: State, from: Address, alloc: Address)
    requires Inv(s) && Enabled(s, CloseAndEscape(from, alloc)) && Apply(s, CloseAndEscape(from, alloc)).Some?
    ensures Owned(Apply(s, CloseAndEscape(from, alloc)).value) ==
            Owned(Closed(s)) + (if HasRoom(Closed(s).cfg) then {} else Supplied(Closed(s), alloc))
  {
    CloseStep(s);
    assert Allocatable(Closed(s), alloc);
    CreateTakes(Closed(s), s.mem[from], alloc);
    var t := CreateHandle(Closed(s), s.mem[from], alloc).value.0;
    assert Owned(Opened(t)) == Owned(t);
  }

  /** The blocks handed over are those of the persistent scope. */
  lemma DetachForeign(s: State)
    requires Inv(s) && s.frames != [] && Last(s.frames).Persistent?
    ensures var t, k := ClosedPersistent(s), IndexOf(s.cfg.blocks, Last(s.frames).firstBlock);
            t.cfg.blocks == s.cfg.blocks[..k] && t.foreign == s.foreign + (set b | b in s.cfg.blocks[k..])
  {
    var first := Last(s.frames).firstBlock;
    DetachSplits(s.cfg, first);
    forall b ensures b in DetachPersistent(s.cfg, first).1.blocks <==> b in s.cfg.blocks[IndexOf(s.cfg.blocks, first)..] {
      DetachSameBlocks(s.cfg, first, b);
    }
  }

  lemma DetachKeepsOwned(s: State)
    requires Inv(s) && s.frames != [] && Last(s.frames).Persistent?
    ensures Owned(ClosedPersistent(s)) == Owned(s)
  {
    DetachForeign(s);
    var k := IndexOf(s.cfg.blocks, Last(s.frames).firstBlock);
    assert s.cfg.blocks == s.cfg.blocks[..k] + s.cfg.blocks[k..];
  }

  /** Detaching hands every block of the persistent scope over, and with them every handle
      of the scope. */
  lemma DetachedAreForeign(s: State)
    requires Inv(s) && s.frames != [] && Last(s.frames).Persistent?
    ensures var t := ClosedPersistent(s);
            && Owned(t) == Owned(s) && t.spare == s.spare && s.foreign <= t.foreign
            && forall a :: a in Own(s.cfg, Last(s.frames)) ==> InForeign(t, a)
  {
    DetachForeign(s);
    DetachKeepsOwned(s);
    var t, own := ClosedPersistent(s), s.cfg.blocks[IndexOf(s.cfg.blocks, Last(s.frames).firstBlock)..];
    forall a | a in Own(s.cfg, Last(s.frames)) ensures InForeign(t, a) {
      SlotsMembers(own, s.cfg.next, a);
      var i: nat :| i < |own| && UsedIn(own, s.cfg.next, i, a);
      assert own[i] in t.foreign;
    }
  }

  /** The blocks that a step frees. */
  ghost function FreedBy(s: State, step: Step): set<Address>
    requires Enabled(s, step)
  {
    if step.Close? || step.CloseAndEscape? then Freed(s) else {}
  }

  /** The block that a step obtains from the system. */
  ghost function SuppliedTo(s: State, step: Step): set<Address>
    requires Enabled(s, step)
  {
    match step
    case Create(_, alloc) => if HasRoom(s.cfg) then {} else Supplied(s, alloc)
    case OpenEscapable(_, alloc) => if HasRoom(s.cfg) then {} else Supplied(s, alloc)
    case OpenPersistent(alloc) => Supplied(s, alloc)
    case CloseAndEscape(_, alloc) => if HasRoom(Closed(s).cfg) then {} else Supplied(Closed(s), alloc)
    case _ => {}
  }

  /** What is owned afterwards is what was owned before, without the blocks that were freed,
      and with the one block that a step without room and without a spare obtains. */
  ghost predicate Conserved(s: State, step: Step)
    requires Enabled(s, step)
  {
    Apply(s, step).Some? ==> Owned(Apply(s, step).value) == Owned(s) - FreedBy(s, step) + SuppliedTo(s, step)
  }

  lemma OtherStepConserves(s: State, step: Step)
    requires Enabled(s, step) && (step.OpenScope? || step.Escape? || step.OpenSeal? || step.CloseSeal?)
    ensures Conserved(s, step)
  {
    if Apply(s, step).Some? {
      assert Owned(Apply(s, step).value) == Owned(s);
    }
  }

  lemma MakingConserves(s: State, step: Step)
    requires Inv(s) && Enabled(s, step) && (step.Create? || step.OpenEscapable? || step.OpenPersistent?)
    ensures Conserved(s, step)
  {
    if Apply(s, step).Some? {
      match step
      case Create(value, alloc) => CreateTakes(s, value, alloc);
      case OpenEscapable(hole, alloc) => OpenEscapableTakes(s, hole, alloc);
      case OpenPersistent(alloc) => OpenPersistentTakes(s, alloc);
    }
  }

  lemma CloseConserves(s: State, step: Step)
    requires Inv(s) && Enabled(s, step) && (step.Close? || step.CloseAndEscape?)
    ensures Conserved(s, step)
  {
    ClosedFrees(s);
    if step.CloseAndEscape? && Apply(s, step).Some? {
      CloseAndEscapeTakes(s, step.from, step.alloc);
    }
  }

  /** No step loses a block, and none obtains one that it does not need. */
  lemma BlocksConserved(s: State, step: Step)
    requires Inv(s) && Enabled(s, step)
    ensures Conserved(s, step)
  {
    if step.Create? || step.OpenEscapable? || step.OpenPersistent? {
      MakingConserves(s, step);
    } else if step.Close? || step.CloseAndEscape? {
      CloseConserves(s, step);
    } else if step.ClosePersistent? {
      DetachKeepsOwned(s);
    } else {
      OtherStepConserves(s, step);
    }
  }
}
