/**
 The handle-scope operations as the program runs them: the isolate's fields are updated
 in place, and scope objects remember what they found.  Each operation is proved to do
 what its counterpart in `HandleScopes` says.
 */
module HandleScopeCode {
  import opened Basics
  import opened HandleScopes
  import opened HandleScopeRoots

  class Isolate {
    // HandleScopeData
    var next: Address
    var limit: Address
    var level: int
    var sealedLevel: int
    // HandleScopeImplementer
    var blocks: seq<Address>
    var spare: Address
    var lastHandleBeforePersistentBlock: Option<Address>
    // the words behind the handles
    var mem: map<Address, Word>

    function Config(): Cfg
      reads this
    {
      Cfg(next, limit, level, sealedLevel, blocks, lastHandleBeforePersistentBlock)
    }

    /** The isolate's part of the state; scope objects are not the isolate's. */
    function Data(): State
      reads this
    {
      State(Config(), spare, mem, [], {})
    }

    constructor ()
      ensures Data() == INITIAL
    {
      next, limit := 0, 0;
      sealedLevel, level := 0, 0;
      blocks, spare, lastHandleBeforePersistentBlock, mem := [], 0, None, map[];
    }

    method GetSpareOrNewBlock(alloc: Address) returns (block: Address)
      modifies this`spare
      ensures block == SpareOrNewBlock(old(Data()), alloc)
      ensures old(spare) != 0 ==> block == old(spare)
      ensures old(spare) == 0 ==> block == alloc
      ensures spare == 0
    {
      block := if spare != 0 then spare else alloc;
      spare := 0;
    }

    method DeleteExtensions(prevLimit: Address)
      modifies this`blocks, this`spare
      ensures blocks == Kept(old(blocks), prevLimit)
      ensures spare == SpareAfter(old(blocks), prevLimit, old(spare))
    {
      while blocks != []
        invariant blocks <= old(blocks)
        invariant Kept(blocks, prevLimit) == Kept(old(blocks), prevLimit)
        invariant spare == if blocks == old(blocks) then old(spare) else old(blocks)[|blocks|]
        decreases |blocks|
      {
        var blockStart := Last(blocks);
        var blockLimit := blockStart + HANDLE_BLOCK_SIZE;
        if blockStart < prevLimit && prevLimit <= blockLimit {
          break;
        }
        blocks := Front(blocks);
        spare := blockStart;
      }
    }

    method Extend(alloc: Address) returns (r: Option<Address>)
      requires next == limit
      modifies this
      ensures match HandleScopes.Extend(old(Data()), alloc)
              case None => r.None? && Data() == old(Data())
              case Some((t, slot)) => r == Some(slot) && Data() == t
      ensures r.None? <==> level == sealedLevel
      ensures r.Some? && blocks == old(blocks) ==> r == Some(next) && next != limit && spare == old(spare)
      ensures blocks != old(blocks) ==>
                && r.Some? && blocks == old(blocks) + [r.value] && limit == r.value + HANDLE_BLOCK_SIZE && spare == 0
                && r.value == if old(spare) != 0 then old(spare) else alloc
    {
      var result := next;
      if level == sealedLevel {
        return None;
      }
      if blocks != [] {
        var end := Last(blocks) + HANDLE_BLOCK_SIZE;
        if limit != end {
          limit := end;
        }
      }
      if result == limit {
        result := GetSpareOrNewBlock(alloc);
        blocks := blocks + [result];
        limit := result + HANDLE_BLOCK_SIZE;
      }
      return Some(result);
    }

    method CreateHandle(value: Word, alloc: Address) returns (r: Option<Address>)
      modifies this
      ensures match HandleScopes.CreateHandle(old(Data()), value, alloc)
              case None => r.None? && Data() == old(Data())
              case Some((t, slot)) => r == Some(slot) && Data() == t
    {
      r := Some(next);
      if next == limit {
        r := Extend(alloc);
        if r.None? {
          return;
        }
      }
      next := r.value + 1;
      mem := mem[r.value := value];
    }

    method CloseScope(prevNext: Address, prevLimit: Address)
      modifies this
      ensures Data() == HandleScopes.CloseScope(old(Data()), prevNext, prevLimit)
    {
      next := prevNext;
      level := level - 1;
      if limit != prevLimit {
        limit := prevLimit;
        DeleteExtensions(limit);
      }
    }

    method CountHandles() returns (n: int)
      ensures n == NumberOfHandles(Config())
    {
      n := |blocks|;
      if n == 0 {
        return 0;
      }
      n := (n - 1) * HANDLE_BLOCK_SIZE + (next - Last(blocks));
    }

    /** Reports every root slot to the collector, the blocks before the last one from the
        end of the list to its start. */
    method IterateThis() returns (visited: seq<Address>)
      ensures visited == VisitOrder(Config())
    {
      visited := [];
      ghost var c := Config();
      var i := |blocks| - 2;
      while i >= 0
        invariant i <= |blocks| - 2
        invariant visited + VisitDown(c, i) == VisitDown(c, |blocks| - 2)
        decreases i + 2
      {
        var block := blocks[i];
        var mark := lastHandleBeforePersistentBlock;
        var end := block + HANDLE_BLOCK_SIZE;
        if mark.Some? && mark.value <= block + HANDLE_BLOCK_SIZE && mark.value >= block {
          end := mark.value;
        }
        assert VisitDown(c, i) == Range(block, end) + VisitDown(c, i - 1);
        assert visited + VisitDown(c, i) == visited + Range(block, end) + VisitDown(c, i - 1);
        visited := visited + Range(block, end);
        i := i - 1;
      }
      assert visited == VisitDown(c, |blocks| - 2);
      if blocks != [] {
        visited := visited + Range(Last(blocks), next);
      }
    }

    /** Moves the blocks of a persistent scope out of the block list. */
    method DetachPersistent(firstBlock: Address) returns (ph: PersistentHandles)
      requires firstBlock in blocks
      modifies this`blocks, this`lastHandleBeforePersistentBlock
      ensures (Config(), ph) == HandleScopes.DetachPersistent(old(Config()), firstBlock)
    {
      var moved: seq<Address> := [];
      var blockStart := Last(blocks);
      moved := moved + [blockStart];
      blocks := Front(blocks);
      while blockStart != firstBlock
        invariant blocks <= old(blocks) && moved != []
        invariant blockStart == Last(moved)
        invariant blockStart != firstBlock ==> firstBlock in blocks
        invariant (if blockStart == firstBlock then (blocks, moved) else PopThrough(blocks, firstBlock, moved)) ==
                  PopThrough(old(blocks), firstBlock, [])
        decreases |blocks|
      {
        blockStart := Last(blocks);
        moved := moved + [blockStart];
        blocks := Front(blocks);
      }
      moved := moved[0 := Last(moved)][|moved| - 1 := moved[0]];
      ph := PersistentHandles(moved, next, Last(moved) + HANDLE_BLOCK_SIZE);
      lastHandleBeforePersistentBlock := None;
    }
  }

  class HandleScope {
    const isolate: Isolate
    var prevNext: Address
    var prevLimit: Address

    ghost function Saved(): Frame
      reads this
    {
      Scope(prevNext, prevLimit)
    }

    constructor (isolate: Isolate)
      modifies isolate
      ensures this.isolate == isolate
      ensures var t := Opened(old(isolate.Data()));
              isolate.Data() == t.(frames := []) && Saved() == Last(t.frames)
    {
      this.isolate := isolate;
      prevNext := isolate.next;
      prevLimit := isolate.limit;
      new;
      isolate.level := isolate.level + 1;
    }

    method Destroy()
      modifies isolate
      ensures isolate.Data() == Closed(old(isolate.Data()).(frames := [old(Saved())]))
    {
      isolate.CloseScope(prevNext, prevLimit);
    }

    /** Closes the scope, makes one handle in the parent scope and opens the scope again. */
    method CloseAndEscape(from: Address, alloc: Address) returns (r: Option<Address>)
      requires from in isolate.mem
      modifies this, isolate
      ensures var closed := Closed(old(isolate.Data()).(frames := [old(Saved())]));
              match HandleScopes.CreateHandle(closed, old(isolate.mem)[from], alloc)
              case None => r.None?
              case Some((t, slot)) =>
                r == Some(slot) && isolate.Data() == Opened(t).(frames := []) && Saved() == Last(Opened(t).frames)
    {
      var value := isolate.mem[from];
      isolate.CloseScope(prevNext, prevLimit);
      r := isolate.CreateHandle(value, alloc);
      if r.Some? {
        prevNext := isolate.next;
        prevLimit := isolate.limit;
        isolate.level := isolate.level + 1;
      }
    }
  }

  class EscapableHandleScope {
    const isolate: Isolate
    var prevNext: Address
    var prevLimit: Address
    var escapeSlot: Option<Address>

    /** Fails, leaving no slot, where no handle can be created. */
    constructor (isolate: Isolate, hole: Word, alloc: Address)
      modifies isolate
      ensures this.isolate == isolate
      ensures match HandleScopes.CreateHandle(old(isolate.Data()), hole, alloc)
              case None => escapeSlot.None?
              case Some((t, slot)) =>
                && escapeSlot == Some(slot)
                && isolate.Data() == OpenedEscapable(t, slot).(frames := [])
                && Escapable(prevNext, prevLimit, slot) == Last(OpenedEscapable(t, slot).frames)
    {
      this.isolate := isolate;
      prevNext, prevLimit := 0, 0;
      escapeSlot := None;
      new;
      escapeSlot := isolate.CreateHandle(hole, alloc);
      if escapeSlot.Some? {
        prevNext := isolate.next;
        prevLimit := isolate.limit;
        isolate.level := isolate.level + 1;
      }
    }

    /** An empty handle escapes as itself. */
    method Escape(value: Option<Address>) returns (r: Option<Address>)
      requires escapeSlot.Some?
      requires value.Some? ==> value.value in isolate.mem
      modifies isolate`mem
      ensures value.None? ==> r.None? && isolate.mem == old(isolate.mem)
      ensures value.Some? ==>
                && r == escapeSlot
                && isolate.mem == old(isolate.mem)[escapeSlot.value := old(isolate.mem)[value.value]]
    {
      if value.None? {
        return value;
      }
      isolate.mem := isolate.mem[escapeSlot.value := isolate.mem[value.value]];
      r := escapeSlot;
    }
  }

  class SealHandleScope {
    const isolate: Isolate
    const prevLimit: Address
    const prevSealedLevel: int

    constructor (isolate: Isolate)
      modifies isolate
      ensures this.isolate == isolate
      ensures var t := Sealed(old(isolate.Data()));
              isolate.Data() == t.(frames := []) && Seal(prevLimit, prevSealedLevel) == Last(t.frames)
    {
      this.isolate := isolate;
      prevLimit := isolate.limit;
      prevSealedLevel := isolate.sealedLevel;
      new;
      isolate.limit := isolate.next;
      isolate.sealedLevel := isolate.level;
    }

    method Destroy()
      modifies isolate
      ensures isolate.Config() == Below(old(isolate.Config()), Seal(prevLimit, prevSealedLevel))
      ensures isolate.mem == old(isolate.mem) && isolate.spare == old(isolate.spare)
    {
      isolate.limit := prevLimit;
      isolate.sealedLevel := prevSealedLevel;
    }
  }

  class PersistentHandlesScope {
    const isolate: Isolate
    var firstBlock: Address
    const prevLimit: Address
    const prevNext: Address

    ghost function Saved(): Frame
      reads this
    {
      Persistent(firstBlock, prevLimit, prevNext)
    }

    constructor (isolate: Isolate, alloc: Address)
      requires isolate.lastHandleBeforePersistentBlock.None?
      modifies isolate
      ensures this.isolate == isolate
      ensures var t := OpenedPersistent(old(isolate.Data()), alloc);
              isolate.Data() == t.(frames := []) && Saved() == Last(t.frames)
    {
      this.isolate := isolate;
      prevLimit := isolate.limit;
      prevNext := isolate.next;
      firstBlock := 0;
      new;
      isolate.lastHandleBeforePersistentBlock := Some(isolate.next);
      var newNext := isolate.GetSpareOrNewBlock(alloc);
      isolate.blocks := isolate.blocks + [newNext];
      isolate.level := isolate.level + 1;
      firstBlock := newNext;
      isolate.next := newNext;
      isolate.limit := newNext + HANDLE_BLOCK_SIZE;
    }

    /** Hands the scope's blocks over: all but the level is what the closed scope leaves. */
    method Detach() returns (ph: PersistentHandles)
      requires firstBlock in isolate.blocks
      modifies isolate
      ensures ph == HandleScopes.DetachPersistent(old(isolate.Config()), firstBlock).1
      ensures var t := ClosedPersistent(old(isolate.Data()).(frames := [Saved()]));
              && t.foreign == (set b | b in ph.blocks)
              && isolate.Data() == t.(foreign := {}, cfg := t.cfg.(level := t.cfg.level + 1))
    {
      ph := isolate.DetachPersistent(firstBlock);
      isolate.next := prevNext;
      isolate.limit := prevLimit;
    }

    /** Ends the scope, which must have been detached. */
    method Destroy()
      modifies isolate`level
      ensures isolate.level == old(isolate.level) - 1
    {
      isolate.level := isolate.level - 1;
    }
  }
}
