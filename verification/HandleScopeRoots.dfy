/**
 What the garbage collector sees of the handle blocks, and how many handles the isolate
 reports, in every state with or without a persistent scope.
 */
module HandleScopeRoots {
  import opened Basics
  import opened HandleScopes
  import opened HandleScopeSlots
  import opened HandleScopeSteps
  import opened HandleScopeRefinement
  import opened HandleScopeNesting

  // ---------------------------------------------------------------- exactly the live slots

  /** The block that was partly filled when the persistent scope began, or -1. */
  function GapBlock(c: Cfg, frames: seq<Frame>): int
    decreases |frames|
  {
    if frames == [] then -1
    else if Last(frames).Persistent? then IndexOf(c.blocks, Last(frames).firstBlock) - 1
    else GapBlock(Below(c, Last(frames)), Front(frames))
  }

  /** Slot `a` of block `i` lies past the point where the persistent scope began. */
  predicate InGap(c: Cfg, gap: int, i: nat, a: Address) {
    c.mark.Some? && i == gap && c.mark.value <= a
  }

  ghost predicate UsedOutsideGap(c: Cfg, gap: int, a: Address) {
    exists i: nat :: i < |c.blocks| && UsedIn(c.blocks, c.next, i, a) && !InGap(c, gap, i, a)
  }

  /** Where the gap is: in the block before the persistent scope's first one. */
  lemma {:induction false} GapFacts(c: Cfg, frames: seq<Frame>)
    requires Chain(c, frames)
    ensures c.mark.Some? ==> -1 <= GapBlock(c, frames) < |c.blocks| - 1
    ensures c.mark.Some? && GapBlock(c, frames) == -1 ==> c.mark.value == 0
    ensures c.mark.Some? && GapBlock(c, frames) >= 0 ==> InBlock(c.blocks[GapBlock(c, frames)], c.mark.value)
    decreases |frames|
  {
    if frames == [] {
    } else {
      ChainTop(c, frames);
      if !Last(frames).Persistent? {
        GapFacts(Below(c, Last(frames)), Front(frames));
      }
    }
  }

  lemma ScopeLive(c: Cfg, frames: seq<Frame>, a: Address)
    requires Chain(c, frames) && BlocksSpaced(c.blocks)
    requires frames != [] && IsPlainScope(Last(frames))
    ensures var f, g := Last(frames), GapBlock(c, frames);
            UsedOutsideGap(c, g, a) <==> UsedOutsideGap(Below(c, f), g, a) || a in Own(c, f)
  {
    ChainTop(c, frames);
    var f, g := Last(frames), GapBlock(c, frames);
    var b := Below(c, f);
    assert frames == Front(frames) + [f];
    GapFacts(b, Front(frames));
    OwnMembers(c, f, Front(frames), a);
    SplitUse(b, c, g, a);
  }

  lemma SplitUse(b: Cfg, c: Cfg, g: int, a: Address)
    requires b.blocks <= c.blocks && b.mark == c.mark
    requires b.blocks == c.blocks ==> b.next <= c.next
    requires c.mark.Some? ==> g < |b.blocks| - 1
    ensures UsedOutsideGap(c, g, a) <==> UsedOutsideGap(b, g, a) || After(b.blocks, b.next, c.blocks, c.next, a)
  {
    if UsedOutsideGap(c, g, a) {
      var i: nat :| i < |c.blocks| && UsedIn(c.blocks, c.next, i, a) && !InGap(c, g, i, a);
      if i < |b.blocks| && (i == |b.blocks| - 1 ==> a < b.next) {
        assert UsedIn(b.blocks, b.next, i, a) && !InGap(b, g, i, a);
      }
    }
    if UsedOutsideGap(b, g, a) {
      var i: nat :| i < |b.blocks| && UsedIn(b.blocks, b.next, i, a) && !InGap(b, g, i, a);
      assert UsedIn(c.blocks, c.next, i, a) && !InGap(c, g, i, a);
    } else if After(b.blocks, b.next, c.blocks, c.next, a) {
      var i: nat :| i < |c.blocks| && UsedIn(c.blocks, c.next, i, a) && |b.blocks| - 1 <= i;
      assert !InGap(c, g, i, a);
    }
  }

  lemma PersistentLive(c: Cfg, frames: seq<Frame>, a: Address)
    requires Chain(c, frames) && BlocksSpaced(c.blocks)
    requires frames != [] && Last(frames).Persistent?
    ensures var f, g := Last(frames), GapBlock(c, frames);
            UsedOutsideGap(c, g, a) <==> Used(Below(c, f).blocks, Below(c, f).next, a) || a in Own(c, f)
  {
    ChainTop(c, frames);
    var f := Last(frames);
    assert frames == Front(frames) + [f];
    OwnMembers(c, f, Front(frames), a);
    SplitAtMark(Below(c, f), c, a);
  }

  lemma SplitAtMark(b: Cfg, c: Cfg, a: Address)
    requires b.blocks < c.blocks && c.mark == Some(b.next)
    ensures UsedOutsideGap(c, |b.blocks| - 1, a) <==>
            Used(b.blocks, b.next, a) || Used(c.blocks[|b.blocks|..], c.next, a)
  {
    var k, g := |b.blocks|, |b.blocks| - 1;
    var tail := c.blocks[k..];
    if UsedOutsideGap(c, g, a) {
      var i: nat :| i < |c.blocks| && UsedIn(c.blocks, c.next, i, a) && !InGap(c, g, i, a);
      if i < k {
        assert UsedIn(b.blocks, b.next, i, a);
      } else {
        assert UsedIn(tail, c.next, i - k, a);
      }
    }
    if Used(b.blocks, b.next, a) {
      var i: nat :| i < |b.blocks| && UsedIn(b.blocks, b.next, i, a);
      assert UsedIn(c.blocks, c.next, i, a) && !InGap(c, g, i, a);
    }
    if Used(tail, c.next, a) {
      var i: nat :| i < |tail| && UsedIn(tail, c.next, i, a);
      assert UsedIn(c.blocks, c.next, k + i, a) && !InGap(c, g, k + i, a);
    }
  }

  /** The live handles are exactly the slots below `next`, minus the gap that a persistent
      scope leaves in the block it found. */
  lemma {:induction false} LiveExactly(c: Cfg, frames: seq<Frame>, a: Address)
    requires Chain(c, frames) && BlocksSpaced(c.blocks)
    ensures a in Flatten(Handles(c, frames)) <==> UsedOutsideGap(c, GapBlock(c, frames), a)
    decreases |frames|
  {
    if frames == [] {
    } else {
      var f, rest := Last(frames), Front(frames);
      var b, g := Below(c, f), GapBlock(c, frames);
      ChainTop(c, frames);
      LiveExactly(b, rest, a);
      FlattenSnoc(Handles(b, rest), Own(c, f));
      if IsPlainScope(f) {
        ScopeLive(c, frames, a);
      } else if f.Persistent? {
        PersistentLive(c, frames, a);
        assert Used(b.blocks, b.next, a) <==> UsedOutsideGap(b, GapBlock(b, rest), a) by {
          assert forall i: nat :: !InGap(b, GapBlock(b, rest), i, a);
        }
      } else {
        assert UsedOutsideGap(b, g, a) <==> UsedOutsideGap(c, g, a) by {
          assert forall i: nat :: InGap(b, g, i, a) <==> InGap(c, g, i, a);
        }
      }
    }
  }

  // ---------------------------------------------------------------- what the collector visits

  /** The collector's own test for the block that holds the persistent scope's mark. */
  predicate MarkIn(c: Cfg, block: Address) {
    c.mark.Some? && block <= c.mark.value <= block + HANDLE_BLOCK_SIZE
  }

  function VisitEnd(c: Cfg, i: nat): Address
    requires i < |c.blocks|
  {
    if i == |c.blocks| - 1 then c.next
    else if MarkIn(c, c.blocks[i]) then c.mark.value
    else c.blocks[i] + HANDLE_BLOCK_SIZE
  }

  /** Blocks `i`, `i - 1`, ..., 0, none of them the last one. */
  function VisitDown(c: Cfg, i: int): seq<Address>
    requires i < |c.blocks|
    decreases i + 1
  {
    if i < 0 then [] else Range(c.blocks[i], VisitEnd(c, i)) + VisitDown(c, i - 1)
  }

  /** The slots reported as roots, in the order of the visit. */
  function VisitOrder(c: Cfg): seq<Address> {
    if c.blocks == [] then []
    else VisitDown(c, |c.blocks| - 2) + Range(Last(c.blocks), c.next)
  }

  predicate VisitedIn(c: Cfg, i: nat, a: Address)
    requires i < |c.blocks|
  {
    c.blocks[i] <= a < VisitEnd(c, i)
  }

  lemma {:induction false} VisitDownMembers(c: Cfg, i: int, a: Address)
    requires i < |c.blocks| - 1
    ensures a in VisitDown(c, i) <==> exists j: nat :: j <= i && VisitedIn(c, j, a)
    decreases i + 1
  {
    if 0 <= i {
      RangeMembers(c.blocks[i], VisitEnd(c, i), a);
      VisitDownMembers(c, i - 1, a);
      if a in Range(c.blocks[i], VisitEnd(c, i)) {
        assert VisitedIn(c, i, a);
      }
    }
  }

  lemma VisitMembers(c: Cfg, a: Address)
    ensures a in VisitOrder(c) <==> exists j: nat :: j < |c.blocks| && VisitedIn(c, j, a)
  {
    if c.blocks != [] {
      VisitDownMembers(c, |c.blocks| - 2, a);
      RangeMembers(Last(c.blocks), c.next, a);
      if a in Range(Last(c.blocks), c.next) {
        assert VisitedIn(c, |c.blocks| - 1, a);
      }
    }
  }

  lemma {:induction false} VisitDownDistinct(c: Cfg, i: int)
    requires i < |c.blocks| - 1 && BlocksSpaced(c.blocks)
    ensures Distinct(VisitDown(c, i))
    decreases i + 1
  {
    if 0 <= i {
      VisitDownDistinct(c, i - 1);
      var here := Range(c.blocks[i], VisitEnd(c, i));
      forall a | a in here ensures a !in VisitDown(c, i - 1) {
        RangeMembers(c.blocks[i], VisitEnd(c, i), a);
        VisitDownMembers(c, i - 1, a);
      }
      DistinctConcat(here, VisitDown(c, i - 1));
    }
  }

  /** No slot is reported twice. */
  lemma VisitApart(c: Cfg, a: Address)
    requires BlocksSpaced(c.blocks) && c.blocks != [] && c.next <= Last(c.blocks) + HANDLE_BLOCK_SIZE
    requires a in VisitDown(c, |c.blocks| - 2)
    ensures a !in Range(Last(c.blocks), c.next)
  {
    VisitDownMembers(c, |c.blocks| - 2, a);
    RangeMembers(Last(c.blocks), c.next, a);
    var j: nat :| j <= |c.blocks| - 2 && VisitedIn(c, j, a);
    assert Separate(c.blocks[j], Last(c.blocks));
  }

  lemma VisitDistinct(s: State)
    requires Inv(s)
    ensures Distinct(VisitOrder(s.cfg))
  {
    var c := s.cfg;
    StorageSpaced(s);
    if c.blocks != [] {
      VisitDownDistinct(c, |c.blocks| - 2);
      forall a | a in VisitDown(c, |c.blocks| - 2) ensures a !in Range(Last(c.blocks), c.next) {
        VisitApart(c, a);
      }
      DistinctConcat(VisitDown(c, |c.blocks| - 2), Range(Last(c.blocks), c.next));
    }
  }

  /** Some block before the last one starts exactly at the mark: its memory was placed
      right behind the block that was full when the persistent scope began. */
  ghost predicate MarkStartsBlock(c: Cfg) {
    exists j :: 0 <= j < |c.blocks| - 1 && c.mark == Some(c.blocks[j])
  }

  /** Apart from a block that starts at the mark, the collector's test finds the gap. */
  lemma MarkInGap(c: Cfg, g: int, i: nat)
    requires BlocksSpaced(c.blocks) && c.mark.Some? && i < |c.blocks| - 1 && c.mark.value != c.blocks[i]
    requires -1 <= g < |c.blocks| - 1 && (g == -1 ==> c.mark.value == 0)
    requires g >= 0 ==> InBlock(c.blocks[g], c.mark.value)
    ensures MarkIn(c, c.blocks[i]) <==> i == g
  {
    if g >= 0 && i != g {
      assert Separate(c.blocks[i], c.blocks[g]);
    }
  }

  lemma VisitedIsUsed(s: State, i: nat, a: Address)
    requires Inv(s) && i < |s.cfg.blocks| && !MarkStartsBlock(s.cfg)
    ensures VisitedIn(s.cfg, i, a) <==>
            UsedIn(s.cfg.blocks, s.cfg.next, i, a) && !InGap(s.cfg, GapBlock(s.cfg, s.frames), i, a)
  {
    var c, g := s.cfg, GapBlock(s.cfg, s.frames);
    StorageSpaced(s);
    GapFacts(c, s.frames);
    if c.mark.Some? && i < |c.blocks| - 1 {
      assert c.mark != Some(c.blocks[i]);
      MarkInGap(c, g, i);
    }
  }

  lemma MarkedBlockMissed(s: State, j: nat)
    requires Inv(s) && j < |s.cfg.blocks| - 1 && s.cfg.mark == Some(s.cfg.blocks[j])
    ensures s.cfg.blocks[j] in Live(s) && s.cfg.blocks[j] !in VisitOrder(s.cfg)
  {
    var c, g, a := s.cfg, GapBlock(s.cfg, s.frames), s.cfg.blocks[j];
    StorageSpaced(s);
    assert a in Live(s) by {
      GapFacts(c, s.frames);
      LiveExactly(c, s.frames, a);
      assert UsedIn(c.blocks, c.next, j, a) && !InGap(c, g, j, a);
    }
    MarkedBlockNotVisited(c, j);
  }

  lemma MarkedBlockNotVisited(c: Cfg, j: nat)
    requires BlocksSpaced(c.blocks)
    requires j < |c.blocks| - 1 && c.mark == Some(c.blocks[j])
    requires Last(c.blocks) <= c.next <= Last(c.blocks) + HANDLE_BLOCK_SIZE
    ensures c.blocks[j] !in VisitOrder(c)
  {
    VisitMembers(c, c.blocks[j]);
    forall i: nat | i < |c.blocks| ensures !VisitedIn(c, i, c.blocks[j]) {
      if i != j {
        assert Separate(c.blocks[i], c.blocks[j]);
      }
    }
  }

  /** The collector visits exactly the live handles, if and only if no block before the
      last one starts at the persistent scope's mark. */
  lemma RootsAreLiveHandles(s: State)
    requires Inv(s)
    ensures (forall a :: a in VisitOrder(s.cfg) <==> a in Live(s)) <==> !MarkStartsBlock(s.cfg)
  {
    var c := s.cfg;
    if MarkStartsBlock(c) {
      var j :| 0 <= j < |c.blocks| - 1 && c.mark == Some(c.blocks[j]);
      MarkedBlockMissed(s, j);
    } else {
      forall a ensures a in VisitOrder(c) <==> a in Live(s) {
        StorageSpaced(s);
        LiveExactly(c, s.frames, a);
        VisitMembers(c, a);
        forall i: nat | i < |c.blocks|
          ensures VisitedIn(c, i, a) <==> UsedIn(c.blocks, c.next, i, a) && !InGap(c, GapBlock(c, s.frames), i, a)
        {
          VisitedIsUsed(s, i, a);
        }
      }
    }
  }

  // ---------------------------------------------------------------- the reported number

  function NumberOfHandles(c: Cfg): int {
    if c.blocks == [] then 0 else (|c.blocks| - 1) * HANDLE_BLOCK_SIZE + (c.next - Last(c.blocks))
  }

  function GapSize(c: Cfg, frames: seq<Frame>): int {
    var g := GapBlock(c, frames);
    if c.mark.Some? && 0 <= g < |c.blocks| then c.blocks[g] + HANDLE_BLOCK_SIZE - c.mark.value else 0
  }

  lemma {:induction false} FullLength(blocks: seq<Address>)
    ensures |Full(blocks)| == |blocks| * HANDLE_BLOCK_SIZE
  {
    if blocks == [] {
    } else {
      FullLength(Front(blocks));
    }
  }

  lemma SlotsLength(blocks: seq<Address>, next: Address)
    requires blocks != [] && Last(blocks) <= next
    ensures |Slots(blocks, next)| == (|blocks| - 1) * HANDLE_BLOCK_SIZE + (next - Last(blocks))
  {
    FullLength(Front(blocks));
  }

  lemma OwnLength(c: Cfg, f: Frame, rest: seq<Frame>)
    requires Core(c) && Link(c, f, rest) && Core(Below(c, f))
    ensures IsPlainScope(f) ==> |Own(c, f)| == NumberOfHandles(c) - NumberOfHandles(Below(c, f))
    ensures f.Persistent? ==>
              var k := IndexOf(c.blocks, f.firstBlock);
              |Own(c, f)| == (|c.blocks| - k - 1) * HANDLE_BLOCK_SIZE + (c.next - Last(c.blocks))
  {
    var b := Below(c, f);
    if IsPlainScope(f) && |b.blocks| < |c.blocks| {
      SlotsLength(c.blocks[|b.blocks|..], c.next);
    }
    if f.Persistent? {
      SlotsLength(c.blocks[IndexOf(c.blocks, f.firstBlock)..], c.next);
    }
  }

  lemma ScopeCount(c: Cfg, frames: seq<Frame>)
    requires Chain(c, frames) && frames != [] && !Last(frames).Persistent?
    ensures var f := Last(frames);
            NumberOfHandles(c) - GapSize(c, frames) ==
            NumberOfHandles(Below(c, f)) - GapSize(Below(c, f), Front(frames)) + |Own(c, f)|
  {
    ChainTop(c, frames);
    OwnLength(c, Last(frames), Front(frames));
    GapFacts(Below(c, Last(frames)), Front(frames));
  }

  lemma PersistentCount(c: Cfg, frames: seq<Frame>)
    requires Chain(c, frames) && frames != [] && Last(frames).Persistent?
    ensures var f := Last(frames);
            NumberOfHandles(c) - GapSize(c, frames) ==
            NumberOfHandles(Below(c, f)) - GapSize(Below(c, f), Front(frames)) + |Own(c, f)|
  {
    ChainTop(c, frames);
    OwnLength(c, Last(frames), Front(frames));
  }

  lemma {:induction false} LiveCount(c: Cfg, frames: seq<Frame>)
    requires Chain(c, frames)
    ensures |Flatten(Handles(c, frames))| == NumberOfHandles(c) - GapSize(c, frames)
    decreases |frames|
  {
    if frames == [] {
    } else {
      var f, rest := Last(frames), Front(frames);
      ChainTop(c, frames);
      LiveCount(Below(c, f), rest);
      FlattenSnoc(Handles(Below(c, f), rest), Own(c, f));
      if f.Persistent? {
        PersistentCount(c, frames);
      } else {
        ScopeCount(c, frames);
      }
    }
  }

  /** The reported number is the number of live handles, if and only if no persistent
      scope is open or it began where no slot of the current block was left over. */
  lemma NumberOfHandlesIsExact(s: State)
    requires Inv(s)
    ensures NumberOfHandles(s.cfg) == |Live(s)| + GapSize(s.cfg, s.frames)
    ensures NumberOfHandles(s.cfg) == |Live(s)| <==>
            var g := GapBlock(s.cfg, s.frames);
            s.cfg.mark.Some? && 0 <= g < |s.cfg.blocks| ==>
              s.cfg.mark.value == s.cfg.blocks[g] + HANDLE_BLOCK_SIZE
  {
    LiveCount(s.cfg, s.frames);
  }

  // ---------------------------------------------------------------- detached handles

  /** The container that `Detach` returns holds the handles of the persistent scope: each
      of them once, in slots its own visit covers, and no other slot. */
  lemma DetachedHandles(s: State, a: Address)
    requires Inv(s) && s.frames != [] && Last(s.frames).Persistent?
    ensures var ph := DetachPersistent(s.cfg, Last(s.frames).firstBlock).1;
            a in Slots(ph.blocks, ph.blockNext) <==> a in Own(s.cfg, Last(s.frames))
  {
    var c, f := s.cfg, Last(s.frames);
    ChainTop(c, s.frames);
    var ph, tail := DetachPersistent(c, f.firstBlock).1, c.blocks[IndexOf(c.blocks, f.firstBlock)..];
    DetachSplits(c, f.firstBlock);
    SlotsMembers(ph.blocks, c.next, a);
    SlotsMembers(tail, c.next, a);
    SameUse(ph.blocks, tail, c.next, a);
  }

  /** Reversing the blocks between the first and the last changes no slot in use. */
  lemma SameUse(p: seq<Address>, q: seq<Address>, next: Address, a: Address)
    requires |p| == |q| > 0 && p[0] == q[0] && Last(p) == Last(q)
    requires forall i :: 0 < i < |p| - 1 ==> p[i] == q[|q| - 1 - i]
    ensures Used(p, next, a) <==> Used(q, next, a)
  {
    if Used(p, next, a) {
      var i: nat :| i < |p| && UsedIn(p, next, i, a);
      var j := if i == 0 || i == |p| - 1 then i else |p| - 1 - i;
      assert UsedIn(q, next, j, a);
    }
    if Used(q, next, a) {
      var i: nat :| i < |q| && UsedIn(q, next, i, a);
      var j := if i == 0 || i == |p| - 1 then i else |p| - 1 - i;
      assert p[j] == q[i];
      assert UsedIn(p, next, j, a);
    }
  }

  ghost predicate InForeign(s: State, a: Address) {
    exists b :: b in s.foreign && Holds(b, a)
  }

  lemma UsedNotForeign(s: State, a: Address)
    requires Storage(s) && Used(s.cfg.blocks, s.cfg.next, a)
    ensures !InForeign(s, a)
  {
    var i: nat :| i < |s.cfg.blocks| && UsedIn(s.cfg.blocks, s.cfg.next, i, a);
    forall b | b in s.foreign ensures !Holds(b, a) {
      assert b in Owned(s) && s.cfg.blocks[i] in Owned(s);
      assert s.cfg.blocks[i] in s.cfg.blocks;
    }
  }

  lemma CreateMissesForeign(s: State, value: Word, alloc: Address, a: Address)
    requires Inv(s) && Allocatable(s, alloc) && CreateHandle(s, value, alloc).Some?
    requires InForeign(s, a)
    ensures Read(CreateHandle(s, value, alloc).value.0.mem, a) == Read(s.mem, a)
  {
    if s.frames == [] || Last(s.frames).Seal? {
      CreateFails(s, value, alloc);
    } else {
      CreateStep(s, value, alloc);
      var (t, slot) := CreateHandle(s, value, alloc).value;
      StorageSpaced(t);
      LiveSlots(t.cfg, t.frames);
      UsedNotForeign(t, slot);
    }
  }

  /** No later step of the isolate writes to a slot of detached handles. */
  lemma EscapeMissesForeign(s: State, depth: nat, a: Address)
    requires Inv(s) && depth < |s.frames| && s.frames[depth].Escapable? && InForeign(s, a)
    ensures a != s.frames[depth].escapeSlot
  {
    EscapeSlotOwner(s.cfg, s.frames, depth);
    LiveHas(Handles(s.cfg, s.frames), depth - 1, s.frames[depth].escapeSlot);
    StorageSpaced(s);
    LiveSlots(s.cfg, s.frames);
    UsedNotForeign(s, s.frames[depth].escapeSlot);
  }

  lemma DetachedValuesKept(s: State, step: Step, a: Address)
    requires Inv(s) && Enabled(s, step) && Apply(s, step).Some?
    requires InForeign(s, a)
    ensures Read(Apply(s, step).value.mem, a) == Read(s.mem, a)
    ensures InForeign(Apply(s, step).value, a)
  {
    match step
    case Create(value, alloc) => CreateMissesForeign(s, value, alloc, a);
    case OpenEscapable(hole, alloc) => CreateMissesForeign(s, hole, alloc, a);
    case CloseAndEscape(from, alloc) =>
      CloseStep(s);
      CreateMissesForeign(Closed(s), s.mem[from], alloc, a);
    case Escape(depth, from) => EscapeMissesForeign(s, depth, a);
    case _ =>
  }

  /** So over every later run the detached handles keep their values. */
  lemma {:induction false} DetachedKeptByRuns(s: State, steps: seq<Step>, a: Address)
    requires Inv(s) && EnabledRun(s, steps) && Run(s, steps).Some?
    requires InForeign(s, a)
    ensures Read(Run(s, steps).value.mem, a) == Read(s.mem, a)
    ensures InForeign(Run(s, steps).value, a)
    decreases |steps|
  {
    if steps == [] {
    } else {
      StepRefines(s, steps[0]);
      DetachedValuesKept(s, steps[0], a);
      DetachedKeptByRuns(Apply(s, steps[0]).value, steps[1..], a);
    }
  }

  // ---------------------------------------------------------------- sealing an untouched block

  /** A scope opened on `s` gives the configuration back, if `steps` is a run inside it. */
  ghost predicate Restored(s: State, steps: seq<Step>) {
    var o := Opened(s);
    EnabledRun(o, steps) && InsideRun(o, steps, |s.frames|) && Run(o, steps).Some? ==>
      var t := Run(o, steps).value;
      |t.frames| == |s.frames| + 1 && IsPlainScope(Last(t.frames)) ==> Closed(t).cfg == s.cfg
  }

  /** A block address that the allocator could return. */
  lemma {:induction false} RoomAbove(bs: set<Address>) returns (top: Address)
    ensures forall b <- bs :: b + HANDLE_BLOCK_SIZE <= top
    decreases |bs|
  {
    if bs == {} {
      top := 1;
    } else {
      var b :| b in bs;
      var rest := RoomAbove(bs - {b});
      top := if rest < b + HANDLE_BLOCK_SIZE then b + HANDLE_BLOCK_SIZE else rest;
      forall c <- bs ensures c + HANDLE_BLOCK_SIZE <= top {
        assert c != b ==> c in bs - {b};
      }
    }
  }

  lemma OneCreateRun(o: State, alloc: Address)
    requires Allocatable(o, alloc) && CreateHandle(o, 0, alloc).Some? && o.frames != []
    ensures EnabledRun(o, [Create(0, alloc)]) && InsideRun(o, [Create(0, alloc)], |o.frames| - 1)
    ensures Run(o, [Create(0, alloc)]) == Some(CreateHandle(o, 0, alloc).value.0)
  {
    var steps := [Create(0, alloc)];
    var t := CreateHandle(o, 0, alloc).value.0;
    assert steps[1..] == [];
    assert Apply(o, steps[0]) == Some(t);
    assert EnabledRun(t, []) && Run(t, []) == Some(t);
  }

  /** Every scope opened on a seal gives the configuration back after every inner run, if
      and only if the seal was put on a block that held a handle.  A seal put right behind
      the opening of a persistent scope is the other case: the saved limit is the start of
      the block, and closing drops the block. */
  lemma SealIsSafeIff(s: State)
    requires Inv(s)
    ensures (forall steps :: Restored(Sealed(s), steps)) <==> CanSeal(s.cfg)
  {
    if CanSeal(s.cfg) {
      OpenSealStep(s);
      forall steps ensures Restored(Sealed(s), steps) {
        SealedRestores(Sealed(s), steps);
      }
    } else {
      var steps := SealedDropsBlock(s);
    }
  }

  lemma SealedRestores(s: State, steps: seq<Step>)
    requires Inv(s)
    ensures Restored(s, steps)
  {
    var o := Opened(s);
    if EnabledRun(o, steps) && InsideRun(o, steps, |s.frames|) && Run(o, steps).Some? {
      if |Run(o, steps).value.frames| == |s.frames| + 1 {
        ScopeRestores(s, steps);
      }
    }
  }

  lemma SealedDropsBlock(s: State) returns (steps: seq<Step>)
    requires Inv(s) && !CanSeal(s.cfg)
    ensures !Restored(Sealed(s), steps)
  {
    var o := Opened(Sealed(s));
    var top := RoomAbove(Owned(s));
    var alloc := top + 1;
    assert Owned(o) == Owned(s);
    steps := [Create(0, alloc)];
    UntouchedBlockSealed(s, 0, alloc);
    OneCreateRun(o, alloc);
  }

  lemma UntouchedBlockSealed(s: State, value: Word, alloc: Address)
    requires Inv(s) && !CanSeal(s.cfg)
    ensures var r := CreateHandle(Opened(Sealed(s)), value, alloc);
            r.Some? && |Closed(r.value.0).cfg.blocks| < |s.cfg.blocks|
  {
    var c := s.cfg;
    var r := CreateHandle(Opened(Sealed(s)), value, alloc).value.0;
    assert r.cfg.blocks == c.blocks;
    assert Last(r.frames) == Scope(c.next, c.next);
  }
}
