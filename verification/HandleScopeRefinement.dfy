/**
 The whole handle-scope machine refines the stack of lists, for every run.
 */
module HandleScopeRefinement {
  import opened Basics
  import opened HandleScopes
  import opened HandleScopeSlots
  import opened HandleScopeSteps

  // ---------------------------------------------------------------- opening

  lemma KeptAll(c: Cfg)
    requires Core(c)
    ensures Kept(c.blocks, c.limit) == c.blocks
  {}

  /** `t` is `s` with the frame `f` on top and no handle in it yet. */
  ghost predicate Pushed(s: State, t: State, f: Frame) {
    && t.frames == s.frames + [f] && t.mem == s.mem
    && Below(t.cfg, f) == s.cfg && Own(t.cfg, f) == []
  }

  lemma PushView(s: State, t: State, f: Frame)
    requires Pushed(s, t, f)
    ensures View(t) == View(s) + [List(KindOf(f), [])]
  {
    assert Last(t.frames) == f && Front(t.frames) == s.frames;
    assert ValuesAt(t.mem, []) == [];
  }

  lemma PushFrame(s: State, t: State, f: Frame)
    requires Inv(s) && Pushed(s, t, f)
    requires Core(t.cfg) && Link(t.cfg, f, s.frames)
    requires Storage(t)
    ensures Inv(t) && Live(t) == Live(s)
  {
    assert Last(t.frames) == f && Front(t.frames) == s.frames;
    FlattenSnoc(Handles(s.cfg, s.frames), []);
  }

  lemma OpenStep(s: State)
    requires Inv(s)
    ensures Inv(Opened(s)) && Live(Opened(s)) == Live(s)
    ensures Pushed(s, Opened(s), Scope(s.cfg.next, s.cfg.limit))
  {
    var t, f := Opened(s), Scope(s.cfg.next, s.cfg.limit);
    KeptAll(s.cfg);
    assert Owned(t) == Owned(s);
    PushFrame(s, t, f);
  }

  lemma OpenEscapableStep(u: State, slot: Address)
    requires Inv(u) && u.frames != []
    requires Own(u.cfg, Last(u.frames)) != [] && Last(Own(u.cfg, Last(u.frames))) == slot
    ensures var t := OpenedEscapable(u, slot);
            Inv(t) && Pushed(u, t, Last(t.frames)) && Last(t.frames).Escapable?
  {
    var t := OpenedEscapable(u, slot);
    KeptAll(u.cfg);
    assert Owned(t) == Owned(u);
    PushFrame(u, t, Last(t.frames));
  }

  lemma OpenSealStep(s: State)
    requires Inv(s) && CanSeal(s.cfg)
    ensures Inv(Sealed(s)) && Pushed(s, Sealed(s), Last(Sealed(s).frames))
  {
    var t := Sealed(s);
    assert Owned(t) == Owned(s);
    PushFrame(s, t, Last(t.frames));
  }

  lemma OpenPersistentStep(s: State, alloc: Address)
    requires Inv(s) && Enabled(s, OpenPersistent(alloc))
    ensures var t := Apply(s, OpenPersistent(alloc));
            && t.Some? && Inv(t.value)
            && Pushed(s, t.value, Last(t.value.frames)) && Last(t.value.frames).Persistent?
  {
    var t := Apply(s, OpenPersistent(alloc)).value;
    var f := Last(t.frames);
    var block := f.firstBlock;
    assert Front(t.cfg.blocks) == s.cfg.blocks;
    assert block !in s.cfg.blocks by {
      assert forall b :: b in s.cfg.blocks ==> b in Owned(s);
    }
    assert IndexOf(t.cfg.blocks, block) == |s.cfg.blocks|;
    assert Slots([block], block) == [];
    StorageGrows(s, t, alloc, block);
    PushFrame(s, t, f);
  }

  // ---------------------------------------------------------------- closing

  /** `t` is `s` with its innermost frame closed. */
  ghost predicate Popped(s: State, t: State) {
    && s.frames != []
    && t.frames == Front(s.frames) && t.mem == s.mem
    && t.cfg == Below(s.cfg, Last(s.frames))
  }

  lemma PopView(s: State, t: State)
    requires Popped(s, t)
    ensures View(t) == Front(View(s))
  {}

  lemma PopFrame(s: State, t: State)
    requires Inv(s) && Popped(s, t) && Storage(t)
    ensures Inv(t)
    ensures Live(s) == Live(t) + Own(s.cfg, Last(s.frames))
  {
    ChainTop(s.cfg, s.frames);
    FlattenSnoc(Handles(t.cfg, t.frames), Own(s.cfg, Last(s.frames)));
  }

  /** What the destructor computes is exactly the configuration seen at the opening, and no
      block comes from anywhere else. */
  lemma ClosedIsBelow(s: State)
    requires Inv(s) && s.frames != [] && IsPlainScope(Last(s.frames))
    ensures Closed(s).cfg == Below(s.cfg, Last(s.frames))
    ensures Storage(Closed(s)) && Owned(Closed(s)) <= Owned(s)
  {
    KeptAll(s.cfg);
    var t, blocks := Closed(s), s.cfg.blocks;
    if t.cfg.blocks != blocks {
      assert blocks[|t.cfg.blocks|] in blocks;
      assert t.spare !in t.cfg.blocks;
    }
  }

  /** The blocks that closing the innermost scope gives back to the system: all it drops but
      the one it keeps as the spare, and a spare it replaces. */
  function Freed(s: State): set<Address>
    requires s.frames != [] && IsPlainScope(Last(s.frames))
  {
    var kept := |Kept(s.cfg.blocks, Last(s.frames).prevLimit)|;
    if kept == |s.cfg.blocks| then {}
    else
      var dropped := s.cfg.blocks[kept + 1..];
      (set b | b in dropped) + (if s.spare == 0 then {} else {s.spare})
  }

  /** Every other block is still owned, and no block that is given back is. */
  lemma ClosedFrees(s: State)
    requires Inv(s) && s.frames != [] && IsPlainScope(Last(s.frames))
    ensures Owned(s) == Owned(Closed(s)) + Freed(s)
    ensures Owned(Closed(s)) !! Freed(s)
  {
    ClosedIsBelow(s);
    KeptAll(s.cfg);
    var blocks, kept := s.cfg.blocks, |Closed(s).cfg.blocks|;
    assert Closed(s).cfg.blocks == blocks[..kept];
    if kept < |blocks| {
      assert blocks == blocks[..kept] + [blocks[kept]] + blocks[kept + 1..];
      assert Closed(s).spare == blocks[kept] != 0;
      DistinctPrefix(blocks, kept);
    }
  }

  lemma DistinctPrefix(blocks: seq<Address>, k: nat)
    requires Distinct(blocks) && k < |blocks|
    ensures forall b <- blocks[k + 1..] :: b !in blocks[..k] && b != blocks[k]
  {
    forall b <- blocks[k + 1..] ensures b !in blocks[..k] && b != blocks[k] {
      var i :| 0 <= i < |blocks[k + 1..]| && blocks[k + 1..][i] == b;
      assert blocks[k + 1 + i] == b;
    }
  }

  lemma CloseStep(s: State)
    requires Inv(s) && s.frames != [] && IsPlainScope(Last(s.frames))
    ensures Inv(Closed(s)) && Popped(s, Closed(s))
    ensures Owned(Closed(s)) <= Owned(s)
    ensures Live(s) == Live(Closed(s)) + Own(s.cfg, Last(s.frames))
  {
    ClosedIsBelow(s);
    PopFrame(s, Closed(s));
  }

  lemma CloseSealStep(s: State)
    requires Inv(s) && s.frames != [] && Last(s.frames).Seal?
    ensures var t := Apply(s, CloseSeal);
            t.Some? && Inv(t.value) && Popped(s, t.value)
  {
    var t := Apply(s, CloseSeal).value;
    assert Owned(t) == Owned(s);
    PopFrame(s, t);
  }

  function Reverse<T>(s: seq<T>): (r: seq<T>)
    ensures |r| == |s|
    ensures forall i :: 0 <= i < |s| ==> r[i] == s[|s| - 1 - i]
  {
    if s == [] then [] else [Last(s)] + Reverse(Front(s))
  }

  lemma {:induction false} PopThroughSplits(blocks: seq<Address>, first: Address, into: seq<Address>)
    requires Distinct(blocks) && first in blocks
    ensures var k := IndexOf(blocks, first);
            PopThrough(blocks, first, into) == (blocks[..k], into + Reverse(blocks[k..]))
    decreases |blocks|
  {
    var k, front := IndexOf(blocks, first), Front(blocks);
    if Last(blocks) == first {
      assert k == |blocks| - 1;
      assert blocks[k..] == [first];
      assert Reverse([first]) == [first];
    } else {
      PopThroughSplits(front, first, into + [Last(blocks)]);
      assert IndexOf(front, first) == k && front[..k] == blocks[..k];
      assert Front(blocks[k..]) == front[k..];
      assert into + [Last(blocks)] + Reverse(front[k..]) == into + Reverse(blocks[k..]);
    }
  }

  /** Detaching gives back the block list of the opening, and hands over exactly the
      scope's blocks, with the partly filled one at the end. */
  lemma DetachSplits(c: Cfg, first: Address)
    requires Distinct(c.blocks) && first in c.blocks
    ensures var k := IndexOf(c.blocks, first);
            var (d, ph) := DetachPersistent(c, first);
            && d == c.(blocks := c.blocks[..k], mark := None)
            && |ph.blocks| == |c.blocks| - k > 0
            && ph.blocks[0] == (if |ph.blocks| == 1 then Last(c.blocks) else first)
            && Last(ph.blocks) == Last(c.blocks)
            && (forall i :: 0 < i < |ph.blocks| - 1 ==> ph.blocks[i] == c.blocks[|c.blocks| - 1 - i])
            && ph.blockNext == c.next && ph.blockLimit == Last(c.blocks) + HANDLE_BLOCK_SIZE
  {
    var k := IndexOf(c.blocks, first);
    PopThroughSplits(c.blocks, first, []);
    assert [] + Reverse(c.blocks[k..]) == Reverse(c.blocks[k..]);
  }

  /** Reversing the middle of a sequence changes none of its members. */
  lemma SameMembers<T(!new)>(p: seq<T>, q: seq<T>, x: T)
    requires |p| == |q| > 0 && p[0] == q[0] && Last(p) == Last(q)
    requires forall i :: 0 < i < |p| - 1 ==> p[i] == q[|q| - 1 - i]
    requires x in p
    ensures x in q
  {
    var i :| 0 <= i < |p| && p[i] == x;
    var j := if 0 < i < |p| - 1 then |q| - 1 - i else i;
    assert q[j] == x;
  }

  lemma DetachSameBlocks(c: Cfg, first: Address, b: Address)
    requires Distinct(c.blocks) && first in c.blocks
    ensures b in DetachPersistent(c, first).1.blocks <==> b in c.blocks[IndexOf(c.blocks, first)..]
  {
    DetachSplits(c, first);
    var moved, tail := DetachPersistent(c, first).1.blocks, c.blocks[IndexOf(c.blocks, first)..];
    assert tail[0] == first;
    assert forall i :: 0 < i < |tail| - 1 ==> tail[i] == moved[|moved| - 1 - i];
    if b in moved {
      SameMembers(moved, tail, b);
    }
    if b in tail {
      SameMembers(tail, moved, b);
    }
  }

  /** The blocks handed over are no longer in the list. */
  lemma DetachedLeave(c: Cfg, first: Address, b: Address)
    requires Distinct(c.blocks) && first in c.blocks && b in DetachPersistent(c, first).1.blocks
    ensures b in c.blocks && b !in c.blocks[..IndexOf(c.blocks, first)]
  {
    DetachSameBlocks(c, first, b);
    var k := IndexOf(c.blocks, first);
    var i :| 0 <= i < |c.blocks[k..]| && c.blocks[k..][i] == b;
    assert c.blocks[k + i] == b;
  }

  lemma ClosePersistentStep(s: State)
    requires Inv(s) && s.frames != [] && Last(s.frames).Persistent?
    ensures var t := Apply(s, ClosePersistent);
            t.Some? && Inv(t.value) && Popped(s, t.value)
  {
    var f, t := Last(s.frames), Apply(s, ClosePersistent).value;
    DetachSplits(s.cfg, f.firstBlock);
    forall b | b in DetachPersistent(s.cfg, f.firstBlock).1.blocks ensures b in s.cfg.blocks && b !in t.cfg.blocks {
      DetachedLeave(s.cfg, f.firstBlock, b);
    }
    assert Owned(t) <= Owned(s);
    PopFrame(s, t);
  }

  // ---------------------------------------------------------------- escaping

  lemma {:induction false} EscapeSlotOwner(c: Cfg, frames: seq<Frame>, depth: nat)
    requires Chain(c, frames)
    requires depth < |frames| && frames[depth].Escapable?
    ensures 0 < depth
    ensures Handles(c, frames)[depth - 1] != []
    ensures Last(Handles(c, frames)[depth - 1]) == frames[depth].escapeSlot
    decreases |frames|
  {
    ChainTop(c, frames);
    if depth < |frames| - 1 {
      EscapeSlotOwner(Below(c, Last(frames)), Front(frames), depth);
    }
  }

  lemma DistinctSplit<T(!new)>(s: seq<T>, t: seq<T>)
    requires Distinct(s + t)
    ensures Distinct(s) && Distinct(t)
    ensures forall x :: x in s ==> x !in t
  {
    forall i, j | 0 <= i < |s| && 0 <= j < |t| ensures s[i] != t[j] {
      assert (s + t)[i] == s[i] && (s + t)[|s| + j] == t[j];
    }
    forall i, j | 0 <= i < j < |t| ensures t[i] != t[j] {
      assert (s + t)[|s| + i] == t[i] && (s + t)[|s| + j] == t[j];
    }
    forall i, j | 0 <= i < j < |s| ensures s[i] != s[j] {
      assert (s + t)[i] == s[i] && (s + t)[j] == s[j];
    }
  }

  lemma {:induction false} OnePlace(hs: seq<seq<Address>>, i: nat, j: nat, k: nat, l: nat)
    requires Distinct(Flatten(hs))
    requires i <= k < |hs| && j < |hs[i]| && l < |hs[k]|
    requires hs[i][j] == hs[k][l]
    ensures i == k && j == l
    decreases |hs|
  {
    DistinctSplit(Flatten(Front(hs)), Last(hs));
    if k < |hs| - 1 {
      OnePlace(Front(hs), i, j, k, l);
    } else if i < k {
      LiveHas(Front(hs), i, hs[i][j]);
    }
  }

  lemma EscapeStep(s: State, depth: nat, from: Address)
    requires Inv(s) && Enabled(s, Escape(depth, from))
    ensures var t := Apply(s, Escape(depth, from));
            && t.Some? && Inv(t.value)
            && Some(View(t.value)) == ListApply(View(s), FillEscape(depth, Read(s.mem, from)))
  {
    var t := Apply(s, Escape(depth, from)).value;
    var hs, slot, d := Handles(s.cfg, s.frames), s.frames[depth].escapeSlot, depth - 1;
    EscapeSlotOwner(s.cfg, s.frames, depth);
    StorageSpaced(s);
    LiveSlots(s.cfg, s.frames);
    var pos := |hs[d]| - 1;
    forall i, j | 0 <= i < |hs| && 0 <= j < |hs[i]| && !(i == d && j == pos) ensures hs[i][j] != slot {
      if hs[i][j] == slot {
        if i <= d { OnePlace(hs, i, j, d, pos); } else { OnePlace(hs, d, pos, i, j); }
      }
    }
    assert Owned(t) == Owned(s);
    ViewFill(s, t, d, slot, s.mem[from]);
  }

  lemma ValuesFilled(mem: map<Address, Word>, slots: seq<Address>, slot: Address, value: Word)
    requires slots != [] && Last(slots) == slot && forall j :: 0 <= j < |slots| - 1 ==> slots[j] != slot
    ensures ValuesAt(mem[slot := value], slots) == Front(ValuesAt(mem, slots)) + [value]
  {}

  lemma ValuesKept(mem: map<Address, Word>, slots: seq<Address>, slot: Address, value: Word)
    requires forall j :: 0 <= j < |slots| ==> slots[j] != slot
    ensures ValuesAt(mem[slot := value], slots) == ValuesAt(mem, slots)
  {}

  /** `slot` is the last handle of scope `d`, and nowhere else. */
  ghost predicate LastOf(hs: seq<seq<Address>>, d: nat, slot: Address) {
    && d < |hs| && hs[d] != [] && Last(hs[d]) == slot
    && forall i, j :: 0 <= i < |hs| && 0 <= j < |hs[i]| && !(i == d && j == |hs[d]| - 1) ==> hs[i][j] != slot
  }

  lemma ViewFillAt(s: State, t: State, d: nat, slot: Address, value: Word, i: nat)
    requires s.frames == t.frames && s.cfg == t.cfg && t.mem == s.mem[slot := value]
    requires LastOf(Handles(s.cfg, s.frames), d, slot) && i < |s.frames|
    ensures View(s)[d].values != []
    ensures var l := View(s)[d];
            View(t)[i] == if i == d then l.(values := Front(l.values) + [value]) else View(s)[i]
  {
    var hs := Handles(s.cfg, s.frames);
    if i == d {
      ValuesFilled(s.mem, hs[d], slot, value);
    } else {
      ValuesKept(s.mem, hs[i], slot, value);
    }
  }

  lemma ViewFill(s: State, t: State, d: nat, slot: Address, value: Word)
    requires s.frames == t.frames && s.cfg == t.cfg && t.mem == s.mem[slot := value]
    requires LastOf(Handles(s.cfg, s.frames), d, slot)
    ensures Some(View(t)) == ListApply(View(s), FillEscape(d + 1, value))
  {
    ViewFillAt(s, t, d, slot, value, d);
    var l := View(s)[d];
    forall i | 0 <= i < |s.frames|
      ensures View(t)[i] == if i == d then l.(values := Front(l.values) + [value]) else View(s)[i]
    {
      ViewFillAt(s, t, d, slot, value, i);
    }
    assert View(t) == View(s)[d := l.(values := Front(l.values) + [value])];
  }

  // ---------------------------------------------------------------- every step, every run

  /** The step keeps the invariant, fails exactly when the stack of lists refuses it, and
      otherwise changes the lists in the same way. */
  ghost predicate Simulates(s: State, step: Step)
    requires Enabled(s, step)
  {
    match Apply(s, step)
    case None => ListApply(View(s), Observe(s, step)).None?
    case Some(t) => Inv(t) && ListApply(View(s), Observe(s, step)) == Some(View(t))
  }

  lemma CreateRefines(s: State, value: Word, alloc: Address)
    requires Inv(s) && Allocatable(s, alloc)
    ensures match CreateHandle(s, value, alloc)
            case None => !CanAppend(View(s))
            case Some((t, slot)) =>
              && CanAppend(View(s)) && Inv(t) && View(t) == Appended(View(s), value)
              && t.frames == s.frames != []
              && Own(t.cfg, Last(t.frames)) == Own(s.cfg, Last(s.frames)) + [slot]
  {
    if s.frames == [] || Last(s.frames).Seal? {
      CreateFails(s, value, alloc);
    } else {
      CreateStep(s, value, alloc);
      var (t, slot) := CreateHandle(s, value, alloc).value;
      ViewAppend(s, t, value, slot);
    }
  }

  lemma OpenEscapableRefines(s: State, hole: Word, alloc: Address)
    requires Inv(s) && Enabled(s, OpenEscapable(hole, alloc))
    ensures Simulates(s, OpenEscapable(hole, alloc))
  {
    CreateRefines(s, hole, alloc);
    match CreateHandle(s, hole, alloc)
    case None =>
    case Some((u, slot)) =>
      OpenEscapableStep(u, slot);
      var t := OpenedEscapable(u, slot);
      PushView(u, t, Last(t.frames));
  }

  lemma CreateThenOpenRefines(u: State, value: Word, alloc: Address)
    requires Inv(u) && Allocatable(u, alloc)
    ensures match CreateHandle(u, value, alloc)
            case None => !CanAppend(View(u))
            case Some((t, _)) =>
              && CanAppend(View(u)) && Inv(Opened(t))
              && View(Opened(t)) == Appended(View(u), value) + [List(PlainScope, [])]
  {
    CreateRefines(u, value, alloc);
    match CreateHandle(u, value, alloc)
    case None =>
    case Some((t, _)) =>
      OpenStep(t);
      PushView(t, Opened(t), Scope(t.cfg.next, t.cfg.limit));
  }

  /** Closing the innermost scope, making one handle and opening a scope again. */
  ghost predicate Reopens(s: State, value: Word, alloc: Address)
    requires s.frames != [] && IsPlainScope(Last(s.frames))
  {
    match CreateHandle(Closed(s), value, alloc)
    case None => !CanAppend(Front(View(s)))
    case Some((t, _)) =>
      && CanAppend(Front(View(s))) && Inv(Opened(t))
      && View(Opened(t)) == Appended(Front(View(s)), value) + [List(PlainScope, [])]
  }

  lemma CloseCreateOpen(s: State, value: Word, alloc: Address)
    requires Inv(s) && s.frames != [] && Last(s.frames).Scope? && Allocatable(s, alloc)
    ensures Reopens(s, value, alloc)
  {
    CloseStep(s);
    PopView(s, Closed(s));
    assert Allocatable(Closed(s), alloc);
    CreateThenOpenRefines(Closed(s), value, alloc);
  }

  lemma ReopensSimulates(s: State, from: Address, alloc: Address)
    requires Enabled(s, CloseAndEscape(from, alloc)) && from in s.mem && Reopens(s, s.mem[from], alloc)
    ensures Simulates(s, CloseAndEscape(from, alloc))
  {
    assert Observe(s, CloseAndEscape(from, alloc)) == PopAndAppend(s.mem[from]);
    assert View(s) != [];
  }

  lemma CloseAndEscapeRefines(s: State, from: Address, alloc: Address)
    requires Inv(s) && Enabled(s, CloseAndEscape(from, alloc))
    ensures Simulates(s, CloseAndEscape(from, alloc))
  {
    assert from in s.mem;
    CloseCreateOpen(s, s.mem[from], alloc);
    ReopensSimulates(s, from, alloc);
  }

  lemma OpenRefines(s: State)
    requires Inv(s)
    ensures Simulates(s, OpenScope)
  {
    OpenStep(s);
    PushView(s, Opened(s), Scope(s.cfg.next, s.cfg.limit));
  }

  lemma OpenSealRefines(s: State)
    requires Inv(s) && CanSeal(s.cfg)
    ensures Simulates(s, OpenSeal)
  {
    OpenSealStep(s);
    PushView(s, Sealed(s), Last(Sealed(s).frames));
  }

  lemma OpenPersistentRefines(s: State, alloc: Address)
    requires Inv(s) && Enabled(s, OpenPersistent(alloc))
    ensures Simulates(s, OpenPersistent(alloc))
  {
    OpenPersistentStep(s, alloc);
    var t := Apply(s, OpenPersistent(alloc)).value;
    PushView(s, t, Last(t.frames));
  }

  lemma PopRefines(s: State, step: Step)
    requires Inv(s) && Enabled(s, step)
    requires step.Close? || step.CloseSeal? || step.ClosePersistent?
    ensures Simulates(s, step)
  {
    var t := Apply(s, step).value;
    match step {
      case Close => CloseStep(s);
      case CloseSeal => CloseSealStep(s);
      case ClosePersistent => ClosePersistentStep(s);
    }
    PopView(s, t);
  }

  /** Every step simulates the corresponding step of the stack of lists. */
  lemma StepRefines(s: State, step: Step)
    requires Inv(s) && Enabled(s, step)
    ensures Simulates(s, step)
  {
    match step
    case Create(value, alloc) => CreateRefines(s, value, alloc);
    case OpenEscapable(hole, alloc) => OpenEscapableRefines(s, hole, alloc);
    case Escape(depth, from) => EscapeStep(s, depth, from);
    case CloseAndEscape(from, alloc) => CloseAndEscapeRefines(s, from, alloc);
    case OpenScope => OpenRefines(s);
    case OpenSeal => OpenSealRefines(s);
    case OpenPersistent(alloc) => OpenPersistentRefines(s, alloc);
    case Close => PopRefines(s, step);
    case CloseSeal => PopRefines(s, step);
    case ClosePersistent => PopRefines(s, step);
  }

  ghost function ObserveRun(s: State, steps: seq<Step>): seq<ListStep>
    requires EnabledRun(s, steps)
    decreases |steps|
  {
    if steps == [] then []
    else [Observe(s, steps[0])] +
         (match Apply(s, steps[0])
          case None => []
          case Some(t) => ObserveRun(t, steps[1..]))
  }

  /** The refinement theorem, from any state that satisfies the invariant. */
  lemma {:induction false} RunRefines(s: State, steps: seq<Step>)
    requires Inv(s) && EnabledRun(s, steps)
    ensures Run(s, steps).Some? ==> Inv(Run(s, steps).value)
    ensures (match Run(s, steps) case None => None case Some(t) => Some(View(t))) ==
            ListRun(View(s), ObserveRun(s, steps))
    decreases |steps|
  {
    if steps == [] {
    } else {
      StepRefines(s, steps[0]);
      match Apply(s, steps[0])
      case None =>
      case Some(t) =>
        RunRefines(t, steps[1..]);
        assert ObserveRun(s, steps)[1..] == ObserveRun(t, steps[1..]);
    }
  }

  lemma InitialInv()
    ensures Inv(INITIAL) && View(INITIAL) == []
  {}

  /** From `next == limit == nullptr`, every run of the allocator is a run of the stack of
      lists, and live handles always sit in pairwise distinct slots of the block list. */
  lemma ReachableRefines(steps: seq<Step>)
    requires EnabledRun(INITIAL, steps)
    ensures (match Run(INITIAL, steps) case None => None case Some(t) => Some(View(t))) ==
            ListRun([], ObserveRun(INITIAL, steps))
    ensures Run(INITIAL, steps).Some? ==>
              var t := Run(INITIAL, steps).value;
              Distinct(Live(t)) && forall a :: a in Live(t) ==> Used(t.cfg.blocks, t.cfg.next, a)
  {
    InitialInv();
    RunRefines(INITIAL, steps);
    match Run(INITIAL, steps)
    case None =>
    case Some(t) =>
      StorageSpaced(t);
      LiveSlots(t.cfg, t.frames);
  }
}
