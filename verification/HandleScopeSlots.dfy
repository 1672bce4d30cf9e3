/**
 Where live handles lie: which slots a configuration has handed out, that they are
 distinct, and how one new handle changes the innermost scope and nothing else.
 */
module HandleScopeSlots {
  import opened Basics
  import opened HandleScopes

  predicate Holds(block: Address, a: Address) {
    block <= a < block + HANDLE_BLOCK_SIZE
  }

  /** Slot `a` lies in block `i`, below `next` if that is the last block. */
  predicate UsedIn(blocks: seq<Address>, next: Address, i: nat, a: Address)
    requires i < |blocks|
  {
    Holds(blocks[i], a) && (i == |blocks| - 1 ==> a < next)
  }

  ghost predicate Used(blocks: seq<Address>, next: Address, a: Address) {
    exists i: nat :: i < |blocks| && UsedIn(blocks, next, i, a)
  }

  ghost predicate BlocksSpaced(blocks: seq<Address>) {
    && (forall i :: 0 <= i < |blocks| ==> blocks[i] != 0)
    && (forall i, j :: 0 <= i < j < |blocks| ==> Separate(blocks[i], blocks[j]))
  }

  lemma StorageSpaced(s: State)
    requires Storage(s)
    ensures BlocksSpaced(s.cfg.blocks)
  {
    forall i | 0 <= i < |s.cfg.blocks| ensures s.cfg.blocks[i] in Owned(s) {}
  }

  lemma RangeMembers(lo: Address, hi: Address, a: Address)
    ensures a in Range(lo, hi) <==> lo <= a < hi
  {
    if lo <= a < hi {
      assert Range(lo, hi)[a - lo] == a;
    }
  }

  lemma {:induction false} FullMembers(blocks: seq<Address>, a: Address)
    ensures a in Full(blocks) <==> exists i :: 0 <= i < |blocks| && Holds(blocks[i], a)
  {
    if blocks == [] {
    } else {
      FullMembers(Front(blocks), a);
      RangeMembers(Last(blocks), Last(blocks) + HANDLE_BLOCK_SIZE, a);
      if i :| 0 <= i < |Front(blocks)| && Holds(Front(blocks)[i], a) {
        assert Holds(blocks[i], a);
      }
      if i :| 0 <= i < |blocks| && Holds(blocks[i], a) {
        if i < |blocks| - 1 {
          assert Holds(Front(blocks)[i], a);
        }
      }
    }
  }

  lemma SlotsMembers(blocks: seq<Address>, next: Address, a: Address)
    requires blocks != [] ==> next <= Last(blocks) + HANDLE_BLOCK_SIZE
    ensures a in Slots(blocks, next) <==> Used(blocks, next, a)
  {
    if blocks != [] {
      FullMembers(Front(blocks), a);
      RangeMembers(Last(blocks), next, a);
      if Used(blocks, next, a) {
        var i: nat :| i < |blocks| && UsedIn(blocks, next, i, a);
        if i < |blocks| - 1 {
          assert Holds(Front(blocks)[i], a);
        }
      }
      if a in Full(Front(blocks)) {
        var i :| 0 <= i < |Front(blocks)| && Holds(Front(blocks)[i], a);
        assert UsedIn(blocks, next, i, a);
      } else if a in Slots(blocks, next) {
        assert UsedIn(blocks, next, |blocks| - 1, a);
      }
    }
  }

  lemma {:induction false} FullDistinct(blocks: seq<Address>)
    requires BlocksSpaced(blocks)
    ensures Distinct(Full(blocks))
  {
    if blocks == [] {
    } else {
      var last := Range(Last(blocks), Last(blocks) + HANDLE_BLOCK_SIZE);
      FullDistinct(Front(blocks));
      forall a | a in Full(Front(blocks)) ensures a !in last {
        FullMembers(Front(blocks), a);
        RangeMembers(Last(blocks), Last(blocks) + HANDLE_BLOCK_SIZE, a);
      }
      DistinctConcat(Full(Front(blocks)), last);
    }
  }

  lemma SlotsDistinct(blocks: seq<Address>, next: Address)
    requires BlocksSpaced(blocks)
    requires blocks != [] ==> next <= Last(blocks) + HANDLE_BLOCK_SIZE
    ensures Distinct(Slots(blocks, next))
  {
    if blocks != [] {
      FullDistinct(Front(blocks));
      forall a | a in Full(Front(blocks)) ensures a !in Range(Last(blocks), next) {
        FullMembers(Front(blocks), a);
        RangeMembers(Last(blocks), next, a);
      }
      DistinctConcat(Full(Front(blocks)), Range(Last(blocks), next));
    }
  }

  // ---------------------------------------------------------------- one scope

  /** Slot `a` was handed out after the point (kept, prevNext). */
  ghost predicate After(kept: seq<Address>, prevNext: Address, blocks: seq<Address>, next: Address, a: Address)
    requires kept <= blocks
  {
    exists i: nat :: i < |blocks| && UsedIn(blocks, next, i, a) && |kept| - 1 <= i && (i == |kept| - 1 ==> prevNext <= a)
  }

  lemma BetweenInBlock(blocks: seq<Address>, prevNext: Address, next: Address, a: Address)
    requires blocks == [] ==> prevNext == 0 && next == 0
    requires blocks != [] ==> Last(blocks) <= prevNext && next <= Last(blocks) + HANDLE_BLOCK_SIZE
    ensures a in Range(prevNext, next) <==> After(blocks, prevNext, blocks, next, a)
  {
    RangeMembers(prevNext, next, a);
    if prevNext <= a < next {
      assert UsedIn(blocks, next, |blocks| - 1, a);
    }
  }

  /** Use of the blocks behind the first `k`. */
  lemma UsedBehind(blocks: seq<Address>, next: Address, k: nat, a: Address)
    requires k < |blocks|
    ensures Used(blocks[k..], next, a) <==> exists i: nat :: k <= i < |blocks| && UsedIn(blocks, next, i, a)
  {
    var tail := blocks[k..];
    if Used(tail, next, a) {
      var i: nat :| i < |tail| && UsedIn(tail, next, i, a);
      assert UsedIn(blocks, next, k + i, a);
    }
    if i: nat :| k <= i < |blocks| && UsedIn(blocks, next, i, a) {
      assert UsedIn(tail, next, i - k, a);
    }
  }

  lemma BetweenAcross(kept: seq<Address>, prevNext: Address, blocks: seq<Address>, next: Address, a: Address)
    requires kept < blocks && next <= Last(blocks) + HANDLE_BLOCK_SIZE
    requires kept != [] ==> Last(kept) <= prevNext <= Last(kept) + HANDLE_BLOCK_SIZE
    ensures a in Between(kept, prevNext, blocks, next) <==> After(kept, prevNext, blocks, next, a)
  {
    SlotsMembers(blocks[|kept|..], next, a);
    UsedBehind(blocks, next, |kept|, a);
    if kept != [] {
      RangeMembers(prevNext, Last(kept) + HANDLE_BLOCK_SIZE, a);
      assert blocks[|kept| - 1] == Last(kept);
      assert UsedIn(blocks, next, |kept| - 1, a) <==> Holds(Last(kept), a);
    }
  }

  lemma BetweenMembers(kept: seq<Address>, prevNext: Address, blocks: seq<Address>, next: Address, a: Address)
    requires kept <= blocks
    requires kept == [] ==> prevNext == 0
    requires kept != [] ==> Last(kept) <= prevNext <= Last(kept) + HANDLE_BLOCK_SIZE
    requires blocks == [] ==> next == 0
    requires blocks != [] ==> Last(blocks) <= next <= Last(blocks) + HANDLE_BLOCK_SIZE
    ensures a in Between(kept, prevNext, blocks, next) <==> After(kept, prevNext, blocks, next, a)
  {
    if |kept| == |blocks| {
      BetweenInBlock(blocks, prevNext, next, a);
    } else {
      BetweenAcross(kept, prevNext, blocks, next, a);
    }
  }

  lemma BetweenDistinct(kept: seq<Address>, prevNext: Address, blocks: seq<Address>, next: Address)
    requires kept <= blocks && BlocksSpaced(blocks)
    requires kept != [] ==> Last(kept) <= prevNext
    requires blocks != [] ==> next <= Last(blocks) + HANDLE_BLOCK_SIZE
    ensures Distinct(Between(kept, prevNext, blocks, next))
  {
    if |kept| < |blocks| {
      var tail := blocks[|kept|..];
      SlotsDistinct(tail, next);
      if kept != [] {
        var head := Range(prevNext, Last(kept) + HANDLE_BLOCK_SIZE);
        forall a | a in head ensures a !in Slots(tail, next) {
          RangeMembers(prevNext, Last(kept) + HANDLE_BLOCK_SIZE, a);
          SlotsMembers(tail, next, a);
          assert Last(kept) == blocks[|kept| - 1];
        }
        DistinctConcat(head, Slots(tail, next));
      }
    }
  }

  /** Closing a frame leaves a prefix of the block list. */
  function Depth(c: Cfg, f: Frame): nat {
    |Below(c, f).blocks|
  }

  lemma BelowPrefix(c: Cfg, f: Frame)
    ensures Below(c, f).blocks <= c.blocks
  {}

  lemma OwnMembers(c: Cfg, f: Frame, rest: seq<Frame>, a: Address)
    requires Chain(c, rest + [f])
    requires BlocksSpaced(c.blocks)
    ensures Below(c, f).blocks <= c.blocks
    ensures !f.Seal? && !f.Persistent? ==>
              (a in Own(c, f) <==> After(Below(c, f).blocks, Below(c, f).next, c.blocks, c.next, a))
    ensures f.Persistent? ==>
              (a in Own(c, f) <==> Used(c.blocks[Depth(c, f)..], c.next, a))
  {
    assert Last(rest + [f]) == f && Front(rest + [f]) == rest;
    var b := Below(c, f);
    assert Core(b);
    match f
    case Scope(pn, pl) => BetweenMembers(b.blocks, pn, c.blocks, c.next, a);
    case Escapable(pn, pl, _) => BetweenMembers(b.blocks, pn, c.blocks, c.next, a);
    case Seal(_, _) =>
    case Persistent(first, pl, pn) => SlotsMembers(c.blocks[Depth(c, f)..], c.next, a);
  }

  /** A slot in use below the innermost scope is in use now. */
  lemma BelowUsed(c: Cfg, f: Frame, rest: seq<Frame>, a: Address)
    requires Chain(c, rest + [f])
    requires Used(Below(c, f).blocks, Below(c, f).next, a)
    ensures Used(c.blocks, c.next, a)
  {
    assert Last(rest + [f]) == f && Front(rest + [f]) == rest;
    var b := Below(c, f);
    var i: nat :| i < |b.blocks| && UsedIn(b.blocks, b.next, i, a);
    assert UsedIn(c.blocks, c.next, i, a);
  }

  lemma OneBlock(blocks: seq<Address>, i: nat, j: nat, a: Address)
    requires BlocksSpaced(blocks)
    requires i < |blocks| && j < |blocks|
    requires Holds(blocks[i], a) && Holds(blocks[j], a)
    ensures i == j
  {}

  /** A slot in use below the innermost scope is none of that scope's handles. */
  lemma BelowNotOwn(c: Cfg, f: Frame, rest: seq<Frame>, a: Address)
    requires Chain(c, rest + [f])
    requires BlocksSpaced(c.blocks)
    requires Used(Below(c, f).blocks, Below(c, f).next, a)
    ensures a !in Own(c, f)
  {
    var b := Below(c, f);
    var i: nat :| i < |b.blocks| && UsedIn(b.blocks, b.next, i, a);
    OwnMembers(c, f, rest, a);
    assert Holds(c.blocks[i], a);
    forall j: nat | j < |c.blocks| && Holds(c.blocks[j], a) ensures i == j {
      OneBlock(c.blocks, i, j, a);
    }
  }

  lemma OwnUsed(c: Cfg, f: Frame, rest: seq<Frame>, a: Address)
    requires Chain(c, rest + [f])
    requires BlocksSpaced(c.blocks)
    requires a in Own(c, f)
    ensures Used(c.blocks, c.next, a)
  {
    assert Last(rest + [f]) == f && Front(rest + [f]) == rest;
    OwnMembers(c, f, rest, a);
    if f.Persistent? {
      var tail := c.blocks[Depth(c, f)..];
      var i: nat :| i < |tail| && UsedIn(tail, c.next, i, a);
      assert UsedIn(c.blocks, c.next, Depth(c, f) + i, a);
    }
  }

  lemma OwnDistinct(c: Cfg, f: Frame, rest: seq<Frame>)
    requires Chain(c, rest + [f])
    requires BlocksSpaced(c.blocks)
    ensures Distinct(Own(c, f))
  {
    assert Last(rest + [f]) == f && Front(rest + [f]) == rest;
    var b := Below(c, f);
    assert Core(b);
    match f
    case Scope(pn, pl) => BetweenDistinct(b.blocks, pn, c.blocks, c.next);
    case Escapable(pn, pl, _) => BetweenDistinct(b.blocks, pn, c.blocks, c.next);
    case Seal(_, _) =>
    case Persistent(first, pl, pn) => SlotsDistinct(c.blocks[Depth(c, f)..], c.next);
  }

  lemma FlattenSnoc<T>(ss: seq<seq<T>>, s: seq<T>)
    ensures Flatten(ss + [s]) == Flatten(ss) + s
  {
    assert Front(ss + [s]) == ss;
  }

  // ---------------------------------------------------------------- all scopes

  /** Live handles occupy pairwise distinct slots inside the blocks, below `next`. */
  lemma {:induction false} LiveSlots(c: Cfg, frames: seq<Frame>)
    requires Chain(c, frames)
    requires BlocksSpaced(c.blocks)
    ensures Distinct(Flatten(Handles(c, frames)))
    ensures forall a :: a in Flatten(Handles(c, frames)) ==> Used(c.blocks, c.next, a)
    decreases |frames|
  {
    if frames == [] {
    } else {
      var f, rest := Last(frames), Front(frames);
      assert frames == rest + [f];
      var b := Below(c, f);
      assert BlocksSpaced(b.blocks) by { BelowPrefix(c, f); }
      LiveSlots(b, rest);
      var outer := Flatten(Handles(b, rest));
      FlattenSnoc(Handles(b, rest), Own(c, f));
      OwnDistinct(c, f, rest);
      forall a | a in outer ensures a !in Own(c, f) && Used(c.blocks, c.next, a) {
        BelowUsed(c, f, rest, a);
        BelowNotOwn(c, f, rest, a);
      }
      forall a | a in Own(c, f) ensures Used(c.blocks, c.next, a) {
        OwnUsed(c, f, rest, a);
      }
      DistinctConcat(outer, Own(c, f));
    }
  }
}
