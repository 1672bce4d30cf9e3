/**
 The node space as the program runs it: allocation, release, weak processing by the
 collector and the upkeep of the young list, all by updating links in place.
 */
module GlobalHandleSpace {
  import opened Basics
  import opened GlobalNodes

  // ---------------------------------------------------------------- weak processing

  const CALLBACK_ZAP: Word := 0xCA11

  predicate Dies(nodes: seq<Node>, dead: set<nat>, n: nat)
    requires n < |nodes|
  {
    nodes[n].state.Weak? && n in dead
  }

  /** What the collector leaves of a node it has looked at. */
  ghost predicate Processed(before: Node, after: Node, dies: bool) {
    if !dies then after == before
    else if before.weakness.NoCallback? then after.state.Free?
    else after == before.(referent := CALLBACK_ZAP, state := NearDeath)
  }

  /** Field by field, for a node whose referent is dead or alive: a dead weak node without a
      callback is free, one with a callback waits for it with everything but its referent,
      and any other node is as it was. */
  ghost predicate WeakResult(before: Node, after: Node, dead: bool) {
    && (before.state == Weak && dead && before.weakness == NoCallback ==> after.state == Free)
    && (before.state == Weak && dead && before.weakness == WithCallback ==>
          && after.state == NearDeath && after.referent == CALLBACK_ZAP && after.data == before.data
          && after.weakness == WithCallback && after.index == before.index && after.inYoungList == before.inYoungList)
    && (before.state != Weak || !dead ==> after == before)
  }

  ghost predicate ProcessedRange(before: seq<Node>, after: seq<Node>, dead: set<nat>, lo: nat, hi: nat) {
    && |after| == |before|
    && (forall n: nat :: n < |before| ==>
          if lo <= n < hi then Processed(before[n], after[n], Dies(before, dead, n)) else after[n] == before[n])
  }

  /** `reset` and `pending` list the dying nodes of a range, each once. */
  ghost predicate Found(nodes: seq<Node>, dead: set<nat>, lo: nat, hi: nat, reset: seq<nat>, pending: seq<nat>) {
    && Distinct(reset) && Distinct(pending)
    && (forall n: nat :: n in reset <==>
          lo <= n < hi && n < |nodes| && Dies(nodes, dead, n) && nodes[n].weakness.NoCallback?)
    && (forall n: nat :: n in pending <==>
          lo <= n < hi && n < |nodes| && Dies(nodes, dead, n) && !nodes[n].weakness.NoCallback?)
  }

  /** What the pass is to do: every node has its result, and `reset` and `pending` list the
      dead weak nodes of the two kinds, each once. */
  ghost predicate WeakPass(before: seq<Node>, after: seq<Node>, dead: set<nat>, reset: seq<nat>, pending: seq<nat>) {
    && |after| == |before|
    && (forall n: nat :: n < |before| ==> WeakResult(before[n], after[n], n in dead))
    && Distinct(reset) && Distinct(pending)
    && (forall n: nat :: n in reset <==>
          n < |before| && before[n].state == Weak && before[n].weakness == NoCallback && n in dead)
    && (forall n: nat :: n in pending <==>
          n < |before| && before[n].state == Weak && before[n].weakness == WithCallback && n in dead)
  }

  lemma WeakPassEnds(before: seq<Node>, after: seq<Node>, dead: set<nat>, reset: seq<nat>, pending: seq<nat>)
    requires ProcessedRange(before, after, dead, 0, |after|) && Found(before, dead, 0, |before|, reset, pending)
    ensures WeakPass(before, after, dead, reset, pending)
  {}

  lemma RangeGrows(first: seq<Node>, before: seq<Node>, after: seq<Node>, dead: set<nat>, lo: nat, n: nat)
    requires ProcessedRange(first, before, dead, lo, n) && lo <= n < |first| == |after|
    requires after == before[n := after[n]] && Processed(first[n], after[n], Dies(first, dead, n))
    ensures ProcessedRange(first, after, dead, lo, n + 1)
  {}

  lemma FoundGrows(nodes: seq<Node>, dead: set<nat>, lo: nat, n: nat, reset: seq<nat>, pending: seq<nat>)
    requires Found(nodes, dead, lo, n, reset, pending) && lo <= n < |nodes|
    ensures Found(nodes, dead, lo, n + 1,
                  if Dies(nodes, dead, n) && nodes[n].weakness.NoCallback? then reset + [n] else reset,
                  if Dies(nodes, dead, n) && !nodes[n].weakness.NoCallback? then pending + [n] else pending)
  {
    assert n !in reset && n !in pending;
  }

  // ---------------------------------------------------------------- the handles of reset nodes

  /** The slots of the handles, by address, once null was written to the handle that each of
      the nodes in `reset` names. */
  function Nulled(slots: map<int, int>, nodes: seq<Node>, reset: seq<nat>): map<int, int>
    requires forall n <- reset :: n < |nodes|
  {
    if reset == [] then slots
    else
      var last := |reset| - 1;
      assert reset[last] in reset && forall n <- reset[..last] :: n in reset;
      Nulled(slots, nodes, reset[..last])[nodes[reset[last]].data := NULL]
  }

  lemma {:induction false} NulledConcat(slots: map<int, int>, nodes: seq<Node>, p: seq<nat>, q: seq<nat>)
    requires (forall n <- p :: n < |nodes|) && (forall n <- q :: n < |nodes|)
    ensures Nulled(slots, nodes, p + q) == Nulled(Nulled(slots, nodes, p), nodes, q)
    decreases |q|
  {
    if q == [] {
      assert p + q == p;
    } else {
      var last := |q| - 1;
      assert q[last] in q && forall n <- q[..last] :: n in q;
      NulledConcat(slots, nodes, p, q[..last]);
      assert (p + q)[..|p + q| - 1] == p + q[..last];
    }
  }

  lemma {:induction false} NulledSame(slots: map<int, int>, nodes: seq<Node>, nodes': seq<Node>, reset: seq<nat>)
    requires forall n <- reset :: n < |nodes| == |nodes'| && nodes[n].data == nodes'[n].data
    ensures Nulled(slots, nodes, reset) == Nulled(slots, nodes', reset)
  {
    if reset == [] {
    } else {
      var last := |reset| - 1;
      assert reset[last] in reset && forall n <- reset[..last] :: n in reset;
      NulledSame(slots, nodes, nodes', reset[..last]);
    }
  }

  lemma {:induction false} NulledAt(slots: map<int, int>, nodes: seq<Node>, reset: seq<nat>, h: int)
    requires (forall n <- reset :: n < |nodes|) && h in slots
    ensures h in Nulled(slots, nodes, reset)
    ensures Nulled(slots, nodes, reset)[h] == if exists n <- reset :: nodes[n].data == h then NULL else slots[h]
  {
    if reset == [] {
    } else {
      var last := |reset| - 1;
      assert reset[last] in reset && forall n <- reset[..last] :: n in reset;
      NulledAt(slots, nodes, reset[..last], h);
      assert reset == reset[..last] + [reset[last]];
    }
  }

  predicate IsPhantom(node: Node) {
    node.state.Weak? && node.weakness.NoCallback?
  }

  /** No two handles name the same node, and a phantom node points back at the handle that
      names it. */
  ghost predicate Owners(slots: map<int, int>, nodes: seq<Node>) {
    && (forall g, h :: g in slots && h in slots && slots[g] == slots[h] != NULL ==> g == h)
    && (forall n: nat :: n < |nodes| && IsPhantom(nodes[n]) ==> nodes[n].data in slots && slots[nodes[n].data] == n)
  }

  /** Exactly the handles of dead phantom nodes are empty now; every other handle names the
      node it named. */
  ghost predicate OwnersEmptied(slots: map<int, int>, slots': map<int, int>, nodes: seq<Node>, dead: set<nat>) {
    forall h <- slots ::
      && h in slots'
      && slots'[h] == if 0 <= slots[h] < |nodes| && IsPhantom(nodes[slots[h]]) && slots[h] in dead then NULL else slots[h]
  }

  lemma DeadOwnersEmptied(slots: map<int, int>, nodes: seq<Node>, dead: set<nat>, reset: seq<nat>, pending: seq<nat>)
    requires Owners(slots, nodes) && Found(nodes, dead, 0, |nodes|, reset, pending)
    requires forall n <- reset :: n < |nodes|
    ensures OwnersEmptied(slots, Nulled(slots, nodes, reset), nodes, dead)
  {
    forall h <- slots
      ensures h in Nulled(slots, nodes, reset)
      ensures Nulled(slots, nodes, reset)[h] ==
              if 0 <= slots[h] < |nodes| && IsPhantom(nodes[slots[h]]) && slots[h] in dead then NULL else slots[h]
    {
      NulledAt(slots, nodes, reset, h);
      if n :| n in reset && nodes[n].data == h {
        assert slots[h] == n;
      } else if 0 <= slots[h] < |nodes| && IsPhantom(nodes[slots[h]]) && slots[h] in dead {
        assert slots[h] in reset;
        assert nodes[slots[h]].data == h;
      }
    }
  }

  /** The memory in which the handles' slots lie. */
  class SlotMemory {
    var slots: map<int, int>

    constructor (slots: map<int, int>)
      ensures this.slots == slots
    {
      this.slots := slots;
    }
  }

  // ---------------------------------------------------------------- the iterator and the block under it

  /** `list` is what is left of the blocks `done` and `tail`: the iterator stands on
      `tail[0]`, which may be unlinked already. */
  ghost predicate Iterating(sp: Space, list: seq<nat>, done: seq<nat>, tail: seq<nat>) {
    && tail != [] && tail[0] < |sp.used|
    && list == done + (if sp.used[tail[0]] > 0 then tail else tail[1..])
  }

  ghost predicate SameLinks(next: seq<int>, next': seq<int>, tail: seq<nat>) {
    |next'| == |next| &&
    forall i :: 0 <= i < |tail| && tail[i] < |next| ==> next'[tail[i]] == next[tail[i]]
  }

  /** Unlinking the block under the iterator: the rest of the list stays reachable from it. */
  lemma ReleaseUnderIterator(sp: Space, done: seq<nat>, tail: seq<nat>, n: nat)
    requires BlocksOk(sp, done + tail) && tail != []
    requires n < |sp.nodes| == |sp.used| * BLOCK_SIZE && n / BLOCK_SIZE == tail[0]
    requires LinksInRange(sp, tail[0]) && sp.used[tail[0]] > 0 && sp.handlesCount > 0
    ensures Iterating(ReleasedSpace(sp, n), ListDown(sp, done + tail, tail[0]), done, tail)
    ensures SameLinks(sp.nextUsed, ReleasedSpace(sp, n).nextUsed, tail)
  {
    ReleasedFields(sp, n);
    WithoutUnderIterator(done, tail);
    BehindIterator(sp, done, tail);
  }

  lemma WithoutUnderIterator(done: seq<nat>, tail: seq<nat>)
    requires tail != [] && Distinct(done + tail)
    ensures tail[0] in done + tail
    ensures Without(done + tail, PositionOf(done + tail, tail[0])) == done + tail[1..]
  {
    var list, k := done + tail, |done|;
    assert list[k] == tail[0];
    assert PositionOf(list, tail[0]) == k;
  }

  /** The predecessor of the block under the iterator lies behind it. */
  lemma BehindIterator(sp: Space, done: seq<nat>, tail: seq<nat>)
    requires BlocksOk(sp, done + tail) && tail != []
    ensures tail[0] < |sp.prevUsed|
    ensures forall i :: 0 <= i < |tail| ==> tail[i] < |sp.nextUsed| && sp.prevUsed[tail[0]] != tail[i]
  {
    var list, k := done + tail, |done|;
    assert BlockLink(sp.nextUsed, sp.prevUsed, list, k);
    forall i | 0 <= i < |tail| ensures tail[i] < |sp.nextUsed| && sp.prevUsed[tail[0]] != tail[i] {
      assert list[k + i] == tail[i];
    }
  }

  /** How far the pass has come inside one block: nodes `lo` to `n` are done. */
  ghost predicate InBlock(first: Space, sp: Space, now: seq<nat>, dead: set<nat>, lo: nat, n: nat,
                          done: seq<nat>, tail: seq<nat>, reset: seq<nat>, pending: seq<nat>) {
    && |sp.used| == |first.used|
    && ProcessedRange(first.nodes, sp.nodes, dead, lo, n)
    && Iterating(sp, now, done, tail)
    && SameLinks(first.nextUsed, sp.nextUsed, tail)
    && Found(first.nodes, dead, lo, n, reset, pending)
  }

  // ---------------------------------------------------------------- walking the used blocks

  lemma InBlockStarts(sp: Space, now: seq<nat>, dead: set<nat>, lo: nat, done: seq<nat>, tail: seq<nat>)
    requires Iterating(sp, now, done, tail)
    ensures InBlock(sp, sp, now, dead, lo, lo, done, tail, [], [])
  {}

  lemma NodeOfBlock(b: nat, index: nat, blocks: nat)
    requires b < blocks && index < BLOCK_SIZE
    ensures (b * BLOCK_SIZE + index) / BLOCK_SIZE == b
    ensures b * BLOCK_SIZE + index < blocks * BLOCK_SIZE
  {}

  ghost predicate WalkLink(next: seq<int>, list: seq<nat>, i: nat) {
    i < |list| && list[i] < |next| && next[list[i]] == Next(list, i)
  }

  /** The iterator stands on `list[k]`; `done` is what is left of the blocks behind it. */
  ghost predicate Walk(sp: Space, now: seq<nat>, list: seq<nat>, k: nat, done: seq<nat>, block: int) {
    && k <= |list| && Distinct(list)
    && block == (if k < |list| then list[k] else NULL)
    && now == done + list[k..]
    && (forall i: nat :: k <= i < |list| ==> WalkLink(sp.nextUsed, list, i))
  }

  lemma WalkStarts(sp: Space, list: seq<nat>)
    requires BlocksOk(sp, list)
    ensures Walk(sp, list, list, 0, [], sp.firstUsedBlock)
  {
    assert [] + list[0..] == list;
    forall i: nat | i < |list| ensures WalkLink(sp.nextUsed, list, i) {
      assert BlockLink(sp.nextUsed, sp.prevUsed, list, i);
    }
  }

  lemma WalkStands(sp: Space, now: seq<nat>, list: seq<nat>, k: nat, done: seq<nat>, block: int)
    requires BlocksOk(sp, now) && Walk(sp, now, list, k, done, block) && block != NULL
    ensures k < |list| && 0 <= block < |sp.used| && list[k..][0] == block
    ensures Iterating(sp, now, done, list[k..])
  {
    assert now[|done|] == block;
    assert block in now;
  }

  lemma WalkMoves(before: Space, after: Space, now: seq<nat>, now': seq<nat>, list: seq<nat>, k: nat, done: seq<nat>,
                  block: nat)
    requires Walk(before, now, list, k, done, block)
    requires Iterating(after, now', done, list[k..])
    requires SameLinks(before.nextUsed, after.nextUsed, list[k..])
    ensures k < |list| && block < |after.used| && block < |after.nextUsed|
    ensures Walk(after, now', list, k + 1, if after.used[block] > 0 then done + [block] else done, after.nextUsed[block])
  {
    var tail := list[k..];
    assert tail[0] == block && tail[1..] == list[k + 1..];
    assert done + tail == done + [block] + list[k + 1..];
    forall i: nat | k <= i < |list| ensures WalkLink(after.nextUsed, list, i) {
      assert WalkLink(before.nextUsed, list, i) && tail[i - k] == list[i];
    }
    assert WalkLink(after.nextUsed, list, k);
  }

  ghost predicate ProcessedBlocks(before: seq<Node>, after: seq<Node>, dead: set<nat>, blocks: seq<nat>) {
    && |after| == |before|
    && (forall n: nat :: n < |before| ==>
          if n / BLOCK_SIZE in blocks then Processed(before[n], after[n], Dies(before, dead, n))
          else after[n] == before[n])
  }

  ghost predicate FoundBlocks(nodes: seq<Node>, dead: set<nat>, blocks: seq<nat>, reset: seq<nat>, pending: seq<nat>) {
    && Distinct(reset) && Distinct(pending)
    && (forall n: nat :: n in reset <==>
          n < |nodes| && n / BLOCK_SIZE in blocks && Dies(nodes, dead, n) && nodes[n].weakness.NoCallback?)
    && (forall n: nat :: n in pending <==>
          n < |nodes| && n / BLOCK_SIZE in blocks && Dies(nodes, dead, n) && !nodes[n].weakness.NoCallback?)
  }

  lemma BlockProcessed(first: seq<Node>, before: seq<Node>, after: seq<Node>, dead: set<nat>, blocks: seq<nat>, b: nat)
    requires b !in blocks
    requires ProcessedBlocks(first, before, dead, blocks)
    requires ProcessedRange(before, after, dead, b * BLOCK_SIZE, (b + 1) * BLOCK_SIZE)
    ensures ProcessedBlocks(first, after, dead, blocks + [b])
  {
    forall n: nat | n < |first|
      ensures if n / BLOCK_SIZE in blocks + [b] then Processed(first[n], after[n], Dies(first, dead, n))
              else after[n] == first[n]
    {
      assert b * BLOCK_SIZE <= n < (b + 1) * BLOCK_SIZE <==> n / BLOCK_SIZE == b;
    }
  }

  lemma BlockFound(first: seq<Node>, before: seq<Node>, dead: set<nat>, blocks: seq<nat>, b: nat,
                   reset: seq<nat>, pending: seq<nat>, r: seq<nat>, p: seq<nat>)
    requires b !in blocks
    requires ProcessedBlocks(first, before, dead, blocks)
    requires FoundBlocks(first, dead, blocks, reset, pending)
    requires Found(before, dead, b * BLOCK_SIZE, (b + 1) * BLOCK_SIZE, r, p)
    ensures FoundBlocks(first, dead, blocks + [b], reset + r, pending + p)
  {
    forall n: nat ensures b * BLOCK_SIZE <= n < (b + 1) * BLOCK_SIZE <==> n / BLOCK_SIZE == b {}
    DistinctConcat(reset, r);
    DistinctConcat(pending, p);
  }

  /** How far the pass has come, after `k` of the blocks on the list. */
  ghost predicate Progress(first: seq<Node>, sp: Space, now: seq<nat>, dead: set<nat>, list: seq<nat>, k: nat,
                           done: seq<nat>, block: int, reset: seq<nat>, pending: seq<nat>) {
    && Walk(sp, now, list, k, done, block)
    && ProcessedBlocks(first, sp.nodes, dead, list[..k])
    && FoundBlocks(first, dead, list[..k], reset, pending)
  }

  lemma ProgressStep(first: seq<Node>, sp: Space, t: Space, now: seq<nat>, now': seq<nat>, dead: set<nat>,
                     list: seq<nat>, k: nat, done: seq<nat>, block: nat,
                     reset: seq<nat>, pending: seq<nat>, r: seq<nat>, p: seq<nat>)
    requires Progress(first, sp, now, dead, list, k, done, block, reset, pending)
    requires Iterating(t, now', done, list[k..]) && SameLinks(sp.nextUsed, t.nextUsed, list[k..])
    requires ProcessedRange(sp.nodes, t.nodes, dead, block * BLOCK_SIZE, (block + 1) * BLOCK_SIZE)
    requires Found(sp.nodes, dead, block * BLOCK_SIZE, (block + 1) * BLOCK_SIZE, r, p)
    ensures k < |list| && block < |t.used| && block < |t.nextUsed|
    ensures Progress(first, t, now', dead, list, k + 1, if t.used[block] > 0 then done + [block] else done,
                     t.nextUsed[block], reset + r, pending + p)
  {
    WalkMoves(sp, t, now, now', list, k, done, block);
    assert list[..k + 1] == list[..k] + [block];
    BlockProcessed(first, sp.nodes, t.nodes, dead, list[..k], block);
    BlockFound(first, sp.nodes, dead, list[..k], block, reset, pending, r, p);
  }

  /** Blocks that are not on the list hold only free nodes, so nothing was missed. */
  lemma WalkEnds(sp: Space, free: seq<nat>, list: seq<nat>, after: seq<Node>, dead: set<nat>,
                 reset: seq<nat>, pending: seq<nat>)
    requires SpaceOk(sp, free, list)
    requires ProcessedBlocks(sp.nodes, after, dead, list)
    requires FoundBlocks(sp.nodes, dead, list, reset, pending)
    ensures ProcessedRange(sp.nodes, after, dead, 0, |after|)
    ensures Found(sp.nodes, dead, 0, |sp.nodes|, reset, pending)
  {
    forall n: nat | n < |sp.nodes| && n / BLOCK_SIZE !in list ensures sp.nodes[n].state.Free? {
      UnlistedIsFree(sp, free, list, n);
    }
  }

  lemma ProgressEnds(sp: Space, free: seq<nat>, list: seq<nat>, t: Space, now: seq<nat>, dead: set<nat>, k: nat,
                     done: seq<nat>, reset: seq<nat>, pending: seq<nat>)
    requires SpaceOk(sp, free, list)
    requires Progress(sp.nodes, t, now, dead, list, k, done, NULL, reset, pending)
    ensures ProcessedRange(sp.nodes, t.nodes, dead, 0, |t.nodes|)
    ensures Found(sp.nodes, dead, 0, |sp.nodes|, reset, pending)
  {
    assert k == |list|;
    assert list[..k] == list;
    WalkEnds(sp, free, list, t.nodes, dead, reset, pending);
  }

  lemma UnlistedIsFree(sp: Space, free: seq<nat>, list: seq<nat>, n: nat)
    requires SpaceOk(sp, free, list)
    requires n < |sp.nodes| && n / BLOCK_SIZE !in list
    ensures sp.nodes[n].state.Free?
  {
    var b := n / BLOCK_SIZE;
    if !sp.nodes[n].state.Free? {
      CountMember(sp.nodes, b * BLOCK_SIZE, (b + 1) * BLOCK_SIZE, n);
    }
  }

  class GlobalHandles {
    var nodes: seq<Node>
    var used: seq<nat>         // used_nodes_, by block
    var nextUsed: seq<int>     // next_used_, by block
    var prevUsed: seq<int>     // prev_used_, by block
    var firstFree: int
    var firstUsedBlock: int
    var handlesCount: nat
    var youngNodes: seq<nat>
    const memory: SlotMemory

    ghost var free: seq<nat>
    ghost var usedBlocks: seq<nat>

    ghost function Fields(): Space
      reads this
    {
      Space(nodes, used, nextUsed, prevUsed, firstFree, firstUsedBlock, handlesCount, youngNodes)
    }

    ghost predicate Valid()
      reads this
    {
      SpaceOk(Fields(), free, usedBlocks)
    }

    constructor (memory: SlotMemory)
      ensures Valid() && Fields() == EMPTY_SPACE && this.memory == memory
    {
      this.memory := memory;
      nodes, used, nextUsed, prevUsed, youngNodes := [], [], [], [], [];
      firstFree, firstUsedBlock, handlesCount := NULL, NULL, 0;
      free, usedBlocks := [], [];
    }

    /** Adds a block and threads its nodes onto the free list, last node first. */
    method AddBlock()
      requires firstFree == NULL
      modifies this`nodes, this`used, this`nextUsed, this`prevUsed, this`firstFree
      ensures Fields() == WithBlock(old(Fields()))
    {
      var base := |nodes|;
      var blank := Node(0, 0, Free, false, WithCallback, NULL);
      var block := seq(BLOCK_SIZE, i => blank);
      var i: int := BLOCK_SIZE - 1;
      while i >= 0
        invariant -1 <= i < BLOCK_SIZE && |block| == BLOCK_SIZE
        invariant firstFree == if i == BLOCK_SIZE - 1 then NULL else base + i + 1
        invariant forall k :: 0 <= k <= i ==> block[k] == blank
        invariant forall k :: i < k < BLOCK_SIZE ==> block[k] == NewNode(base, k)
        modifies this`firstFree
      {
        block := block[i := block[i].(index := i)];
        block := block[i := Released(block[i], firstFree)];
        firstFree := base + i;
        i := i - 1;
      }
      assert block == NewBlock(base);
      nodes := nodes + block;
      used := used + [0];
      nextUsed := nextUsed + [NULL];
      prevUsed := prevUsed + [NULL];
    }

    method IncreaseUsage(b: nat)
      requires b < |used| == |nextUsed| == |prevUsed|
      requires firstUsedBlock != NULL ==> 0 <= firstUsedBlock < |prevUsed|
      modifies this
      ensures Fields() == UsageUp(old(Fields()), b)
      ensures free == old(free)
      ensures usedBlocks == ListUp(old(Fields()), old(usedBlocks), b)
    {
      used := used[b := used[b] + 1];
      if used[b] == 1 {
        var top := firstUsedBlock;
        firstUsedBlock := b;
        nextUsed := nextUsed[b := top];
        prevUsed := prevUsed[b := NULL];
        if top != NULL {
          prevUsed := prevUsed[top := b];
        }
        usedBlocks := [b] + usedBlocks;
      }
    }

    method DecreaseUsage(b: nat)
      requires LinksInRange(Fields(), b) && used[b] > 0 && b in usedBlocks
      modifies this
      ensures Fields() == UsageDown(old(Fields()), b)
      ensures free == old(free)
      ensures usedBlocks == ListDown(old(Fields()), old(usedBlocks), b)
    {
      used := used[b := used[b] - 1];
      if used[b] == 0 {
        var next, prev := nextUsed[b], prevUsed[b];
        if next != NULL {
          prevUsed := prevUsed[next := prev];
        }
        if prev != NULL {
          nextUsed := nextUsed[prev := next];
        }
        if b == firstUsedBlock {
          firstUsedBlock := next;
        }
        usedBlocks := Without(usedBlocks, PositionOf(usedBlocks, b));
      }
    }

    /** Takes the first free node, counts it and publishes the value in it. */
    method Take(value: Word, isYoung: bool) returns (n: nat)
      requires CanTake(Fields()) && nodes[firstFree].index == firstFree % BLOCK_SIZE
      modifies this
      ensures n == old(firstFree)
      ensures Fields() == Taken(old(Fields()), value, isYoung)
      ensures free == old(free)
      ensures usedBlocks == ListUp(old(Fields()), old(usedBlocks), n / BLOCK_SIZE)
    {
      n := firstFree;
      firstFree := nodes[n].data;
      IncreaseUsage((n - nodes[n].index) / BLOCK_SIZE);
      handlesCount := handlesCount + 1;
      Publish(n, value, isYoung);
    }

    method Publish(n: nat, value: Word, isYoung: bool)
      requires n < |nodes|
      modifies this`nodes, this`youngNodes
      ensures nodes == old(nodes)[n := Published(old(nodes[n]), value, isYoung)]
      ensures youngNodes == if isYoung && !old(nodes[n]).inYoungList then old(youngNodes) + [n] else old(youngNodes)
    {
      if isYoung && !nodes[n].inYoungList {
        youngNodes := youngNodes + [n];
        nodes := nodes[n := nodes[n].(inYoungList := true)];
      }
      nodes := nodes[n := nodes[n].(data := NULL, state := Normal, referent := value)];
    }

    method EnsureFree()
      requires Valid()
      modifies this
      ensures Valid() && firstFree != NULL
      ensures Cells(Fields()) == Cells(old(Fields())) && handlesCount == old(handlesCount)
      ensures youngNodes == old(youngNodes)
    {
      if firstFree == NULL {
        WithBlockOk(Fields(), usedBlocks);
        free := BlockNodes(|nodes|);
        AddBlock();
      }
    }

    /** Allocates a node for a value; the new cell is distinct from every cell in use. */
    method Create(value: Word, isYoung: bool) returns (n: nat)
      requires Valid()
      modifies this
      ensures Valid()
      ensures n !in Cells(old(Fields())) && n < |nodes|
      ensures nodes[n].referent == value && nodes[n].state == Normal && nodes[n].data == NULL
      ensures Cells(Fields()) == Cells(old(Fields()))[n := nodes[n]]
      ensures handlesCount == old(handlesCount) + 1
      ensures youngNodes == if isYoung && n !in old(youngNodes) then old(youngNodes) + [n] else old(youngNodes)
      ensures nodes[n].inYoungList <==> n in youngNodes
    {
      EnsureFree();
      TakenOk(Fields(), free, usedBlocks, value, isYoung);
      FirstIsFree(Fields(), free, usedBlocks);
      ghost var sp := Fields();
      n := Take(value, isYoung);
      free := free[1..];
      TakenFields(sp, value, isYoung);
      TakenCells(sp, n, nodes[n], Fields());
    }

    method Uncount(n: nat)
      requires n < |nodes| == |used| * BLOCK_SIZE && nodes[n].index == n % BLOCK_SIZE
      requires LinksInRange(Fields(), n / BLOCK_SIZE) && used[n / BLOCK_SIZE] > 0 && handlesCount > 0
      requires n / BLOCK_SIZE in usedBlocks
      modifies this
      ensures Fields() == ReleasedSpace(old(Fields()), n)
      ensures free == old(free)
      ensures usedBlocks == ListDown(old(Fields()), old(usedBlocks), n / BLOCK_SIZE)
    {
      nodes := nodes[n := Released(nodes[n], firstFree)];
      firstFree := n;
      DecreaseUsage((n - nodes[n].index) / BLOCK_SIZE);
      handlesCount := handlesCount - 1;
    }

    /** Returns a node in use to the free list. */
    method Release(n: nat)
      requires Valid() && n < |nodes| && !nodes[n].state.Free?
      modifies this
      ensures Valid()
      ensures CanRelease(old(Fields()), n) && n / BLOCK_SIZE in old(usedBlocks)
      ensures Fields() == ReleasedSpace(old(Fields()), n)
      ensures nodes == old(nodes)[n := old(nodes[n]).(referent := ZAP, state := Free, data := old(firstFree))]
      ensures firstFree == n
      ensures Cells(Fields()) == Cells(old(Fields())) - {n}
      ensures usedBlocks == ListDown(old(Fields()), old(usedBlocks), n / BLOCK_SIZE)
      ensures forall isYoung: Word -> bool :: Covered(old(nodes), isYoung) ==> Covered(nodes, isYoung)
    {
      ghost var sp := Fields();
      ReleasedOk(sp, free, usedBlocks, n);
      Uncount(n);
      free := [n] + free;
      ReleasedFields(sp, n);
      ReleasedCells(sp, n, nodes[n], Fields());
      forall isYoung: Word -> bool | Covered(sp.nodes, isYoung) ensures Covered(nodes, isYoung) {
        ReleasedCovered(sp, n, isYoung);
      }
    }

    /** Frees the node under the collector's iterator. */
    method ReleaseVisited(n: nat, ghost done: seq<nat>, ghost tail: seq<nat>)
      requires Valid() && n < |nodes| && !nodes[n].state.Free?
      requires Iterating(Fields(), usedBlocks, done, tail) && tail[0] == n / BLOCK_SIZE
      modifies this
      ensures Valid() && |used| == old(|used|)
      ensures nodes == old(nodes)[n := Released(old(nodes[n]), old(firstFree))]
      ensures Iterating(Fields(), usedBlocks, done, tail)
      ensures SameLinks(old(nextUsed), nextUsed, tail)
    {
      ghost var sp := Fields();
      ReleasedOk(sp, free, usedBlocks, n);
      ReleasedFields(sp, n);
      ReleaseUnderIterator(sp, done, tail, n);
      Release(n);
    }

    method MarkNearDeath(n: nat)
      requires Valid() && n < |nodes| && !nodes[n].state.Free?
      modifies this`nodes
      ensures Valid()
      ensures nodes == old(nodes)[n := old(nodes[n]).(referent := CALLBACK_ZAP, state := NearDeath)]
    {
      NearDeathOk(Fields(), free, usedBlocks, n);
      nodes := nodes[n := nodes[n].(referent := CALLBACK_ZAP, state := NearDeath)];
    }

    /** Looks at one node on behalf of the collector. */
    method ProcessNode(n: nat, ghost done: seq<nat>, ghost tail: seq<nat>, dead: set<nat>)
      returns (cleared: bool, pending: bool)
      requires Valid() && n < |nodes|
      requires Iterating(Fields(), usedBlocks, done, tail) && tail[0] == n / BLOCK_SIZE
      modifies this, memory
      ensures Valid() && |nodes| == old(|nodes|) && |used| == old(|used|)
      ensures Processed(old(nodes[n]), nodes[n], old(Dies(nodes, dead, n)))
      ensures nodes == old(nodes)[n := nodes[n]]
      ensures Iterating(Fields(), usedBlocks, done, tail)
      ensures SameLinks(old(nextUsed), nextUsed, tail)
      ensures cleared <==> old(Dies(nodes, dead, n) && nodes[n].weakness.NoCallback?)
      ensures pending <==> old(Dies(nodes, dead, n) && !nodes[n].weakness.NoCallback?)
      ensures memory.slots == if cleared then old(memory.slots)[old(nodes[n]).data := NULL] else old(memory.slots)
    {
      cleared, pending := false, false;
      if nodes[n].state.Weak? && n in dead {
        if nodes[n].weakness.NoCallback? {
          memory.slots := memory.slots[nodes[n].data := NULL];
          ReleaseVisited(n, done, tail);
          cleared := true;
        } else {
          MarkNearDeath(n);
          pending := true;
        }
      }
    }

    /** Compacts the young list in place, keeping the nodes whose referents are still young. */
    method CompactYoung(isYoung: Word -> bool)
      requires forall i :: 0 <= i < |youngNodes| ==> youngNodes[i] < |nodes|
      requires Distinct(youngNodes)
      modifies this`nodes, this`youngNodes
      ensures Unflagged(old(nodes), nodes, old(youngNodes), isYoung)
      ensures youngNodes == KeptYoung(old(nodes), old(youngNodes), isYoung)
    {
      ghost var before, listed := nodes, youngNodes;
      var last, i := 0, 0;
      while i < |youngNodes|
        invariant Compacting(before, listed, nodes, youngNodes, last, i, isYoung)
      {
        var n := youngNodes[i];
        CompactOne(before, listed, nodes, youngNodes, last, i, isYoung);
        if (nodes[n].state.Normal? || nodes[n].state.Weak?) && isYoung(nodes[n].referent) {
          youngNodes := youngNodes[last := n];
          last := last + 1;
        } else {
          nodes := nodes[n := nodes[n].(inYoungList := false)];
        }
        i := i + 1;
      }
      assert listed[..i] == listed;
      youngNodes := youngNodes[..last];
    }

    method UpdateListOfYoungNodes(isYoung: Word -> bool)
      requires Valid() && Covered(nodes, isYoung)
      modifies this
      ensures Valid() && Covered(nodes, isYoung)
      ensures Unflagged(old(nodes), nodes, old(youngNodes), isYoung)
      ensures Distinct(youngNodes)
      ensures forall n: nat :: n in youngNodes <==>
                n < |nodes| && nodes[n].state != Free && nodes[n].state != NearDeath && isYoung(nodes[n].referent)
      ensures forall n: nat :: n < |nodes| ==>
                nodes[n] == old(nodes)[n].(inYoungList := n in youngNodes)
    {
      ghost var sp := Fields();
      CompactYoung(isYoung);
      UpkeepOk(sp, free, usedBlocks, Fields(), isYoung);
      YoungListExact(sp.nodes, nodes, sp.youngNodes, isYoung);
    }

    /** How far the pass has come in block `b`: what it did to nodes and handles so far. */
    ghost predicate PassedTo(first: Space, b: nat, index: nat, done: seq<nat>, tail: seq<nat>, dead: set<nat>,
                             reset: seq<nat>, pending: seq<nat>, slots: map<int, int>)
      reads this, memory
    {
      && Valid() && b < |used| == |first.used| && tail != [] && tail[0] == b && index <= BLOCK_SIZE
      && InBlock(first, Fields(), usedBlocks, dead, b * BLOCK_SIZE, b * BLOCK_SIZE + index, done, tail, reset, pending)
      && memory.slots == Nulled(slots, first.nodes, reset)
    }

    method ProcessAt(n: nat, ghost first: Space, ghost lo: nat, ghost done: seq<nat>, ghost tail: seq<nat>,
                     dead: set<nat>, reset: seq<nat>, pending: seq<nat>, ghost slots: map<int, int>)
      returns (reset': seq<nat>, pending': seq<nat>)
      requires Valid() && lo <= n < |nodes|
      requires InBlock(first, Fields(), usedBlocks, dead, lo, n, done, tail, reset, pending) && tail[0] == n / BLOCK_SIZE
      requires memory.slots == Nulled(slots, first.nodes, reset)
      modifies this, memory
      ensures Valid() && InBlock(first, Fields(), usedBlocks, dead, lo, n + 1, done, tail, reset', pending')
      ensures memory.slots == Nulled(slots, first.nodes, reset')
    {
      ghost var before := nodes;
      var cleared, called := ProcessNode(n, done, tail, dead);
      RangeGrows(first.nodes, before, nodes, dead, lo, n);
      FoundGrows(first.nodes, dead, lo, n, reset, pending);
      reset' := if cleared then reset + [n] else reset;
      pending' := if called then pending + [n] else pending;
      assert cleared ==> reset'[..|reset|] == reset;
    }

    /** Looks at node `index` of block `b`. */
    method ProcessNth(b: nat, index: nat, ghost first: Space, ghost done: seq<nat>, ghost tail: seq<nat>,
                      dead: set<nat>, reset: seq<nat>, pending: seq<nat>, ghost slots: map<int, int>)
      returns (reset': seq<nat>, pending': seq<nat>)
      requires index < BLOCK_SIZE && PassedTo(first, b, index, done, tail, dead, reset, pending, slots)
      modifies this, memory
      ensures PassedTo(first, b, index + 1, done, tail, dead, reset', pending', slots)
    {
      NodeOfBlock(b, index, |used|);
      reset', pending' :=
        ProcessAt(b * BLOCK_SIZE + index, first, b * BLOCK_SIZE, done, tail, dead, reset, pending, slots);
    }

    /** Looks at all nodes of the block under the iterator. */
    method ProcessBlock(b: nat, ghost done: seq<nat>, ghost tail: seq<nat>, dead: set<nat>)
      returns (reset: seq<nat>, pending: seq<nat>)
      requires Valid() && b < |used|
      requires Iterating(Fields(), usedBlocks, done, tail) && tail[0] == b
      modifies this, memory
      ensures PassedTo(old(Fields()), b, BLOCK_SIZE, done, tail, dead, reset, pending, old(memory.slots))
    {
      reset, pending := [], [];
      ghost var first, slots := Fields(), memory.slots;
      InBlockStarts(first, usedBlocks, dead, b * BLOCK_SIZE, done, tail);
      for index := 0 to BLOCK_SIZE
        invariant PassedTo(first, b, index, done, tail, dead, reset, pending, slots)
      {
        reset, pending := ProcessNth(b, index, first, done, tail, dead, reset, pending, slots);
      }
    }

    method ProcessNext(block: nat, ghost first: seq<Node>, ghost list: seq<nat>, ghost k: nat, ghost done: seq<nat>,
                       dead: set<nat>, ghost reset: seq<nat>, ghost pending: seq<nat>, ghost slots: map<int, int>)
      returns (r: seq<nat>, p: seq<nat>, ghost done': seq<nat>)
      requires Valid() && Progress(first, Fields(), usedBlocks, dead, list, k, done, block, reset, pending)
      requires memory.slots == Nulled(slots, first, reset)
      modifies this, memory
      ensures Valid() && |used| == old(|used|) && k < |list| && block < |nextUsed|
      ensures Progress(first, Fields(), usedBlocks, dead, list, k + 1, done', nextUsed[block], reset + r, pending + p)
      ensures memory.slots == Nulled(slots, first, reset + r)
    {
      WalkStands(Fields(), usedBlocks, list, k, done, block);
      ghost var before, now := Fields(), usedBlocks;
      r, p := ProcessBlock(block, done, list[k..], dead);
      ProgressStep(first, before, Fields(), now, usedBlocks, dead, list, k, done, block, reset, pending, r, p);
      done' := if used[block] > 0 then done + [block] else done;
      BlockNulled(first, before.nodes, dead, list, k, block, slots, reset, r, p);
    }

    /** The collector's pass over all weak nodes.  It unlinks blocks from the list it walks
        along, and still reaches every node: each weak node whose referent is dead is freed
        if it has no callback, and otherwise left for its callback; every other node is as
        before.  `reset` and `pending` list the two kinds of nodes, each once. */
    method IterateWeakRootsForPhantomHandles(dead: set<nat>) returns (reset: seq<nat>, pending: seq<nat>)
      requires Valid()
      modifies this, memory
      ensures Valid() && |nodes| == old(|nodes|)
      ensures WeakPass(old(nodes), nodes, dead, reset, pending)
      ensures forall n <- reset :: n < |nodes|
      ensures memory.slots == Nulled(old(memory.slots), old(nodes), reset)
      ensures old(Owners(memory.slots, nodes)) ==> OwnersEmptied(old(memory.slots), memory.slots, old(nodes), dead)
    {
      reset, pending := [], [];
      ghost var sp, list := Fields(), usedBlocks;
      ghost var k: nat, done: seq<nat> := 0, [];
      var block := firstUsedBlock;
      WalkStarts(sp, list);
      while block != NULL
        invariant Valid() && |used| == |sp.used|
        invariant Progress(sp.nodes, Fields(), usedBlocks, dead, list, k, done, block, reset, pending)
        invariant memory.slots == Nulled(old(memory.slots), sp.nodes, reset)
        decreases |list| - k
      {
        ghost var done';
        var r, p;
        r, p, done' := ProcessNext(block, sp.nodes, list, k, done, dead, reset, pending, old(memory.slots));
        reset, pending, done := reset + r, pending + p, done';
        block := nextUsed[block];
        k := k + 1;
      }
      ProgressEnds(sp, old(free), list, Fields(), usedBlocks, dead, k, done, reset, pending);
      WeakPassEnds(sp.nodes, nodes, dead, reset, pending);
      if old(Owners(memory.slots, nodes)) {
        DeadOwnersEmptied(old(memory.slots), sp.nodes, dead, reset, pending);
      }
    }
  }

  /** The nodes of a block that is reached are as they were at the start of the pass. */
  lemma BlockNulled(first: seq<Node>, before: seq<Node>, dead: set<nat>, list: seq<nat>, k: nat, block: nat,
                    slots: map<int, int>, reset: seq<nat>, r: seq<nat>, p: seq<nat>)
    requires k < |list| && list[k] == block && Distinct(list)
    requires ProcessedBlocks(first, before, dead, list[..k])
    requires forall n <- reset :: n < |first|
    requires Found(before, dead, block * BLOCK_SIZE, (block + 1) * BLOCK_SIZE, r, p)
    ensures forall n <- r :: n < |first| == |before|
    ensures forall n <- reset + r :: n < |first|
    ensures Nulled(Nulled(slots, first, reset), before, r) == Nulled(slots, first, reset + r)
  {
    assert block !in list[..k];
    forall n <- r ensures n < |first| == |before| && first[n].data == before[n].data {
      assert n / BLOCK_SIZE == block;
    }
    NulledSame(Nulled(slots, first, reset), before, first, r);
    NulledConcat(slots, first, reset, r);
  }

  /** The first `i` listed nodes were looked at, and those kept are the first `last` of `young`. */
  ghost predicate Compacting(before: seq<Node>, listed: seq<nat>, nodes: seq<Node>, young: seq<nat>, last: nat, i: nat,
                             isYoung: Word -> bool) {
    && last <= i <= |young| == |listed| && young[i..] == listed[i..]
    && (forall k :: 0 <= k < |listed| ==> listed[k] < |before|)
    && young[..last] == KeptYoung(before, listed[..i], isYoung)
    && Unflagged(before, nodes, listed[..i], isYoung)
  }

  lemma CompactOne(before: seq<Node>, listed: seq<nat>, nodes: seq<Node>, young: seq<nat>, last: nat, i: nat,
                   isYoung: Word -> bool)
    requires Compacting(before, listed, nodes, young, last, i, isYoung) && i < |listed| && Distinct(listed)
    ensures young[i] < |nodes|
    ensures var n := young[i];
            if YoungRoot(nodes[n], isYoung) then
              Compacting(before, listed, nodes, young[last := n], last + 1, i + 1, isYoung)
            else
              Compacting(before, listed, nodes[n := nodes[n].(inYoungList := false)], young, last, i + 1, isYoung)
  {
    assert young[i] == young[i..][0] == listed[i];
    YoungStep(before, nodes, listed, i, isYoung);
    CompactStep(young, listed, last, i, listed[i]);
  }

  lemma UnflaggedStep(before: seq<Node>, nodes: seq<Node>, listed: seq<nat>, n: nat, isYoung: Word -> bool)
    requires n < |before| && n !in listed && Unflagged(before, nodes, listed, isYoung)
    ensures nodes[n] == before[n]
    ensures if YoungRoot(before[n], isYoung) then Unflagged(before, nodes, listed + [n], isYoung)
            else Unflagged(before, nodes[n := nodes[n].(inYoungList := false)], listed + [n], isYoung)
  {}

  /** One more listed node, with its flag cleared unless it is kept. */
  lemma YoungStep(before: seq<Node>, nodes: seq<Node>, listed: seq<nat>, i: nat, isYoung: Word -> bool)
    requires i < |listed| && Distinct(listed) && forall k :: 0 <= k < |listed| ==> listed[k] < |before|
    requires Unflagged(before, nodes, listed[..i], isYoung)
    ensures var n := listed[i];
            && nodes[n] == before[n]
            && (if YoungRoot(before[n], isYoung) then
                  && KeptYoung(before, listed[..i + 1], isYoung) == KeptYoung(before, listed[..i], isYoung) + [n]
                  && Unflagged(before, nodes, listed[..i + 1], isYoung)
                else
                  && KeptYoung(before, listed[..i + 1], isYoung) == KeptYoung(before, listed[..i], isYoung)
                  && Unflagged(before, nodes[n := nodes[n].(inYoungList := false)], listed[..i + 1], isYoung))
  {
    var n := listed[i];
    assert listed[..i + 1] == listed[..i] + [n] && listed[..i + 1][..i] == listed[..i];
    UnflaggedStep(before, nodes, listed[..i], n, isYoung);
  }

  /** Writing node `n` to the front part leaves the part not yet read as it is. */
  lemma CompactStep(young: seq<nat>, listed: seq<nat>, last: nat, i: nat, n: nat)
    requires last <= i < |young| == |listed| && young[i..] == listed[i..]
    ensures young[last := n][..last + 1] == young[..last] + [n]
    ensures young[last := n][i + 1..] == listed[i + 1..] && young[i + 1..] == listed[i + 1..]
  {
    assert young[i..][1..] == young[i + 1..] && listed[i..][1..] == listed[i + 1..];
  }

  lemma FirstIsFree(sp: Space, free: seq<nat>, list: seq<nat>)
    requires SpaceOk(sp, free, list) && sp.firstFree != NULL
    ensures 0 <= sp.firstFree < |sp.nodes|
    ensures sp.nodes[sp.firstFree].state.Free? && sp.nodes[sp.firstFree].index == sp.firstFree % BLOCK_SIZE
  {}

  lemma NearDeathOk(sp: Space, free: seq<nat>, list: seq<nat>, n: nat)
    requires SpaceOk(sp, free, list) && n < |sp.nodes| && !sp.nodes[n].state.Free?
    ensures var node := sp.nodes[n].(referent := CALLBACK_ZAP, state := NearDeath);
            SpaceOk(sp.(nodes := sp.nodes[n := node]), free, list)
  {
    var node := sp.nodes[n].(referent := CALLBACK_ZAP, state := NearDeath);
    SameUseOk(sp, free, list, n, node);
  }

  /** Changing a used node without freeing it disturbs neither list nor count. */
  lemma SameUseOk(sp: Space, free: seq<nat>, list: seq<nat>, n: nat, node: Node)
    requires SpaceOk(sp, free, list) && n < |sp.nodes| && !sp.nodes[n].state.Free? && !node.state.Free?
    requires node.index == sp.nodes[n].index && node.inYoungList == sp.nodes[n].inYoungList
    ensures SpaceOk(sp.(nodes := sp.nodes[n := node]), free, list)
  {
    var after := sp.nodes[n := node];
    assert FreeListOk(after, sp.firstFree, free) by { SameFreeList(sp.nodes, sp.firstFree, free, n, node); }
    CountsUpdate(sp.nodes, sp.used, sp.handlesCount, n, node);
    assert sp.used[n / BLOCK_SIZE := sp.used[n / BLOCK_SIZE]] == sp.used;
  }

  lemma SameFreeList(nodes: seq<Node>, firstFree: int, free: seq<nat>, n: nat, node: Node)
    requires FreeListOk(nodes, firstFree, free) && n < |nodes| && !nodes[n].state.Free? && !node.state.Free?
    ensures FreeListOk(nodes[n := node], firstFree, free)
  {
    var after := nodes[n := node];
    forall i: nat | i < |free| ensures FreeLink(after, free, i) {
      assert FreeLink(nodes, free, i);
    }
  }
}
