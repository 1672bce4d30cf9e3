/**
 The storage cells behind persistent and global handles: nodes in blocks of 256, a free
 list threaded through the nodes, a doubly linked list of the blocks in use, and the list
 of nodes that hold young objects.  A pointer to a node or block is its number, and -1 is
 the null pointer; node `n` is entry `n % 256` of block `n / 256`.
 */
module GlobalNodes {
  import opened Basics

  type Word = int

  const BLOCK_SIZE: nat := 256
  const NULL := -1
  const ZAP: Word := 0x1baffed00baffedf

  datatype NodeState = Free | Normal | Weak | NearDeath

  datatype WeaknessType = WithCallback | NoCallback

  /** `data` is the next free node while the node is free, and the weak parameter otherwise. */
  datatype Node = Node(referent: Word, index: nat, state: NodeState, inYoungList: bool,
                       weakness: WeaknessType, data: int)

  // ---------------------------------------------------------------- sequences

  function Next(s: seq<nat>, i: nat): int
    requires i < |s|
  {
    if i + 1 < |s| then s[i + 1] else NULL
  }

  function Previous(s: seq<nat>, i: nat): int
    requires i < |s|
  {
    if 0 < i then s[i - 1] else NULL
  }

  function First(s: seq<nat>): int {
    if s == [] then NULL else s[0]
  }

  // ---------------------------------------------------------------- the free list

  ghost predicate FreeLink(nodes: seq<Node>, free: seq<nat>, i: nat) {
    i < |free| && free[i] < |nodes| && nodes[free[i]].data == Next(free, i)
  }

  /** `free` lists exactly the free nodes, in the order of the links. */
  ghost predicate FreeListOk(nodes: seq<Node>, firstFree: int, free: seq<nat>) {
    && firstFree == First(free)
    && Distinct(free)
    && (forall i :: 0 <= i < |free| ==> free[i] < |nodes|)
    && (forall i: nat :: i < |free| ==> FreeLink(nodes, free, i))
    && (forall n: nat :: n < |nodes| ==> (nodes[n].state.Free? <==> n in free))
  }

  /** Taking the first free node and using it. */
  lemma FreeListPop(nodes: seq<Node>, firstFree: int, free: seq<nat>, node: Node)
    requires FreeListOk(nodes, firstFree, free) && firstFree != NULL
    requires !node.state.Free?
    ensures 0 <= firstFree < |nodes|
    ensures FreeListOk(nodes[firstFree := node], nodes[firstFree].data, free[1..])
  {
    assert FreeLink(nodes, free, 0);
    var rest, after := free[1..], nodes[firstFree := node];
    forall i: nat | i < |rest| ensures FreeLink(after, rest, i) {
      assert FreeLink(nodes, free, i + 1);
    }
    assert forall n: nat :: n in free <==> n == free[0] || n in rest;
    assert firstFree !in rest;
  }

  /** Putting a used node back in front. */
  lemma FreeListPush(nodes: seq<Node>, firstFree: int, free: seq<nat>, n: nat, node: Node)
    requires FreeListOk(nodes, firstFree, free)
    requires n < |nodes| && !nodes[n].state.Free?
    requires node.state.Free? && node.data == firstFree
    ensures FreeListOk(nodes[n := node], n, [n] + free)
  {
    var more, after := [n] + free, nodes[n := node];
    assert n !in free;
    forall i: nat | i < |more| ensures FreeLink(after, more, i) {
      if 0 < i {
        assert FreeLink(nodes, free, i - 1);
      }
    }
  }

  // ---------------------------------------------------------------- the list of used blocks

  ghost predicate BlockLink(next: seq<int>, prev: seq<int>, list: seq<nat>, i: nat) {
    && i < |list| && list[i] < |next| == |prev|
    && next[list[i]] == Next(list, i) && prev[list[i]] == Previous(list, i)
  }

  /** `list` is the doubly linked list that starts at `first`. */
  ghost predicate ListOk(next: seq<int>, prev: seq<int>, first: int, list: seq<nat>) {
    && |next| == |prev|
    && first == First(list)
    && Distinct(list)
    && (forall i :: 0 <= i < |list| ==> list[i] < |next|)
    && (forall i: nat :: i < |list| ==> BlockLink(next, prev, list, i))
  }

  /** The new links once block `b` is put in front. */
  function AddNext(next: seq<int>, first: int, b: nat): seq<int>
    requires b < |next|
  {
    next[b := first]
  }

  function AddPrev(prev: seq<int>, first: int, b: nat): seq<int>
    requires b < |prev| && (first != NULL ==> 0 <= first < |prev|)
  {
    if first != NULL then prev[b := NULL][first := b] else prev[b := NULL]
  }

  lemma ListAdded(next: seq<int>, prev: seq<int>, first: int, list: seq<nat>, b: nat)
    requires ListOk(next, prev, first, list)
    requires b < |next| && b !in list
    ensures first != NULL ==> 0 <= first < |prev|
    ensures ListOk(AddNext(next, first, b), AddPrev(prev, first, b), b, [b] + list)
  {
    if list != [] {
      assert BlockLink(next, prev, list, 0);
    }
    var more := [b] + list;
    var next', prev' := AddNext(next, first, b), AddPrev(prev, first, b);
    forall i: nat | i < |more| ensures BlockLink(next', prev', more, i) {
      if 0 < i {
        assert BlockLink(next, prev, list, i - 1);
      }
    }
  }

  /** The new links once block `b` is unlinked; its own links stay as they are. */
  function RemoveNext(next: seq<int>, prev: seq<int>, b: nat): seq<int>
    requires b < |next| == |prev| && (prev[b] != NULL ==> 0 <= prev[b] < |next|)
  {
    if prev[b] != NULL then next[prev[b] := next[b]] else next
  }

  function RemovePrev(next: seq<int>, prev: seq<int>, b: nat): seq<int>
    requires b < |next| == |prev| && (next[b] != NULL ==> 0 <= next[b] < |prev|)
  {
    if next[b] != NULL then prev[next[b] := prev[b]] else prev
  }

  lemma ListRemoved(next: seq<int>, prev: seq<int>, first: int, list: seq<nat>, k: nat)
    requires ListOk(next, prev, first, list) && k < |list|
    ensures var b := list[k];
            && (prev[b] != NULL ==> 0 <= prev[b] < |next|)
            && (next[b] != NULL ==> 0 <= next[b] < |next|)
            && ListOk(RemoveNext(next, prev, b), RemovePrev(next, prev, b),
                      if b == first then next[b] else first, Without(list, k))
            && b !in Without(list, k)
  {
    var b, less := list[k], Without(list, k);
    assert BlockLink(next, prev, list, k);
    if k + 1 < |list| {
      assert BlockLink(next, prev, list, k + 1);
    }
    if 0 < k {
      assert BlockLink(next, prev, list, k - 1);
      assert BlockLink(next, prev, list, 0);
    }
    var next', prev' := RemoveNext(next, prev, b), RemovePrev(next, prev, b);
    forall i: nat | i < |less| ensures BlockLink(next', prev', less, i) {
      var j := if i < k then i else i + 1;
      assert less[i] == list[j];
      assert BlockLink(next, prev, list, j);
    }
  }

  // ---------------------------------------------------------------- counting

  function InUse(n: Node): nat {
    if n.state.Free? then 0 else 1
  }

  function CountUsed(nodes: seq<Node>, lo: nat, hi: nat): (c: nat)
    requires lo <= hi <= |nodes|
    ensures c <= hi - lo
    decreases hi
  {
    if lo == hi then 0 else CountUsed(nodes, lo, hi - 1) + InUse(nodes[hi - 1])
  }

  lemma {:induction false} CountUpdate(nodes: seq<Node>, lo: nat, hi: nat, n: nat, node: Node)
    requires lo <= hi <= |nodes| && n < |nodes|
    ensures CountUsed(nodes[n := node], lo, hi) ==
            CountUsed(nodes, lo, hi) + (if lo <= n < hi then InUse(node) - InUse(nodes[n]) else 0)
    decreases hi
  {
    if lo < hi {
      CountUpdate(nodes, lo, hi - 1, n, node);
    }
  }

  lemma {:induction false} CountMember(nodes: seq<Node>, lo: nat, hi: nat, n: nat)
    requires lo <= n < hi <= |nodes| && !nodes[n].state.Free?
    ensures CountUsed(nodes, lo, hi) > 0
    decreases hi
  {
    if n < hi - 1 {
      CountMember(nodes, lo, hi - 1, n);
    }
  }

  lemma {:induction false} CountPrefix(nodes: seq<Node>, more: seq<Node>, lo: nat, hi: nat)
    requires lo <= hi <= |nodes|
    ensures CountUsed(nodes + more, lo, hi) == CountUsed(nodes, lo, hi)
    decreases hi
  {
    if lo < hi {
      CountPrefix(nodes, more, lo, hi - 1);
    }
  }

  lemma {:induction false} CountNone(nodes: seq<Node>, lo: nat, hi: nat)
    requires lo <= hi <= |nodes|
    requires forall n :: lo <= n < hi ==> nodes[n].state.Free?
    ensures CountUsed(nodes, lo, hi) == 0
    decreases hi
  {
    if lo < hi {
      CountNone(nodes, lo, hi - 1);
    }
  }

  lemma {:induction false} CountSplit(nodes: seq<Node>, lo: nat, mid: nat, hi: nat)
    requires lo <= mid <= hi <= |nodes|
    ensures CountUsed(nodes, lo, hi) == CountUsed(nodes, lo, mid) + CountUsed(nodes, mid, hi)
    decreases hi
  {
    if mid < hi {
      CountSplit(nodes, lo, mid, hi - 1);
    }
  }

  lemma {:induction false} CountIsSize(nodes: seq<Node>, lo: nat, hi: nat)
    requires lo <= hi <= |nodes|
    ensures CountUsed(nodes, lo, hi) == |set n: nat | lo <= n < hi && nodes[n].state != Free|
    decreases hi
  {
    var inUse := set n: nat | lo <= n < hi && nodes[n].state != Free;
    if lo == hi {
      assert inUse == {};
    } else {
      CountIsSize(nodes, lo, hi - 1);
      var rest := set n: nat | lo <= n < hi - 1 && nodes[n].state != Free;
      assert inUse == if nodes[hi - 1].state != Free then rest + {hi - 1} else rest;
    }
  }

  ghost predicate CountsOk(nodes: seq<Node>, used: seq<nat>, handles: nat) {
    && |nodes| == |used| * BLOCK_SIZE
    && (forall b :: 0 <= b < |used| ==> used[b] == CountUsed(nodes, b * BLOCK_SIZE, (b + 1) * BLOCK_SIZE))
    && handles == CountUsed(nodes, 0, |nodes|)
  }

  /** Changing one node moves its own block's count and the total, and no other count. */
  lemma CountsUpdate(nodes: seq<Node>, used: seq<nat>, handles: nat, n: nat, node: Node)
    requires CountsOk(nodes, used, handles) && n < |nodes|
    ensures var b, delta := n / BLOCK_SIZE, InUse(node) - InUse(nodes[n]);
            && b < |used| && used[b] + delta >= 0 && handles + delta >= 0
            && CountsOk(nodes[n := node], used[b := used[b] + delta], handles + delta)
  {
    var b, delta := n / BLOCK_SIZE, InUse(node) - InUse(nodes[n]);
    CountUpdate(nodes, 0, |nodes|, n, node);
    forall c | 0 <= c < |used|
      ensures CountUsed(nodes[n := node], c * BLOCK_SIZE, (c + 1) * BLOCK_SIZE) ==
              used[c] + if c == b then delta else 0
    {
      CountUpdate(nodes, c * BLOCK_SIZE, (c + 1) * BLOCK_SIZE, n, node);
    }
  }

  lemma CountsUp(nodes: seq<Node>, used: seq<nat>, handles: nat, n: nat, node: Node)
    requires CountsOk(nodes, used, handles) && n < |nodes|
    requires nodes[n].state.Free? && !node.state.Free?
    ensures var b := n / BLOCK_SIZE;
            b < |used| && CountsOk(nodes[n := node], used[b := used[b] + 1], handles + 1)
  {
    CountsUpdate(nodes, used, handles, n, node);
  }

  lemma CountsDown(nodes: seq<Node>, used: seq<nat>, handles: nat, n: nat, node: Node)
    requires CountsOk(nodes, used, handles) && n < |nodes|
    requires !nodes[n].state.Free? && node.state.Free?
    ensures var b := n / BLOCK_SIZE;
            b < |used| && used[b] > 0 && handles > 0 &&
            CountsOk(nodes[n := node], used[b := used[b] - 1], handles - 1)
  {
    CountsUpdate(nodes, used, handles, n, node);
  }

  lemma BlockCounted(nodes: seq<Node>, more: seq<Node>, used: seq<nat>, handles: nat)
    requires CountsOk(nodes, used, handles)
    requires |more| == BLOCK_SIZE && forall i :: 0 <= i < |more| ==> more[i].state.Free?
    ensures CountsOk(nodes + more, used + [0], handles)
  {
    var all := nodes + more;
    CountPrefix(nodes, more, 0, |nodes|);
    CountNone(all, |nodes|, |all|);
    CountSplit(all, 0, |nodes|, |all|);
    forall b | 0 <= b < |used|
      ensures CountUsed(all, b * BLOCK_SIZE, (b + 1) * BLOCK_SIZE) == used[b]
    {
      CountPrefix(nodes, more, b * BLOCK_SIZE, (b + 1) * BLOCK_SIZE);
    }
  }

  // ---------------------------------------------------------------- the node space

  /** The fields of the node space; `used`, `nextUsed` and `prevUsed` are fields of the blocks. */
  datatype Space = Space(nodes: seq<Node>, used: seq<nat>, nextUsed: seq<int>, prevUsed: seq<int>,
                         firstFree: int, firstUsedBlock: int, handlesCount: nat, youngNodes: seq<nat>)

  ghost predicate BlocksOk(sp: Space, list: seq<nat>) {
    && |sp.nextUsed| == |sp.used|
    && ListOk(sp.nextUsed, sp.prevUsed, sp.firstUsedBlock, list)
    && (forall b: nat :: b < |sp.used| ==> (sp.used[b] > 0 <==> b in list))
  }

  ghost predicate YoungOk(nodes: seq<Node>, young: seq<nat>) {
    && Distinct(young)
    && (forall i :: 0 <= i < |young| ==> young[i] < |nodes|)
    && (forall n: nat :: n < |nodes| ==> (nodes[n].inYoungList <==> n in young))
  }

  ghost predicate IndexOk(nodes: seq<Node>) {
    forall n: nat :: n < |nodes| ==> nodes[n].index == n % BLOCK_SIZE
  }

  /** `free` and `list` are the two linked lists, read off their links. */
  ghost predicate SpaceOk(sp: Space, free: seq<nat>, list: seq<nat>) {
    && FreeListOk(sp.nodes, sp.firstFree, free)
    && CountsOk(sp.nodes, sp.used, sp.handlesCount)
    && BlocksOk(sp, list)
    && YoungOk(sp.nodes, sp.youngNodes)
    && IndexOk(sp.nodes)
  }

  /** The cells in use: what the handles above see of the node space. */
  ghost function Cells(sp: Space): map<nat, Node> {
    map n: nat | n < |sp.nodes| && !sp.nodes[n].state.Free? :: sp.nodes[n]
  }

  const EMPTY_SPACE := Space([], [], [], [], NULL, NULL, 0, [])

  // ---------------------------------------------------------------- usage of a block

  function UsageUp(sp: Space, b: nat): Space
    requires b < |sp.used| == |sp.nextUsed| == |sp.prevUsed|
    requires sp.firstUsedBlock != NULL ==> 0 <= sp.firstUsedBlock < |sp.prevUsed|
  {
    var up := sp.(used := sp.used[b := sp.used[b] + 1]);
    if sp.used[b] == 0 then
      up.(nextUsed := AddNext(sp.nextUsed, sp.firstUsedBlock, b),
          prevUsed := AddPrev(sp.prevUsed, sp.firstUsedBlock, b), firstUsedBlock := b)
    else up
  }

  /** The list of used blocks after `UsageUp`. */
  ghost function ListUp(sp: Space, list: seq<nat>, b: nat): seq<nat>
    requires b < |sp.used|
  {
    if sp.used[b] == 0 then [b] + list else list
  }

  lemma UsageUpOk(sp: Space, list: seq<nat>, b: nat)
    requires BlocksOk(sp, list) && b < |sp.used|
    ensures sp.firstUsedBlock != NULL ==> 0 <= sp.firstUsedBlock < |sp.prevUsed|
    ensures BlocksOk(UsageUp(sp, b), ListUp(sp, list, b))
  {
    if list != [] {
      assert BlockLink(sp.nextUsed, sp.prevUsed, list, 0);
    }
    if sp.used[b] == 0 {
      ListAdded(sp.nextUsed, sp.prevUsed, sp.firstUsedBlock, list, b);
    }
  }

  predicate LinksInRange(sp: Space, b: nat) {
    && b < |sp.used| == |sp.nextUsed| == |sp.prevUsed|
    && (sp.nextUsed[b] != NULL ==> 0 <= sp.nextUsed[b] < |sp.used|)
    && (sp.prevUsed[b] != NULL ==> 0 <= sp.prevUsed[b] < |sp.used|)
  }

  function UsageDown(sp: Space, b: nat): Space
    requires LinksInRange(sp, b) && sp.used[b] > 0
  {
    var down := sp.(used := sp.used[b := sp.used[b] - 1]);
    if sp.used[b] == 1 then
      down.(nextUsed := RemoveNext(sp.nextUsed, sp.prevUsed, b),
            prevUsed := RemovePrev(sp.nextUsed, sp.prevUsed, b),
            firstUsedBlock := if b == sp.firstUsedBlock then sp.nextUsed[b] else sp.firstUsedBlock)
    else down
  }

  ghost function PositionOf(list: seq<nat>, b: nat): nat
    requires b in list
    ensures PositionOf(list, b) < |list| && list[PositionOf(list, b)] == b
  {
    if list[0] == b then 0 else 1 + PositionOf(list[1..], b)
  }

  /** The list of used blocks after `UsageDown`. */
  ghost function ListDown(sp: Space, list: seq<nat>, b: nat): seq<nat>
    requires b < |sp.used| && b in list
  {
    if sp.used[b] == 1 then Without(list, PositionOf(list, b)) else list
  }

  lemma UsageDownOk(sp: Space, list: seq<nat>, b: nat)
    requires BlocksOk(sp, list) && b < |sp.used| && sp.used[b] > 0
    ensures LinksInRange(sp, b)
    ensures BlocksOk(UsageDown(sp, b), ListDown(sp, list, b))
  {
    var k := PositionOf(list, b);
    ListRemoved(sp.nextUsed, sp.prevUsed, sp.firstUsedBlock, list, k);
    UsedWithout(sp.used, list, k);
  }

  /** A block whose last node goes leaves the set of used blocks. */
  lemma UsedWithout(used: seq<nat>, list: seq<nat>, k: nat)
    requires k < |list| && Distinct(list) && list[k] < |used|
    requires forall b: nat :: b < |used| ==> (used[b] > 0 <==> b in list)
    ensures used[list[k]] == 1 ==>
              forall b: nat :: b < |used| ==> (used[list[k] := 0][b] > 0 <==> b in Without(list, k))
  {
    forall x: nat ensures x in Without(list, k) <==> x in list && x != list[k] {
      WithoutMembers(list, k, x);
    }
  }

  /** The counter is the number of cells in use. */
  lemma CountIsCells(sp: Space)
    requires CountsOk(sp.nodes, sp.used, sp.handlesCount)
    ensures sp.handlesCount == |Cells(sp)|
  {
    CountIsSize(sp.nodes, 0, |sp.nodes|);
    assert Cells(sp).Keys == set n: nat | 0 <= n < |sp.nodes| && sp.nodes[n].state != Free;
  }

  // ---------------------------------------------------------------- taking and releasing a node

  function Published(node: Node, value: Word, isYoung: bool): Node {
    node.(data := NULL, state := Normal, referent := value, inYoungList := node.inYoungList || isYoung)
  }

  function Released(node: Node, firstFree: int): Node {
    node.(referent := ZAP, state := Free, data := firstFree)
  }

  /** The space after the first free node took `value`. */
  function Taken(sp: Space, value: Word, isYoung: bool): Space
    requires 0 <= sp.firstFree < |sp.nodes| == |sp.used| * BLOCK_SIZE
    requires |sp.used| == |sp.nextUsed| == |sp.prevUsed|
    requires sp.firstUsedBlock != NULL ==> 0 <= sp.firstUsedBlock < |sp.prevUsed|
  {
    var n, node := sp.firstFree, sp.nodes[sp.firstFree];
    UsageUp(sp.(nodes := sp.nodes[n := Published(node, value, isYoung)],
                firstFree := node.data,
                handlesCount := sp.handlesCount + 1,
                youngNodes := if isYoung && !node.inYoungList then sp.youngNodes + [n] else sp.youngNodes),
            n / BLOCK_SIZE)
  }

  /** Enough about the links for `Taken` to be computed. */
  predicate CanTake(sp: Space) {
    && 0 <= sp.firstFree < |sp.nodes| == |sp.used| * BLOCK_SIZE
    && |sp.used| == |sp.nextUsed| == |sp.prevUsed|
    && (sp.firstUsedBlock != NULL ==> 0 <= sp.firstUsedBlock < |sp.prevUsed|)
  }

  lemma TakenFields(sp: Space, value: Word, isYoung: bool)
    requires CanTake(sp)
    ensures var t, n, b := Taken(sp, value, isYoung), sp.firstFree, sp.firstFree / BLOCK_SIZE;
            && t.nodes == sp.nodes[n := Published(sp.nodes[n], value, isYoung)]
            && t.firstFree == sp.nodes[n].data
            && t.used == sp.used[b := sp.used[b] + 1]
            && t.handlesCount == sp.handlesCount + 1
            && t.youngNodes == (if isYoung && !sp.nodes[n].inYoungList then sp.youngNodes + [n] else sp.youngNodes)
            && t.nextUsed == UsageUp(sp, b).nextUsed && t.prevUsed == UsageUp(sp, b).prevUsed
            && t.firstUsedBlock == UsageUp(sp, b).firstUsedBlock
  {}

  lemma CanTakeOk(sp: Space, free: seq<nat>, list: seq<nat>)
    requires SpaceOk(sp, free, list) && sp.firstFree != NULL
    ensures CanTake(sp)
  {}

  lemma TakenBlocks(sp: Space, list: seq<nat>, value: Word, isYoung: bool)
    requires CanTake(sp) && BlocksOk(sp, list)
    ensures BlocksOk(Taken(sp, value, isYoung), ListUp(sp, list, sp.firstFree / BLOCK_SIZE))
  {
    UsageUpOk(sp, list, sp.firstFree / BLOCK_SIZE);
    TakenFields(sp, value, isYoung);
  }

  lemma TakenNodes(sp: Space, free: seq<nat>, value: Word, isYoung: bool)
    requires CanTake(sp) && FreeListOk(sp.nodes, sp.firstFree, free) && IndexOk(sp.nodes)
    requires YoungOk(sp.nodes, sp.youngNodes)
    ensures var t := Taken(sp, value, isYoung);
            FreeListOk(t.nodes, t.firstFree, free[1..]) && IndexOk(t.nodes) && YoungOk(t.nodes, t.youngNodes)
  {
    TakenFields(sp, value, isYoung);
    FreeListPop(sp.nodes, sp.firstFree, free, Published(sp.nodes[sp.firstFree], value, isYoung));
    TakenYoung(sp, sp.firstFree, value, isYoung);
  }

  lemma TakenCounts(sp: Space, value: Word, isYoung: bool)
    requires CanTake(sp) && CountsOk(sp.nodes, sp.used, sp.handlesCount)
    requires sp.nodes[sp.firstFree].state.Free?
    ensures var t := Taken(sp, value, isYoung); CountsOk(t.nodes, t.used, t.handlesCount)
  {
    TakenFields(sp, value, isYoung);
    CountsUp(sp.nodes, sp.used, sp.handlesCount, sp.firstFree, Published(sp.nodes[sp.firstFree], value, isYoung));
  }

  lemma TakenOk(sp: Space, free: seq<nat>, list: seq<nat>, value: Word, isYoung: bool)
    requires SpaceOk(sp, free, list) && sp.firstFree != NULL
    ensures CanTake(sp)
    ensures SpaceOk(Taken(sp, value, isYoung), free[1..], ListUp(sp, list, sp.firstFree / BLOCK_SIZE))
  {
    CanTakeOk(sp, free, list);
    TakenNodes(sp, free, value, isYoung);
    TakenCounts(sp, value, isYoung);
    TakenBlocks(sp, list, value, isYoung);
  }

  lemma TakenYoung(sp: Space, n: nat, value: Word, isYoung: bool)
    requires YoungOk(sp.nodes, sp.youngNodes) && n < |sp.nodes|
    ensures var young := if isYoung && !sp.nodes[n].inYoungList then sp.youngNodes + [n] else sp.youngNodes;
            YoungOk(sp.nodes[n := Published(sp.nodes[n], value, isYoung)], young)
  {}

  lemma TakenCells(sp: Space, n: nat, node: Node, t: Space)
    requires n < |sp.nodes| && sp.nodes[n].state.Free? && !node.state.Free?
    requires t.nodes == sp.nodes[n := node]
    ensures n !in Cells(sp) && Cells(t) == Cells(sp)[n := node]
  {}

  lemma ReleasedCells(sp: Space, n: nat, node: Node, t: Space)
    requires n < |sp.nodes| && node.state.Free?
    requires t.nodes == sp.nodes[n := node]
    ensures Cells(t) == Cells(sp) - {n}
  {}

  function ReleasedSpace(sp: Space, n: nat): Space
    requires n < |sp.nodes| == |sp.used| * BLOCK_SIZE
    requires LinksInRange(sp, n / BLOCK_SIZE) && sp.used[n / BLOCK_SIZE] > 0 && sp.handlesCount > 0
  {
    UsageDown(sp.(nodes := sp.nodes[n := Released(sp.nodes[n], sp.firstFree)],
                  firstFree := n, handlesCount := sp.handlesCount - 1),
              n / BLOCK_SIZE)
  }

  predicate CanRelease(sp: Space, n: nat) {
    && n < |sp.nodes| == |sp.used| * BLOCK_SIZE
    && LinksInRange(sp, n / BLOCK_SIZE) && sp.used[n / BLOCK_SIZE] > 0 && sp.handlesCount > 0
  }

  lemma ReleasedFields(sp: Space, n: nat)
    requires CanRelease(sp, n)
    ensures var t, b := ReleasedSpace(sp, n), n / BLOCK_SIZE;
            && t.nodes == sp.nodes[n := Released(sp.nodes[n], sp.firstFree)]
            && t.firstFree == n && t.handlesCount == sp.handlesCount - 1 && t.youngNodes == sp.youngNodes
            && t.used == sp.used[b := sp.used[b] - 1]
            && t.nextUsed == UsageDown(sp, b).nextUsed && t.prevUsed == UsageDown(sp, b).prevUsed
            && t.firstUsedBlock == UsageDown(sp, b).firstUsedBlock
  {}

  lemma CanReleaseOk(sp: Space, free: seq<nat>, list: seq<nat>, n: nat)
    requires SpaceOk(sp, free, list) && n < |sp.nodes| && !sp.nodes[n].state.Free?
    ensures CanRelease(sp, n) && n / BLOCK_SIZE in list
  {
    CountsDown(sp.nodes, sp.used, sp.handlesCount, n, Released(sp.nodes[n], sp.firstFree));
    UsageDownOk(sp, list, n / BLOCK_SIZE);
  }

  lemma ReleasedNodes(sp: Space, free: seq<nat>, n: nat)
    requires CanRelease(sp, n) && !sp.nodes[n].state.Free?
    requires FreeListOk(sp.nodes, sp.firstFree, free) && IndexOk(sp.nodes) && YoungOk(sp.nodes, sp.youngNodes)
    ensures var t := ReleasedSpace(sp, n);
            FreeListOk(t.nodes, t.firstFree, [n] + free) && IndexOk(t.nodes) && YoungOk(t.nodes, t.youngNodes)
  {
    ReleasedFields(sp, n);
    FreeListPush(sp.nodes, sp.firstFree, free, n, Released(sp.nodes[n], sp.firstFree));
    ReleasedYoung(sp, n);
  }

  lemma ReleasedCounts(sp: Space, n: nat)
    requires CanRelease(sp, n) && !sp.nodes[n].state.Free?
    requires CountsOk(sp.nodes, sp.used, sp.handlesCount)
    ensures var t := ReleasedSpace(sp, n); CountsOk(t.nodes, t.used, t.handlesCount)
  {
    ReleasedFields(sp, n);
    CountsDown(sp.nodes, sp.used, sp.handlesCount, n, Released(sp.nodes[n], sp.firstFree));
  }

  lemma ReleasedBlocks(sp: Space, list: seq<nat>, n: nat)
    requires CanRelease(sp, n) && BlocksOk(sp, list)
    ensures BlocksOk(ReleasedSpace(sp, n), ListDown(sp, list, n / BLOCK_SIZE))
  {
    ReleasedFields(sp, n);
    UsageDownOk(sp, list, n / BLOCK_SIZE);
  }

  lemma ReleasedOk(sp: Space, free: seq<nat>, list: seq<nat>, n: nat)
    requires SpaceOk(sp, free, list) && n < |sp.nodes| && !sp.nodes[n].state.Free?
    ensures CanRelease(sp, n) && n / BLOCK_SIZE in list
    ensures SpaceOk(ReleasedSpace(sp, n), [n] + free, ListDown(sp, list, n / BLOCK_SIZE))
  {
    CanReleaseOk(sp, free, list, n);
    ReleasedNodes(sp, free, n);
    ReleasedCounts(sp, n);
    ReleasedBlocks(sp, list, n);
  }

  lemma ReleasedYoung(sp: Space, n: nat)
    requires YoungOk(sp.nodes, sp.youngNodes) && n < |sp.nodes|
    ensures YoungOk(sp.nodes[n := Released(sp.nodes[n], sp.firstFree)], sp.youngNodes)
  {}

  // ---------------------------------------------------------------- a new block

  /** Entry `i` of a new block that starts at node `base`, threaded behind entry `i - 1`. */
  function NewNode(base: nat, i: nat): Node {
    Node(ZAP, i, Free, false, WithCallback, if i + 1 < BLOCK_SIZE then base + i + 1 else NULL)
  }

  function NewBlock(base: nat): (block: seq<Node>)
    ensures |block| == BLOCK_SIZE && forall i :: 0 <= i < BLOCK_SIZE ==> block[i] == NewNode(base, i)
  {
    seq(BLOCK_SIZE, i requires 0 <= i => NewNode(base, i))
  }

  ghost function BlockNodes(base: nat): (ns: seq<nat>)
    ensures |ns| == BLOCK_SIZE && forall i :: 0 <= i < BLOCK_SIZE ==> ns[i] == base + i
  {
    seq(BLOCK_SIZE, i requires 0 <= i => base + i)
  }

  function WithBlock(sp: Space): Space {
    var base := |sp.nodes|;
    sp.(nodes := sp.nodes + NewBlock(base),
        used := sp.used + [0], nextUsed := sp.nextUsed + [NULL], prevUsed := sp.prevUsed + [NULL],
        firstFree := base)
  }

  lemma WithBlockOk(sp: Space, list: seq<nat>)
    requires SpaceOk(sp, [], list) && sp.firstFree == NULL
    ensures SpaceOk(WithBlock(sp), BlockNodes(|sp.nodes|), list)
    ensures Cells(WithBlock(sp)) == Cells(sp)
  {
    var base, t := |sp.nodes|, WithBlock(sp);
    var more := NewBlock(base);
    BlockCounted(sp.nodes, more, sp.used, sp.handlesCount);
    NewFreeList(sp.nodes, base, more);
    NewBlockUnused(sp, t, list);
    NewBlockIndices(sp.nodes, |sp.used|, sp.youngNodes);
  }

  lemma NewBlockIndices(nodes: seq<Node>, b: nat, young: seq<nat>)
    requires |nodes| == b * BLOCK_SIZE && IndexOk(nodes) && YoungOk(nodes, young)
    ensures IndexOk(nodes + NewBlock(|nodes|)) && YoungOk(nodes + NewBlock(|nodes|), young)
  {}

  lemma NewBlockUnused(sp: Space, t: Space, list: seq<nat>)
    requires BlocksOk(sp, list)
    requires t.used == sp.used + [0] && t.nextUsed == sp.nextUsed + [NULL] && t.prevUsed == sp.prevUsed + [NULL]
    requires t.firstUsedBlock == sp.firstUsedBlock
    ensures BlocksOk(t, list)
  {
    forall i: nat | i < |list| ensures BlockLink(t.nextUsed, t.prevUsed, list, i) {
      assert BlockLink(sp.nextUsed, sp.prevUsed, list, i);
    }
  }

  lemma NewFreeList(nodes: seq<Node>, base: nat, more: seq<Node>)
    requires base == |nodes| && FreeListOk(nodes, NULL, [])
    requires more == NewBlock(base)
    ensures FreeListOk(nodes + more, base, BlockNodes(base))
  {
    var free := BlockNodes(base);
    forall i: nat | i < |free| ensures FreeLink(nodes + more, free, i) {}
    forall n: nat | n < |nodes + more| ensures (nodes + more)[n].state.Free? <==> n in free {
      if base <= n {
        assert free[n - base] == n;
      }
    }
  }

  // ---------------------------------------------------------------- nodes with young referents

  /** A node the collector of the young generation must look at. */
  predicate YoungRoot(node: Node, isYoung: Word -> bool) {
    (node.state.Normal? || node.state.Weak?) && isYoung(node.referent)
  }

  /** No such node is missing from the young list. */
  ghost predicate Covered(nodes: seq<Node>, isYoung: Word -> bool) {
    forall n: nat :: n < |nodes| && YoungRoot(nodes[n], isYoung) ==> nodes[n].inYoungList
  }

  lemma TakenCovered(sp: Space, value: Word, isYoung: Word -> bool)
    requires CanTake(sp) && Covered(sp.nodes, isYoung)
    ensures Covered(Taken(sp, value, isYoung(value)).nodes, isYoung)
  {
    TakenFields(sp, value, isYoung(value));
  }

  lemma ReleasedCovered(sp: Space, n: nat, isYoung: Word -> bool)
    requires CanRelease(sp, n) && Covered(sp.nodes, isYoung)
    ensures Covered(ReleasedSpace(sp, n).nodes, isYoung)
  {
    ReleasedFields(sp, n);
  }

  /** A collection moves referents and promotes some of them, and makes none young again. */
  ghost predicate Promoted(before: seq<Node>, after: seq<Node>, wasYoung: Word -> bool, isYoung: Word -> bool) {
    && |after| == |before|
    && forall n: nat :: n < |before| ==>
         && after[n] == before[n].(referent := after[n].referent)
         && (isYoung(after[n].referent) ==> wasYoung(before[n].referent))
  }

  lemma PromotedCovered(before: seq<Node>, after: seq<Node>, wasYoung: Word -> bool, isYoung: Word -> bool)
    requires Promoted(before, after, wasYoung, isYoung) && Covered(before, wasYoung)
    ensures Covered(after, isYoung)
  {
    forall n: nat | n < |after| && YoungRoot(after[n], isYoung) ensures after[n].inYoungList {
      assert YoungRoot(before[n], wasYoung);
    }
  }

  function KeptYoung(nodes: seq<Node>, young: seq<nat>, isYoung: Word -> bool): (kept: seq<nat>)
    requires forall i :: 0 <= i < |young| ==> young[i] < |nodes|
    ensures |kept| <= |young|
  {
    if young == [] then []
    else
      var n, rest := young[|young| - 1], KeptYoung(nodes, young[..|young| - 1], isYoung);
      if YoungRoot(nodes[n], isYoung) then rest + [n] else rest
  }

  lemma {:induction false} KeptYoungMembers(nodes: seq<Node>, young: seq<nat>, isYoung: Word -> bool)
    requires forall i :: 0 <= i < |young| ==> young[i] < |nodes|
    requires Distinct(young)
    ensures Distinct(KeptYoung(nodes, young, isYoung))
    ensures forall n: nat :: n in KeptYoung(nodes, young, isYoung) <==>
                             n in young && YoungRoot(nodes[n], isYoung)
  {
    if young == [] {
    } else {
      var m, front := young[|young| - 1], young[..|young| - 1];
      KeptYoungMembers(nodes, front, isYoung);
      assert young == front + [m];
      assert m !in front;
    }
  }

  /** The nodes that are kept stay in their order. */
  lemma {:induction false} KeptYoungInOrder(nodes: seq<Node>, young: seq<nat>, isYoung: Word -> bool, i: nat, j: nat)
    returns (k: nat, l: nat)
    requires forall n :: 0 <= n < |young| ==> young[n] < |nodes|
    requires i < j < |KeptYoung(nodes, young, isYoung)|
    ensures k < l < |young|
    ensures young[k] == KeptYoung(nodes, young, isYoung)[i] && young[l] == KeptYoung(nodes, young, isYoung)[j]
  {
    var last := |young| - 1;
    var rest := KeptYoung(nodes, young[..last], isYoung);
    if j < |rest| {
      k, l := KeptYoungInOrder(nodes, young[..last], isYoung, i, j);
    } else {
      l := last;
      k := KeptYoungAt(nodes, young[..last], isYoung, i);
    }
  }

  lemma {:induction false} KeptYoungAt(nodes: seq<Node>, young: seq<nat>, isYoung: Word -> bool, i: nat) returns (k: nat)
    requires forall n :: 0 <= n < |young| ==> young[n] < |nodes|
    requires i < |KeptYoung(nodes, young, isYoung)|
    ensures k < |young| && young[k] == KeptYoung(nodes, young, isYoung)[i]
  {
    var last := |young| - 1;
    if i < |KeptYoung(nodes, young[..last], isYoung)| {
      k := KeptYoungAt(nodes, young[..last], isYoung, i);
    } else {
      k := last;
    }
  }

  /** The nodes with the flag cleared on every listed node that is not kept. */
  ghost predicate Unflagged(before: seq<Node>, after: seq<Node>, listed: seq<nat>, isYoung: Word -> bool) {
    && |after| == |before|
    && forall n: nat :: n < |before| ==>
         after[n] == if n in listed && !YoungRoot(before[n], isYoung) then before[n].(inYoungList := false) else before[n]
  }

  lemma {:induction false} CountSame(before: seq<Node>, after: seq<Node>, lo: nat, hi: nat)
    requires lo <= hi <= |before| == |after|
    requires forall n :: lo <= n < hi ==> after[n].state == before[n].state
    ensures CountUsed(after, lo, hi) == CountUsed(before, lo, hi)
    decreases hi
  {
    if lo < hi {
      CountSame(before, after, lo, hi - 1);
    }
  }

  lemma UnflaggedCounts(before: seq<Node>, after: seq<Node>, listed: seq<nat>, isYoung: Word -> bool,
                        used: seq<nat>, handles: nat)
    requires Unflagged(before, after, listed, isYoung) && CountsOk(before, used, handles)
    ensures CountsOk(after, used, handles)
  {
    CountSame(before, after, 0, |before|);
    forall b | 0 <= b < |used| ensures CountUsed(after, b * BLOCK_SIZE, (b + 1) * BLOCK_SIZE) == used[b] {
      CountSame(before, after, b * BLOCK_SIZE, (b + 1) * BLOCK_SIZE);
    }
  }

  lemma UnflaggedFreeList(before: seq<Node>, after: seq<Node>, listed: seq<nat>, isYoung: Word -> bool,
                          firstFree: int, free: seq<nat>)
    requires Unflagged(before, after, listed, isYoung) && FreeListOk(before, firstFree, free)
    ensures FreeListOk(after, firstFree, free)
  {
    forall i: nat | i < |free| ensures FreeLink(after, free, i) {
      assert FreeLink(before, free, i);
    }
  }

  /** After the upkeep the young list holds every young root once, and nothing else. */
  lemma YoungListExact(before: seq<Node>, after: seq<Node>, young: seq<nat>, isYoung: Word -> bool)
    requires YoungOk(before, young) && Covered(before, isYoung)
    requires Unflagged(before, after, young, isYoung)
    ensures YoungOk(after, KeptYoung(before, young, isYoung))
    ensures forall n: nat :: n in KeptYoung(before, young, isYoung) <==> n < |after| && YoungRoot(after[n], isYoung)
    ensures Covered(after, isYoung)
  {
    KeptYoungMembers(before, young, isYoung);
    var kept := KeptYoung(before, young, isYoung);
    forall i | 0 <= i < |kept| ensures kept[i] < |after| {
      assert kept[i] in kept;
    }
  }

  lemma UpkeepOk(sp: Space, free: seq<nat>, list: seq<nat>, t: Space, isYoung: Word -> bool)
    requires SpaceOk(sp, free, list) && Covered(sp.nodes, isYoung)
    requires Unflagged(sp.nodes, t.nodes, sp.youngNodes, isYoung)
    requires t == sp.(nodes := t.nodes, youngNodes := KeptYoung(sp.nodes, sp.youngNodes, isYoung))
    ensures SpaceOk(t, free, list)
  {
    UnflaggedCounts(sp.nodes, t.nodes, sp.youngNodes, isYoung, sp.used, sp.handlesCount);
    UnflaggedFreeList(sp.nodes, t.nodes, sp.youngNodes, isYoung, sp.firstFree, free);
    YoungListExact(sp.nodes, t.nodes, sp.youngNodes, isYoung);
  }
}
