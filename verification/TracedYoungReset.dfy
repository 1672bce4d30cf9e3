/**
 The young-generation pass over traced nodes: it walks the list of young blocks, frees
 every unmarked young node, and thereby takes emptied blocks off the list it walks along.
 Blocks are numbered, and -1 is the null pointer.
 */
module TracedYoungReset {
  import opened Basics

  const NULL := -1

  datatype Node = Node(inUse: bool, young: bool, marked: bool)

  type Block = seq<Node>

  const RELEASED := Node(false, false, false)

  // ---------------------------------------------------------------- the threaded list

  /** Where the link that leads to an element is stored; null if it is in no list. */
  datatype Link = Unlinked | Head | NextOf(b: nat)

  datatype Links = Links(head: int, next: seq<int>, prev: seq<Link>)

  function After(list: seq<nat>, i: nat): int
    requires i < |list|
  {
    if i + 1 < |list| then list[i + 1] else NULL
  }

  function Before(list: seq<nat>, i: nat): Link
    requires i < |list|
  {
    if i == 0 then Head else NextOf(list[i - 1])
  }

  ghost predicate LinkAt(l: Links, list: seq<nat>, i: nat) {
    && i < |list| && list[i] < |l.next| == |l.prev|
    && l.next[list[i]] == After(list, i) && l.prev[list[i]] == Before(list, i)
  }

  /** `list` is threaded through the links, and everything else is unlinked. */
  ghost predicate ListOk(l: Links, list: seq<nat>) {
    && |l.next| == |l.prev|
    && l.head == (if list == [] then NULL else list[0])
    && Distinct(list)
    && (forall i :: 0 <= i < |list| ==> list[i] < |l.next|)
    && (forall i: nat :: i < |list| ==> LinkAt(l, list, i))
    && (forall b: nat :: b < |l.prev| && b !in list ==> l.prev[b] == Unlinked && l.next[b] == NULL)
  }

  predicate LinksInRange(l: Links, x: nat) {
    && x < |l.next| == |l.prev|
    && (l.prev[x].NextOf? ==> l.prev[x].b < |l.next|)
    && (l.next[x] != NULL ==> 0 <= l.next[x] < |l.prev|)
  }

  /** Removal needs neither the head nor the predecessor, and leaves no links in `x`. */
  function Removed(l: Links, x: nat): Links
    requires LinksInRange(l, x)
  {
    match l.prev[x]
    case Unlinked => l
    case Head =>
      Links(l.next[x], l.next[x := NULL],
            (if l.next[x] != NULL then l.prev[l.next[x] := Head] else l.prev)[x := Unlinked])
    case NextOf(y) =>
      Links(l.head, l.next[y := l.next[x]][x := NULL],
            (if l.next[x] != NULL then l.prev[l.next[x] := NextOf(y)] else l.prev)[x := Unlinked])
  }

  lemma NeighboursLinked(l: Links, list: seq<nat>, k: nat)
    requires ListOk(l, list) && k < |list|
    ensures LinkAt(l, list, k) && LinksInRange(l, list[k])
    ensures k + 1 < |list| ==> LinkAt(l, list, k + 1)
    ensures 0 < k ==> LinkAt(l, list, k - 1) && LinkAt(l, list, 0)
  {}

  lemma RemovedLink(l: Links, list: seq<nat>, k: nat, i: nat)
    requires Distinct(list) && k < |list| && i < |list| - 1
    requires LinkAt(l, list, k) && LinksInRange(l, list[k])
    requires k + 1 < |list| ==> LinkAt(l, list, k + 1)
    requires 0 < k ==> LinkAt(l, list, k - 1)
    requires LinkAt(l, list, if i < k then i else i + 1)
    ensures LinkAt(Removed(l, list[k]), Without(list, k), i)
  {
    assert Without(list, k)[i] == list[if i < k then i else i + 1];
  }

  lemma RemovedRest(l: Links, list: seq<nat>, k: nat)
    requires ListOk(l, list) && k < |list| && LinksInRange(l, list[k])
    ensures var r := Removed(l, list[k]);
            && |r.next| == |r.prev| == |l.next| && r.next[list[k]] == NULL
            && (forall b: nat :: b < |r.prev| && b !in Without(list, k) ==> r.prev[b] == Unlinked && r.next[b] == NULL)
            && (forall i :: k < i < |list| ==> r.next[list[i]] == l.next[list[i]])
            && r.head == (if Without(list, k) == [] then NULL else Without(list, k)[0])
  {
    NeighboursLinked(l, list, k);
    forall b: nat | b !in Without(list, k) ensures b !in list || b == list[k] {
      WithoutMembers(list, k, b);
    }
  }

  lemma RemovedOk(l: Links, list: seq<nat>, k: nat)
    requires ListOk(l, list) && k < |list|
    ensures LinksInRange(l, list[k])
    ensures ListOk(Removed(l, list[k]), Without(list, k))
    ensures Removed(l, list[k]).next[list[k]] == NULL
    ensures forall i :: k < i < |list| ==> Removed(l, list[k]).next[list[i]] == l.next[list[i]]
  {
    NeighboursLinked(l, list, k);
    RemovedRest(l, list, k);
    var r, less := Removed(l, list[k]), Without(list, k);
    forall i: nat | i < |less| ensures LinkAt(r, less, i) {
      assert LinkAt(l, list, if i < k then i else i + 1);
      RemovedLink(l, list, k, i);
    }
  }

  // ---------------------------------------------------------------- what the pass does

  /** An unmarked young node is freed; a marked one is kept and loses its mark. */
  function ProcessedNode(n: Node): Node {
    if !n.young then n else if !n.marked then RELEASED else n.(marked := false)
  }

  function ProcessedBlock(b: Block): (r: Block)
    ensures |r| == |b| && forall i :: 0 <= i < |b| ==> r[i] == ProcessedNode(b[i])
  {
    seq(|b|, i requires 0 <= i < |b| => ProcessedNode(b[i]))
  }

  function CountInUse(b: Block, n: nat): (c: nat)
    requires n <= |b|
    ensures c <= n
  {
    if n == 0 then 0 else CountInUse(b, n - 1) + (if b[n - 1].inUse then 1 else 0)
  }

  function Used(b: Block): nat {
    CountInUse(b, |b|)
  }

  /** Young nodes are in use, as the node's publication and release keep them. */
  predicate YoungInUse(b: Block) {
    forall i :: 0 <= i < |b| && b[i].young ==> b[i].inUse
  }

  /** Some node is in use, and every node in use is young and unmarked. */
  predicate Emptied(b: Block) {
    && (exists i :: 0 <= i < |b| && b[i].inUse)
    && (forall i :: 0 <= i < |b| && b[i].inUse ==> b[i].young && !b[i].marked)
  }

  lemma {:induction false} CountZeroIff(b: Block, n: nat)
    requires n <= |b|
    ensures CountInUse(b, n) == 0 <==> forall i :: 0 <= i < n ==> !b[i].inUse
  {
    if n == 0 {
    } else {
      CountZeroIff(b, n - 1);
    }
  }

  /** Such a block is one that the pass takes from some nodes in use to none. */
  lemma EmptiedIff(b: Block)
    requires YoungInUse(b)
    ensures Emptied(b) <==> Used(b) > 0 && Used(ProcessedBlock(b)) == 0
  {
    var after := ProcessedBlock(b);
    CountZeroIff(b, |b|);
    CountZeroIff(after, |after|);
    forall i | 0 <= i < |b| ensures after[i].inUse <==> b[i].inUse && !(b[i].young && !b[i].marked) {
      assert after[i] == ProcessedNode(b[i]);
    }
  }

  /** The pass over the listed blocks: it ends early behind a block that it emptied, since
      such a block is no longer linked to the next one. */
  function Pass(blocks: seq<Block>, list: seq<nat>): (r: seq<Block>)
    requires forall i :: 0 <= i < |list| ==> list[i] < |blocks|
    ensures |r| == |blocks|
    decreases |list|
  {
    if list == [] then blocks
    else
      var b := list[0];
      var next := blocks[b := ProcessedBlock(blocks[b])];
      if Emptied(blocks[b]) then next else Pass(next, list[1..])
  }

  /** What a young collection is to make of a node: one that is not young stays as it is, a
      marked young one stays in use and young and loses the mark, and an unmarked young one
      is free. */
  predicate NodeReset(before: Node, after: Node) {
    && (!before.young ==> after.inUse == before.inUse && !after.young && after.marked == before.marked)
    && (before.young && before.marked ==> after.inUse == before.inUse && after.young && !after.marked)
    && (before.young && !before.marked ==> !after.inUse && !after.young && !after.marked)
  }

  predicate BlockReset(before: Block, after: Block) {
    |after| == |before| && forall i :: 0 <= i < |before| ==> NodeReset(before[i], after[i])
  }

  lemma BlockResetIff(before: Block, after: Block)
    ensures BlockReset(before, after) <==> after == ProcessedBlock(before)
  {
    if BlockReset(before, after) {
      forall i | 0 <= i < |before| ensures after[i] == ProcessedBlock(before)[i] {
        assert NodeReset(before[i], after[i]);
      }
    }
  }

  /** What the pass is for: every young block is reset, and no other block changes. */
  ghost predicate FullyProcessed(before: seq<Block>, after: seq<Block>, list: seq<nat>) {
    && |after| == |before|
    && forall b: nat :: b < |before| ==> if b in list then BlockReset(before[b], after[b]) else after[b] == before[b]
  }

  /** Over two collections with no marking in between, every node that was young is freed,
      and no node that was not young changes. */
  lemma SecondPassFreesAll(first: seq<Block>, second: seq<Block>, third: seq<Block>, list: seq<nat>, b: nat, i: nat)
    requires FullyProcessed(first, second, list) && FullyProcessed(second, third, list)
    requires b < |first| && b in list && i < |first[b]|
    ensures i < |third[b]|
    ensures if first[b][i].young then third[b][i] == Node(false, false, false) else third[b][i] == first[b][i]
  {
    assert NodeReset(first[b][i], second[b][i]) && NodeReset(second[b][i], third[b][i]);
  }

  predicate HasYoung(b: Block) {
    exists i :: 0 <= i < |b| && b[i].young
  }

  /** No block that the pass empties stands before a block with a young node. */
  ghost predicate NoEarlyEnd(blocks: seq<Block>, list: seq<nat>)
    requires forall i :: 0 <= i < |list| ==> list[i] < |blocks|
  {
    forall i, j :: 0 <= i < j < |list| ==> !(Emptied(blocks[list[i]]) && HasYoung(blocks[list[j]]))
  }

  lemma NoYoungUnchanged(b: Block)
    ensures ProcessedBlock(b) == b <==> !HasYoung(b)
  {
    if HasYoung(b) {
      var i :| 0 <= i < |b| && b[i].young;
      assert ProcessedBlock(b)[i] != b[i];
    }
  }

  lemma NoEarlyEndTail(blocks: seq<Block>, next: seq<Block>, list: seq<nat>)
    requires list != [] && Distinct(list) && |next| == |blocks|
    requires forall i :: 0 <= i < |list| ==> list[i] < |blocks|
    requires forall b: nat :: b < |blocks| && b != list[0] ==> next[b] == blocks[b]
    ensures NoEarlyEnd(blocks, list) <==>
            NoEarlyEnd(next, list[1..]) &&
            (Emptied(blocks[list[0]]) ==> forall j :: 0 < j < |list| ==> !HasYoung(blocks[list[j]]))
  {
    var rest := list[1..];
    assert forall i :: 0 <= i < |rest| ==> rest[i] == list[i + 1] && next[rest[i]] == blocks[list[i + 1]];
    if NoEarlyEnd(next, rest) && (Emptied(blocks[list[0]]) ==> forall j :: 0 < j < |list| ==> !HasYoung(blocks[list[j]])) {
      forall i, j | 0 <= i < j < |list| ensures !(Emptied(blocks[list[i]]) && HasYoung(blocks[list[j]])) {
        if 0 < i {
          assert list[i] == rest[i - 1] && list[j] == rest[j - 1];
        }
      }
    }
  }

  lemma {:induction false} PassFrame(blocks: seq<Block>, list: seq<nat>)
    requires forall i :: 0 <= i < |list| ==> list[i] < |blocks|
    ensures forall b: nat :: b < |blocks| && b !in list ==> Pass(blocks, list)[b] == blocks[b]
    decreases |list|
  {
    if list != [] && !Emptied(blocks[list[0]]) {
      PassFrame(blocks[list[0] := ProcessedBlock(blocks[list[0]])], list[1..]);
      assert forall b: nat :: b !in list ==> b !in list[1..];
    }
  }

  /** The pass processes every young block, if and only if no block that it empties stands
      before a block with a young node. */
  lemma {:induction false} PassIsFullIff(blocks: seq<Block>, list: seq<nat>)
    requires Distinct(list) && forall i :: 0 <= i < |list| ==> list[i] < |blocks|
    ensures FullyProcessed(blocks, Pass(blocks, list), list) <==> NoEarlyEnd(blocks, list)
    decreases |list|
  {
    if list == [] {
    } else {
      var b, rest := list[0], list[1..];
      var next := blocks[b := ProcessedBlock(blocks[b])];
      NoEarlyEndTail(blocks, next, list);
      assert list == [b] + rest && b !in rest;
      if Emptied(blocks[b]) {
        EndedEarly(blocks, next, list);
      } else {
        PassIsFullIff(next, rest);
        PassFrame(next, rest);
        FullyProcessedTail(blocks, next, Pass(next, rest), list);
      }
    }
  }

  /** How far the pass gets: it resets the listed blocks up to and including the first one
      that it empties, and leaves every other block alone. */
  lemma {:induction false} PassReaches(blocks: seq<Block>, list: seq<nat>) returns (k: nat)
    requires Distinct(list) && forall i :: 0 <= i < |list| ==> list[i] < |blocks|
    ensures k <= |list|
    ensures forall i :: 0 <= i < k - 1 ==> !Emptied(blocks[list[i]])
    ensures k < |list| ==> k > 0 && Emptied(blocks[list[k - 1]])
    ensures FullyProcessed(blocks, Pass(blocks, list), list[..k])
    decreases |list|
  {
    if list == [] {
      k := 0;
    } else {
      var b, rest := list[0], list[1..];
      var next := blocks[b := ProcessedBlock(blocks[b])];
      BlockResetIff(blocks[b], next[b]);
      if Emptied(blocks[b]) {
        k := 1;
        assert list[..1] == [b];
      } else {
        k := PassReaches(next, rest);
        k := k + 1;
        assert forall i :: 0 <= i < |rest| ==> rest[i] == list[i + 1] && next[rest[i]] == blocks[list[i + 1]];
        var done := list[..k];
        assert done[1..] == rest[..k - 1] && done[0] == b && b !in done[1..];
        PassFrame(next, rest);
        FullyProcessedTail(blocks, next, Pass(next, rest), done);
      }
    }
  }

  lemma FullyProcessedTail(blocks: seq<Block>, next: seq<Block>, r: seq<Block>, list: seq<nat>)
    requires list != [] && list[0] < |blocks| == |r| && list[0] !in list[1..]
    requires next == blocks[list[0] := ProcessedBlock(blocks[list[0]])]
    requires r[list[0]] == next[list[0]]
    ensures FullyProcessed(blocks, r, list) <==> FullyProcessed(next, r, list[1..])
  {
    assert forall c: nat :: c in list <==> c == list[0] || c in list[1..];
    BlockResetIff(blocks[list[0]], r[list[0]]);
  }

  lemma EndedEarly(blocks: seq<Block>, next: seq<Block>, list: seq<nat>)
    requires list != [] && Distinct(list) && forall i :: 0 <= i < |list| ==> list[i] < |blocks|
    requires next == blocks[list[0] := ProcessedBlock(blocks[list[0]])]
    ensures FullyProcessed(blocks, next, list) <==> forall j :: 0 < j < |list| ==> !HasYoung(blocks[list[j]])
    ensures (forall j :: 0 < j < |list| ==> !HasYoung(blocks[list[j]])) ==> NoEarlyEnd(next, list[1..])
  {
    forall c: nat | c < |blocks| ensures BlockReset(blocks[c], blocks[c]) <==> !HasYoung(blocks[c]) {
      NoYoungUnchanged(blocks[c]);
      BlockResetIff(blocks[c], blocks[c]);
    }
    BlockResetIff(blocks[list[0]], next[list[0]]);
    if FullyProcessed(blocks, next, list) {
      forall j | 0 < j < |list| ensures !HasYoung(blocks[list[j]]) {
        assert list[j] in list && list[j] != list[0];
      }
    }
    assert forall j :: 0 < j < |list| ==> list[1..][j - 1] == list[j];
  }

  /** Two blocks with one unmarked young node each: the second node is not freed. */
  lemma SecondBlockMissed()
    ensures var block := [Node(true, true, false)];
            Pass([block, block], [0, 1]) == [[RELEASED], block] && !NoEarlyEnd([block, block], [0, 1])
  {
    var block := [Node(true, true, false)];
    assert ProcessedBlock(block) == [RELEASED];
    assert block[0].inUse && block[0].young;
    assert Emptied(block);
    assert HasYoung(block);
    var blocks, list := [block, block], [0, 1];
    assert list[0] == 0 && list[1] == 1;
  }

  // ---------------------------------------------------------------- the pass as it runs

  lemma {:induction false} CountUpdate(b: Block, n: nat, i: nat, node: Node)
    requires n <= |b| && i < |b|
    ensures CountInUse(b[i := node], n) ==
            CountInUse(b, n) + (if i < n then (if node.inUse then 1 else 0) - (if b[i].inUse then 1 else 0) else 0)
  {
    if n == 0 {
    } else {
      CountUpdate(b, n - 1, i, node);
    }
  }

  lemma {:induction false} CountMember(b: Block, n: nat, i: nat)
    requires i < n <= |b| && b[i].inUse
    ensures CountInUse(b, n) > 0
  {
    if i < n - 1 {
      CountMember(b, n - 1, i);
    }
  }

  /** The first `n` nodes of the block are processed. */
  function PartBlock(b: Block, n: nat): (r: Block)
    requires n <= |b|
    ensures |r| == |b| && forall i :: 0 <= i < |b| ==> r[i] == if i < n then ProcessedNode(b[i]) else b[i]
  {
    seq(|b|, i requires 0 <= i < |b| => if i < n then ProcessedNode(b[i]) else b[i])
  }

  class TracedHandles {
    var blocks: seq<Block>
    var used: seq<nat>
    var young: Links

    ghost var youngBlocks: seq<nat>

    ghost predicate Valid()
      reads this
    {
      && |used| == |blocks| == |young.next|
      && ListOk(young, youngBlocks)
      && (forall b: nat :: b < |blocks| ==> used[b] == Used(blocks[b]) && YoungInUse(blocks[b]))
    }

    constructor (blocks: seq<Block>, used: seq<nat>, young: Links, ghost list: seq<nat>)
      requires |used| == |blocks| == |young.next| && ListOk(young, list)
      requires forall b: nat :: b < |blocks| ==> used[b] == Used(blocks[b]) && YoungInUse(blocks[b])
      ensures Valid() && this.blocks == blocks && youngBlocks == list
    {
      this.blocks, this.used, this.young, youngBlocks := blocks, used, young, list;
    }

    /** Takes a block off the young list. */
    method RemoveYoung(b: nat)
      requires LinksInRange(young, b)
      modifies this`young
      ensures young == Removed(old(young), b)
    {
      if young.prev[b].Unlinked? {
        return;
      }
      var next := young.next[b];
      var link := young.prev[b];
      if link.Head? {
        young := young.(head := next);
      } else {
        young := young.(next := young.next[link.b := next]);
      }
      if next != NULL {
        young := young.(prev := young.prev[next := link]);
      }
      young := young.(prev := young.prev[b := Unlinked]);
      young := young.(next := young.next[b := NULL]);
    }

    /** The state in which the first `n` nodes of young block `b` are processed; the block
        leaves the young list when its last node in use is freed. */
    ghost predicate InBlock(before: seq<Block>, links: Links, list: seq<nat>, k: nat, n: nat)
      reads this
    {
      && k < |list| && list[k] < |before| == |used| && n <= |before[list[k]]| && LinksInRange(links, list[k])
      && blocks == before[list[k] := PartBlock(before[list[k]], n)]
      && (if Used(before[list[k]]) > 0 && used[list[k]] == 0
          then youngBlocks == Without(list, k) && young == Removed(links, list[k])
          else youngBlocks == list && young == links)
    }

    method ReleaseNode(b: nat, i: nat)
      requires b < |blocks| == |used| && i < |blocks[b]| && blocks[b][i].inUse && used[b] == Used(blocks[b])
      modifies this`blocks, this`used
      ensures blocks == old(blocks)[b := old(blocks[b])[i := RELEASED]]
      ensures |used| == |blocks| && used[b] == Used(blocks[b])
      ensures forall c :: 0 <= c < |used| && c != b ==> used[c] == old(used[c])
    {
      CountUpdate(blocks[b], |blocks[b]|, i, RELEASED);
      CountMember(blocks[b], |blocks[b]|, i);
      blocks := blocks[b := blocks[b][i := RELEASED]];
      used := used[b := used[b] - 1];
    }

    method FreeNode(b: nat, i: nat, ghost links: Links, ghost list: seq<nat>, ghost k: nat)
      requires Valid() && b < |blocks| && i < |blocks[b]| && blocks[b][i].inUse
      requires ListOk(links, list) && k < |list| && list[k] == b && young == links && youngBlocks == list
      modifies this
      ensures Valid() && blocks == old(blocks)[b := old(blocks[b])[i := RELEASED]]
      ensures |used| == old(|used|) && LinksInRange(links, b)
      ensures if used[b] == 0 then youngBlocks == Without(list, k) && young == Removed(links, b)
              else youngBlocks == list && young == links
    {
      assert LinksInRange(links, b) && ListOk(Removed(links, b), Without(list, k)) by {
        RemovedOk(links, list, k);
      }
      assert |Removed(links, b).next| == |links.next|;
      ReleaseNode(b, i);
      assert YoungInUse(blocks[b]);
      if used[b] == 0 {
        RemoveYoung(b);
        youngBlocks := Without(list, k);
      }
    }

    method ProcessYoungNode(b: nat, i: nat, ghost before: seq<Block>, ghost links: Links, ghost list: seq<nat>, ghost k: nat)
      requires Valid() && ListOk(links, list) && InBlock(before, links, list, k, i) && list[k] == b
      requires i < |before[b]|
      modifies this
      ensures Valid() && InBlock(before, links, list, k, i + 1)
    {
      var node := blocks[b][i];
      assert PartBlock(before[b], i)[i := ProcessedNode(node)] == PartBlock(before[b], i + 1);
      if !node.young {
        assert blocks[b][i := node] == blocks[b];
        return;
      }
      assert node.inUse;
      CountMember(blocks[b], |blocks[b]|, i);
      StillUsed(before[b], i);
      if !node.marked {
        FreeNode(b, i, links, list, k);
      } else {
        CountUpdate(blocks[b], |blocks[b]|, i, node.(marked := false));
        blocks := blocks[b := blocks[b][i := node.(marked := false)]];
      }
    }

    method ProcessYoungBlock(b: nat, ghost k: nat)
      requires Valid() && k < |youngBlocks| && youngBlocks[k] == b
      modifies this
      ensures Valid() && b < |old(blocks)|
      ensures blocks == old(blocks)[b := ProcessedBlock(old(blocks[b]))]
      ensures if Emptied(old(blocks[b])) then young.next[b] == NULL
              else youngBlocks == old(youngBlocks) && young == old(young)
    {
      ghost var before, links, list := blocks, young, youngBlocks;
      RemovedOk(links, list, k);
      assert blocks == before[b := PartBlock(before[b], 0)] by {
        assert PartBlock(before[b], 0) == before[b];
      }
      var i := 0;
      while i < |blocks[b]|
        invariant Valid() && b < |blocks| && |blocks[b]| == |before[b]|
        invariant i <= |blocks[b]| && InBlock(before, links, list, k, i)
      {
        ProcessYoungNode(b, i, before, links, list, k);
        i := i + 1;
      }
      assert PartBlock(before[b], i) == ProcessedBlock(before[b]);
      EmptiedIff(before[b]);
    }

    /** The pass with the list's own iterator. */
    method ResetYoungDeadNodes()
      requires Valid()
      modifies this
      ensures Valid()
      ensures (forall i :: 0 <= i < |old(youngBlocks)| ==> old(youngBlocks)[i] < |old(blocks)|)
      ensures blocks == Pass(old(blocks), old(youngBlocks))
      ensures FullyProcessed(old(blocks), blocks, old(youngBlocks)) <==> NoEarlyEnd(old(blocks), old(youngBlocks))
    {
      ghost var before, list := blocks, youngBlocks;
      ghost var k: nat, ended := 0, false;
      var current := young.head;
      assert list[0..] == list;
      while current != NULL
        invariant Valid() && |blocks| == |before| && k <= |list|
        invariant current == if ended || k == |list| then NULL else list[k]
        invariant !ended ==> youngBlocks == list
        invariant Pass(blocks, if ended then [] else list[k..]) == Pass(before, list)
        decreases |list| - k, if ended then 0 else 1
      {
        ghost var rest := list[k..];
        assert rest[0] == current && rest[1..] == list[k + 1..];
        assert LinkAt(young, list, k);
        ended := Emptied(blocks[current]);
        ProcessYoungBlock(current, k);
        current := young.next[current];
        k := k + 1;
      }
      PassIsFullIff(before, list);
    }
  }

  /** A block with an unprocessed node in use was not empty before, and is not yet. */
  lemma StillUsed(b: Block, n: nat)
    requires n < |b| && b[n].inUse
    ensures Used(b) > 0 && Used(PartBlock(b, n)) > 0
  {
    CountMember(b, |b|, n);
    CountMember(PartBlock(b, n), |b|, n);
  }
}
