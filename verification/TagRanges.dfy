/**
 Type checks by ranges of tags: the unsigned comparison behind them, and why it decides
 subtyping for every hierarchy whose subtrees have contiguous tags.
 */
module TagRanges {
  import opened Words

  const TAG_LIMIT: nat := 0x1_0000

  type Tag = t: nat | t < TAG_LIMIT

  /** Subtraction on 32-bit unsigned numbers. */
  function Sub32(a: nat, b: nat): nat {
    (a - b) % TWO_32
  }

  datatype TagRange = TagRange(first: Tag, last: Tag) {

    predicate Contains(tag: Tag) {
      Sub32(tag, first) <= Sub32(last, first)
    }

    predicate ContainsRange(range: TagRange) {
      range.first >= first && range.last <= last
    }

    predicate WellFormed() {
      first <= last
    }
  }

  /** The single comparison is the two-sided test on every range [first, last]; on a range
      written the wrong way round it accepts everything outside the gap instead. */
  lemma ContainsIsBetween(range: TagRange, tag: Tag)
    ensures range.Contains(tag) <==>
            if range.WellFormed() then range.first <= tag <= range.last
            else tag <= range.last || range.first <= tag
  {
    assert 0 <= tag - range.first ==> Sub32(tag, range.first) == tag - range.first;
    assert tag - range.first < 0 ==> Sub32(tag, range.first) == tag - range.first + TWO_32;
    assert 0 <= range.last - range.first ==> Sub32(range.last, range.first) == range.last - range.first;
    assert range.last - range.first < 0 ==> Sub32(range.last, range.first) == range.last - range.first + TWO_32;
  }

  /** `Contains` on ranges is inclusion of the tags they accept. */
  lemma ContainsRangeIsInclusion(outer: TagRange, inner: TagRange)
    requires outer.WellFormed() && inner.WellFormed()
    ensures outer.ContainsRange(inner) <==> forall tag: Tag :: inner.Contains(tag) ==> outer.Contains(tag)
  {
    forall tag: Tag
      ensures inner.Contains(tag) <==> inner.first <= tag <= inner.last
      ensures outer.Contains(tag) <==> outer.first <= tag <= outer.last
    {
      ContainsIsBetween(inner, tag);
      ContainsIsBetween(outer, tag);
    }
    if forall tag: Tag :: inner.Contains(tag) ==> outer.Contains(tag) {
      assert inner.Contains(inner.first) && inner.Contains(inner.last);
    }
  }

  // ---------------------------------------------------------------- type hierarchies

  /** A type with its direct subtypes: those numbered before it and those numbered after. */
  datatype Type = Type(name: nat, before: Forest, after: Forest)

  datatype Forest = Nil | Cons(head: Type, tail: Forest)

  /** The types in the order of their tags. */
  function Order(t: Type): seq<nat> {
    OrderAll(t.before) + [t.name] + OrderAll(t.after)
  }

  function OrderAll(f: Forest): seq<nat> {
    match f
    case Nil => []
    case Cons(t, rest) => Order(t) + OrderAll(rest)
  }

  /** `name` is the type `t` or one of its direct or indirect subtypes. */
  predicate IsSubtype(name: nat, t: Type) {
    name == t.name || IsSubtypeOfAny(name, t.before) || IsSubtypeOfAny(name, t.after)
  }

  predicate IsSubtypeOfAny(name: nat, f: Forest) {
    match f
    case Nil => false
    case Cons(t, rest) => IsSubtype(name, t) || IsSubtypeOfAny(name, rest)
  }

  /** `t` is one of the types of the hierarchy. */
  predicate Occurs(t: Type, f: Forest) {
    match f
    case Nil => false
    case Cons(u, rest) => t == u || Occurs(t, u.before) || Occurs(t, u.after) || Occurs(t, rest)
  }

  lemma {:induction false} OrderMembers(t: Type, name: nat)
    ensures name in Order(t) <==> IsSubtype(name, t)
    decreases t
  {
    OrderAllMembers(t.before, name);
    OrderAllMembers(t.after, name);
  }

  lemma {:induction false} OrderAllMembers(f: Forest, name: nat)
    ensures name in OrderAll(f) <==> IsSubtypeOfAny(name, f)
    decreases f
  {
    match f
    case Nil =>
    case Cons(t, rest) =>
      OrderMembers(t, name);
      OrderAllMembers(rest, name);
  }

  predicate BlockAt(whole: seq<nat>, lo: nat, part: seq<nat>) {
    lo + |part| <= |whole| && whole[lo..lo + |part|] == part
  }

  lemma BlockMember(whole: seq<nat>, lo: nat, part: seq<nat>, x: nat)
    requires BlockAt(whole, lo, part) && x in part
    ensures x in whole
  {
    assert x in whole[lo..lo + |part|];
  }

  lemma BlockWithin(left: seq<nat>, mid: seq<nat>, right: seq<nat>, lo: nat, part: seq<nat>)
    requires BlockAt(mid, lo, part)
    ensures BlockAt(left + mid + right, |left| + lo, part)
  {
    var whole := left + mid + right;
    assert forall i :: 0 <= i < |part| ==> whole[|left| + lo + i] == mid[lo + i] == part[i];
  }

  /** A block of one of the four parts is a block of the whole. */
  lemma BlockOfParts(b: seq<nat>, n: seq<nat>, a: seq<nat>, r: seq<nat>, lo: nat, part: seq<nat>)
    ensures BlockAt(b, lo, part) ==> BlockAt(b + n + a + r, lo, part)
    ensures BlockAt(a, lo, part) ==> BlockAt(b + n + a + r, |b + n| + lo, part)
    ensures BlockAt(r, lo, part) ==> BlockAt(b + n + a + r, |b + n + a| + lo, part)
  {
    if BlockAt(b, lo, part) {
      BlockWithin([], b, n + a + r, lo, part);
      assert [] + b + (n + a + r) == b + n + a + r;
    }
    if BlockAt(a, lo, part) {
      BlockWithin(b + n, a, r, lo, part);
    }
    if BlockAt(r, lo, part) {
      BlockWithin(b + n + a, r, [], lo, part);
      assert b + n + a + r + [] == b + n + a + r;
    }
  }

  /** Every subtree of a hierarchy has contiguous tags. */
  lemma {:induction false} SubtreeIsBlock(t: Type, f: Forest) returns (lo: nat)
    requires Occurs(t, f)
    ensures BlockAt(OrderAll(f), lo, Order(t))
    decreases f
  {
    var u, rest := f.head, f.tail;
    var b, n, a, r := OrderAll(u.before), [u.name], OrderAll(u.after), OrderAll(rest);
    if t == u {
      lo := 0;
    } else if Occurs(t, u.before) {
      lo := SubtreeIsBlock(t, u.before);
      BlockOfParts(b, n, a, r, lo, Order(t));
    } else if Occurs(t, u.after) {
      lo := SubtreeIsBlock(t, u.after);
      BlockOfParts(b, n, a, r, lo, Order(t));
      lo := |b + n| + lo;
    } else {
      lo := SubtreeIsBlock(t, rest);
      BlockOfParts(b, n, a, r, lo, Order(t));
      lo := |b + n + a| + lo;
    }
  }

  // ---------------------------------------------------------------- numberings

  /** The tags given to the types, with or without unused ones between them. */
  type Numbering = nat -> Tag

  /** The range check accepts exactly the subtypes of `t`. */
  ghost predicate Decides(range: TagRange, tagOf: Numbering, t: Type, f: Forest) {
    forall name <- OrderAll(f) :: range.Contains(tagOf(name)) <==> IsSubtype(name, t)
  }

  /** No other type's tag lies between the tags of two subtypes of `t`. */
  ghost predicate IsInterval(tagOf: Numbering, t: Type, f: Forest) {
    forall x <- OrderAll(f), y <- OrderAll(f), z <- OrderAll(f) ::
      IsSubtype(x, t) && IsSubtype(z, t) && tagOf(x) <= tagOf(y) <= tagOf(z) ==> IsSubtype(y, t)
  }

  lemma {:induction false} Extremes(names: seq<nat>, tagOf: Numbering) returns (least: nat, greatest: nat)
    requires names != []
    ensures least in names && greatest in names
    ensures forall name <- names :: tagOf(least) <= tagOf(name) <= tagOf(greatest)
  {
    least, greatest := names[0], names[0];
    if |names| == 1 {
    } else {
      var l, g := Extremes(names[1..], tagOf);
      least := if tagOf(l) < tagOf(least) then l else least;
      greatest := if tagOf(greatest) < tagOf(g) then g else greatest;
      forall name <- names ensures tagOf(least) <= tagOf(name) <= tagOf(greatest) {
        if name != names[0] {
          assert name in names[1..];
        }
      }
    }
  }

  lemma SubtypesOccur(t: Type, f: Forest, name: nat)
    requires Occurs(t, f) && IsSubtype(name, t)
    ensures name in OrderAll(f) && name in Order(t)
  {
    var lo := SubtreeIsBlock(t, f);
    OrderMembers(t, name);
    BlockMember(OrderAll(f), lo, Order(t), name);
  }

  lemma IntervalHasRange(tagOf: Numbering, t: Type, f: Forest) returns (range: TagRange)
    requires Occurs(t, f) && IsInterval(tagOf, t, f)
    ensures range.WellFormed() && Decides(range, tagOf, t, f)
  {
    assert Order(t)[|OrderAll(t.before)|] == t.name;
    var least, greatest := Extremes(Order(t), tagOf);
    range := TagRange(tagOf(least), tagOf(greatest));
    OrderMembers(t, least);
    OrderMembers(t, greatest);
    SubtypesOccur(t, f, least);
    SubtypesOccur(t, f, greatest);
    forall name <- OrderAll(f) ensures range.Contains(tagOf(name)) <==> IsSubtype(name, t) {
      ContainsIsBetween(range, tagOf(name));
      OrderMembers(t, name);
    }
  }

  lemma RangeIsInterval(range: TagRange, tagOf: Numbering, t: Type, f: Forest)
    requires range.WellFormed() && Decides(range, tagOf, t, f)
    ensures IsInterval(tagOf, t, f)
  {
    forall x <- OrderAll(f), y <- OrderAll(f), z <- OrderAll(f) |
      IsSubtype(x, t) && IsSubtype(z, t) && tagOf(x) <= tagOf(y) <= tagOf(z)
      ensures IsSubtype(y, t)
    {
      ContainsIsBetween(range, tagOf(x));
      ContainsIsBetween(range, tagOf(y));
      ContainsIsBetween(range, tagOf(z));
    }
  }

  /** For every numbering of every hierarchy: some range check decides whether a type is a
      subtype of `t`, if and only if the tags of its subtypes are an interval. */
  lemma RangeExistsIff(tagOf: Numbering, t: Type, f: Forest)
    requires Occurs(t, f)
    ensures (exists range: TagRange :: range.WellFormed() && Decides(range, tagOf, t, f)) <==> IsInterval(tagOf, t, f)
  {
    if IsInterval(tagOf, t, f) {
      var range := IntervalHasRange(tagOf, t, f);
    }
    if range: TagRange :| range.WellFormed() && Decides(range, tagOf, t, f) {
      RangeIsInterval(range, tagOf, t, f);
    }
  }

  /** Tags that follow the order of the hierarchy's blocks. */
  ghost predicate Increasing(tagOf: Numbering, order: seq<nat>) {
    forall i, j :: 0 <= i < j < |order| ==> tagOf(order[i]) < tagOf(order[j])
  }

  /** The range covers the block of `t` at `lo` and no tag of the types around it; it may
      begin and end with unused tags. */
  ghost predicate Spans(range: TagRange, tagOf: Numbering, order: seq<nat>, lo: nat, block: seq<nat>) {
    && block != [] && BlockAt(order, lo, block)
    && range.first <= tagOf(order[lo]) && tagOf(order[lo + |block| - 1]) <= range.last
    && (lo > 0 ==> tagOf(order[lo - 1]) < range.first)
    && (lo + |block| < |order| ==> range.last < tagOf(order[lo + |block|]))
  }

  lemma SpansExactly(range: TagRange, tagOf: Numbering, order: seq<nat>, lo: nat, block: seq<nat>, i: nat)
    requires Increasing(tagOf, order) && Spans(range, tagOf, order, lo, block) && i < |order|
    ensures range.WellFormed()
    ensures range.first <= tagOf(order[i]) <= range.last <==> lo <= i < lo + |block|
  {
    var hi := lo + |block| - 1;
    assert lo < hi ==> tagOf(order[lo]) < tagOf(order[hi]);
    assert lo < i ==> tagOf(order[lo]) < tagOf(order[i]);
    assert i < hi ==> tagOf(order[i]) < tagOf(order[hi]);
    assert i < lo - 1 ==> tagOf(order[i]) < tagOf(order[lo - 1]);
    assert hi + 1 < i ==> tagOf(order[hi + 1]) < tagOf(order[i]);
  }

  /** The range check accepts the tag of a type if and only if it is a subtype: for every
      hierarchy, every way of placing a type among its subtypes' blocks, every numbering
      in that order and every range that begins and ends in the gaps around the block. */
  lemma RangeCheckIsSubtyping(range: TagRange, tagOf: Numbering, t: Type, f: Forest, lo: nat)
    requires Increasing(tagOf, OrderAll(f)) && Spans(range, tagOf, OrderAll(f), lo, Order(t))
    ensures range.WellFormed() && Decides(range, tagOf, t, f)
  {
    var order, block := OrderAll(f), Order(t);
    SpansExactly(range, tagOf, order, lo, block, lo);
    forall name <- order ensures range.Contains(tagOf(name)) <==> IsSubtype(name, t) {
      var i :| 0 <= i < |order| && order[i] == name;
      SpansExactly(range, tagOf, order, lo, block, i);
      ContainsIsBetween(range, tagOf(name));
      OrderMembers(t, name);
      InBlock(tagOf, order, lo, block, i);
    }
  }

  lemma InBlock(tagOf: Numbering, order: seq<nat>, lo: nat, block: seq<nat>, i: nat)
    requires Increasing(tagOf, order) && BlockAt(order, lo, block) && i < |order|
    ensures order[i] in block <==> lo <= i < lo + |block|
  {
    assert forall k :: 0 <= k < |block| ==> block[k] == order[lo + k];
    if lo <= i < lo + |block| {
      assert block[i - lo] == order[i];
    }
  }

  function Leaf(name: nat): Type {
    Type(name, Nil, Nil)
  }

  /** The two numberings of the same hierarchy that the documentation gives. */
  lemma DocumentedNumberings(a: nat, b: nat, c: nat, d: nat, e: nat, f: nat)
    ensures OrderAll(Cons(Type(a, Nil, Cons(Type(b, Nil, Cons(Leaf(c), Cons(Leaf(d), Nil))), Cons(Leaf(e), Nil))),
                          Cons(Leaf(f), Nil))) == [a, b, c, d, e, f]
    ensures OrderAll(Cons(Type(a, Cons(Type(b, Cons(Leaf(c), Cons(Leaf(d), Nil)), Nil), Nil), Cons(Leaf(e), Nil)),
                          Cons(Leaf(f), Nil))) == [c, d, b, a, e, f]
  {
    var cd := Cons(Leaf(c), Cons(Leaf(d), Nil));
    assert OrderAll(Cons(Leaf(d), Nil)) == [d] && OrderAll(Cons(Leaf(e), Nil)) == [e] && OrderAll(Cons(Leaf(f), Nil)) == [f];
    assert OrderAll(cd) == [c, d];
    assert Order(Type(b, Nil, cd)) == [b, c, d] && Order(Type(b, cd, Nil)) == [c, d, b];
    assert OrderAll(Cons(Type(b, cd, Nil), Nil)) == [c, d, b];
    assert OrderAll(Cons(Type(b, Nil, cd), Cons(Leaf(e), Nil))) == [b, c, d, e];
  }
}
