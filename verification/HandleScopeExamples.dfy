/**
 Runs of the handle-scope allocator, from the empty isolate on, that reach the states in
 which the root visit, the handle count and the seal do not do what is expected of them.
 */
module HandleScopeExamples {
  import opened Basics
  import opened HandleScopes
  import opened HandleScopeSlots
  import opened HandleScopeSteps
  import opened HandleScopeRefinement
  import opened HandleScopeRoots

  /** Some run reaches the state. */
  ghost predicate Reached(t: State) {
    exists steps :: EnabledRun(INITIAL, steps) && Run(INITIAL, steps) == Some(t)
  }

  lemma {:induction false} RunConcat(s: State, p: seq<Step>, q: seq<Step>)
    requires EnabledRun(s, p) && Run(s, p).Some? && EnabledRun(Run(s, p).value, q)
    ensures EnabledRun(s, p + q) && Run(s, p + q) == Run(Run(s, p).value, q)
    decreases |p|
  {
    if p == [] {
      assert p + q == q;
    } else {
      RunConcat(Apply(s, p[0]).value, p[1..], q);
      assert (p + q)[0] == p[0] && (p + q)[1..] == p[1..] + q;
    }
  }

  lemma RunOne(s: State, step: Step)
    requires Enabled(s, step) && Apply(s, step).Some?
    ensures EnabledRun(s, [step]) && Run(s, [step]) == Apply(s, step)
  {
    var t := Apply(s, step).value;
    assert [step][1..] == [];
    assert EnabledRun(t, []) && Run(t, []) == Some(t);
  }

  lemma ReachedStep(s: State, step: Step)
    requires Reached(s) && Enabled(s, step) && Apply(s, step).Some?
    ensures Reached(Apply(s, step).value)
  {
    var steps :| EnabledRun(INITIAL, steps) && Run(INITIAL, steps) == Some(s);
    RunOne(s, step);
    RunConcat(INITIAL, steps, [step]);
  }

  lemma InitialReached()
    ensures Reached(INITIAL)
  {
    assert EnabledRun(INITIAL, []) && Run(INITIAL, []) == Some(INITIAL);
  }

  lemma ReachedInv(s: State)
    requires Reached(s)
    ensures Inv(s)
  {
    var steps :| EnabledRun(INITIAL, steps) && Run(INITIAL, steps) == Some(s);
    InitialInv();
    RunRefines(INITIAL, steps);
  }

  /** The state after `k` handles with the value 7 were made in the current block. */
  function Filled(s: State, k: nat): State {
    if k == 0 then s
    else
      var t := Filled(s, k - 1);
      t.(cfg := t.cfg.(next := t.cfg.next + 1), mem := t.mem[t.cfg.next := 7])
  }

  lemma {:induction false} FilledFields(s: State, k: nat)
    ensures Filled(s, k) == s.(cfg := s.cfg.(next := s.cfg.next + k), mem := Filled(s, k).mem)
  {
    if k == 0 {
    } else {
      FilledFields(s, k - 1);
    }
  }

  lemma {:induction false} FillBlock(s: State, k: nat, alloc: Address)
    requires Reached(s) && s.cfg.next + k <= s.cfg.limit && Allocatable(s, alloc)
    ensures Reached(Filled(s, k))
  {
    if k == 0 {
    } else {
      FillBlock(s, k - 1, alloc);
      var t := Filled(s, k - 1);
      FilledFields(s, k - 1);
      assert Owned(t) == Owned(s);
      assert Apply(t, Create(7, alloc)) == Some(Filled(s, k));
      ReachedStep(t, Create(7, alloc));
    }
  }

  // ---------------------------------------------------------------- one handle, then a persistent scope

  /** One handle in block 1. */
  const ONE_HANDLE := State(Cfg(2, 1023, 1, 0, [1], None), 0, map[1 := 7], [Scope(0, 0)], {})

  lemma OneHandleReached()
    ensures Reached(ONE_HANDLE)
  {
    InitialReached();
    ReachedStep(INITIAL, OpenScope);
    var o := Opened(INITIAL);
    assert Owned(o) == {};
    ReachedStep(o, Create(7, 1));
    assert [] + [1] == [1] && [] + [Scope(0, 0)] == [Scope(0, 0)];
    assert Apply(o, Create(7, 1)) == Some(ONE_HANDLE);
  }

  /** And a persistent scope in block 5000, with no handle yet. */
  const GAPPED := State(Cfg(5000, 6022, 2, 0, [1, 5000], Some(2)), 0, map[1 := 7],
                        [Scope(0, 0), Persistent(5000, 1023, 2)], {})

  lemma GappedReached()
    ensures Reached(GAPPED)
  {
    OneHandleReached();
    assert Owned(ONE_HANDLE) == {1};
    ReachedStep(ONE_HANDLE, OpenPersistent(5000));
    assert [1] + [5000] == [1, 5000];
    assert ONE_HANDLE.frames + [Persistent(5000, 1023, 2)] == GAPPED.frames;
    assert Apply(ONE_HANDLE, OpenPersistent(5000)) == Some(GAPPED);
  }

  lemma GappedLive()
    ensures Live(GAPPED) == [1]
  {
    var c, frames := GAPPED.cfg, GAPPED.frames;
    assert c.blocks[1] == 5000 && IndexOf(c.blocks, 5000) == 1;
    assert c.blocks[1..] == [5000] && c.blocks[..1] == [1];
    assert Own(c, Last(frames)) == [] by {
      assert Front([5000]) == [] && Full([]) == [];
    }
    assert Below(c, Last(frames)) == ONE_HANDLE.cfg;
    assert Front(frames) == [Scope(0, 0)];
    OneHandleLive();
    var hs := Handles(ONE_HANDLE.cfg, [Scope(0, 0)]);
    assert Handles(c, frames) == hs + [[]];
    assert Flatten(hs + [[]]) == Flatten(hs) + [] by {
      assert Front(hs + [[]]) == hs;
    }
  }

  lemma OneHandleLive()
    ensures Flatten(Handles(ONE_HANDLE.cfg, [Scope(0, 0)])) == [1]
  {
    var c := ONE_HANDLE.cfg;
    assert Front([Scope(0, 0)]) == [];
    assert Kept([1], 0) == [] by { assert Front([1]) == []; }
    assert [1][0..] == [1];
    assert Own(c, Scope(0, 0)) == [1] by {
      assert Front([1]) == [] && Full([]) == [];
      assert Range(1, 2) == [1];
    }
    var hs := Handles(c, [Scope(0, 0)]);
    assert hs == [[1]];
    assert Front([[1]]) == [] && Flatten<Address>([]) == [];
  }

  /** The isolate reports 1022 handles where one is live. */
  lemma HandlesOvercounted()
    ensures Reached(GAPPED) && NumberOfHandles(GAPPED.cfg) == 1022 && |Live(GAPPED)| == 1
  {
    GappedReached();
    GappedLive();
  }

  /** Sealing here, opening a scope, making a handle and closing the scope drops every
      block, although block 1 holds a live handle. */
  lemma SealDropsLiveBlock()
    ensures Reached(GAPPED) && !CanSeal(GAPPED.cfg) && 1 in Live(GAPPED)
    ensures var r := CreateHandle(Opened(Sealed(GAPPED)), 8, 9000);
            r.Some? && Closed(r.value.0).cfg.blocks == []
  {
    GappedReached();
    GappedLive();
    var r := CreateHandle(Opened(Sealed(GAPPED)), 8, 9000).value.0;
    assert r.cfg.blocks == [1, 5000] && Last(r.frames) == Scope(5000, 5000);
    assert Front([1, 5000]) == [1] && Front([1]) == [];
    assert Kept([1], 5000) == [];
  }

  // ---------------------------------------------------------------- a block behind the full one

  /** Block 1 is full. */
  const FULL := Filled(ONE_HANDLE, 1021)

  /** Block 1023 lies right behind it, and a persistent scope begins there. */
  const BEHIND := OpenedPersistent(FULL, 1023)

  /** The persistent scope has filled it and moved on to block 5000. */
  const ADJACENT := State(Cfg(5001, 6022, 2, 0, [1, 1023, 5000], Some(1023)), 0,
                          Filled(BEHIND, 1022).mem[5000 := 7], BEHIND.frames, {})

  lemma FullReached()
    ensures Reached(FULL) && FULL.cfg == Cfg(1023, 1023, 1, 0, [1], None) && FULL.spare == 0 && FULL.foreign == {}
  {
    OneHandleReached();
    assert Owned(ONE_HANDLE) == {1};
    FillBlock(ONE_HANDLE, 1021, 9000);
    FilledFields(ONE_HANDLE, 1021);
  }

  lemma BehindReached()
    ensures Reached(BEHIND) && BEHIND.cfg == Cfg(1023, 2045, 2, 0, [1, 1023], Some(1023))
    ensures BEHIND.spare == 0 && BEHIND.foreign == {}
  {
    FullReached();
    assert Owned(FULL) == {1};
    assert [1] + [1023] == [1, 1023];
    ReachedStep(FULL, OpenPersistent(1023));
  }

  lemma AdjacentReached()
    ensures Reached(ADJACENT)
  {
    BehindReached();
    assert Owned(BEHIND) == {1, 1023};
    FillBlock(BEHIND, 1022, 9000);
    FilledFields(BEHIND, 1022);
    var filled := Filled(BEHIND, 1022);
    assert Owned(filled) == {1, 1023};
    assert filled.cfg == Cfg(2045, 2045, 2, 0, [1, 1023], Some(1023));
    assert [1, 1023] + [5000] == [1, 1023, 5000];
    assert Apply(filled, Create(7, 5000)) == Some(ADJACENT);
    ReachedStep(filled, Create(7, 5000));
  }

  /** A run from the empty isolate after which the handle at address 1023 is live and the
      collector is not told of it. */
  lemma AdjacentBlockMissed()
    ensures Reached(ADJACENT)
    ensures 1023 in Live(ADJACENT) && 1023 !in VisitOrder(ADJACENT.cfg)
  {
    AdjacentReached();
    ReachedInv(ADJACENT);
    MarkedBlockMissed(ADJACENT, 1);
  }
}
