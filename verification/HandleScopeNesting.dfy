/**
 What well-nested scopes guarantee to the code around them: closing restores the state
 of the opening, inner code cannot touch outer handles, an escaped value survives.
 */
module HandleScopeNesting {
  import opened Basics
  import opened HandleScopes
  import opened HandleScopeSlots
  import opened HandleScopeSteps
  import opened HandleScopeRefinement

  /** The configuration that remains once all frames above the first `n` are closed. */
  function Rewind(c: Cfg, frames: seq<Frame>, n: nat): Cfg
    requires n <= |frames|
    decreases |frames|
  {
    if |frames| == n then c else Rewind(Below(c, Last(frames)), Front(frames), n)
  }

  /** Frame `n` is open, and the step does not close it. */
  predicate Inside(s: State, step: Step, n: nat) {
    && n < |s.frames|
    && (step.Close? || step.CloseSeal? || step.ClosePersistent? || step.CloseAndEscape? ==> n + 1 < |s.frames|)
  }

  ghost predicate InsideRun(s: State, steps: seq<Step>, n: nat)
    requires EnabledRun(s, steps)
    decreases |steps|
  {
    steps == [] ||
    (Inside(s, steps[0], n) &&
     (Apply(s, steps[0]).Some? ==> InsideRun(Apply(s, steps[0]).value, steps[1..], n)))
  }

  predicate Adds(step: Step) {
    step.Create? || step.OpenEscapable? || step.CloseAndEscape?
  }

  // ---------------------------------------------------------------- restoration

  lemma CreateKeepsRewind(s: State, value: Word, alloc: Address, n: nat)
    requires Inv(s) && Allocatable(s, alloc)
    requires n < |s.frames|
    requires CreateHandle(s, value, alloc).Some?
    ensures var t := CreateHandle(s, value, alloc).value.0;
            Inv(t) && t.frames == s.frames && Rewind(t.cfg, t.frames, n) == Rewind(s.cfg, s.frames, n)
  {
    if Last(s.frames).Seal? {
      CreateFails(s, value, alloc);
    } else {
      CreateStep(s, value, alloc);
    }
  }

  lemma PushKeepsRewind(s: State, t: State, f: Frame, n: nat)
    requires Pushed(s, t, f) && n <= |s.frames|
    ensures Rewind(t.cfg, t.frames, n) == Rewind(s.cfg, s.frames, n)
    ensures Front(t.frames) == s.frames
  {
    assert Front(t.frames) == s.frames && Last(t.frames) == f;
  }

  lemma CloseKeepsRewind(s: State, n: nat)
    requires Inv(s) && n + 1 < |s.frames| && IsPlainScope(Last(s.frames))
    ensures Inv(Closed(s)) && Owned(Closed(s)) <= Owned(s)
    ensures Closed(s).frames == Front(s.frames) && Rewind(Closed(s).cfg, Closed(s).frames, n) == Rewind(s.cfg, s.frames, n)
  {
    CloseStep(s);
  }

  lemma OpenKeepsRewind(u: State, n: nat)
    requires Inv(u) && n <= |u.frames|
    ensures Front(Opened(u).frames) == u.frames && Rewind(Opened(u).cfg, Opened(u).frames, n) == Rewind(u.cfg, u.frames, n)
  {
    OpenStep(u);
    PushKeepsRewind(u, Opened(u), Last(Opened(u).frames), n);
  }

  lemma CloseAndEscapeKeepsRewind(s: State, value: Word, alloc: Address, n: nat)
    requires Inv(s) && Allocatable(s, alloc)
    requires n + 1 < |s.frames| && Last(s.frames).Scope?
    requires CreateHandle(Closed(s), value, alloc).Some?
    ensures var t := Opened(CreateHandle(Closed(s), value, alloc).value.0);
            && |t.frames| == |s.frames| && t.frames[..n + 1] == s.frames[..n + 1]
            && Rewind(t.cfg, t.frames, n) == Rewind(s.cfg, s.frames, n)
  {
    CloseKeepsRewind(s, n);
    CreateKeepsRewind(Closed(s), value, alloc, n);
    OpenKeepsRewind(CreateHandle(Closed(s), value, alloc).value.0, n);
  }

  lemma OpenEscapablePushes(s: State, hole: Word, alloc: Address)
    requires Inv(s) && Allocatable(s, alloc) && s.frames != []
    requires CreateHandle(s, hole, alloc).Some?
    ensures var (u, slot) := CreateHandle(s, hole, alloc).value;
            var t := OpenedEscapable(u, slot);
            Inv(t) && Pushed(u, t, Last(t.frames)) && u.frames == s.frames
  {
    if Last(s.frames).Seal? {
      CreateFails(s, hole, alloc);
    } else {
      CreateStep(s, hole, alloc);
      var (u, slot) := CreateHandle(s, hole, alloc).value;
      OpenEscapableStep(u, slot);
    }
  }

  lemma OpenEscapableKeepsRewind(s: State, hole: Word, alloc: Address, n: nat)
    requires Inv(s) && Allocatable(s, alloc)
    requires n < |s.frames|
    requires Apply(s, OpenEscapable(hole, alloc)).Some?
    ensures var t := Apply(s, OpenEscapable(hole, alloc)).value;
            && Front(t.frames) == s.frames
            && Rewind(t.cfg, t.frames, n) == Rewind(s.cfg, s.frames, n)
  {
    CreateKeepsRewind(s, hole, alloc, n);
    OpenEscapablePushes(s, hole, alloc);
    var (u, slot) := CreateHandle(s, hole, alloc).value;
    var t := OpenedEscapable(u, slot);
    PushKeepsRewind(u, t, Last(t.frames), n);
  }

  /** A step that only opens or closes a scope changes nothing beneath the frame it moves. */
  lemma PopKeepsRewind(s: State, t: State, n: nat)
    requires Popped(s, t) && n < |s.frames|
    ensures n <= |t.frames| && t.frames[..n] == s.frames[..n]
    ensures Rewind(t.cfg, t.frames, n) == Rewind(s.cfg, s.frames, n)
  {}

  /** A step that opens a scope, or only closes one, or escapes. */
  lemma PlainStepMoves(s: State, step: Step)
    requires Inv(s) && Enabled(s, step) && !Adds(step)
    ensures Apply(s, step).Some?
    ensures var t := Apply(s, step).value;
            || (t.frames != [] && Pushed(s, t, Last(t.frames)))
            || ((step.Close? || step.CloseSeal? || step.ClosePersistent?) && Popped(s, t))
            || (t.cfg == s.cfg && t.frames == s.frames)
  {
    match step
    case OpenScope => OpenStep(s);
    case Close => CloseStep(s);
    case Escape(depth, from) => EscapeStep(s, depth, from);
    case OpenSeal => OpenSealStep(s);
    case CloseSeal => CloseSealStep(s);
    case OpenPersistent(alloc) => OpenPersistentStep(s, alloc);
    case ClosePersistent => ClosePersistentStep(s);
  }

  lemma PlainStepKeepsRewind(s: State, step: Step, n: nat)
    requires Inv(s) && Enabled(s, step) && !Adds(step)
    requires n <= |s.frames| && (step.Close? || step.CloseSeal? || step.ClosePersistent? ==> n < |s.frames|)
    ensures Apply(s, step).Some?
    ensures var t := Apply(s, step).value;
            && n <= |t.frames| && t.frames[..n] == s.frames[..n]
            && Rewind(t.cfg, t.frames, n) == Rewind(s.cfg, s.frames, n)
  {
    PlainStepMoves(s, step);
    var t := Apply(s, step).value;
    if t.frames != [] && Pushed(s, t, Last(t.frames)) {
      PushKeepsRewind(s, t, Last(t.frames), n);
    } else if Popped(s, t) && n < |s.frames| {
      PopKeepsRewind(s, t, n);
    }
  }

  lemma PlainStepInside(s: State, step: Step, n: nat)
    requires Inv(s) && Enabled(s, step) && Inside(s, step, n) && !Adds(step)
    ensures Apply(s, step).Some?
    ensures var t := Apply(s, step).value;
            && n < |t.frames| && t.frames[..n + 1] == s.frames[..n + 1]
            && Rewind(t.cfg, t.frames, n) == Rewind(s.cfg, s.frames, n)
  {
    PlainStepKeepsRewind(s, step, n + 1);
    var t := Apply(s, step).value;
    RewindTwice(s.cfg, s.frames, n);
    RewindTwice(t.cfg, t.frames, n);
    assert s.frames[n] == s.frames[..n + 1][n] == t.frames[n];
  }

  lemma StepInside(s: State, step: Step, n: nat)
    requires Inv(s) && Enabled(s, step) && Inside(s, step, n)
    requires Apply(s, step).Some?
    ensures var t := Apply(s, step).value;
            && n < |t.frames| && t.frames[..n + 1] == s.frames[..n + 1]
            && Rewind(t.cfg, t.frames, n) == Rewind(s.cfg, s.frames, n)
  {
    if !Adds(step) {
      PlainStepInside(s, step, n);
    } else if step.Create? {
      CreateKeepsRewind(s, step.value, step.alloc, n);
    } else if step.OpenEscapable? {
      OpenEscapableKeepsRewind(s, step.hole, step.alloc, n);
      var t := Apply(s, step).value;
      assert t.frames[..n + 1] == Front(t.frames)[..n + 1];
    } else {
      CloseAndEscapeKeepsRewind(s, s.mem[step.from], step.alloc, n);
    }
  }

  lemma {:induction false} RewindTwice(c: Cfg, frames: seq<Frame>, n: nat)
    requires n < |frames|
    ensures Rewind(c, frames, n) == Below(Rewind(c, frames, n + 1), frames[n])
    decreases |frames|
  {
    if n + 1 < |frames| {
      RewindTwice(Below(c, Last(frames)), Front(frames), n);
    }
  }

  /** Whatever happens inside an open scope, its frame and everything beneath it stand. */
  lemma {:induction false} RunInside(s: State, steps: seq<Step>, n: nat)
    requires Inv(s) && n < |s.frames|
    requires EnabledRun(s, steps) && InsideRun(s, steps, n)
    requires Run(s, steps).Some?
    ensures var t := Run(s, steps).value;
            && Inv(t)
            && n < |t.frames| && t.frames[..n + 1] == s.frames[..n + 1]
            && Rewind(t.cfg, t.frames, n) == Rewind(s.cfg, s.frames, n)
    decreases |steps|
  {
    if steps == [] {
    } else {
      StepInside(s, steps[0], n);
      StepRefines(s, steps[0]);
      RunInside(Apply(s, steps[0]).value, steps[1..], n);
    }
  }

  /** After any inner run, with any number of block extensions, seals, nested and
      persistent scopes, closing the scope restores `next`, `limit`, `level`,
      `sealed_level`, the persistent mark and the block list seen when it opened. */
  lemma ScopeRestores(s: State, steps: seq<Step>)
    requires Inv(s)
    requires EnabledRun(Opened(s), steps) && InsideRun(Opened(s), steps, |s.frames|)
    requires Run(Opened(s), steps).Some?
    requires |Run(Opened(s), steps).value.frames| == |s.frames| + 1
    ensures var t := Run(Opened(s), steps).value;
            && Last(t.frames) == Scope(s.cfg.next, s.cfg.limit)
            && Closed(t).cfg == s.cfg && Closed(t).frames == s.frames
            && Inv(Closed(t))
  {
    var o, n := Opened(s), |s.frames|;
    OpenStep(s);
    PushKeepsRewind(s, o, Last(o.frames), n);
    RunInside(o, steps, n);
    var t := Run(o, steps).value;
    assert t.frames == t.frames[..n + 1] == o.frames[..n + 1] == o.frames;
    CloseStep(t);
    assert Front(t.frames) == s.frames;
    assert Rewind(t.cfg, t.frames, n) == Below(t.cfg, Last(t.frames));
  }

  // ---------------------------------------------------------------- outer handles keep their values

  /** The handles of the first `n` scopes. */
  function Outer(s: State, n: nat): seq<Address>
    requires n <= |s.frames|
  {
    Flatten(Handles(s.cfg, s.frames)[..n])
  }

  lemma {:induction false} HandlesRewind(c: Cfg, frames: seq<Frame>, n: nat)
    requires n <= |frames|
    ensures Handles(c, frames)[..n] == Handles(Rewind(c, frames, n), frames[..n])
    decreases |frames|
  {
    if |frames| == n {
      assert frames[..n] == frames;
    } else {
      HandlesRewind(Below(c, Last(frames)), Front(frames), n);
      assert Front(frames)[..n] == frames[..n];
    }
  }

  lemma {:induction false} FlattenPrefix(hs: seq<seq<Address>>, n: nat, a: Address)
    requires n <= |hs| && a in Flatten(hs[..n])
    ensures a in Flatten(hs)
    decreases |hs|
  {
    if n == |hs| {
      assert hs[..n] == hs;
    } else {
      assert Front(hs)[..n] == hs[..n];
      FlattenPrefix(Front(hs), n, a);
    }
  }

  /** `Escape` on frame `depth` writes a slot of the scope just outside that frame. */
  lemma EscapeMissesOuter(s: State, depth: nat, n: nat, a: Address)
    requires Inv(s) && depth < |s.frames| && s.frames[depth].Escapable?
    requires n < depth
    requires a in Outer(s, n)
    ensures a != s.frames[depth].escapeSlot
  {
    var hs := Handles(s.cfg, s.frames);
    EscapeSlotOwner(s.cfg, s.frames, depth);
    StorageSpaced(s);
    LiveSlots(s.cfg, s.frames);
    SplitDistinct(hs, n);
    var rest := hs[n..];
    LiveHas(rest, depth - 1 - n, s.frames[depth].escapeSlot);
  }

  lemma FlattenConcat<T>(ss: seq<seq<T>>, ts: seq<seq<T>>)
    ensures Flatten(ss + ts) == Flatten(ss) + Flatten(ts)
  {
    if ts == [] {
      assert ss + ts == ss;
    } else {
      FlattenConcat(ss, Front(ts));
      assert Front(ss + ts) == ss + Front(ts);
      assert Last(ss + ts) == Last(ts);
    }
  }

  lemma SplitDistinct(hs: seq<seq<Address>>, n: nat)
    requires n <= |hs| && Distinct(Flatten(hs))
    ensures forall a :: a in Flatten(hs[..n]) ==> a !in Flatten(hs[n..])
  {
    assert hs == hs[..n] + hs[n..];
    FlattenConcat(hs[..n], hs[n..]);
    DistinctSplit(Flatten(hs[..n]), Flatten(hs[n..]));
  }

  lemma CreateMissesLive(s: State, value: Word, alloc: Address, a: Address)
    requires Inv(s) && Allocatable(s, alloc)
    requires CreateHandle(s, value, alloc).Some?
    requires a in Live(s)
    ensures Read(CreateHandle(s, value, alloc).value.0.mem, a) == Read(s.mem, a)
  {
    if s.frames == [] || Last(s.frames).Seal? {
      CreateFails(s, value, alloc);
    } else {
      CreateStep(s, value, alloc);
    }
  }

  lemma OuterAfterClose(s: State, n: nat, a: Address)
    requires Inv(s) && s.frames != [] && IsPlainScope(Last(s.frames))
    requires n < |s.frames| && a in Outer(s, n)
    ensures a in Live(Closed(s))
  {
    CloseStep(s);
    var hs := Handles(s.cfg, s.frames);
    assert Handles(Closed(s).cfg, Closed(s).frames) == Front(hs);
    assert Front(hs)[..n] == hs[..n];
    FlattenPrefix(Front(hs), n, a);
  }

  lemma StepKeepsOuterValue(s: State, step: Step, n: nat, a: Address)
    requires Inv(s) && Enabled(s, step) && Inside(s, step, n)
    requires step.Escape? ==> n < step.depth || s.frames[step.depth].escapeSlot != a
    requires Apply(s, step).Some?
    requires a in Outer(s, n)
    ensures Read(Apply(s, step).value.mem, a) == Read(s.mem, a)
  {
    FlattenPrefix(Handles(s.cfg, s.frames), n, a);
    match step
    case Create(value, alloc) => CreateMissesLive(s, value, alloc, a);
    case OpenEscapable(hole, alloc) => CreateMissesLive(s, hole, alloc, a);
    case CloseAndEscape(from, alloc) =>
      OuterAfterClose(s, n, a);
      CloseStep(s);
      CreateMissesLive(Closed(s), s.mem[from], alloc, a);
    case Escape(depth, from) =>
      if n < depth {
        EscapeMissesOuter(s, depth, n, a);
      }
    case _ =>
  }

  /** No escape from scope `n` or from one around it writes to slot `a`. */
  predicate Spared(frames: seq<Frame>, steps: seq<Step>, n: nat, a: Address)
    requires n < |frames|
  {
    forall i :: 0 <= i < |steps| && steps[i].Escape? && steps[i].depth <= n && frames[steps[i].depth].Escapable? ==>
      frames[steps[i].depth].escapeSlot != a
  }

  /** No creation, closing or extension inside scope `n` changes the value of a handle
      that belongs to one of the scopes around it; nor does an escape, except to the one
      slot it is for. */
  lemma OuterSame(s: State, t: State, n: nat)
    requires n < |s.frames| && n < |t.frames| && t.frames[..n + 1] == s.frames[..n + 1]
    requires Rewind(t.cfg, t.frames, n) == Rewind(s.cfg, s.frames, n)
    ensures Outer(t, n) == Outer(s, n)
  {
    HandlesRewind(s.cfg, s.frames, n);
    HandlesRewind(t.cfg, t.frames, n);
    assert t.frames[..n] == t.frames[..n + 1][..n] == s.frames[..n + 1][..n] == s.frames[..n];
  }

  lemma OuterStep(s: State, step: Step, n: nat, a: Address)
    requires Inv(s) && Enabled(s, step) && Inside(s, step, n) && Apply(s, step).Some?
    requires step.Escape? ==> n < step.depth || s.frames[step.depth].escapeSlot != a
    requires a in Outer(s, n)
    ensures var t := Apply(s, step).value;
            && Inv(t) && n < |t.frames| && t.frames[..n + 1] == s.frames[..n + 1]
            && a in Outer(t, n) && Read(t.mem, a) == Read(s.mem, a)
  {
    StepKeepsOuterValue(s, step, n, a);
    StepInside(s, step, n);
    StepRefines(s, step);
    OuterSame(s, Apply(s, step).value, n);
  }

  lemma {:induction false} OuterValuesKept(s: State, steps: seq<Step>, n: nat, a: Address)
    requires Inv(s) && n < |s.frames|
    requires EnabledRun(s, steps) && InsideRun(s, steps, n) && Spared(s.frames, steps, n, a)
    requires Run(s, steps).Some?
    requires a in Outer(s, n)
    ensures var t := Run(s, steps).value;
            n < |t.frames| && a in Outer(t, n) && Read(t.mem, a) == Read(s.mem, a)
    decreases |steps|
  {
    if steps == [] {
    } else {
      OuterStep(s, steps[0], n, a);
      var t := Apply(s, steps[0]).value;
      SparedRest(s.frames, t.frames, steps, n, a);
      OuterValuesKept(t, steps[1..], n, a);
    }
  }

  lemma SparedRest(frames: seq<Frame>, frames': seq<Frame>, steps: seq<Step>, n: nat, a: Address)
    requires steps != [] && n < |frames| && n < |frames'| && frames[..n + 1] == frames'[..n + 1]
    requires Spared(frames, steps, n, a)
    ensures Spared(frames', steps[1..], n, a)
  {
    forall d | 0 <= d <= n ensures frames[d] == frames'[d] {
      assert frames[..n + 1][d] == frames'[..n + 1][d];
    }
    assert forall i :: 0 <= i < |steps| - 1 ==> steps[1..][i] == steps[i + 1];
  }

  /** Two escapable scopes never share a slot. */
  lemma EscapeSlotsDistinct(s: State, d: nat, n: nat)
    requires Inv(s) && d < n < |s.frames| && s.frames[d].Escapable? && s.frames[n].Escapable?
    ensures s.frames[d].escapeSlot != s.frames[n].escapeSlot
  {
    var hs := Handles(s.cfg, s.frames);
    EscapeSlotOwner(s.cfg, s.frames, d);
    EscapeSlotOwner(s.cfg, s.frames, n);
    StorageSpaced(s);
    LiveSlots(s.cfg, s.frames);
    if s.frames[d].escapeSlot == s.frames[n].escapeSlot {
      OnePlace(hs, d - 1, |hs[d - 1]| - 1, n - 1, |hs[n - 1]| - 1);
    }
  }

  predicate NoSecondEscape(steps: seq<Step>, n: nat) {
    forall i :: 0 <= i < |steps| && steps[i].Escape? ==> steps[i].depth != n
  }

  /** The slot of escapable scope `n` keeps its value. */
  lemma EscapeSlotKept(e: State, n: nat, steps: seq<Step>)
    requires Inv(e) && n < |e.frames| && e.frames[n].Escapable?
    requires EnabledRun(e, steps) && InsideRun(e, steps, n) && NoSecondEscape(steps, n) && Run(e, steps).Some?
    ensures Read(Run(e, steps).value.mem, e.frames[n].escapeSlot) == Read(e.mem, e.frames[n].escapeSlot)
  {
    var slot := e.frames[n].escapeSlot;
    EscapeSlotOwner(e.cfg, e.frames, n);
    LiveHas(Handles(e.cfg, e.frames)[..n], n - 1, slot);
    forall d | 0 <= d < n && e.frames[d].Escapable? ensures e.frames[d].escapeSlot != slot {
      EscapeSlotsDistinct(e, d, n);
    }
    OuterValuesKept(e, steps, n, slot);
  }

  /** Once it is closed, the slot is a handle of the scope around it. */
  lemma EscapeSlotOutside(t: State, n: nat)
    requires Inv(t) && |t.frames| == n + 1 && t.frames[n].Escapable?
    ensures n > 0 && Closed(t).frames == t.frames[..n] && Closed(t).mem == t.mem
    ensures t.frames[n].escapeSlot in Own(Closed(t).cfg, Last(Closed(t).frames))
  {
    CloseStep(t);
    ChainTop(t.cfg, t.frames);
  }

  /** A value escaped from the escapable scope `n` is still there, in a handle of the
      enclosing scope, once the escapable scope is closed: for every inner run in between
      that does not escape from that scope again. */
  lemma EscapeSurvives(s: State, n: nat, from: Address, steps: seq<Step>)
    requires Inv(s) && Enabled(s, Escape(n, from))
    requires Apply(s, Escape(n, from)).Some? ==>
               var e := Apply(s, Escape(n, from)).value;
               && EnabledRun(e, steps) && InsideRun(e, steps, n) && NoSecondEscape(steps, n)
               && Run(e, steps).Some? && |Run(e, steps).value.frames| == n + 1
    ensures Apply(s, Escape(n, from)).Some?
    ensures var t := Run(Apply(s, Escape(n, from)).value, steps).value;
            var slot := s.frames[n].escapeSlot;
            && Last(t.frames) == s.frames[n]
            && Read(Closed(t).mem, slot) == Read(s.mem, from)
            && Closed(t).frames == s.frames[..n] && n > 0
            && slot in Own(Closed(t).cfg, Last(Closed(t).frames))
  {
    EscapeStep(s, n, from);
    var e := Apply(s, Escape(n, from)).value;
    EscapeSlotKept(e, n, steps);
    RunInside(e, steps, n);
    var t := Run(e, steps).value;
    assert t.frames == t.frames[..n + 1] == s.frames[..n + 1];
    assert t.frames[..n] == s.frames[..n + 1][..n] == s.frames[..n];
    EscapeSlotOutside(t, n);
  }

  // ---------------------------------------------------------------- when a scope has extensions

  /** The step adds a handle to scope `n` and finds no room before `limit`. */
  predicate Extends(s: State, step: Step, n: nat)
    requires n < |s.frames|
  {
    && (|| (step.Create? && |s.frames| == n + 1)
        || (step.OpenEscapable? && |s.frames| == n + 1)
        || (step.CloseAndEscape? && |s.frames| == n + 2))
    && var c := Rewind(s.cfg, s.frames, n + 1); c.next == c.limit
  }

  ghost predicate RunExtends(s: State, steps: seq<Step>, n: nat)
    requires EnabledRun(s, steps) && n < |s.frames| && Inv(s) && InsideRun(s, steps, n)
    decreases |steps|
  {
    steps != [] &&
    (Extends(s, steps[0], n) ||
     (Apply(s, steps[0]).Some? &&
      (StepInside(s, steps[0], n); StepRefines(s, steps[0]);
       RunExtends(Apply(s, steps[0]).value, steps[1..], n))))
  }

  lemma CreateLimit(s: State, value: Word, alloc: Address)
    requires Inv(s) && Allocatable(s, alloc)
    requires s.frames != [] && CreateHandle(s, value, alloc).Some?
    ensures var c, d := s.cfg, CreateHandle(s, value, alloc).value.0.cfg;
            if c.next == c.limit then
              d.blocks != [] && d.limit == Last(d.blocks) + HANDLE_BLOCK_SIZE != c.limit
            else d.limit == c.limit && d.blocks == c.blocks
  {
    if Last(s.frames).Seal? {
      CreateFails(s, value, alloc);
    } else {
      CreateGrows(s, value, alloc);
      StorageSpaced(s);
      if s.cfg.blocks != [] {
        assert Last(s.cfg.blocks) in s.cfg.blocks;
      }
    }
  }

  /** The scope's limit is the saved one, or the end of the last block and not the saved one. */
  ghost predicate LimitState(c: Cfg, saved: Address, extended: bool) {
    if extended then c.blocks != [] && c.limit == Last(c.blocks) + HANDLE_BLOCK_SIZE != saved
    else c.limit == saved
  }

  lemma ExtendedStays(s: State, value: Word, alloc: Address, saved: Address)
    requires Inv(s) && Allocatable(s, alloc)
    requires s.frames != [] && IsPlainScope(Last(s.frames)) && Last(s.frames).prevLimit == saved
    requires LimitState(s.cfg, saved, true)
    ensures CreateHandle(s, value, alloc).Some?
    ensures LimitState(CreateHandle(s, value, alloc).value.0.cfg, saved, true)
  {
    CreateGrows(s, value, alloc);
    CreateLimit(s, value, alloc);
    var c := s.cfg;
    ChainTop(c, s.frames);
    var kept := Kept(c.blocks, saved);
    if kept != [] {
      assert Last(kept) == c.blocks[|kept| - 1];
      assert Last(kept) in c.blocks;
    }
  }

  lemma CreateLimitState(s: State, value: Word, alloc: Address, saved: Address, extended: bool)
    requires Inv(s) && Allocatable(s, alloc)
    requires s.frames != [] && IsPlainScope(Last(s.frames)) && Last(s.frames).prevLimit == saved
    requires LimitState(s.cfg, saved, extended)
    ensures CreateHandle(s, value, alloc).Some?
    ensures LimitState(CreateHandle(s, value, alloc).value.0.cfg, saved, extended || s.cfg.next == s.cfg.limit)
  {
    if extended {
      ExtendedStays(s, value, alloc, saved);
    } else {
      CreateGrows(s, value, alloc);
      CreateLimit(s, value, alloc);
    }
  }

  lemma OpenEscapableLimitState(s: State, hole: Word, alloc: Address, saved: Address, extended: bool)
    requires Inv(s) && Allocatable(s, alloc)
    requires s.frames != [] && IsPlainScope(Last(s.frames)) && Last(s.frames).prevLimit == saved
    requires LimitState(s.cfg, saved, extended)
    requires Apply(s, OpenEscapable(hole, alloc)).Some?
    ensures var t := Apply(s, OpenEscapable(hole, alloc)).value;
            && Front(t.frames) == s.frames
            && LimitState(Below(t.cfg, Last(t.frames)), saved, extended || s.cfg.next == s.cfg.limit)
  {
    CreateLimitState(s, hole, alloc, saved, extended);
    OpenEscapablePushes(s, hole, alloc);
    var t := Apply(s, OpenEscapable(hole, alloc)).value;
    assert Front(t.frames) == s.frames;
  }

  lemma CreateThenOpenLimitState(u: State, value: Word, alloc: Address, saved: Address, extended: bool)
    requires Inv(u) && Allocatable(u, alloc)
    requires u.frames != [] && IsPlainScope(Last(u.frames)) && Last(u.frames).prevLimit == saved
    requires LimitState(u.cfg, saved, extended)
    ensures CreateHandle(u, value, alloc).Some?
    ensures var t := Opened(CreateHandle(u, value, alloc).value.0);
            && |t.frames| == |u.frames| + 1
            && LimitState(Below(t.cfg, Last(t.frames)), saved, extended || u.cfg.next == u.cfg.limit)
  {
    CreateLimitState(u, value, alloc, saved, extended);
    CreateStep(u, value, alloc);
    OpenStep(CreateHandle(u, value, alloc).value.0);
  }

  lemma CloseAndEscapeLimitState(s: State, value: Word, alloc: Address, n: nat, extended: bool)
    requires Inv(s) && Allocatable(s, alloc)
    requires |s.frames| == n + 2 && Last(s.frames).Scope? && IsPlainScope(s.frames[n])
    requires LimitState(Below(s.cfg, Last(s.frames)), s.frames[n].prevLimit, extended)
    ensures CreateHandle(Closed(s), value, alloc).Some?
    ensures var t := Opened(CreateHandle(Closed(s), value, alloc).value.0);
            var c := Below(s.cfg, Last(s.frames));
            && |t.frames| == n + 2
            && LimitState(Below(t.cfg, Last(t.frames)), s.frames[n].prevLimit, extended || c.next == c.limit)
  {
    CloseStep(s);
    assert Last(Closed(s).frames) == s.frames[n];
    CreateThenOpenLimitState(Closed(s), value, alloc, s.frames[n].prevLimit, extended);
  }

  lemma TopStepLimitState(s: State, step: Step, n: nat, extended: bool)
    requires Inv(s) && Enabled(s, step) && |s.frames| == n + 1
    requires step.Create? || step.OpenEscapable?
    requires IsPlainScope(s.frames[n])
    requires LimitState(Rewind(s.cfg, s.frames, n + 1), s.frames[n].prevLimit, extended)
    requires Apply(s, step).Some?
    ensures var t := Apply(s, step).value;
            && n < |t.frames|
            && LimitState(Rewind(t.cfg, t.frames, n + 1), s.frames[n].prevLimit, extended || Extends(s, step, n))
  {
    assert Rewind(s.cfg, s.frames, n + 1) == s.cfg;
    match step
    case Create(value, alloc) => CreateLimitState(s, value, alloc, s.frames[n].prevLimit, extended);
    case OpenEscapable(hole, alloc) => OpenEscapableLimitState(s, hole, alloc, s.frames[n].prevLimit, extended);
  }

  lemma NextStepLimitState(s: State, step: Step, n: nat, extended: bool)
    requires Inv(s) && Enabled(s, step) && |s.frames| == n + 2
    requires step.CloseAndEscape?
    requires IsPlainScope(s.frames[n])
    requires LimitState(Rewind(s.cfg, s.frames, n + 1), s.frames[n].prevLimit, extended)
    requires Apply(s, step).Some?
    ensures var t := Apply(s, step).value;
            && n < |t.frames|
            && LimitState(Rewind(t.cfg, t.frames, n + 1), s.frames[n].prevLimit, extended || Extends(s, step, n))
  {
    assert Rewind(s.cfg, s.frames, n + 1) == Below(s.cfg, Last(s.frames));
    CloseAndEscapeLimitState(s, s.mem[step.from], step.alloc, n, extended);
  }

  lemma OtherStepLimit(s: State, step: Step, n: nat)
    requires Inv(s) && Enabled(s, step) && Inside(s, step, n)
    requires !Adds(step) || Inside(s, step, n + 1)
    requires Apply(s, step).Some?
    ensures !Extends(s, step, n)
    ensures var t := Apply(s, step).value;
            n < |t.frames| && Rewind(t.cfg, t.frames, n + 1) == Rewind(s.cfg, s.frames, n + 1)
  {
    if !Adds(step) {
      PlainStepKeepsRewind(s, step, n + 1);
    } else {
      StepInside(s, step, n + 1);
    }
  }

  lemma StepLimitState(s: State, step: Step, n: nat, extended: bool)
    requires Inv(s) && Enabled(s, step) && Inside(s, step, n)
    requires IsPlainScope(s.frames[n])
    requires LimitState(Rewind(s.cfg, s.frames, n + 1), s.frames[n].prevLimit, extended)
    requires Apply(s, step).Some?
    ensures var t := Apply(s, step).value;
            && n < |t.frames|
            && LimitState(Rewind(t.cfg, t.frames, n + 1), s.frames[n].prevLimit, extended || Extends(s, step, n))
  {
    if !Adds(step) || Inside(s, step, n + 1) {
      OtherStepLimit(s, step, n);
    } else if step.CloseAndEscape? {
      NextStepLimitState(s, step, n, extended);
    } else {
      TopStepLimitState(s, step, n, extended);
    }
  }

  lemma {:induction false} RunLimitState(s: State, steps: seq<Step>, n: nat, extended: bool)
    requires Inv(s) && n < |s.frames| && IsPlainScope(s.frames[n])
    requires EnabledRun(s, steps) && InsideRun(s, steps, n)
    requires Run(s, steps).Some?
    requires LimitState(Rewind(s.cfg, s.frames, n + 1), s.frames[n].prevLimit, extended)
    ensures var t := Run(s, steps).value;
            && n < |t.frames|
            && LimitState(Rewind(t.cfg, t.frames, n + 1), s.frames[n].prevLimit, extended || RunExtends(s, steps, n))
    decreases |steps|
  {
    if steps == [] {
    } else {
      var t := Apply(s, steps[0]).value;
      StepLimitState(s, steps[0], n, extended);
      StepInside(s, steps[0], n);
      StepRefines(s, steps[0]);
      assert t.frames[n] == t.frames[..n + 1][n] == s.frames[..n + 1][n];
      RunLimitState(t, steps[1..], n, extended || Extends(s, steps[0], n));
    }
  }

  /** The test the destructor makes, `limit != prev_limit_`, holds if and only if some
      handle of the scope itself was created with no room left before the limit. */
  lemma LimitTestIsExact(s: State, steps: seq<Step>)
    requires Inv(s)
    requires EnabledRun(Opened(s), steps) && InsideRun(Opened(s), steps, |s.frames|)
    requires Run(Opened(s), steps).Some?
    requires |Run(Opened(s), steps).value.frames| == |s.frames| + 1
    ensures Run(Opened(s), steps).value.cfg.limit != s.cfg.limit <==>
            (OpenStep(s); RunExtends(Opened(s), steps, |s.frames|))
  {
    OpenStep(s);
    RunLimitState(Opened(s), steps, |s.frames|, false);
  }
}
