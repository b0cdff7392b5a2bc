/**
 What a run of the cancellation tree has to do with the calls made in it: a cancel that has
 returned has canceled its context, a created context is there for its caller, and every error
 and cause goes back to a cancel of the context or of one above it.
 */
module ContextCalls {
  import opened Options
  import opened ContextTree
  import opened ContextInvariant
  import opened ContextSteps
  import opened ContextRuns

  // ---- what an action leaves alone ----

  /** Contexts and calls are only ever added. */
  ghost predicate Longer(s: State, s': State) {
    && |s.tree| <= |s'.tree| && s'.tree[..|s.tree|] == s.tree
    && |s.threads| <= |s'.threads|
  }

  lemma {:induction false} RunShape(s: State, t: nat, pick: nat, s': State)
    requires Inv(s) && Next(s, t, pick) == Some(s')
    ensures AtTop(s, t, Top(s, t)) && StepOf(s, t, Top(s, t), pick, s')
    ensures Shaped(s') && AllGrow(s, s') && Elsewhere(s, s', t)
  {
    Instances(s, t);
    hide FrameOk, CellOk, FramesOk, CellsOk;
    AnyShape(s, t, Top(s, t), pick, s');
  }

  lemma {:induction false} DoLonger(s: State, a: Action, m: State)
    requires Inv(s) && Do(s, a) == Some(m)
    ensures Longer(s, m)
  {
    if a.Run? {
      RunShape(s, a.t, a.pick, m);
    }
    hide Inv, Next;
  }

  lemma {:induction false} ExecLonger(s: State, run: seq<Action>, s': State)
    requires Inv(s) && Exec(s, run) == Some(s')
    ensures Longer(s, s')
    decreases |run|
  {
    hide Do, FramesOk, CellsOk;
    if run != [] {
      var m := Do(s, run[0]).value;
      DoLonger(s, run[0], m);
      DoKeeps(s, run[0], m);
      ExecLonger(m, run[1..], s');
      assert s'.tree[..|s.tree|] == s'.tree[..|m.tree|][..|s.tree|];
    }
  }

  /** A call does not notice the actions of others. */
  lemma {:induction false} OtherThread(s: State, a: Action, m: State, t: nat)
    requires Inv(s) && Do(s, a) == Some(m) && t < |s.threads|
    requires a.Run? ==> a.t != t
    ensures t < |m.threads| && m.threads[t] == s.threads[t]
  {
    if a.Run? {
      RunShape(s, a.t, a.pick, m);
    }
    hide Inv, Next;
  }

  // ---- cancel ----

  /** Thread t's cancel of c has yet to find c canceled or to cancel it. */
  ghost predicate Deciding(s: State, t: nat, c: nat) {
    && t < |s.threads| && |s.threads[t]| == 1
    && var f := s.threads[t][0];
       f.CancelFrame? && f.c == c && (f.pc.Enter? || f.pc.Close?)
  }

  ghost predicate CancelPending(s: State, t: nat, c: nat) {
    c < |s.cells| && t < |s.threads| && (s.cells[c].cause.Some? || Deciding(s, t, c))
  }

  lemma DecidingStep(s: State, t: nat, pick: nat, s': State, c: nat)
    requires Inv(s) && Next(s, t, pick) == Some(s') && Deciding(s, t, c) && c < |s.cells|
    ensures CancelPending(s', t, c)
  {
    Instances(s, t);
  }

  lemma {:induction false} CancelPendingStep(s: State, a: Action, m: State, t: nat, c: nat)
    requires Inv(s) && Do(s, a) == Some(m) && CancelPending(s, t, c)
    ensures CancelPending(m, t, c)
  {
    DoKeeps(s, a, m);
    if s.cells[c].cause.Some? {
      assert Grows(s.cells[c], m.cells[c]);
      DoLonger(s, a, m);
    } else if a.Run? && a.t == t {
      DecidingStep(s, t, a.pick, m, c);
    } else {
      OtherThread(s, a, m, t);
    }
  }

  lemma {:induction false} CancelPendingRun(s: State, run: seq<Action>, s': State, t: nat, c: nat)
    requires Inv(s) && Exec(s, run) == Some(s') && CancelPending(s, t, c)
    ensures Inv(s') && CancelPending(s', t, c)
    decreases |run|
  {
    hide Do, FramesOk, CellsOk, CancelPending;
    if run != [] {
      CancelPendingStep(s, run[0], Do(s, run[0]).value, t, c);
      DoKeeps(s, run[0], Do(s, run[0]).value);
      CancelPendingRun(Do(s, run[0]).value, run[1..], s', t, c);
    }
  }

  lemma CancelStarts(s: State, a: Action, m: State)
    requires Shaped(s) && a.StartCancel? && Do(s, a) == Some(m)
    ensures IsCancelable(s, a.c) && CancelPending(m, |s.threads|, a.c)
  {}

  /** Once a cancel has returned, its context has an error, a cause and a closed done channel,
      whichever cancel got there first and whatever else is still in flight. */
  lemma {:induction false} CancelTakesEffect(s: State, a: Action, m: State, run: seq<Action>, s': State)
    requires Reachable(s) && Shaped(s) && a.StartCancel? && Do(s, a) == Some(m)
    requires Shaped(m) && Exec(m, run) == Some(s')
    ensures |s.threads| < |s'.threads| && a.c < |s'.cells|
    ensures s'.threads[|s.threads|] == [] ==>
      s'.cells[a.c].err.Some? && s'.cells[a.c].cause.Some? && s'.cells[a.c].done.IsClosed()
  {
    ReachableInv(s);
    CancelStarts(s, a, m);
    DoKeeps(s, a, m);
    DoLonger(s, a, m);
    ExecLonger(m, run, s');
    CancelPendingRun(m, run, s', |s.threads|, a.c);
    StillCancelable(s, s', a.c);
    assert CellOk(s', a.c);
  }

  lemma {:induction false} StillCancelable(s: State, s': State, x: nat)
    requires IsCancelable(s, x) && |s.tree| <= |s'.tree| && s'.tree[..|s.tree|] == s.tree
    ensures IsCancelable(s', x)
  {
    assert s'.tree[x] == s'.tree[..|s.tree|][x];
  }

  // ---- creation, Done and Err ----

  /** Thread t is creating c. */
  ghost predicate Creating(s: State, t: nat, c: nat) {
    Busy(s, t) && s.threads[t][0].CreateFrame? && s.threads[t][0].c == c
  }

  ghost predicate CreatePending(s: State, t: nat, c: nat) {
    c < |s.cells| && t < |s.threads| && (s.cells[c].ready || Creating(s, t, c))
  }

  lemma CreatorStep(s: State, t: nat, pick: nat, s': State, c: nat)
    requires Shaped(s) && Next(s, t, pick) == Some(s') && Creating(s, t, c) && |s.threads[t]| == 1 && c < |s.cells|
    ensures c < |s'.cells| && (s'.cells[c].ready || Creating(s', t, c))
  {
    hide Nearest;
    if Up(s, c).Some? && Top(s, t).at.Register? {
      CreatorRegisters(s, t, pick, s', c);
    }
  }

  lemma CreatorRegisters(s: State, t: nat, pick: nat, s': State, c: nat)
    requires Shaped(s) && Next(s, t, pick) == Some(s') && Creating(s, t, c) && |s.threads[t]| == 1 && c < |s.cells|
    requires IsCancelable(s, c) && Up(s, c).Some? && Top(s, t).at.Register?
    ensures c < |s'.cells| && (s'.cells[c].ready || Creating(s', t, c))
  {
    hide Nearest;
  }

  lemma {:induction false} CreatingStep(s: State, t: nat, pick: nat, s': State, c: nat)
    requires Inv(s) && Next(s, t, pick) == Some(s') && Creating(s, t, c) && c < |s.cells|
    ensures CreatePending(s', t, c)
  {
    RunShape(s, t, pick, s');
    if |s.threads[t]| == 1 {
      CreatorStep(s, t, pick, s', c);
    } else {
      hide Next, StepOf, FramesOk, CellsOk;
      SameFrame(s, s', t, Owner(t, 0));
    }
  }

  lemma {:induction false} CreatePendingStep(s: State, a: Action, m: State, t: nat, c: nat)
    requires Inv(s) && Do(s, a) == Some(m) && CreatePending(s, t, c)
    ensures CreatePending(m, t, c)
  {
    DoKeeps(s, a, m);
    if s.cells[c].ready {
      assert Grows(s.cells[c], m.cells[c]);
      DoLonger(s, a, m);
    } else if a.Run? && a.t == t {
      CreatingStep(s, t, a.pick, m, c);
    } else {
      OtherThread(s, a, m, t);
    }
  }

  lemma {:induction false} CreatePendingRun(s: State, run: seq<Action>, s': State, t: nat, c: nat)
    requires Inv(s) && Exec(s, run) == Some(s') && CreatePending(s, t, c)
    ensures Inv(s') && CreatePending(s', t, c)
    decreases |run|
  {
    hide Do, FramesOk, CellsOk, CreatePending;
    if run != [] {
      CreatePendingStep(s, run[0], Do(s, run[0]).value, t, c);
      DoKeeps(s, run[0], Do(s, run[0]).value);
      CreatePendingRun(Do(s, run[0]).value, run[1..], s', t, c);
    }
  }

  lemma CreateStarts(s: State, a: Action, m: State)
    requires Shaped(s) && (a.Create? || a.Derive?) && Do(s, a) == Some(m)
    ensures |m.tree| == |m.cells| == |s.tree| + 1
    ensures m.tree[|s.tree|] == Node(if a.Create? then Cancelable(a.timer) else a.kind, a.parent)
    ensures a.Create? ==> CreatePending(m, |s.threads|, |s.tree|)
    ensures a.Derive? ==> m.cells[|s.tree|].ready
  {}

  /** A new context has the kind and the parent it was asked for, in every later state, and once the
      call has returned the caller can use it. Deriving with WithValue or WithoutCancel takes one
      step. */
  lemma {:induction false} CreateTakesEffect(s: State, a: Action, m: State, run: seq<Action>, s': State)
    requires Reachable(s) && Shaped(s) && (a.Create? || a.Derive?) && Do(s, a) == Some(m)
    requires Shaped(m) && Exec(m, run) == Some(s')
    ensures Shaped(s') && |s.tree| < |s'.tree|
    ensures s'.tree[|s.tree|] == Node(if a.Create? then Cancelable(a.timer) else a.kind, a.parent)
    ensures a.Create? ==> |s.threads| < |s'.threads|
    ensures a.Derive? || s'.threads[|s.threads|] == [] ==> Usable(s', |s.tree|)
  {
    ReachableInv(s);
    CreateStarts(s, a, m);
    DoKeeps(s, a, m);
    ExecLonger(m, run, s');
    hide Do;
    ExecKeeps(m, run, s');
    assert s'.tree[|s.tree|] == s'.tree[..|m.tree|][|s.tree|];
    if a.Create? {
      CreatePendingRun(m, run, s', |s.threads|, |s.tree|);
    }
  }

  lemma CallDoneMakes(s: State, a: Action, m: State)
    requires Shaped(s) && a.CallDone? && Do(s, a) == Some(m)
    ensures a.c < |m.cells| && m.cells[a.c].done != NoChannel
    ensures s.cells[a.c].done != NoChannel ==> m == s
  {}

  /** The channel that Done returns stays the context's channel: it is closed by the cancellation,
      never replaced. */
  lemma {:induction false} DoneStays(s: State, a: Action, m: State, run: seq<Action>, s': State)
    requires Reachable(s) && Shaped(s) && a.CallDone? && Do(s, a) == Some(m)
    requires Shaped(m) && Exec(m, run) == Some(s')
    ensures a.c < |s'.cells|
    ensures m.cells[a.c].done.IsOwn() ==> s'.cells[a.c].done.IsOwn()
    ensures !m.cells[a.c].done.IsOwn() ==> s'.cells[a.c].done == ClosedChan
  {
    ReachableInv(s);
    CallDoneMakes(s, a, m);
    DoKeeps(s, a, m);
    hide Do;
    ExecKeeps(m, run, s');
    assert Grows(m.cells[a.c], s'.cells[a.c]);
  }

  /** Thread t's Err on c has yet to look. */
  ghost predicate ErrPending(s: State, t: nat, c: nat) {
    && c < |s.cells| && t < |s.threads| && s.cells[c].err.Some?
    && (s.cells[c].cause.Some? || (|s.threads[t]| == 1 && s.threads[t][0].ErrFrame? && s.threads[t][0].c == c))
  }

  lemma ErrOwnStep(s: State, t: nat, pick: nat, s': State, c: nat)
    requires Inv(s) && Next(s, t, pick) == Some(s') && ErrPending(s, t, c) && s.cells[c].cause.None?
    ensures ErrPending(s', t, c)
  {
    Instances(s, t);
  }

  lemma {:induction false} ErrPendingStep(s: State, a: Action, m: State, t: nat, c: nat)
    requires Inv(s) && Do(s, a) == Some(m) && ErrPending(s, t, c)
    ensures ErrPending(m, t, c)
  {
    DoKeeps(s, a, m);
    assert Grows(s.cells[c], m.cells[c]);
    if s.cells[c].cause.Some? {
      DoLonger(s, a, m);
    } else if a.Run? && a.t == t {
      ErrOwnStep(s, t, a.pick, m, c);
    } else {
      OtherThread(s, a, m, t);
    }
  }

  lemma {:induction false} ErrPendingRun(s: State, run: seq<Action>, s': State, t: nat, c: nat)
    requires Inv(s) && Exec(s, run) == Some(s') && ErrPending(s, t, c)
    ensures Inv(s') && ErrPending(s', t, c)
    decreases |run|
  {
    hide Do, FramesOk, CellsOk, ErrPending;
    if run != [] {
      ErrPendingStep(s, run[0], Do(s, run[0]).value, t, c);
      DoKeeps(s, run[0], Do(s, run[0]).value);
      ErrPendingRun(Do(s, run[0]).value, run[1..], s', t, c);
    }
  }

  lemma ErrStarts(s: State, a: Action, m: State)
    requires Shaped(s) && a.StartErr? && Do(s, a) == Some(m)
    ensures IsCancelable(s, a.c) && |m.threads| == |s.threads| + 1 && |m.threads[|s.threads|]| == 1
    ensures m.tree == s.tree && m.cells == s.cells && m.threads[|s.threads|][0] == ErrFrame(a.c, Load)
  {}

  /** An Err called on a canceled context returns only when its done channel is closed. */
  lemma {:induction false} ErrWaits(s: State, a: Action, m: State, run: seq<Action>, s': State)
    requires Reachable(s) && Shaped(s) && a.StartErr? && Do(s, a) == Some(m)
    requires Shaped(m) && Exec(m, run) == Some(s')
    ensures |s.threads| < |s'.threads| && a.c < |s.cells| <= |s'.cells|
    ensures s.cells[a.c].err.Some? && s'.threads[|s.threads|] == [] ==>
      s'.cells[a.c].done.IsClosed() && s'.cells[a.c].err == s.cells[a.c].err
  {
    ReachableInv(s);
    ErrStarts(s, a, m);
    DoKeeps(s, a, m);
    ExecLonger(m, run, s');
    hide Do;
    ExecKeeps(m, run, s');
    if s.cells[a.c].err.Some? {
      assert Grows(m.cells[a.c], s'.cells[a.c]);
      ErrPendingRun(m, run, s', |s.threads|, a.c);
      StillCancelable(s, s', a.c);
      assert CellOk(s', a.c);
    }
  }

  // ---- where errors come from ----

  /** The cause a cancel stores: the caller's, or the error when there is none. */
  function CauseOf(a: Action): Cause
    requires a.StartCancel?
  {
    if a.cause.Some? then a.cause.value else OfError(a.err)
  }

  predicate CancelsWith(a: Action, c: nat, err: Error, cause: Cause) {
    a.StartCancel? && a.c == c && a.err == err && CauseOf(a) == cause
  }

  /** Some cancel of c in the run was given that error and cause. */
  ghost predicate Origin(run: seq<Action>, c: nat, err: Error, cause: Cause) {
    exists i :: 0 <= i < |run| && CancelsWith(run[i], c, err, cause)
  }

  lemma {:induction false} OriginMore(run: seq<Action>, a: Action, c: nat, err: Error, cause: Cause)
    ensures Origin(run, c, err, cause) || CancelsWith(a, c, err, cause) ==> Origin(run + [a], c, err, cause)
  {
    var more := run + [a];
    assert more[|run|] == a;
    assert forall i :: 0 <= i < |run| ==> more[i] == run[i];
  }

  ghost predicate FrameTraced(run: seq<Action>, f: Frame) {
    f.CancelFrame? && f.own ==> Origin(run, f.c, f.err, f.cause)
  }

  ghost predicate CellTraced(run: seq<Action>, c: nat, cell: Cell) {
    cell.err.Some? && cell.cause.Some? && cell.own ==> Origin(run, c, cell.err.value, cell.cause.value)
  }

  ghost predicate Traced(s: State, run: seq<Action>)
    requires Shaped(s)
  {
    && (forall t: nat, i: nat :: ValidFrame(s, t, i) ==> FrameTraced(run, s.threads[t][i]))
    && (forall x: nat :: IsCancelable(s, x) ==> CellTraced(run, x, s.cells[x]))
  }

  lemma {:induction false} FrameTracedMore(run: seq<Action>, a: Action, f: Frame)
    requires FrameTraced(run, f)
    ensures FrameTraced(run + [a], f)
  {
    if f.CancelFrame? {
      OriginMore(run, a, f.c, f.err, f.cause);
    }
  }

  lemma {:induction false} CellTracedMore(run: seq<Action>, a: Action, c: nat, cell: Cell)
    requires CellTraced(run, c, cell)
    ensures CellTraced(run + [a], c, cell)
  {
    if cell.err.Some? && cell.cause.Some? {
      OriginMore(run, a, c, cell.err.value, cell.cause.value);
    }
  }

  /** A frame that cancels on its own account was there before the step. */
  lemma TopSameCall(s: State, t: nat, pick: nat, s': State, i: nat)
    requires Shaped(s) && Next(s, t, pick) == Some(s') && ValidFrame(s', t, i) && Busy(s, t) && i >= Depth(s, t)
    requires s'.threads[t][i].CancelFrame? && s'.threads[t][i].own
    ensures i == Depth(s, t)
    ensures var f, g := Top(s, t), s'.threads[t][i];
      f.CancelFrame? && f.own && f.c == g.c && f.err == g.err && f.cause == g.cause
  {
    hide Nearest;
    if Top(s, t).CancelFrame? {
      CancelSameCall(s, t, pick, s', i);
    } else {
      OthersCancelNone(s, t, pick, s', i);
    }
  }

  lemma CancelSameCall(s: State, t: nat, pick: nat, s': State, i: nat)
    requires Shaped(s) && Next(s, t, pick) == Some(s') && ValidFrame(s', t, i) && Busy(s, t) && i >= Depth(s, t)
    requires Top(s, t).CancelFrame? && s'.threads[t][i].CancelFrame? && s'.threads[t][i].own
    ensures i == Depth(s, t)
    ensures var f, g := Top(s, t), s'.threads[t][i];
      f.own && f.c == g.c && f.err == g.err && f.cause == g.cause
  {
    hide Nearest;
  }

  lemma {:induction false} OthersCancelNone(s: State, t: nat, pick: nat, s': State, i: nat)
    requires Shaped(s) && Next(s, t, pick) == Some(s') && ValidFrame(s', t, i) && Busy(s, t) && i >= Depth(s, t)
    requires !Top(s, t).CancelFrame?
    ensures s'.threads[t][i].CancelFrame? ==> !s'.threads[t][i].own && s'.threads[t][i].pc.Enter?
  {
    hide Nearest;
    if Top(s, t).CreateFrame? && IsCancelable(s, Top(s, t).c) && Up(s, Top(s, t).c).Some? {
      CreateCancelsNone(s, t, Top(s, t), s', i);
    }
  }

  lemma {:induction false} CreateCancelsNone(s: State, t: nat, f: Frame, s': State, i: nat)
    requires Shaped(s) && Busy(s, t) && f.CreateFrame? && IsCancelable(s, f.c) && Up(s, f.c).Some?
    requires CreateStep(s, t, f) == Some(s') && ValidFrame(s', t, i) && i >= Depth(s, t)
    ensures s'.threads[t][i].CancelFrame? ==> !s'.threads[t][i].own && s'.threads[t][i].pc.Enter?
  {
    hide Nearest;
  }

  lemma {:induction false} RunFrameTraced(s: State, run: seq<Action>, t: nat, pick: nat, s': State, t': nat, i: nat)
    requires Inv(s) && Traced(s, run) && Next(s, t, pick) == Some(s') && ValidFrame(s', t', i)
    ensures FrameTraced(run, s'.threads[t'][i])
  {
    RunShape(s, t, pick, s');
    var g := s'.threads[t'][i];
    if t' == t && i >= Depth(s, t) {
      if g.CancelFrame? && g.own {
        TopSameCall(s, t, pick, s', i);
        assert ValidFrame(s, t, i);
        hide Next, StepOf;
        assert FrameTraced(run, s.threads[t][i]);
      }
    } else {
      hide Next, StepOf, FrameTraced;
      if t' == t {
        SameFrame(s, s', t, Owner(t, i));
      }
      assert ValidFrame(s, t', i);
      assert FrameTraced(run, s.threads[t'][i]);
    }
  }

  /** A step stores no cause but its own frame's, together with the error stored just before. */
  lemma {:induction false} StepStores(s: State, t: nat, f: Frame, pick: nat, s': State, x: nat)
    requires StepOf(s, t, f, pick, s') && x < |s.cells| == |s'.cells|
    requires s.cells[x].cause.None? && s'.cells[x].cause.Some?
    ensures f.CancelFrame? && f.c == x && s'.cells[x].err == Some(f.err) && s'.cells[x].cause == Some(f.cause)
    ensures s'.cells[x].own == f.own
  {
    KnownPoints(s, t, f, pick, s');
    AnyShape(s, t, f, pick, s');
    if Up(s, f.c).Some? {
      AnyParentShape(s, t, f, pick, s');
    }
    hide StepOf, Elsewhere, AllGrow;
    StoresOwn(s, t, f, pick, s');
  }

  lemma {:induction false} StoresOwn(s: State, t: nat, f: Frame, pick: nat, s': State)
    requires StepOf(s, t, f, pick, s') && |s.cells| == |s'.cells|
    requires s.cells[f.c].cause.None? && s'.cells[f.c].cause.Some?
    ensures f.CancelFrame? && s'.cells[f.c].err == Some(f.err) && s'.cells[f.c].cause == Some(f.cause)
    ensures s'.cells[f.c].own == f.own
  {
    hide Nearest, CellOk;
  }

  lemma {:induction false} RunCellTraced(s: State, run: seq<Action>, t: nat, pick: nat, s': State, x: nat)
    requires Inv(s) && Traced(s, run) && Next(s, t, pick) == Some(s') && IsCancelable(s', x)
    ensures Shaped(s') && CellTraced(run, x, s'.cells[x])
  {
    RunShape(s, t, pick, s');
    assert CellTraced(run, x, s.cells[x]);
    assert Grows(s.cells[x], s'.cells[x]);
    if s.cells[x].cause.None? && s'.cells[x].cause.Some? {
      StepStores(s, t, Top(s, t), pick, s', x);
      assert ValidFrame(s, t, Depth(s, t));
      hide Next, StepOf;
      assert FrameTraced(run, Top(s, t));
    } else {
      hide Next, StepOf;
      assert CellOk(s, x);
    }
  }

  lemma {:induction false} RunTraced(s: State, run: seq<Action>, t: nat, pick: nat, s': State)
    requires Inv(s) && Traced(s, run) && Next(s, t, pick) == Some(s')
    ensures Shaped(s') && Traced(s', run)
  {
    RunShape(s, t, pick, s');
    hide Next, StepOf, FramesOk, CellsOk, FrameTraced, CellTraced;
    forall t': nat, i: nat | ValidFrame(s', t', i) ensures FrameTraced(run, s'.threads[t'][i]) {
      RunFrameTraced(s, run, t, pick, s', t', i);
    }
    forall x: nat | IsCancelable(s', x) ensures CellTraced(run, x, s'.cells[x]) {
      RunCellTraced(s, run, t, pick, s', x);
    }
  }

  /** An action other than a step adds at most one frame, and a cell without an error. */
  lemma NewTraced(s: State, run: seq<Action>, a: Action, m: State)
    requires Shaped(s) && Traced(s, run) && !a.Run? && Do(s, a) == Some(m) && Shaped(m)
    ensures forall t: nat, i: nat :: ValidFrame(m, t, i) && t < |s.threads| ==> FrameTraced(run, m.threads[t][i])
    ensures forall t: nat, i: nat :: ValidFrame(m, t, i) && t >= |s.threads| ==>
      var f := m.threads[t][i];
      f.CancelFrame? && f.own ==> CancelsWith(a, f.c, f.err, f.cause)
    ensures forall x: nat :: IsCancelable(m, x) ==> CellTraced(run, x, m.cells[x])
  {}

  lemma {:induction false} DoTraced(s: State, run: seq<Action>, a: Action, m: State)
    requires Inv(s) && Traced(s, run) && Do(s, a) == Some(m) && Shaped(m)
    ensures Traced(m, run + [a])
  {
    if a.Run? {
      RunTraced(s, run, a.t, a.pick, m);
    } else {
      NewTraced(s, run, a, m);
    }
    hide Do, FramesOk, CellsOk;
    forall t: nat, i: nat | ValidFrame(m, t, i) ensures FrameTraced(run + [a], m.threads[t][i]) {
      var f := m.threads[t][i];
      if a.Run? || t < |s.threads| {
        FrameTracedMore(run, a, f);
      } else if f.CancelFrame? && f.own {
        OriginMore(run, a, f.c, f.err, f.cause);
      }
    }
    forall x: nat | IsCancelable(m, x) ensures CellTraced(run + [a], x, m.cells[x]) {
      CellTracedMore(run, a, x, m.cells[x]);
    }
  }

  lemma {:induction false} ExecTraced(s: State, run: seq<Action>, more: seq<Action>, s': State)
    requires Inv(s) && Traced(s, run) && Exec(s, more) == Some(s')
    ensures Inv(s') && Traced(s', run + more)
    decreases |more|
  {
    hide Do, Traced, FramesOk, CellsOk;
    if more == [] {
      assert run + more == run;
    } else {
      var m := Do(s, more[0]).value;
      DoTraced(s, run, more[0], m);
      DoKeeps(s, more[0], m);
      ExecTraced(m, run + [more[0]], more[1..], s');
      assert run + [more[0]] + more[1..] == run + more;
    }
  }

  /** c's error, and its cause once it is set, were given to one cancel of a in the run. */
  ghost predicate CanceledBy(run: seq<Action>, a: nat, cell: Cell) {
    exists i :: 0 <= i < |run| && run[i].StartCancel? && run[i].c == a
      && cell.err == Some(run[i].err) && (cell.cause.Some? ==> cell.cause.value == CauseOf(run[i]))
  }

  /** A context that was not canceled by its parent has the error and the cause of one of the cancels
      of it in the run. */
  lemma {:induction false} OwnErrorFrom(run: seq<Action>, s: State, c: nat)
    requires Exec(Start, run) == Some(s) && Shaped(s) && IsCancelable(s, c) && s.cells[c].err.Some? && s.cells[c].own
    ensures CanceledBy(run, c, s.cells[c])
  {
    StartOk();
    assert Traced(Start, []);
    ExecTraced(Start, [], run, s);
    assert [] + run == run;
    hide Exec;
    var cell := s.cells[c];
    assert CellOk(s, c);
    if cell.cause.None? {
      var o := cell.lock.value;
      var f := s.threads[o.thread][o.depth];
      assert FrameOk(s, o.thread, o.depth);
      assert FrameTraced(run, f);
      var i :| 0 <= i < |run| && CancelsWith(run[i], f.c, f.err, f.cause);
    } else {
      assert CellTraced(run, c, cell);
      var i :| 0 <= i < |run| && CancelsWith(run[i], c, cell.err.value, cell.cause.value);
    }
  }

  lemma {:induction false} NearestBelow(s: State, x: nat, p: nat)
    requires TreeOk(s.tree) && x < |s.tree| && Nearest(s.tree, x) == Some(p)
    ensures Below(s, x, p)
    decreases x
  {
    if s.tree[x].kind.WithValue? {
      NearestBelow(s, s.tree[x].parent, p);
    }
  }

  lemma {:induction false} BelowTransitive(s: State, x: nat, p: nat, a: nat)
    requires TreeOk(s.tree) && x < |s.tree| && p < |s.tree| && Below(s, x, p) && Below(s, p, a)
    ensures Below(s, x, a)
    decreases x
  {
    if x != p {
      BelowTransitive(s, s.tree[x].parent, p, a);
    }
  }

  /** Nothing is canceled but by a cancel: every canceled context has the error, and once it is set
      the cause, of a cancel in the run of the context itself or of one above it, with no
      WithoutCancel in between. */
  lemma {:induction false} ErrorFrom(run: seq<Action>, s: State, c: nat) returns (a: nat)
    requires Exec(Start, run) == Some(s) && Shaped(s) && IsCancelable(s, c) && s.cells[c].err.Some?
    ensures Below(s, c, a) && CanceledBy(run, a, s.cells[c])
    decreases c
  {
    if s.cells[c].own {
      OwnErrorFrom(run, s, c);
      a := c;
    } else {
      assert Reachable(s);
      ReachableInv(s);
      assert CellOk(s, c);
      hide Exec;
      var p := Up(s, c).value;
      a := ErrorFrom(run, s, p);
      NearestBelow(s, s.tree[c].parent, p);
      BelowTransitive(s, s.tree[c].parent, p, a);
    }
  }
}
