/**
 Cancel is synchronous: when it returns, every context below that the caller already has is
 canceled, whatever else is in flight. A context that is being canceled on its own account stays in
 its parent's registry until it is done, so its parent's cancel waits for it.
 */
module ContextSync {
  import opened Options
  import opened ContextTree
  import opened ContextInvariant
  import opened ContextSteps
  import opened ContextRuns
  import opened ContextCalls

  /** x is canceled, and its cancel has been through all its children. */
  ghost predicate Settled(s: State, x: nat)
    requires Shaped(s)
  {
    x < |s.cells| && s.cells[x].cause.Some? && !Canceling(s, x, Loop)
  }

  /** Behind the loop, the context is settled; in it, a context canceled on its own account is still
      covered by its parent. */
  ghost predicate FrameDone(s: State, f: Frame)
    requires Shaped(s)
  {
    f.CancelFrame? && IsCancelable(s, f.c) ==>
      && (f.pc.Lookup? || f.pc.Delete? || f.pc.Stop? ==> Settled(s, f.c))
      && (f.own && (f.pc.Close? || f.pc.Loop?) && Up(s, f.c).Some? ==> Covered(s, f.c, Up(s, f.c).value))
  }

  ghost predicate AllDone(s: State)
    requires Shaped(s)
  {
    forall t: nat, i: nat :: ValidFrame(s, t, i) ==> FrameDone(s, s.threads[t][i])
  }

  // ---- a settled context stays settled ----

  /** A frame in the loop was there, or about to enter it, before the step. */
  lemma {:induction false} LoopFrom(s: State, t: nat, f: Frame, pick: nat, s': State, i: nat)
    requires StepOf(s, t, f, pick, s') && ValidFrame(s', t, i) && i >= Depth(s, t)
    requires s'.threads[t][i].CancelFrame? && s'.threads[t][i].pc.Loop?
    ensures i == Depth(s, t) && f.CancelFrame? && f.c == s'.threads[t][i].c && (f.pc.Close? || f.pc.Loop?)
  {
    hide Nearest, CellOk, FrameOk;
    if f.CancelFrame? {
      CancelLoopFrom(s, t, f, pick, s', i);
    } else {
      OthersCancelNone(s, t, pick, s', i);
    }
  }

  lemma {:induction false} CancelLoopFrom(s: State, t: nat, f: Frame, pick: nat, s': State, i: nat)
    requires Shaped(s) && Busy(s, t) && f.CancelFrame? && IsCancelable(s, f.c) && CancelStep(s, t, f, pick) == Some(s')
    requires ValidFrame(s', t, i) && i >= Depth(s, t) && s'.threads[t][i].CancelFrame? && s'.threads[t][i].pc.Loop?
    ensures i == Depth(s, t) && f.c == s'.threads[t][i].c && (f.pc.Close? || f.pc.Loop?)
  {
    hide Nearest;
  }

  /** A cancel in its loop was there before the step, or had no cause yet. */
  lemma {:induction false} LoopBefore(s: State, t: nat, f: Frame, pick: nat, s': State, x: nat)
    requires Inv(s) && StepOf(s, t, f, pick, s') && Shaped(s') && AllGrow(s, s') && Elsewhere(s, s', t)
    requires x < |s.cells| && Canceling(s', x, Loop)
    ensures Canceling(s, x, Loop) || s.cells[x].cause.None?
  {
    var o := s'.cells[x].lock.value;
    if o.thread == t && o.depth >= Depth(s, t) {
      LoopFrom(s, t, f, pick, s', o.depth);
      hide StepOf, Next;
      assert FrameOk(s, t, Depth(s, t));
    } else {
      hide StepOf, Next;
      WasThere(s, s', t, o);
      assert FrameOk(s, o.thread, o.depth);
    }
  }

  lemma {:induction false} SettledKept(s: State, t: nat, f: Frame, pick: nat, s': State, x: nat)
    requires Inv(s) && StepOf(s, t, f, pick, s') && Shaped(s') && AllGrow(s, s') && Elsewhere(s, s', t)
    requires IsCancelable(s, x) && Settled(s, x)
    ensures Settled(s', x)
  {
    assert Grows(s.cells[x], s'.cells[x]);
    hide StepOf, Canceling, FramesOk, CellsOk;
    if Canceling(s', x, Loop) {
      LoopBefore(s, t, f, pick, s', x);
    }
  }

  lemma {:induction false} WasThere(s: State, s': State, t: nat, o: Owner)
    requires Elsewhere(s, s', t) && ValidFrame(s', o.thread, o.depth) && (o.thread != t || o.depth < Depth(s, t))
    ensures ValidFrame(s, o.thread, o.depth) && s'.threads[o.thread][o.depth] == s.threads[o.thread][o.depth]
  {
    if o.thread == t {
      SameFrame(s, s', t, o);
    }
  }

  // ---- the frame that stepped ----

  /** How a frame got behind the loop. */
  lemma {:induction false} PastFrom(s: State, t: nat, f: Frame, pick: nat, s': State, i: nat)
    requires StepOf(s, t, f, pick, s') && Shaped(s') && ValidFrame(s', t, i) && i >= Depth(s, t)
    requires Past(s'.threads[t][i])
    ensures f.CancelFrame? && CameBehind(s, f, s', s'.threads[t][i])
  {
    hide Nearest, CellOk, FrameOk;
    if f.CancelFrame? {
      CancelPastFrom(s, t, f, pick, s', i);
    } else {
      OthersCancelNone(s, t, pick, s', i);
    }
  }

  predicate Past(f: Frame) { f.CancelFrame? && (f.pc.Lookup? || f.pc.Delete? || f.pc.Stop?) }

  ghost predicate CameBehind(s: State, f: Frame, s': State, g: Frame)
    requires Shaped(s) && f.CancelFrame?
  {
    && f.c == g.c && f.c < |s.cells| == |s'.cells|
    && (|| Past(f) || (f.pc.Enter? && s.cells[f.c].err.Some? && s.cells[f.c].lock.None?)
        || (f.pc.Loop? && s'.cells[f.c].lock.None? && s'.cells[f.c].cause == s.cells[f.c].cause))
  }

  lemma {:induction false} CancelPastFrom(s: State, t: nat, f: Frame, pick: nat, s': State, i: nat)
    requires Shaped(s) && Busy(s, t) && f.CancelFrame? && IsCancelable(s, f.c) && CancelStep(s, t, f, pick) == Some(s')
    requires ValidFrame(s', t, i) && i >= Depth(s, t) && Past(s'.threads[t][i])
    ensures CameBehind(s, f, s', s'.threads[t][i])
  {
    hide Nearest;
  }

  lemma {:induction false} PastSettled(s: State, t: nat, f: Frame, pick: nat, s': State, i: nat)
    requires Inv(s) && AllDone(s) && StepOf(s, t, f, pick, s') && Shaped(s') && AllGrow(s, s') && Elsewhere(s, s', t)
    requires ValidFrame(s', t, i) && i >= Depth(s, t) && Past(s'.threads[t][i])
    ensures IsCancelable(s, f.c) && f.c == s'.threads[t][i].c && Settled(s', f.c)
  {
    PastFrom(s, t, f, pick, s', i);
    assert ValidFrame(s, t, Depth(s, t)) && FrameDone(s, f) && CellOk(s, f.c) && FrameOk(s, t, Depth(s, t));
    if f.pc.Loop? {
      hide StepOf, Next;
    } else {
      assert Settled(s, f.c);
      SettledKept(s, t, f, pick, s', f.c);
    }
  }

  // ---- a context canceled on its own account stays covered ----

  /** A context that thread t' is canceling on its own account. */
  ghost predicate OwnCancel(s: State, t': nat, y: nat)
    requires Shaped(s)
  {
    && ValidFrame(s, t', 0) && IsCancelable(s, y)
    && var g := s.threads[t'][0];
       g.CancelFrame? && g.own && g.c == y && (g.pc.Close? || g.pc.Loop?)
  }

  /** A step that is not the parent's: no other frame of y can run while t' is at it. */
  lemma {:induction false} NotEntering(s: State, t: nat, f: Frame, pick: nat, s': State, t': nat, y: nat)
    requires Inv(s) && StepOf(s, t, f, pick, s') && OwnCancel(s, t', y) && f.CancelFrame? && f.c == y
    ensures !f.pc.Enter?
  {
    assert FrameOk(s, t', 0);
    hide Nearest;
  }

  lemma {:induction false} StaysCovered(s: State, t: nat, f: Frame, pick: nat, s': State, t': nat, y: nat)
    requires Inv(s) && AllDone(s) && StepOf(s, t, f, pick, s') && Shaped(s') && AllGrow(s, s') && Elsewhere(s, s', t)
    requires OwnCancel(s, t', y) && Up(s, y).Some?
    ensures Covered(s', y, Up(s, y).value)
  {
    var p := Up(s, y).value;
    assert FrameDone(s, s.threads[t'][0]);
    assert FrameOk(s, t', 0) && CellOk(s, p) && CellOk(s, y);
    if f.c == p {
      AnyCovers(s, t, f, pick, s', y);
    } else {
      AnyShape(s, t, f, pick, s');
      KnownPoints(s, t, f, pick, s');
      if f.CancelFrame? && f.c == y {
        NotEntering(s, t, f, pick, s', t', y);
      }
      NotDeleted(s, t, f, pick, s', t', y);
      if Up(s, f.c).Some? {
        AnyParentShape(s, t, f, pick, s');
      }
      hide StepOf, Next;
      CoverKept(s, s', t, y, p);
    }
  }

  /** y stays in its parent's registry. */
  lemma {:induction false} NotDeleted(s: State, t: nat, f: Frame, pick: nat, s': State, t': nat, y: nat)
    requires Inv(s) && AllDone(s) && StepOf(s, t, f, pick, s') && Shaped(s') && s'.tree == s.tree
    requires OwnCancel(s, t', y) && Up(s, y).Some? && f.c != Up(s, y).value
    ensures y in s.cells[Up(s, y).value].children ==> y in s'.cells[Up(s, y).value].children
  {
    if f.c == y {
      NotDeleting(s, t, f, t', y);
      OnlyDelete(s, t, f, pick, s');
    } else {
      AnyShape(s, t, f, pick, s');
      if Up(s, f.c).Some? {
        AnyParentShape(s, t, f, pick, s');
      }
      hide StepOf, Next, FramesOk, CellsOk, AllDone;
    }
  }

  lemma {:induction false} NotDeleting(s: State, t: nat, f: Frame, t': nat, y: nat)
    requires Inv(s) && AllDone(s) && AtTop(s, t, f) && OwnCancel(s, t', y) && f.c == y
    ensures !Past(f)
  {
    assert FrameOk(s, t', 0);
    assert ValidFrame(s, t, Depth(s, t)) && FrameDone(s, f);
  }

  lemma {:induction false} OnlyDelete(s: State, t: nat, f: Frame, pick: nat, s': State)
    requires StepOf(s, t, f, pick, s') && Shaped(s') && s'.tree == s.tree && Up(s, f.c).Some? && !Past(f)
    ensures s.cells[Up(s, f.c).value].children <= s'.cells[Up(s, f.c).value].children
  {
    hide CellOk, FrameOk, Nearest;
  }

  // ---- all frames ----

  lemma {:induction false} StepFrameDone(s: State, t: nat, f: Frame, pick: nat, s': State, t': nat, i: nat)
    requires Inv(s) && AllDone(s) && StepOf(s, t, f, pick, s') && Inv(s') && AllGrow(s, s') && Elsewhere(s, s', t)
    requires ValidFrame(s', t', i)
    ensures FrameDone(s', s'.threads[t'][i])
  {
    var g := s'.threads[t'][i];
    assert FrameOk(s', t', i);
    if g.CancelFrame? {
      if Past(g) {
        if t' == t && i >= Depth(s, t) {
          hide FrameOk;
          PastSettled(s, t, f, pick, s', i);
        } else {
          WasThere(s, s', t, Owner(t', i));
          assert FrameDone(s, s.threads[t'][i]);
          hide FrameOk;
          SettledKept(s, t, f, pick, s', g.c);
        }
      } else if g.own && (g.pc.Close? || g.pc.Loop?) && Up(s', g.c).Some? {
        assert i == 0;
        OwnDone(s, t, f, pick, s', t');
      }
    }
  }

  /** The frame that stores the error finds its context covered. */
  lemma {:induction false} OwnDone(s: State, t: nat, f: Frame, pick: nat, s': State, t': nat)
    requires Inv(s) && AllDone(s) && StepOf(s, t, f, pick, s') && Inv(s') && AllGrow(s, s') && Elsewhere(s, s', t)
    requires ValidFrame(s', t', 0)
    requires var g := s'.threads[t'][0];
      g.CancelFrame? && g.own && (g.pc.Close? || g.pc.Loop?) && IsCancelable(s, g.c) && Up(s, g.c).Some?
    ensures Covered(s', s'.threads[t'][0].c, Up(s, s'.threads[t'][0].c).value)
  {
    var g := s'.threads[t'][0];
    if t' != t || Depth(s, t) > 0 {
      WasThere(s, s', t, Owner(t', 0));
      hide StepOf, FramesOk, CellsOk, AllDone;
      StaysCovered(s, t, f, pick, s', t', g.c);
    } else {
      OwnFrom(s, t, f, pick, s');
      if f.pc.Enter? {
        EnterCovered(s, t, f, pick, s');
      } else {
        hide StepOf, FramesOk, CellsOk, AllDone;
        StaysCovered(s, t, f, pick, s', t', g.c);
      }
    }
  }

  lemma {:induction false} OwnFrom(s: State, t: nat, f: Frame, pick: nat, s': State)
    requires StepOf(s, t, f, pick, s') && Depth(s, t) == 0 && ValidFrame(s', t, 0)
    requires var g := s'.threads[t][0]; g.CancelFrame? && g.own && (g.pc.Close? || g.pc.Loop?)
    ensures f.CancelFrame? && f.own && f.c == s'.threads[t][0].c
    ensures f.pc.Close? || f.pc.Loop? || (f.pc.Enter? && s.cells[f.c].err.None?)
  {
    hide Nearest, CellOk, FrameOk;
    if f.CancelFrame? {
      CancelOwnFrom(s, t, f, pick, s');
    } else {
      OthersCancelNone(s, t, pick, s', 0);
    }
  }

  lemma {:induction false} CancelOwnFrom(s: State, t: nat, f: Frame, pick: nat, s': State)
    requires Shaped(s) && Busy(s, t) && f.CancelFrame? && IsCancelable(s, f.c) && CancelStep(s, t, f, pick) == Some(s')
    requires Depth(s, t) == 0 && ValidFrame(s', t, 0)
    requires var g := s'.threads[t][0]; g.CancelFrame? && g.own && (g.pc.Close? || g.pc.Loop?)
    ensures f.own && f.c == s'.threads[t][0].c
    ensures f.pc.Close? || f.pc.Loop? || (f.pc.Enter? && s.cells[f.c].err.None?)
  {
    hide Nearest;
  }

  lemma {:induction false} EnterCovered(s: State, t: nat, f: Frame, pick: nat, s': State)
    requires Inv(s) && StepOf(s, t, f, pick, s') && Shaped(s') && AllGrow(s, s') && Elsewhere(s, s', t)
    requires f.CancelFrame? && f.own && f.pc.Enter? && s.cells[f.c].err.None? && Up(s, f.c).Some?
    ensures Covered(s', f.c, Up(s, f.c).value)
  {
    assert FrameOk(s, t, Depth(s, t)) && CellOk(s, f.c) && CellOk(s, Up(s, f.c).value);
  }

  lemma {:induction false} RunDone(s: State, t: nat, pick: nat, s': State)
    requires Inv(s) && AllDone(s) && Next(s, t, pick) == Some(s')
    ensures Shaped(s') && AllDone(s')
  {
    RunShape(s, t, pick, s');
    NextKeeps(s, t, pick, s');
    hide StepOf, FramesOk, CellsOk, FrameDone, Elsewhere, AllGrow, Next;
    forall t': nat, i: nat | ValidFrame(s', t', i) ensures FrameDone(s', s'.threads[t'][i]) {
      StepFrameDone(s, t, Top(s, t), pick, s', t', i);
    }
  }

  // ---- the other actions ----

  lemma {:induction false} DoneExtended(s: State, s': State, f: Frame)
    requires Inv(s) && Extends(s, s') && FrameDone(s, f) && (f.CancelFrame? ==> IsCancelable(s, f.c))
    ensures FrameDone(s', f)
  {
    forall y: nat | y < |s.cells| ensures s'.cells[y] == s.cells[y] {
      SameCell(s, s', y);
    }
    forall t: nat | t < |s.threads| ensures s'.threads[t] == s.threads[t] {
      SameThread(s, s', t);
    }
    if f.CancelFrame? {
      SettledExtended(s, s', f.c);
      if Up(s, f.c).Some? {
        CoveredExtended(s, s', f.c, Up(s, f.c).value);
      }
    }
  }

  lemma {:induction false} SettledExtended(s: State, s': State, x: nat)
    requires Extends(s, s') && Inv(s) && IsCancelable(s, x) && s'.cells[x] == s.cells[x]
    requires forall t: nat :: t < |s.threads| ==> s'.threads[t] == s.threads[t]
    ensures Settled(s, x) ==> Settled(s', x)
  {
    assert CellOk(s, x);
  }

  lemma {:induction false} CoveredExtended(s: State, s': State, x: nat, p: nat)
    requires Extends(s, s') && p < |s.cells| && s'.cells[p] == s.cells[p]
    requires forall t: nat :: t < |s.threads| ==> s'.threads[t] == s.threads[t]
    ensures Covered(s, x, p) ==> Covered(s', x, p)
  {}

  /** A new call is at its first step. */
  lemma {:induction false} NewFrame(s: State, a: Action, m: State, t: nat, i: nat)
    requires Shaped(s) && !a.Run? && Do(s, a) == Some(m) && ValidFrame(m, t, i)
    ensures t >= |s.threads| ==> m.threads[t][i].CancelFrame? ==> m.threads[t][i].pc.Enter?
  {}

  lemma {:induction false} ActionExtends(s: State, a: Action, m: State)
    requires Shaped(s) && !a.Run? && !a.CallDone? && Do(s, a) == Some(m)
    ensures Extends(s, m)
  {
    if a.Derive? {
      AppendExtends(s, Node(a.kind, a.parent), NewCell(0, true), []);
      assert s.threads + [] == s.threads;
    } else if a.Create? {
      AppendExtends(s, Node(Cancelable(a.timer), a.parent), NewCell(|s.threads|, false), [[CreateFrame(|s.tree|, GetDone)]]);
    }
  }

  lemma {:induction false} NewDone(s: State, a: Action, m: State)
    requires Inv(s) && AllDone(s) && !a.Run? && !a.CallDone? && Do(s, a) == Some(m)
    ensures Shaped(m) && AllDone(m)
  {
    ActionExtends(s, a, m);
    hide FrameDone, Extends;
    forall t: nat, i: nat | ValidFrame(m, t, i) ensures FrameDone(m, m.threads[t][i]) {
      if t < |s.threads| {
        SameThread(s, m, t);
        assert ValidFrame(s, t, i) && FrameOk(s, t, i);
        DoneExtended(s, m, s.threads[t][i]);
      } else {
        NewFrame(s, a, m, t, i);
        EnterDone(m, m.threads[t][i]);
      }
    }
  }

  lemma {:induction false} EnterDone(s: State, f: Frame)
    requires Shaped(s) && (f.CancelFrame? ==> f.pc.Enter?)
    ensures FrameDone(s, f)
  {}

  lemma {:induction false} DoneCalled(s: State, a: Action, m: State)
    requires Inv(s) && AllDone(s) && a.CallDone? && Do(s, a) == Some(m)
    ensures Shaped(m) && AllDone(m)
  {
    assert m.threads == s.threads && m.tree == s.tree;
    assert forall x :: 0 <= x < |s.cells| ==> m.cells[x].(done := s.cells[x].done) == s.cells[x];
    hide Do;
    hide FrameDone, FramesOk, CellsOk;
    forall t: nat, i: nat | ValidFrame(m, t, i) ensures FrameDone(m, m.threads[t][i]) {
      assert ValidFrame(s, t, i) && FrameDone(s, s.threads[t][i]);
      SameButChannel(s, m, s.threads[t][i]);
    }
  }

  lemma {:induction false} SameButChannel(s: State, m: State, f: Frame)
    requires Shaped(s) && Shaped(m) && FrameDone(s, f) && m.threads == s.threads && m.tree == s.tree
    requires forall x :: 0 <= x < |s.cells| ==> m.cells[x].(done := s.cells[x].done) == s.cells[x]
    ensures FrameDone(m, f)
  {}

  // ---- parents are ready before their children exist ----

  ghost predicate ParentsReady(s: State)
    requires Shaped(s)
  {
    forall x: nat :: x < |s.tree| ==> s.tree[x].kind.Background? || s.cells[s.tree[x].parent].ready
  }

  lemma {:induction false} DoReady(s: State, a: Action, m: State)
    requires Inv(s) && ParentsReady(s) && Do(s, a) == Some(m)
    ensures Shaped(m) && ParentsReady(m)
  {
    DoKeeps(s, a, m);
    if a.Run? {
      RunShape(s, a.t, a.pick, m);
    }
    hide Next, FramesOk, CellsOk;
    forall x: nat | x < |m.tree| ensures m.tree[x].kind.Background? || m.cells[m.tree[x].parent].ready {
      if x < |s.tree| {
        assert m.tree[x] == s.tree[x];
        assert s.tree[x].kind.Background? || Grows(s.cells[s.tree[x].parent], m.cells[s.tree[x].parent]);
      }
    }
  }

  // ---- runs ----

  ghost predicate Sync(s: State) { Inv(s) && AllDone(s) && ParentsReady(s) }

  lemma {:induction false} DoSync(s: State, a: Action, m: State)
    requires Sync(s) && Do(s, a) == Some(m)
    ensures Sync(m)
  {
    DoKeeps(s, a, m);
    DoReady(s, a, m);
    hide AllDone, ParentsReady, FramesOk, CellsOk;
    if a.Run? {
      RunDone(s, a.t, a.pick, m);
    } else if a.CallDone? {
      DoneCalled(s, a, m);
    } else {
      NewDone(s, a, m);
    }
  }

  lemma {:induction false} ExecSync(s: State, run: seq<Action>, s': State)
    requires Sync(s) && Exec(s, run) == Some(s')
    ensures Sync(s')
    decreases |run|
  {
    hide Do, AllDone, ParentsReady, FramesOk, CellsOk;
    if run != [] {
      DoSync(s, run[0], Do(s, run[0]).value);
      ExecSync(Do(s, run[0]).value, run[1..], s');
    }
  }

  lemma {:induction false} ReachableSync(s: State)
    requires Reachable(s)
    ensures Sync(s)
  {
    StartOk();
    var run :| Exec(Start, run) == Some(s);
    ExecSync(Start, run, s);
  }

  // ---- everything below a settled context is settled ----

  /** A context the caller has, whose parent is settled, is settled. */
  lemma {:induction false} SettledChild(s: State, x: nat)
    requires Inv(s) && AllDone(s) && IsCancelable(s, x) && s.cells[x].ready && Up(s, x).Some? && Settled(s, Up(s, x).value)
    ensures Settled(s, x)
  {
    var p := Up(s, x).value;
    SettledFree(s, p, x);
    assert CellOk(s, x);
    if BeingCreated(s, x) {
      NotReady(s, x);
    }
    if s.cells[x].err.Some? && !Settled(s, x) {
      StillCanceling(s, x);
    }
  }

  /** A context whose cancel is not through keeps its parent from being settled. */
  lemma {:induction false} StillCanceling(s: State, x: nat)
    requires Inv(s) && AllDone(s) && IsCancelable(s, x) && s.cells[x].ready && Up(s, x).Some?
    requires s.cells[x].err.Some? && !Settled(s, x)
    ensures Covered(s, x, Up(s, x).value) || Canceling(s, Up(s, x).value, Loop)
  {
    assert CellOk(s, x);
    var o := s.cells[x].lock.value;
    var f := s.threads[o.thread][o.depth];
    assert FrameOk(s, o.thread, o.depth) && FrameDone(s, f);
    if !f.own {
      assert FrameOk(s, o.thread, o.depth - 1);
    }
  }

  lemma {:induction false} SettledFree(s: State, p: nat, x: nat)
    requires Inv(s) && IsCancelable(s, p) && Settled(s, p)
    ensures !Covered(s, x, p)
  {
    assert CellOk(s, p);
    if Canceling(s, p, Close) {
      NoCauseYet(s, p);
    }
  }

  lemma {:induction false} NoCauseYet(s: State, p: nat)
    requires Inv(s) && p < |s.cells| && Canceling(s, p, Close)
    ensures s.cells[p].cause.None?
  {
    var o := s.cells[p].lock.value;
    assert FrameOk(s, o.thread, o.depth);
  }

  lemma {:induction false} NotReady(s: State, x: nat)
    requires Inv(s) && IsCancelable(s, x) && BeingCreated(s, x)
    ensures !s.cells[x].ready
  {
    assert FrameOk(s, s.cells[x].creator, 0);
  }

  lemma {:induction false} NearestReady(s: State, x: nat)
    requires Shaped(s) && ParentsReady(s) && x < |s.tree| && s.cells[x].ready && Nearest(s.tree, x).Some?
    ensures s.cells[Nearest(s.tree, x).value].ready
    decreases x
  {
    if s.tree[x].kind.WithValue? {
      NearestReady(s, s.tree[x].parent);
    }
  }

  lemma {:induction false} SettledDown(s: State, x: nat, a: nat)
    requires Sync(s) && IsCancelable(s, a) && Settled(s, a)
    requires IsCancelable(s, x) && s.cells[x].ready && Below(s, x, a)
    ensures Settled(s, x)
    decreases x
  {
    hide AllDone, FramesOk, CellsOk;
    if x != a {
      var up := s.tree[x].parent;
      assert s.cells[up].ready;
      NearestBetween(s, up, a);
      NearestReady(s, up);
      SettledDown(s, Up(s, x).value, a);
      SettledChild(s, x);
    }
  }

  // ---- cancel returns ----

  /** Thread t's cancel of c is not through, or c is settled. */
  ghost predicate Settling(s: State, t: nat, c: nat)
    requires Shaped(s)
  {
    && IsCancelable(s, c) && t < |s.threads|
    && (Settled(s, c) || (s.threads[t] != [] && CancelsNow(s.threads[t][0], c)))
  }

  predicate CancelsNow(f: Frame, c: nat) {
    f.CancelFrame? && f.c == c && (f.pc.Enter? || f.pc.Close? || f.pc.Loop?)
  }

  lemma {:induction false} BottomStep(s: State, t: nat, f: Frame, pick: nat, s': State)
    requires Shaped(s) && Busy(s, t) && CancelsNow(f, f.c) && IsCancelable(s, f.c) && CancelStep(s, t, f, pick) == Some(s')
    requires Depth(s, t) == 0 && Shaped(s') && s'.tree == s.tree && t < |s'.threads|
    ensures (s'.threads[t] != [] && CancelsNow(s'.threads[t][0], f.c)) || s'.cells[f.c].lock.None?
    ensures f.pc.Enter? && s'.cells[f.c].lock.None? ==> s.cells[f.c].err.Some? && s.cells[f.c].lock.None?
    ensures f.pc.Loop? ==> s'.cells[f.c].cause == s.cells[f.c].cause
    ensures f.pc.Close? ==> s'.threads[t] != [] && CancelsNow(s'.threads[t][0], f.c)
  {
    hide Nearest;
  }

  lemma {:induction false} SettlingOwnStep(s: State, t: nat, pick: nat, s': State, c: nat)
    requires Inv(s) && Next(s, t, pick) == Some(s') && IsCancelable(s, c) && Busy(s, t) && CancelsNow(s.threads[t][0], c)
    ensures Shaped(s') && (Settling(s', t, c) || Settled(s, c))
  {
    RunShape(s, t, pick, s');
    var f := Top(s, t);
    if Depth(s, t) == 0 {
      assert FrameOk(s, t, 0) && CellOk(s, c);
      hide StepOf;
      BottomStep(s, t, f, pick, s');
    } else {
      hide StepOf, Next;
      SameFrame(s, s', t, Owner(t, 0));
    }
  }

  lemma {:induction false} SettledDo(s: State, a: Action, m: State, c: nat)
    requires Inv(s) && Do(s, a) == Some(m) && IsCancelable(s, c) && Settled(s, c)
    ensures Shaped(m) && Settled(m, c)
  {
    if a.Run? {
      RunShape(s, a.t, a.pick, m);
      SettledKept(s, a.t, Top(s, a.t), a.pick, m, c);
    } else if a.CallDone? {
      hide FramesOk, CellsOk;
    } else {
      ActionExtends(s, a, m);
      hide Do;
      SameCell(s, m, c);
      forall t: nat | t < |s.threads| ensures m.threads[t] == s.threads[t] {
        SameThread(s, m, t);
      }
      SettledExtended(s, m, c);
    }
  }

  lemma {:induction false} SettlingStep(s: State, a: Action, m: State, t: nat, c: nat)
    requires Inv(s) && Do(s, a) == Some(m) && Settling(s, t, c)
    ensures Shaped(m) && Settling(m, t, c)
  {
    DoLonger(s, a, m);
    DoKeeps(s, a, m);
    StillCancelable(s, m, c);
    hide FramesOk, CellsOk, Settled;
    if Settled(s, c) {
      SettledDo(s, a, m, c);
    } else if a.Run? && a.t == t {
      SettlingOwnStep(s, t, a.pick, m, c);
    } else {
      OtherThread(s, a, m, t);
    }
  }

  lemma {:induction false} SettlingRun(s: State, run: seq<Action>, s': State, t: nat, c: nat)
    requires Inv(s) && Exec(s, run) == Some(s') && Settling(s, t, c)
    ensures Inv(s') && Settling(s', t, c)
    decreases |run|
  {
    hide Do, FramesOk, CellsOk, Settling;
    if run != [] {
      var m := Do(s, run[0]).value;
      SettlingStep(s, run[0], m, t, c);
      DoKeeps(s, run[0], m);
      SettlingRun(m, run[1..], s', t, c);
    }
  }

  lemma {:induction false} CancelSettles(s: State, a: Action, m: State)
    requires Shaped(s) && a.StartCancel? && Do(s, a) == Some(m)
    ensures Shaped(m) && Settling(m, |s.threads|, a.c)
  {
    hide Settled;
  }

  /** When a cancel has returned, every context the caller has below the canceled one, up to a
      WithoutCancel, is canceled: it resolves to a cancelCtx with an error, a cause and a closed done
      channel, whatever else is in flight. */
  lemma {:induction false} CancelIsSynchronous(s: State, a: Action, m: State, run: seq<Action>, s': State, x: nat)
    requires Reachable(s) && Shaped(s) && a.StartCancel? && Do(s, a) == Some(m)
    requires Shaped(m) && Exec(m, run) == Some(s') && Shaped(s') && |s.threads| < |s'.threads|
    requires s'.threads[|s.threads|] == [] && Usable(s', x) && Below(s', x, a.c)
    ensures Nearest(s'.tree, x).Some?
    ensures var q := s'.cells[Nearest(s'.tree, x).value];
      q.err.Some? && q.cause.Some? && q.done.IsClosed()
  {
    ReachableSync(s);
    CancelSettles(s, a, m);
    DoSync(s, a, m);
    hide Do;
    ExecSync(m, run, s');
    SettlingRun(m, run, s', |s.threads|, a.c);
    hide AllDone, FramesOk;
    NearestBetween(s', x, a.c);
    NearestReady(s', x);
    var q := Nearest(s'.tree, x).value;
    SettledDown(s', q, a.c);
    assert CellOk(s', q);
  }
}
