/**
 What holds of the cancellation tree in every run: the invariant after any sequence of
 actions, errors written once, and, when no operation is in flight, complete propagation
 and an exact children registry.
 */
module ContextRuns {
  import opened Options
  import opened ContextTree
  import opened ContextInvariant
  import opened ContextSteps

  // ---- actions that start operations or derive contexts ----

  lemma {:induction false} NearestAppend(tree: seq<Node>, n: Node, x: nat)
    requires TreeOk(tree) && TreeOk(tree + [n]) && x < |tree|
    ensures Nearest(tree + [n], x) == Nearest(tree, x)
    decreases x
  {
    if tree[x].kind.WithValue? {
      NearestAppend(tree, n, tree[x].parent);
    }
  }

  /** s' has more contexts and more threads; nothing else changed. */
  ghost predicate Extends(s: State, s': State) {
    && Shaped(s) && Shaped(s')
    && |s.tree| <= |s'.tree| && s'.tree[..|s.tree|] == s.tree
    && s'.cells[..|s.cells|] == s.cells
    && |s.threads| <= |s'.threads| && s'.threads[..|s.threads|] == s.threads
    && (forall x: nat :: IsCancelable(s, x) ==> IsCancelable(s', x) && Up(s', x) == Up(s, x))
    && (forall x: nat :: x < |s.tree| ==> IsCancelable(s', x) == IsCancelable(s, x))
  }

  lemma SameCell(s: State, s': State, x: nat)
    requires Extends(s, s') && x < |s.cells|
    ensures s'.cells[x] == s.cells[x]
  {
    assert s'.cells[x] == s'.cells[..|s.cells|][x];
  }

  lemma SameThread(s: State, s': State, t: nat)
    requires Extends(s, s') && t < |s.threads|
    ensures s'.threads[t] == s.threads[t]
  {
    assert s'.threads[t] == s'.threads[..|s.threads|][t];
  }

  lemma FrameExtended(s: State, s': State, t: nat, i: nat)
    requires Extends(s, s') && ValidFrame(s, t, i) && FrameOk(s, t, i)
    ensures ValidFrame(s', t, i) && FrameOk(s', t, i)
  {
    SameThread(s, s', t);
    forall x: nat | x < |s.cells| ensures s'.cells[x] == s.cells[x] {
      SameCell(s, s', x);
    }
  }

  lemma CellExtended(s: State, s': State, x: nat)
    requires Extends(s, s') && IsCancelable(s, x) && CellOk(s, x)
    ensures IsCancelable(s', x) && CellOk(s', x)
  {
    forall y: nat | y < |s.cells| ensures s'.cells[y] == s.cells[y] {
      SameCell(s, s', y);
    }
    forall t: nat | t < |s.threads| ensures s'.threads[t] == s.threads[t] {
      SameThread(s, s', t);
    }
  }

  lemma Extended(s: State, s': State)
    requires Inv(s) && Extends(s, s')
    requires forall t: nat, i: nat :: ValidFrame(s', t, i) && t >= |s.threads| ==> FrameOk(s', t, i)
    requires forall x: nat :: IsCancelable(s', x) && x >= |s.tree| ==> CellOk(s', x)
    ensures Inv(s')
  {
    hide FrameOk, CellOk, Up;
    forall t: nat, i: nat | ValidFrame(s', t, i) ensures FrameOk(s', t, i) {
      if t < |s.threads| {
        SameThread(s, s', t);
        assert ValidFrame(s, t, i);
        FrameExtended(s, s', t, i);
      }
    }
    forall x: nat | IsCancelable(s', x) ensures CellOk(s', x) {
      if x < |s.tree| {
        CellExtended(s, s', x);
      }
    }
  }

  lemma AppendExtends(s: State, n: Node, cell: Cell, threads: seq<seq<Frame>>)
    requires Shaped(s) && (n.kind.Background? || n.parent < |s.tree|)
    ensures Extends(s, State(s.tree + [n], s.cells + [cell], s.threads + threads))
  {
    var s' := State(s.tree + [n], s.cells + [cell], s.threads + threads);
    forall x: nat | IsCancelable(s, x) ensures IsCancelable(s', x) && Up(s', x) == Up(s, x) {
      NearestAppend(s.tree, n, s.tree[x].parent);
    }
  }

  lemma DeriveKeeps(s: State, a: Action, s': State)
    requires Inv(s) && a.Derive? && Do(s, a) == Some(s')
    ensures Inv(s')
  {
    AppendExtends(s, Node(a.kind, a.parent), NewCell(0, true), []);
    assert s.threads + [] == s.threads;
    Extended(s, s');
  }

  lemma CreateKeeps(s: State, a: Action, s': State)
    requires Inv(s) && a.Create? && Do(s, a) == Some(s')
    ensures Inv(s')
  {
    var c := |s.tree|;
    AppendExtends(s, Node(Cancelable(a.timer), a.parent), NewCell(|s.threads|, false), [[CreateFrame(c, GetDone)]]);
    assert IsCancelable(s', c);
    assert FrameOk(s', |s.threads|, 0);
    assert BeingCreated(s', c);
    Extended(s, s');
  }

  lemma StartKeeps(s: State, a: Action, s': State)
    requires Inv(s) && (a.StartCancel? || a.StartErr?) && Do(s, a) == Some(s')
    ensures Inv(s')
  {
    assert FrameOk(s', |s.threads|, 0);
    Extended(s, s');
  }

  lemma CallDoneFrame(s: State, a: Action, s': State, t: nat, i: nat)
    requires Shaped(s) && a.CallDone? && Do(s, a) == Some(s') && ValidFrame(s, t, i) && FrameOk(s, t, i)
    ensures Shaped(s') && ValidFrame(s', t, i) && FrameOk(s', t, i)
  {}

  lemma CallDoneCell(s: State, a: Action, s': State, x: nat)
    requires Shaped(s) && a.CallDone? && Do(s, a) == Some(s') && IsCancelable(s, x) && CellOk(s, x)
    ensures Shaped(s') && IsCancelable(s', x) && CellOk(s', x)
  {
    if s' != s {
      assert s'.threads == s.threads && s'.tree == s.tree;
      assert AllGrow(s, s');
      hide Do, Grows;
      CellKept(s, s', x);
    }
  }

  lemma CallDoneKeeps(s: State, a: Action, s': State)
    requires Inv(s) && a.CallDone? && Do(s, a) == Some(s')
    ensures Inv(s')
  {
    hide FrameOk, CellOk;
    forall t: nat, i: nat | ValidFrame(s', t, i) ensures FrameOk(s', t, i) {
      CallDoneFrame(s, a, s', t, i);
    }
    forall x: nat | IsCancelable(s', x) ensures CellOk(s', x) {
      CallDoneCell(s, a, s', x);
    }
  }

  /** Every action keeps the invariant, and no error, cause or channel is ever replaced. */
  lemma DoKeeps(s: State, a: Action, s': State)
    requires Inv(s) && Do(s, a) == Some(s')
    ensures Inv(s')
    ensures |s.cells| <= |s'.cells|
    ensures forall x :: 0 <= x < |s.cells| ==> Grows(s.cells[x], s'.cells[x])
  {
    match a
    case Run(t, pick) => NextKeeps(s, t, pick, s');
    case Derive(_, _) => DeriveKeeps(s, a, s');
    case Create(_, _) => CreateKeeps(s, a, s');
    case StartCancel(_, _, _, _) => StartKeeps(s, a, s');
    case StartErr(_) => StartKeeps(s, a, s');
    case CallDone(_) => CallDoneKeeps(s, a, s');
  }

  // ---- runs ----

  /** The state after a sequence of actions, if every one of them was possible. */
  function Exec(s: State, run: seq<Action>): (r: Option<State>)
    requires Shaped(s)
    decreases |run|
  {
    if run == [] then Some(s)
    else
      var next := Do(s, run[0]);
      if next.None? || !Shaped(next.value) then None else Exec(next.value, run[1..])
  }

  lemma StartOk()
    ensures Inv(Start)
  {}

  /** From any state in order, any run ends in order and has replaced nothing. */
  lemma {:induction false} ExecKeeps(s: State, run: seq<Action>, s': State)
    requires Inv(s) && Exec(s, run) == Some(s')
    ensures Inv(s') && |s.cells| <= |s'.cells|
    ensures forall x :: 0 <= x < |s.cells| ==> Grows(s.cells[x], s'.cells[x])
    decreases |run|
  {
    if run != [] {
      var m := Do(s, run[0]).value;
      DoKeeps(s, run[0], m);
      ExecKeeps(m, run[1..], s');
      forall x | 0 <= x < |s.cells| ensures Grows(s.cells[x], s'.cells[x]) {
        assert Grows(s.cells[x], m.cells[x]) && Grows(m.cells[x], s'.cells[x]);
      }
    }
  }

  /** s can be reached from the initial state. */
  ghost predicate Reachable(s: State) { exists run :: Exec(Start, run) == Some(s) }

  lemma ReachableInv(s: State)
    requires Reachable(s)
    ensures Inv(s)
  {
    StartOk();
    var run :| Exec(Start, run) == Some(s);
    ExecKeeps(Start, run, s);
  }

  /** Err and cause are written once: no run from a reachable state changes them. */
  lemma WrittenOnce(s: State, run: seq<Action>, s': State, x: nat)
    requires Reachable(s) && Shaped(s) && Exec(s, run) == Some(s') && IsCancelable(s, x)
    ensures x < |s'.cells|
    ensures s.cells[x].err.Some? ==> s'.cells[x].err == s.cells[x].err
    ensures s.cells[x].cause.Some? ==> s'.cells[x].cause == s.cells[x].cause
    ensures s.cells[x].done.IsClosed() ==> s'.cells[x].done == s.cells[x].done
  {
    ReachableInv(s);
    ExecKeeps(s, run, s');
    assert Grows(s.cells[x], s'.cells[x]);
  }

  // ---- no operation in flight ----

  ghost predicate Quiet(s: State) { forall t: nat :: t < |s.threads| ==> s.threads[t] == [] }

  /** x is at or below a, with no WithoutCancel in between. */
  ghost predicate Below(s: State, x: nat, a: nat)
    requires TreeOk(s.tree) && x < |s.tree|
    decreases x
  {
    || x == a
    || (!s.tree[x].kind.WithoutCancel? && !s.tree[x].kind.Background? && Below(s, s.tree[x].parent, a))
  }

  lemma {:induction false} NearestBetween(s: State, x: nat, a: nat)
    requires TreeOk(s.tree) && x < |s.tree| && Below(s, x, a) && a < |s.tree| && s.tree[a].kind.Cancelable?
    ensures Nearest(s.tree, x).Some?
    ensures Below(s, Nearest(s.tree, x).value, a)
    decreases x
  {
    if x != a && s.tree[x].kind.WithValue? {
      NearestBetween(s, s.tree[x].parent, a);
    }
  }

  /** With no operation in flight, everything below a canceled context is canceled. */
  lemma {:induction false} CanceledDown(s: State, x: nat, a: nat)
    requires Inv(s) && Quiet(s) && IsCancelable(s, a) && s.cells[a].err.Some?
    requires IsCancelable(s, x) && Below(s, x, a)
    ensures s.cells[x].err.Some?
    decreases x
  {
    if x != a {
      NearestBetween(s, s.tree[x].parent, a);
      var p := Up(s, x).value;
      CanceledDown(s, p, a);
      assert CellOk(s, x) && CellOk(s, p);
    }
  }

  /** Propagation is complete: in a reachable state with no operation in flight, every
      context below a canceled one, up to a WithoutCancel, resolves to a cancelCtx that is
      canceled, with its done channel closed and a cause set. */
  lemma PropagationComplete(s: State, x: nat, a: nat)
    requires Reachable(s) && Quiet(s) && Shaped(s)
    requires IsCancelable(s, a) && s.cells[a].err.Some?
    requires x < |s.tree| && Below(s, x, a)
    ensures Nearest(s.tree, x).Some?
    ensures var q := s.cells[Nearest(s.tree, x).value];
      q.err.Some? && q.cause.Some? && q.done.IsClosed()
  {
    ReachableInv(s);
    NearestBetween(s, x, a);
    var q := Nearest(s.tree, x).value;
    CanceledDown(s, q, a);
    assert CellOk(s, q);
  }

  /** The registry is exact: c is a registered child of p iff p is the cancelCtx above c and
      neither is canceled. */
  lemma RegistryExact(s: State, c: nat, p: nat)
    requires Reachable(s) && Quiet(s) && Shaped(s) && IsCancelable(s, c) && IsCancelable(s, p)
    ensures c in s.cells[p].children <==>
      Up(s, c) == Some(p) && s.cells[c].err.None? && s.cells[p].err.None?
  {
    ReachableInv(s);
    assert CellOk(s, c) && CellOk(s, p);
  }

  /** A context canceled by its parent carries the parent's error and cause. */
  lemma PropagatedError(s: State, c: nat)
    requires Reachable(s) && Shaped(s) && IsCancelable(s, c)
    requires s.cells[c].err.Some? && !s.cells[c].own
    ensures Up(s, c).Some?
    ensures s.cells[c].err == s.cells[Up(s, c).value].err
    ensures s.cells[c].cause.Some? ==> s.cells[c].cause == s.cells[Up(s, c).value].cause
  {
    ReachableInv(s);
    assert CellOk(s, c);
  }

  /** A closed done channel always comes with an error and a cause, and a mutex is held only
      by an operation in flight. */
  lemma ClosedExplained(s: State, c: nat)
    requires Reachable(s) && Shaped(s) && IsCancelable(s, c)
    ensures s.cells[c].done.IsClosed() ==> s.cells[c].err.Some? && s.cells[c].cause.Some?
    ensures Quiet(s) ==> s.cells[c].lock.None? && (s.cells[c].err.Some? <==> s.cells[c].done.IsClosed())
  {
    ReachableInv(s);
    assert CellOk(s, c);
  }

  /** Creation never falls back to a goroutine and cancel is never called without an error. */
  lemma NoFallback(s: State, t: nat, i: nat)
    requires Reachable(s) && ValidFrame(s, t, i) && s.threads[t][i].CreateFrame?
    ensures !s.threads[t][i].at.Spawn? && !s.threads[t][i].at.Panic?
  {
    ReachableInv(s);
    assert FrameOk(s, t, i);
  }

  /** `Err` returns a non-nil error only when the done channel is closed and a cause is set. */
  lemma ErrAfterClose(s: State, t: nat, pick: nat, s': State)
    requires Reachable(s) && Shaped(s) && Busy(s, t) && Top(s, t).ErrFrame? && Top(s, t).step.Wait?
    requires Next(s, t, pick) == Some(s')
    ensures s'.threads[t] == [] && IsCancelable(s, Top(s, t).c)
    ensures var cell := s.cells[Top(s, t).c];
      cell.err.Some? && cell.cause.Some? && cell.done.IsClosed()
  {
    ReachableInv(s);
    Instances(s, t);
  }
}
