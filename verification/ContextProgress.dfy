/**
 The locking of the cancellation tree. Whoever holds one mutex and wants another wants a
 newer context's, so some thread can always step; and every step brings the operations
 in flight closer to their end, so all of them finish.
 */
module ContextProgress {
  import opened Options
  import opened ContextTree
  import opened ContextInvariant
  import opened ContextSteps
  import opened ContextRuns

  /** The mutex the next step of a frame needs. */
  function Wanted(s: State, f: Frame): (r: Option<nat>)
    requires Shaped(s) && IsCancelable(s, f.c)
  {
    match f
    case CancelFrame(c, _, _, _, _, pc, _) =>
      if pc.Enter? || pc.Stop? then Some(c)
      else if pc.Delete? then Up(s, c)
      else if pc.Lookup? && Up(s, c).Some? && s.cells[Up(s, c).value].done.NoChannel? then Up(s, c)
      else None
    case CreateFrame(c, at) =>
      if at.Arm? then Some(c)
      else if at.ReadCause? || at.Register? then Up(s, c)
      else if at.GetDone? && Up(s, c).Some? && s.cells[Up(s, c).value].done.NoChannel? then Up(s, c)
      else None
    case ErrFrame(_, _) => None
  }

  /** The mutex a frame holds. */
  function Held(s: State, f: Frame): (r: Option<nat>)
    requires Shaped(s) && IsCancelable(s, f.c)
  {
    if f.CancelFrame? && (f.pc.Close? || f.pc.Loop?) then Some(f.c)
    else if f.CreateFrame? && f.at.Holding? then Up(s, f.c)
    else None
  }

  lemma FrameAt(s: State, t: nat, i: nat)
    requires Inv(s) && ValidFrame(s, t, i)
    ensures FrameOk(s, t, i) && IsCancelable(s, s.threads[t][i].c)
  {
    assert FrameOk(s, t, i);
  }

  lemma ShapedByInv(s: State)
    requires Inv(s)
    ensures Shaped(s)
  {}

  /** One call: the caller's mutex and context are older than the callee's context. */
  lemma CallOrder(s: State, t: nat, j: nat)
    requires Shaped(s) && ValidFrame(s, t, j) && j > 0 && FrameOk(s, t, j - 1)
    ensures var f, g := s.threads[t][j - 1], s.threads[t][j];
      && IsCancelable(s, f.c) && IsCancelable(s, g.c)
      && g.CancelFrame? && !g.own && f.c <= g.c
      && (Held(s, f).Some? ==> Held(s, f).value < g.c)
  {}

  /** A mutex held lower in the stack is older than every context canceled above it. */
  lemma {:induction false} StackOrder(s: State, t: nat, i: nat, j: nat)
    requires Shaped(s) && ValidFrame(s, t, j) && i < j
    requires forall k: nat :: k < j ==> FrameOk(s, t, k)
    ensures IsCancelable(s, s.threads[t][i].c) && IsCancelable(s, s.threads[t][j].c)
    ensures s.threads[t][j].CancelFrame? && !s.threads[t][j].own
    ensures Held(s, s.threads[t][i]).Some? ==> Held(s, s.threads[t][i]).value < s.threads[t][j].c
    decreases j
  {
    hide FrameOk, Held;
    assert FrameOk(s, t, j - 1);
    CallOrder(s, t, j);
    if i < j - 1 {
      StackOrder(s, t, i, j - 1);
    }
  }

  /** What a running frame wants: in a stack of calls, the context it cancels. */
  lemma TopWants(s: State, t: nat)
    requires Shaped(s) && Busy(s, t) && FrameOk(s, t, Depth(s, t))
    ensures IsCancelable(s, Top(s, t).c)
    ensures Depth(s, t) > 0 && Wanted(s, Top(s, t)).Some? ==> Wanted(s, Top(s, t)) == Some(Top(s, t).c)
    ensures Held(s, Top(s, t)).Some? ==> Wanted(s, Top(s, t)).None?
  {}

  /** The frame is in removeChild. */
  predicate Removing(f: Frame) { f.CancelFrame? && (f.pc.Lookup? || f.pc.Delete?) }

  lemma RemovingAlone(s: State, t: nat, i: nat)
    requires Inv(s) && ValidFrame(s, t, i) && Busy(s, t)
    ensures Shaped(s) && IsCancelable(s, s.threads[t][i].c)
    ensures Removing(Top(s, t)) ==> Held(s, s.threads[t][i]).None?
  {
    FrameAt(s, t, i);
    FrameAt(s, t, Depth(s, t));
    ShapedByInv(s);
    hide Inv, Nearest, CreateOk;
  }

  /** Lock order: a thread that holds one mutex and wants another wants a newer context's;
      `removeChild` wants the parent's while its thread holds none. */
  lemma LockOrder(s: State, t: nat, i: nat)
    requires Inv(s) && ValidFrame(s, t, i) && Busy(s, t)
    ensures IsCancelable(s, s.threads[t][i].c) && IsCancelable(s, Top(s, t).c)
    ensures Held(s, s.threads[t][i]).Some? && Wanted(s, Top(s, t)).Some? ==>
      Held(s, s.threads[t][i]).value < Wanted(s, Top(s, t)).value
    ensures Removing(Top(s, t)) ==> Held(s, s.threads[t][i]).None?
  {
    ShapedByInv(s);
    RemovingAlone(s, t, i);
    hide Inv, FrameOk, Held, Wanted;
    var d := Depth(s, t);
    FrameAt(s, t, i);
    FrameAt(s, t, d);
    TopWants(s, t);
    if i < d {
      forall k: nat | k < d ensures FrameOk(s, t, k) {
        FrameAt(s, t, k);
      }
      StackOrder(s, t, i, d);
    }
  }

  /** The running frame can step: its mutex is free, and it does not wait for a channel. */
  predicate Free(s: State, f: Frame)
    requires Shaped(s) && IsCancelable(s, f.c)
  {
    && (Wanted(s, f).Some? ==> s.cells[Wanted(s, f).value].lock.None?)
    && (f.ErrFrame? && f.step.Wait? ==> s.cells[f.c].done.IsClosed())
  }

  lemma FreeSteps(s: State, t: nat) returns (pick: nat)
    requires Inv(s) && Busy(s, t) && IsCancelable(s, Top(s, t).c) && Free(s, Top(s, t))
    ensures Next(s, t, pick).Some?
  {
    Instances(s, t);
    var f := Top(s, t);
    if f.CancelFrame? && f.pc.Loop? && f.todo != {} {
      pick :| pick in f.todo;
    } else {
      pick := 0;
    }
  }

  /** A frame waiting for a done channel: the cancel that will close it can step. */
  lemma WaitingForClose(s: State, c: nat) returns (o: Owner)
    requires Inv(s) && IsCancelable(s, c) && s.cells[c].err.Some? && !s.cells[c].done.IsClosed()
    ensures Busy(s, o.thread) && Top(s, o.thread).CancelFrame? && Top(s, o.thread).pc.Close?
    ensures IsCancelable(s, Top(s, o.thread).c)
  {
    assert CellOk(s, c) && Canceling(s, c, Close);
    o := s.cells[c].lock.value;
    hide CellOk;
    FrameAt(s, o.thread, o.depth);
    CloseIsTop(s, o);
  }

  lemma CloseIsTop(s: State, o: Owner)
    requires Shaped(s) && ValidFrame(s, o.thread, o.depth) && FrameOk(s, o.thread, o.depth)
    requires s.threads[o.thread][o.depth].CancelFrame? && s.threads[o.thread][o.depth].pc.Close?
    ensures Busy(s, o.thread) && Top(s, o.thread) == s.threads[o.thread][o.depth]
  {}

  /** The thread that holds a mutex, and what it in turn may want. */
  lemma HolderOf(s: State, y: nat) returns (t: nat)
    requires Inv(s) && IsCancelable(s, y) && s.cells[y].lock.Some?
    ensures Busy(s, t) && IsCancelable(s, Top(s, t).c)
    ensures Wanted(s, Top(s, t)).Some? ==> y < Wanted(s, Top(s, t)).value
  {
    assert CellOk(s, y);
    var o := s.cells[y].lock.value;
    t := o.thread;
    LockOrder(s, t, o.depth);
  }

  /** Deadlock freedom: while an operation is in flight, some thread can step. */
  lemma {:induction false} Progress(s: State, t: nat) returns (t': nat, pick: nat)
    requires Inv(s) && Busy(s, t) && IsCancelable(s, Top(s, t).c)
    ensures Next(s, t', pick).Some?
    decreases if Wanted(s, Top(s, t)).Some? then |s.tree| - Wanted(s, Top(s, t)).value else 0
  {
    Instances(s, t);
    hide CellOk, Next;
    var f := Top(s, t);
    if Free(s, f) {
      t' := t;
      pick := FreeSteps(s, t);
    } else if Wanted(s, f).Some? {
      var holder := HolderOf(s, Wanted(s, f).value);
      t', pick := Progress(s, holder);
    } else {
      var o := WaitingForClose(s, f.c);
      t' := o.thread;
      pick := FreeSteps(s, t');
    }
  }

  // ---- termination ----

  function Weight(n: nat, f: Frame): nat {
    match f
    case CancelFrame(_, _, _, _, _, pc, todo) =>
      (match pc
       case Enter => 5
       case Close => 6 * n + 5
       case Loop => 4 + 6 * |todo|
       case Lookup => 3
       case Delete => 2
       case Stop => 1)
    case CreateFrame(_, at) =>
      (match at
       case GetDone => 12
       case Select => 11
       case ReadCause => 10
       case Match => 10
       case Register => 9
       case Called => 3
       case Holding => 3
       case _ => 1)
    case ErrFrame(_, step) => if step.Load? then 2 else 1
  }

  function StackWeight(n: nat, stack: seq<Frame>): nat {
    if stack == [] then 0 else StackWeight(n, stack[..|stack| - 1]) + Weight(n, stack[|stack| - 1])
  }

  function Work(n: nat, threads: seq<seq<Frame>>): nat {
    if threads == [] then 0 else StackWeight(n, threads[0]) + Work(n, threads[1..])
  }

  lemma {:induction false} WorkUpdate(n: nat, threads: seq<seq<Frame>>, t: nat, stack: seq<Frame>)
    requires t < |threads|
    ensures Work(n, threads[t := stack]) + StackWeight(n, threads[t]) == Work(n, threads) + StackWeight(n, stack)
  {
    if t == 0 {
      assert threads[0 := stack][1..] == threads[1..];
    } else {
      WorkUpdate(n, threads[1..], t - 1, stack);
      assert threads[t := stack][1..] == threads[1..][t - 1 := stack];
    }
  }

  function Uncanceled(cells: seq<Cell>): nat {
    if cells == [] then 0 else (if cells[0].err.None? then 1 else 0) + Uncanceled(cells[1..])
  }

  lemma {:induction false} UncanceledUpdate(cells: seq<Cell>, x: nat, cell: Cell)
    requires x < |cells|
    ensures Uncanceled(cells[x := cell]) + (if cells[x].err.None? then 1 else 0)
         == Uncanceled(cells) + (if cell.err.None? then 1 else 0)
  {
    if x == 0 {
      assert cells[0 := cell][1..] == cells[1..];
    } else {
      UncanceledUpdate(cells[1..], x - 1, cell);
      assert cells[x := cell][1..] == cells[1..][x - 1 := cell];
    }
  }

  lemma {:induction false} Cardinality(s: set<nat>, n: nat)
    requires forall x :: x in s ==> x < n
    ensures |s| <= n
  {
    if n == 0 {
      assert s == {};
    } else {
      Cardinality(s - {n - 1}, n - 1);
      assert |s| <= |s - {n - 1}| + 1;
    }
  }

  lemma StackPush(n: nat, below: seq<Frame>, f: Frame)
    ensures StackWeight(n, below + [f]) == StackWeight(n, below) + Weight(n, f)
  {
    assert (below + [f])[..|below|] == below;
  }

  function WeightOf(n: nat, fs: seq<Frame>): nat
    requires |fs| <= 2
  {
    (if |fs| > 0 then Weight(n, fs[0]) else 0) + (if |fs| > 1 then Weight(n, fs[1]) else 0)
  }

  /** The new stack of t, top frame replaced by fs. */
  lemma {:induction false} StackReplaced(n: nat, stack: seq<Frame>, fs: seq<Frame>)
    requires stack != [] && |fs| <= 2
    ensures StackWeight(n, stack[..|stack| - 1] + fs) + Weight(n, stack[|stack| - 1])
         == StackWeight(n, stack) + WeightOf(n, fs)
  {
    var below := stack[..|stack| - 1];
    StackPush(n, below, stack[|stack| - 1]);
    assert below + [stack[|stack| - 1]] == stack;
    hide StackWeight, Weight;
    if |fs| == 0 {
      assert below + fs == below;
    } else if |fs| == 1 {
      StackPush(n, below, fs[0]);
      assert below + fs == below + [fs[0]];
    } else {
      StackPush(n, below, fs[0]);
      StackPush(n, below + [fs[0]], fs[1]);
      assert below + fs == below + [fs[0]] + [fs[1]];
    }
  }

  lemma {:induction false} UncanceledSame(a: seq<Cell>, b: seq<Cell>)
    requires |a| == |b| && forall x :: 0 <= x < |a| ==> a[x].err.None? == b[x].err.None?
    ensures Uncanceled(a) == Uncanceled(b)
  {
    if a != [] {
      UncanceledSame(a[1..], b[1..]);
    }
  }

  /** The step replaced the running frame by fs, of less weight. */
  ghost predicate Lighter(s: State, t: nat, f: Frame, s': State, fs: seq<Frame>)
    requires Busy(s, t)
  {
    && |fs| <= 2
    && s'.threads == s.threads[t := s.threads[t][..Depth(s, t)] + fs]
    && WeightOf(|s.tree|, fs) < Weight(|s.tree|, f)
  }

  ghost predicate SameErrors(s: State, s': State) {
    |s'.cells| == |s.cells| && forall x :: 0 <= x < |s.cells| ==> s'.cells[x].err.None? == s.cells[x].err.None?
  }

  lemma PopIs(s: State, t: nat)
    requires Busy(s, t)
    ensures Pop(s, t).threads == s.threads[t := s.threads[t][..Depth(s, t)] + []]
  {
    assert s.threads[t][..Depth(s, t)] + [] == s.threads[t][..Depth(s, t)];
  }

  lemma CloseLighter(s: State, t: nat, f: Frame, pick: nat, s': State)
    requires StepOf(s, t, f, pick, s') && f.CancelFrame? && f.pc.Close?
    ensures Lighter(s, t, f, s', [f.(pc := Loop, todo := s.cells[f.c].children)]) && SameErrors(s, s')
  {
    Cardinality(s.cells[f.c].children, |s.tree|);
  }

  lemma LoopLighter(s: State, t: nat, f: Frame, pick: nat, s': State)
    requires StepOf(s, t, f, pick, s') && f.CancelFrame? && f.pc.Loop? && f.todo != {}
    ensures pick in f.todo
    ensures Lighter(s, t, f, s', [f.(todo := f.todo - {pick}),
                                  CancelFrame(pick, false, f.err, f.cause, false, Enter, {})])
    ensures SameErrors(s, s')
  {
    hide FrameOk, CellOk;
  }

  lemma TailLighter(s: State, t: nat, f: Frame, pick: nat, s': State) returns (fs: seq<Frame>)
    requires StepOf(s, t, f, pick, s') && f.CancelFrame? && !f.pc.Close? && (f.pc.Loop? ==> f.todo == {})
    requires f.pc.Enter? ==> s.cells[f.c].err.Some?
    ensures Lighter(s, t, f, s', fs) && SameErrors(s, s')
  {
    hide FrameOk, CellOk;
    PopIs(s, t);
    var d := Depth(s, t);
    var below := s.threads[t][..d];
    if s'.threads == Pop(s, t).threads {
      fs := [];
    } else {
      fs := [s'.threads[t][d]];
    }
  }

  lemma CreateLighter(s: State, t: nat, f: Frame, pick: nat, s': State) returns (fs: seq<Frame>)
    requires StepOf(s, t, f, pick, s') && f.CreateFrame?
    ensures Lighter(s, t, f, s', fs) && SameErrors(s, s')
  {
    hide CellOk, FrameOk, Next, Lighter, SameErrors;
    if Up(s, f.c).None? {
      fs := RootLighter(s, t, f, pick, s');
    } else {
      fs := ChildLighter(s, t, f, pick, s');
    }
  }

  lemma RootLighter(s: State, t: nat, f: Frame, pick: nat, s': State) returns (fs: seq<Frame>)
    requires StepOf(s, t, f, pick, s') && f.CreateFrame? && Up(s, f.c).None?
    ensures Lighter(s, t, f, s', fs) && SameErrors(s, s')
  {
    hide CellOk, Nearest;
    PopIs(s, t);
    fs := s'.threads[t][Depth(s, t)..];
  }

  lemma ChildLighter(s: State, t: nat, f: Frame, pick: nat, s': State) returns (fs: seq<Frame>)
    requires StepOf(s, t, f, pick, s') && f.CreateFrame? && Up(s, f.c).Some?
    ensures Lighter(s, t, f, s', fs) && SameErrors(s, s')
  {
    hide CellOk, Nearest;
    PopIs(s, t);
    fs := s'.threads[t][Depth(s, t)..];
  }

  lemma ErrLighter(s: State, t: nat, f: Frame, pick: nat, s': State) returns (fs: seq<Frame>)
    requires StepOf(s, t, f, pick, s') && f.ErrFrame?
    ensures Lighter(s, t, f, s', fs) && SameErrors(s, s')
  {
    PopIs(s, t);
    fs := s'.threads[t][Depth(s, t)..];
  }

  lemma EnterDecreases(s: State, t: nat, f: Frame, pick: nat, s': State)
    requires StepOf(s, t, f, pick, s') && f.CancelFrame? && f.pc.Enter? && s.cells[f.c].err.None?
    ensures Uncanceled(s'.cells) < Uncanceled(s.cells)
  {
    hide FrameOk, CellOk;
    assert s'.cells == s.cells[f.c := s'.cells[f.c]];
    UncanceledUpdate(s.cells, f.c, s'.cells[f.c]);
  }

  lemma StepLighter(s: State, t: nat, f: Frame, pick: nat, s': State) returns (fs: seq<Frame>)
    requires StepOf(s, t, f, pick, s') && !(f.CancelFrame? && f.pc.Enter? && s.cells[f.c].err.None?)
    ensures Lighter(s, t, f, s', fs) && SameErrors(s, s')
  {
    hide Next, FrameOk, CellOk, Weight, Lighter, SameErrors;
    if f.CancelFrame? && f.pc.Close? {
      CloseLighter(s, t, f, pick, s');
      fs := [f.(pc := Loop, todo := s.cells[f.c].children)];
    } else if f.CancelFrame? && f.pc.Loop? && f.todo != {} {
      LoopLighter(s, t, f, pick, s');
      fs := [f.(todo := f.todo - {pick}), CancelFrame(pick, false, f.err, f.cause, false, Enter, {})];
    } else if f.CancelFrame? {
      fs := TailLighter(s, t, f, pick, s');
    } else if f.CreateFrame? {
      fs := CreateLighter(s, t, f, pick, s');
    } else {
      fs := ErrLighter(s, t, f, pick, s');
    }
  }

  ghost predicate Decreases(s: State, s': State) {
    || Uncanceled(s'.cells) < Uncanceled(s.cells)
    || (Uncanceled(s'.cells) == Uncanceled(s.cells)
        && Work(|s.tree|, s'.threads) < Work(|s.tree|, s.threads))
  }

  lemma StepDecreases(s: State, t: nat, f: Frame, pick: nat, s': State)
    requires StepOf(s, t, f, pick, s')
    ensures Decreases(s, s')
  {
    hide Next, FrameOk, CellOk, Weight, StackWeight, Work, Uncanceled, WeightOf;
    if f.CancelFrame? && f.pc.Enter? && s.cells[f.c].err.None? {
      EnterDecreases(s, t, f, pick, s');
    } else {
      var fs := StepLighter(s, t, f, pick, s');
      UncanceledSame(s.cells, s'.cells);
      StackReplaced(|s.tree|, s.threads[t], fs);
      WorkUpdate(|s.tree|, s.threads, t, s.threads[t][..Depth(s, t)] + fs);
    }
  }

  /** Every step makes the operations in flight shorter: it cancels one more context, or
      leaves less work. So in every interleaving they all finish. */
  lemma StepsDecrease(s: State, t: nat, pick: nat, s': State)
    requires Inv(s) && Next(s, t, pick) == Some(s')
    ensures |s'.tree| == |s.tree| && Decreases(s, s')
  {
    NextKeeps(s, t, pick, s');
    Instances(s, t);
    hide Next, FrameOk, CellOk, Decreases;
    assert StepOf(s, t, Top(s, t), pick, s');
    StepDecreases(s, t, Top(s, t), pick, s');
  }

  /** From every reachable state the operations in flight can run to completion. */
  lemma {:induction false} Completes(s: State) returns (run: seq<Action>, s': State)
    requires Inv(s)
    ensures Exec(s, run) == Some(s') && Inv(s') && Quiet(s')
    decreases Uncanceled(s.cells), Work(|s.tree|, s.threads)
  {
    if Quiet(s) {
      run, s' := [], s;
    } else {
      var t: nat :| t < |s.threads| && s.threads[t] != [];
      Instances(s, t);
      var t', pick := Progress(s, t);
      var m := Next(s, t', pick).value;
      NextKeeps(s, t', pick, m);
      StepsDecrease(s, t', pick, m);
      var rest;
      rest, s' := Completes(m);
      run := [Run(t', pick)] + rest;
      assert run[1..] == rest;
    }
  }
}
