/**
 The invariant of the cancellation tree: what every frame in flight may rely on, and what
 every cell owes to the frames in flight. The lemmas show that every step keeps it.
 */
module ContextInvariant {
  import opened Options
  import opened ContextTree

  ghost predicate ValidFrame(s: State, t: nat, i: nat) { t < |s.threads| && i < |s.threads[t]| }

  /** f called g: a cancel loop visits a child, or creation cancels the new context. */
  ghost predicate Calls(s: State, f: Frame, g: Frame)
    requires Shaped(s)
  {
    && g.CancelFrame? && !g.own && IsCancelable(s, g.c) && IsCancelable(s, f.c)
    && (|| (f.CancelFrame? && f.pc.Loop? && Up(s, g.c) == Some(f.c) && s.cells[g.c].linked)
        || (f.CreateFrame? && (f.at.Called? || f.at.Holding?) && g.c == f.c))
  }

  ghost predicate CancelOk(s: State, t: nat, i: nat)
    requires Shaped(s) && ValidFrame(s, t, i)
  {
    var f := s.threads[t][i];
    && f.CancelFrame? && IsCancelable(s, f.c)
    && (f.own ==> i == 0 && s.cells[f.c].ready && (f.pc.Enter? ==> f.remove || s.cells[f.c].err.Some?))
    && (!f.own ==>
          && i > 0 && !f.remove && Calls(s, s.threads[t][i - 1], f)
          && Up(s, f.c).Some?
          && s.cells[Up(s, f.c).value].err == Some(f.err)
          && s.cells[Up(s, f.c).value].cause == Some(f.cause))
    && (f.pc.Close? ==>
          && s.cells[f.c].lock == Some(Owner(t, i)) && s.cells[f.c].err == Some(f.err)
          && s.cells[f.c].cause.None? && s.cells[f.c].own == f.own
          && s.cells[f.c].remover == if f.remove then Some(t) else None)
    && (f.pc.Loop? ==>
          && s.cells[f.c].lock == Some(Owner(t, i)) && s.cells[f.c].err == Some(f.err)
          && s.cells[f.c].cause == Some(f.cause)
          && (forall y :: y in f.todo ==> IsCancelable(s, y) && Up(s, y) == Some(f.c) && s.cells[y].linked))
    && (f.pc.Lookup? || f.pc.Delete? ==> f.remove)
    && (f.pc.Delete? ==> Up(s, f.c).Some?)
    && (!f.pc.Enter? ==> s.cells[f.c].err.Some?)
  }

  predicate BeforeLink(at: CreatePc) {
    at.GetDone? || at.Select? || at.ReadCause? || at.Match? || at.Register?
  }

  ghost predicate CreateOk(s: State, t: nat, i: nat)
    requires Shaped(s) && ValidFrame(s, t, i)
  {
    var f := s.threads[t][i];
    && f.CreateFrame? && IsCancelable(s, f.c)
    && i == 0 && s.cells[f.c].creator == t && !s.cells[f.c].ready
    && !f.at.Spawn? && !f.at.Panic?
    && (!f.at.Arm? ==> !s.cells[f.c].linked)
    && (BeforeLink(f.at) ==> s.cells[f.c].err.None? && |s.threads[t]| == 1)
    && (f.at.Arm? ==> |s.threads[t]| == 1 && (s.cells[f.c].linked || s.cells[f.c].err.Some?))
    && (!f.at.GetDone? && !f.at.Arm? ==> Up(s, f.c).Some? && s.cells[Up(s, f.c).value].done != NoChannel)
    && (f.at.ReadCause? ==> s.cells[Up(s, f.c).value].done.IsClosed())
    && (f.at.Match? || f.at.Register? ==> s.cells[Up(s, f.c).value].done.IsOwn())
    && (f.at.Called? || f.at.Holding? ==> |s.threads[t]| == 1 ==> s.cells[f.c].err.Some?)
    && (f.at.Holding? ==> s.cells[Up(s, f.c).value].lock == Some(Owner(t, 0)))
  }

  ghost predicate FrameOk(s: State, t: nat, i: nat)
    requires Shaped(s) && ValidFrame(s, t, i)
  {
    var f := s.threads[t][i];
    && (i + 1 < |s.threads[t]| ==> Calls(s, f, s.threads[t][i + 1]))
    && match f
       case CancelFrame(_, _, _, _, _, _, _) => CancelOk(s, t, i)
       case CreateFrame(_, _) => CreateOk(s, t, i)
       case ErrFrame(c, step) => i == 0 && IsCancelable(s, c) && (step.Wait? ==> s.cells[c].err.Some?)
  }

  /** The frame that holds x's mutex. */
  ghost predicate HeldBy(s: State, x: nat, o: Owner)
    requires Shaped(s)
  {
    && ValidFrame(s, o.thread, o.depth)
    && var f := s.threads[o.thread][o.depth];
       || (f.CancelFrame? && f.c == x && (f.pc.Close? || f.pc.Loop?))
       || (f.CreateFrame? && f.at.Holding? && IsCancelable(s, f.c) && Up(s, f.c) == Some(x))
  }

  /** x's mutex is held by x's own cancel, at the given point. */
  ghost predicate Canceling(s: State, x: nat, pc: CancelPc)
    requires Shaped(s) && x < |s.cells|
  {
    && s.cells[x].lock.Some?
    && var o := s.cells[x].lock.value;
       && ValidFrame(s, o.thread, o.depth)
       && s.threads[o.thread][o.depth].CancelFrame?
       && s.threads[o.thread][o.depth].c == x && s.threads[o.thread][o.depth].pc == pc
  }

  /** x is still to be canceled by the loop of p's cancel. */
  ghost predicate InLoop(s: State, x: nat, p: nat)
    requires Shaped(s) && p < |s.cells|
  {
    && Canceling(s, p, Loop)
    && var o := s.cells[p].lock.value;
       var stack := s.threads[o.thread];
       || x in stack[o.depth].todo
       || (o.depth + 1 < |stack| && stack[o.depth + 1].CancelFrame? && stack[o.depth + 1].c == x && stack[o.depth + 1].pc.Enter?)
  }

  /** A cancellation of p will reach the uncanceled x. */
  ghost predicate Covered(s: State, x: nat, p: nat)
    requires Shaped(s) && p < |s.cells|
  {
    || (x in s.cells[p].children && (s.cells[p].err.None? || Canceling(s, p, Close)))
    || InLoop(s, x, p)
  }

  /** The thread that canceled x is on its way to removing it from its parent. */
  ghost predicate RemovalPending(s: State, x: nat)
    requires Shaped(s) && x < |s.cells|
  {
    && s.cells[x].remover.Some? && Busy(s, s.cells[x].remover.value)
    && var f := s.threads[s.cells[x].remover.value][0];
       f.CancelFrame? && f.c == x && f.remove && (f.pc.Close? || f.pc.Loop? || f.pc.Lookup? || f.pc.Delete?)
  }

  /** x's creation is still running. */
  ghost predicate BeingCreated(s: State, x: nat)
    requires Shaped(s) && x < |s.cells|
  {
    && Busy(s, s.cells[x].creator)
    && var f := s.threads[s.cells[x].creator][0];
       f.CreateFrame? && f.c == x && !f.at.Arm?
  }

  ghost predicate CellOk(s: State, x: nat)
    requires Shaped(s) && IsCancelable(s, x)
  {
    var cell := s.cells[x];
    && (cell.cause.Some? <==> cell.done.IsClosed())
    && (cell.cause.Some? ==> cell.err.Some?)
    && (cell.err.Some? && cell.cause.None? ==> Canceling(s, x, Close))
    && (cell.lock.Some? ==> HeldBy(s, x, cell.lock.value))
    && (forall y :: y in cell.children ==> IsCancelable(s, y) && Up(s, y) == Some(x) && s.cells[y].linked)
    && (cell.children != {} ==> cell.done.IsOwn())
    && (cell.err.Some? && cell.children != {} ==> Canceling(s, x, Close) || Canceling(s, x, Loop))
    && (cell.err.Some? && !cell.own ==>
          && Up(s, x).Some? && s.cells[Up(s, x).value].err == cell.err
          && s.cells[Up(s, x).value].cause.Some?
          && (cell.cause.Some? ==> cell.cause == s.cells[Up(s, x).value].cause))
    && (cell.err.None? && cell.linked && Up(s, x).Some? ==> Covered(s, x, Up(s, x).value))
    && (cell.err.None? && !cell.linked ==> BeingCreated(s, x))
    && (cell.err.Some? && Up(s, x).Some? && x in s.cells[Up(s, x).value].children ==>
          s.cells[Up(s, x).value].err.Some? || RemovalPending(s, x))
    && (cell.ready ==> cell.linked || cell.err.Some?)
  }

  ghost predicate FramesOk(s: State)
    requires Shaped(s)
  {
    forall t: nat, i: nat :: ValidFrame(s, t, i) ==> FrameOk(s, t, i)
  }

  ghost predicate CellsOk(s: State)
    requires Shaped(s)
  {
    forall x: nat :: IsCancelable(s, x) ==> CellOk(s, x)
  }

  ghost predicate Inv(s: State) { Shaped(s) && FramesOk(s) && CellsOk(s) }

  // ---- what a step may change ----

  /** err and cause are written once, a channel is never replaced, history is kept. */
  predicate Grows(a: Cell, b: Cell) {
    && (a.err.Some? ==> b.err == a.err && b.own == a.own && b.remover == a.remover)
    && (a.cause.Some? ==> b.cause == a.cause)
    && (a.done.IsClosed() ==> b.done == a.done)
    && (a.done.IsOwn() ==> b.done.IsOwn())
    && (a.done != NoChannel ==> b.done != NoChannel)
    && (a.linked ==> b.linked) && (a.ready ==> b.ready) && a.creator == b.creator
  }

  ghost predicate AllGrow(s: State, s': State)
    requires Shaped(s) && Shaped(s')
  {
    s'.tree == s.tree && forall x :: 0 <= x < |s.cells| ==> Grows(s.cells[x], s'.cells[x])
  }

  /** The exclusive facts a frame relies on: its lock, and its own unlinked or unclosed cell. */
  ghost predicate Undisturbed(s: State, s': State, f: Frame)
    requires Shaped(s) && Shaped(s') && s'.tree == s.tree && IsCancelable(s, f.c)
  {
    && (f.CancelFrame? && (f.pc.Close? || f.pc.Loop?) ==> s'.cells[f.c].lock == s.cells[f.c].lock)
    && (f.CancelFrame? && f.pc.Close? ==> s'.cells[f.c].cause == s.cells[f.c].cause)
    && (f.CreateFrame? ==>
          && s'.cells[f.c].linked == s.cells[f.c].linked && s'.cells[f.c].ready == s.cells[f.c].ready
          && (BeforeLink(f.at) ==> s'.cells[f.c].err == s.cells[f.c].err)
          && (f.at.Holding? && Up(s, f.c).Some? ==>
                s'.cells[Up(s, f.c).value].lock == s.cells[Up(s, f.c).value].lock))
  }

  lemma FrameKept(s: State, s': State, t: nat, i: nat)
    requires Shaped(s) && Shaped(s') && AllGrow(s, s')
    requires ValidFrame(s, t, i) && FrameOk(s, t, i)
    requires t < |s'.threads| && s'.threads[t] == s.threads[t]
    requires Undisturbed(s, s', s.threads[t][i])
    ensures FrameOk(s', t, i)
  {
  }

  lemma FrameKeptBelow(s: State, s': State, t: nat, i: nat)
    requires Shaped(s) && Shaped(s') && AllGrow(s, s')
    requires ValidFrame(s, t, i) && FrameOk(s, t, i) && i + 1 < |s.threads[t]|
    requires ValidFrame(s', t, i) && s'.threads[t][..i + 1] == s.threads[t][..i + 1]
    requires i + 1 < |s'.threads[t]| ==> Calls(s', s'.threads[t][i], s'.threads[t][i + 1])
    requires |s'.threads[t]| == 1 ==> s'.cells[s.threads[t][i].c].err.Some?
    requires Undisturbed(s, s', s.threads[t][i])
    ensures FrameOk(s', t, i)
  {
    assert s'.threads[t][i] == s'.threads[t][..i + 1][i];
    if i > 0 {
      assert s'.threads[t][i - 1] == s'.threads[t][..i + 1][i - 1];
      assert s.threads[t][i - 1] == s.threads[t][..i + 1][i - 1];
    }
  }

  // ---- frames and their depth ----

  ghost predicate AtTop(s: State, t: nat, f: Frame) { Busy(s, t) && Top(s, t) == f }

  /** Depth of the running frame. */
  ghost function Depth(s: State, t: nat): nat
    requires Busy(s, t)
  {
    |s.threads[t]| - 1
  }

  /** Only the running frame of t changes; it may return, or call another. */
  ghost predicate Elsewhere(s: State, s': State, t: nat) {
    && Busy(s, t) && |s'.threads| == |s.threads|
    && (forall t' :: 0 <= t' < |s.threads| && t' != t ==> s'.threads[t'] == s.threads[t'])
    && |s'.threads[t]| >= Depth(s, t)
    && s'.threads[t][..Depth(s, t)] == s.threads[t][..Depth(s, t)]
  }

  lemma SameFrame(s: State, s': State, t: nat, o: Owner)
    requires Elsewhere(s, s', t) && ValidFrame(s, o.thread, o.depth) && o != Owner(t, Depth(s, t))
    ensures ValidFrame(s', o.thread, o.depth)
    ensures s'.threads[o.thread][o.depth] == s.threads[o.thread][o.depth]
  {
    if o.thread == t {
      var d := Depth(s, t);
      assert s'.threads[t][o.depth] == s'.threads[t][..d][o.depth];
      assert s.threads[t][o.depth] == s.threads[t][..d][o.depth];
    }
  }

  /** A cell whose error, cause and history stay, and whose obligations are still met. */
  lemma CellKept(s: State, s': State, x: nat)
    requires Shaped(s) && Shaped(s') && AllGrow(s, s') && IsCancelable(s, x) && CellOk(s, x)
    requires s'.cells[x].(lock := s.cells[x].lock, done := s.cells[x].done, children := s.cells[x].children,
                          linked := s.cells[x].linked, ready := s.cells[x].ready) == s.cells[x]
    requires s'.cells[x].done.IsClosed() == s.cells[x].done.IsClosed()
    requires s'.cells[x].lock.Some? ==> HeldBy(s', x, s'.cells[x].lock.value)
    requires Canceling(s, x, Close) ==> Canceling(s', x, Close)
    requires Canceling(s, x, Loop) ==> Canceling(s', x, Loop)
    requires s'.cells[x].children == s.cells[x].children || s.cells[x].lock.None?
    requires forall y :: y in s'.cells[x].children && y !in s.cells[x].children ==>
               IsCancelable(s, y) && Up(s, y) == Some(x) && s'.cells[y].linked
    requires s'.cells[x].children - s.cells[x].children != {} ==> s.cells[x].err.None? && s'.cells[x].done.IsOwn()
    requires Up(s, x).Some? && s.cells[x].err.None? && s'.cells[x].linked ==> Covered(s', x, Up(s, x).value)
    requires s.cells[x].err.None? && !s'.cells[x].linked ==> BeingCreated(s', x)
    requires s'.cells[x].ready ==> s'.cells[x].linked || s.cells[x].err.Some?
    requires Up(s, x).Some? && x in s'.cells[Up(s, x).value].children && s.cells[x].err.Some? ==>
               x in s.cells[Up(s, x).value].children
    requires RemovalPending(s, x) && Up(s, x).Some? ==>
               || RemovalPending(s', x)
               || x !in s'.cells[Up(s, x).value].children || s'.cells[Up(s, x).value].err.Some?
    ensures CellOk(s', x)
  {
  }

  /** The running frame holds x's mutex. */
  ghost predicate Holds(s: State, f: Frame, x: nat)
    requires Shaped(s)
  {
    || (f.CancelFrame? && f.c == x && (f.pc.Close? || f.pc.Loop?))
    || (f.CreateFrame? && f.at.Holding? && IsCancelable(s, f.c) && Up(s, f.c) == Some(x))
  }

  /** A mutex that the running frame does not hold stays with its holder. */
  lemma LockKept(s: State, s': State, t: nat, x: nat)
    requires Shaped(s) && Shaped(s') && s'.tree == s.tree && Elsewhere(s, s', t)
    requires IsCancelable(s, x) && CellOk(s, x) && s'.cells[x].lock == s.cells[x].lock
    requires !Holds(s, Top(s, t), x)
    ensures s'.cells[x].lock.Some? ==> HeldBy(s', x, s'.cells[x].lock.value)
    ensures forall pc :: Canceling(s, x, pc) ==> Canceling(s', x, pc)
  {
    if s.cells[x].lock.Some? {
      SameFrame(s, s', t, s.cells[x].lock.value);
    }
  }

  /** x's creation or removal does not hang on the running frame. */
  lemma DutiesKept(s: State, s': State, t: nat, x: nat)
    requires Shaped(s) && Shaped(s') && AllGrow(s, s') && Elsewhere(s, s', t)
    requires IsCancelable(s, x) && Top(s, t).c != x
    ensures BeingCreated(s, x) ==> BeingCreated(s', x)
    ensures RemovalPending(s, x) && s'.cells[x].remover == s.cells[x].remover ==> RemovalPending(s', x)
  {
    if BeingCreated(s, x) {
      SameFrame(s, s', t, Owner(s.cells[x].creator, 0));
    }
    if RemovalPending(s, x) {
      SameFrame(s, s', t, Owner(s.cells[x].remover.value, 0));
    }
  }

  /** p keeps covering x: the running frame is neither p's cancel nor x's. */
  lemma CoverKept(s: State, s': State, t: nat, x: nat, p: nat)
    requires Shaped(s) && Shaped(s') && AllGrow(s, s') && Elsewhere(s, s', t)
    requires IsCancelable(s, p) && CellOk(s, p) && Covered(s, x, p)
    requires Top(s, t).c != x || !Top(s, t).CancelFrame? || !Top(s, t).pc.Enter?
    requires Holds(s, Top(s, t), p) ==> Top(s, t).CreateFrame? && s.cells[p].lock == Some(Owner(t, Depth(s, t)))
    requires s'.cells[p].lock == s.cells[p].lock || s.cells[p].lock.None? || Holds(s, Top(s, t), p)
    requires s'.cells[p].err == s.cells[p].err
    requires x in s.cells[p].children ==> x in s'.cells[p].children
    ensures Covered(s', x, p)
  {
    if s.cells[p].lock.Some? && s.cells[p].lock.value != Owner(t, Depth(s, t)) {
      var o := s.cells[p].lock.value;
      SameFrame(s, s', t, o);
      if o.depth + 1 < |s.threads[o.thread]| && Owner(o.thread, o.depth + 1) != Owner(t, Depth(s, t)) {
        SameFrame(s, s', t, Owner(o.thread, o.depth + 1));
      }
    }
  }

  /** A cell the step does not write, and that does not belong to the running frame. */
  lemma BystanderKept(s: State, s': State, t: nat, x: nat)
    requires Shaped(s) && Shaped(s') && AllGrow(s, s') && Elsewhere(s, s', t)
    requires IsCancelable(s, x) && CellOk(s, x) && s'.cells[x] == s.cells[x]
    requires Top(s, t).c != x && !Holds(s, Top(s, t), x)
    requires Up(s, x).Some? && s.cells[x].err.None? && s.cells[x].linked ==> Covered(s', x, Up(s, x).value)
    requires Up(s, x).Some? && x in s'.cells[Up(s, x).value].children ==> x in s.cells[Up(s, x).value].children
    ensures CellOk(s', x)
  {
    LockKept(s, s', t, x);
    DutiesKept(s, s', t, x);
    CellKept(s, s', x);
  }

  /** All frames stay in order, given the ones the step wrote. */
  lemma FramesKept(s: State, s': State, t: nat)
    requires Inv(s) && Shaped(s') && AllGrow(s, s') && Elsewhere(s, s', t)
    requires forall t': nat, i: nat :: ValidFrame(s, t', i) && (t' != t || i < Depth(s, t)) ==>
               IsCancelable(s, s.threads[t'][i].c) && Undisturbed(s, s', s.threads[t'][i])
    requires forall i: nat :: Depth(s, t) <= i < |s'.threads[t]| ==> FrameOk(s', t, i)
    requires Depth(s, t) > 0 && |s'.threads[t]| > Depth(s, t) ==>
               Calls(s', s.threads[t][Depth(s, t) - 1], s'.threads[t][Depth(s, t)])
    requires Depth(s, t) == 1 == |s'.threads[t]| ==> s'.cells[s.threads[t][0].c].err.Some?
    ensures FramesOk(s')
  {
    var d := Depth(s, t);
    forall t': nat, i: nat | ValidFrame(s', t', i) ensures FrameOk(s', t', i) {
      if t' != t {
        assert ValidFrame(s, t', i) && FrameOk(s, t', i);
        FrameKept(s, s', t', i);
      } else if i < d {
        assert ValidFrame(s, t, i) && FrameOk(s, t, i);
        FrameBelow(s, s', t, i);
      }
    }
  }

  lemma FrameBelow(s: State, s': State, t: nat, i: nat)
    requires Shaped(s) && Shaped(s') && AllGrow(s, s') && Elsewhere(s, s', t)
    requires i < Depth(s, t) && FrameOk(s, t, i) && ValidFrame(s', t, i)
    requires Undisturbed(s, s', s.threads[t][i])
    requires Depth(s, t) > 0 && |s'.threads[t]| > Depth(s, t) ==>
               Calls(s', s.threads[t][Depth(s, t) - 1], s'.threads[t][Depth(s, t)])
    requires Depth(s, t) == 1 == |s'.threads[t]| ==> s'.cells[s.threads[t][0].c].err.Some?
    ensures FrameOk(s', t, i)
  {
    var d := Depth(s, t);
    var a, b := s.threads[t], s'.threads[t];
    assert b[..i + 1] == a[..i + 1] by {
      assert b[..i + 1] == b[..d][..i + 1];
      assert a[..i + 1] == a[..d][..i + 1];
    }
    assert b[i] == b[..i + 1][i] && a[i] == a[..i + 1][i];
    if i + 1 < d {
      assert b[i + 1] == b[..d][i + 1] && a[i + 1] == a[..d][i + 1];
    }
    FrameKeptBelow(s, s', t, i);
  }

  lemma Instances(s: State, t: nat)
    requires Inv(s) && Busy(s, t)
    ensures FrameOk(s, t, Depth(s, t))
    ensures Depth(s, t) > 0 ==> FrameOk(s, t, Depth(s, t) - 1)
    ensures IsCancelable(s, Top(s, t).c) && CellOk(s, Top(s, t).c)
    ensures Up(s, Top(s, t).c).Some? ==> CellOk(s, Up(s, Top(s, t).c).value)
  {
    var d := Depth(s, t);
    assert ValidFrame(s, t, d) && FrameOk(s, t, d);
    if d > 0 {
      assert ValidFrame(s, t, d - 1) && FrameOk(s, t, d - 1);
    }
  }
}
