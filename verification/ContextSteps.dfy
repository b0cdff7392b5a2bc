/**
 Every step keeps the invariant. For each group of program points there are small lemmas: what
 the step leaves alone, that other frames are not disturbed, the frame it wrote, the cell of
 the context, what it does to its parent's cell, and that its children stay covered. The rest
 follows from these for all steps alike.
 */
module ContextSteps {
  import opened Options
  import opened ContextTree
  import opened ContextInvariant

  /** A step of thread t's running frame f, with the facts about f, its caller and its cells. */
  ghost predicate StepOf(s: State, t: nat, f: Frame, pick: nat, s': State) {
    && Shaped(s) && AtTop(s, t, f) && IsCancelable(s, f.c)
    && FrameOk(s, t, Depth(s, t)) && (Depth(s, t) > 0 ==> FrameOk(s, t, Depth(s, t) - 1))
    && CellOk(s, f.c) && (Up(s, f.c).Some? ==> CellOk(s, Up(s, f.c).value))
    && Next(s, t, pick) == Some(s')
  }

  lemma ParentLock(s: State, s': State, t: nat, f: Frame, p: nat)
    requires Shaped(s) && Shaped(s') && s'.tree == s.tree && Elsewhere(s, s', t) && AtTop(s, t, f)
    requires IsCancelable(s, p) && CellOk(s, p)
    requires s'.cells[p].lock.Some? ==>
      (s'.cells[p].lock == s.cells[p].lock && !Holds(s, f, p)) || HeldBy(s', p, s'.cells[p].lock.value)
    requires s.cells[p].lock.Some? ==>
      (s'.cells[p].lock == s.cells[p].lock && !Holds(s, f, p)) || (forall pc :: !Canceling(s, p, pc))
    ensures s'.cells[p].lock.Some? ==> HeldBy(s', p, s'.cells[p].lock.value)
    ensures forall pc :: Canceling(s, p, pc) ==> Canceling(s', p, pc)
  {
    if s'.cells[p].lock == s.cells[p].lock && !Holds(s, f, p) {
      LockKept(s, s', t, p);
    }
  }

  /** The thread that owes x's removal is not t, or t's bottom frame still owes it. */
  lemma RemovalKept(s: State, s': State, t: nat, x: nat)
    requires Shaped(s) && Shaped(s') && AllGrow(s, s') && Elsewhere(s, s', t) && x < |s.cells|
    requires RemovalPending(s, x) && s'.cells[x].remover == s.cells[x].remover
    requires s.cells[x].remover != Some(t) || Depth(s, t) > 0
    ensures RemovalPending(s', x)
  {
    SameFrame(s, s', t, Owner(s.cells[x].remover.value, 0));
  }

  /** What a step may do to the cell p of the parent: take or release its mutex, make its channel,
      and add or remove the running frame's context. */
  ghost predicate ParentShape(s: State, t: nat, f: Frame, s': State)
    requires Shaped(s) && Shaped(s') && s'.tree == s.tree && Busy(s, t) && IsCancelable(s, f.c) && Up(s, f.c).Some?
  {
    var p := Up(s, f.c).value;
    var a, b := s.cells[p], s'.cells[p];
    && b.(lock := a.lock, done := a.done, children := a.children) == a
    && b.done.IsClosed() == a.done.IsClosed()
    && (b.lock.Some? ==> (b.lock == a.lock && !Holds(s, f, p)) || HeldBy(s', p, b.lock.value))
    && (a.lock.Some? ==> (b.lock == a.lock && !Holds(s, f, p)) || (forall pc :: !Canceling(s, p, pc)))
    && (b.lock == a.lock || a.lock.None? || Holds(s, f, p))
    && (Holds(s, f, p) ==> f.CreateFrame? && a.lock == Some(Owner(t, Depth(s, t))))
    && (b.children == a.children || a.lock.None?)
    && a.children - {f.c} <= b.children <= a.children + {f.c}
    && (f.c in b.children - a.children ==> s'.cells[f.c].linked && a.err.None? && b.done.IsOwn())
  }

  lemma ParentKept(s: State, t: nat, f: Frame, s': State)
    requires Shaped(s) && AtTop(s, t, f) && IsCancelable(s, f.c) && Up(s, f.c).Some? && CellOk(s, Up(s, f.c).value)
    requires f.c != Up(s, f.c).value && Up(s, Up(s, f.c).value) != Some(f.c) && Up(s, Up(s, f.c).value) != Up(s, f.c)
    requires Up(s, Up(s, f.c).value).Some? ==> CellOk(s, Up(s, Up(s, f.c).value).value)
    requires Shaped(s') && AllGrow(s, s') && Elsewhere(s, s', t) && ParentShape(s, t, f, s')
    requires forall x :: 0 <= x < |s.cells| && x != f.c && Up(s, f.c) != Some(x) ==> s'.cells[x] == s.cells[x]
    ensures IsCancelable(s', Up(s, f.c).value) && CellOk(s', Up(s, f.c).value)
  {
    var p := Up(s, f.c).value;
    if Up(s, p).Some? && s.cells[p].err.None? && s.cells[p].linked {
      CoverKept(s, s', t, p, Up(s, p).value);
    }
    DutiesKept(s, s', t, p);
    ParentLock(s, s', t, f, p);
    CellKept(s, s', p);
  }

  // ---- cancel takes the lock and stores the error, or finds it stored ----

  lemma EnterShape(s: State, t: nat, f: Frame, pick: nat, s': State)
    requires StepOf(s, t, f, pick, s') && f.CancelFrame? && f.pc.Enter?
    ensures Shaped(s') && AllGrow(s, s') && Elsewhere(s, s', t)
    ensures forall x :: 0 <= x < |s.cells| && x != f.c && Up(s, f.c) != Some(x) ==> s'.cells[x] == s.cells[x]
    ensures s'.cells[f.c].children <= s.cells[f.c].children
    ensures Depth(s, t) > 0 && |s'.threads[t]| > Depth(s, t) ==>
              Calls(s', s.threads[t][Depth(s, t) - 1], s'.threads[t][Depth(s, t)])
    ensures Depth(s, t) == 1 == |s'.threads[t]| ==> s'.cells[s.threads[t][0].c].err.Some?
  {
    assert s'.threads[t][..Depth(s, t)] == s.threads[t][..Depth(s, t)];
  }

  lemma EnterUndisturbed(s: State, t: nat, f: Frame, pick: nat, s': State, t': nat, i: nat)
    requires StepOf(s, t, f, pick, s') && f.CancelFrame? && f.pc.Enter?
    requires ValidFrame(s, t', i) && FrameOk(s, t', i) && (t' != t || i < Depth(s, t))
    ensures Shaped(s') && s'.tree == s.tree
    ensures IsCancelable(s, s.threads[t'][i].c) && Undisturbed(s, s', s.threads[t'][i])
  {
    hide Nearest;
  }

  lemma EnterTop(s: State, t: nat, f: Frame, pick: nat, s': State, i: nat)
    requires StepOf(s, t, f, pick, s') && f.CancelFrame? && f.pc.Enter?
    requires ValidFrame(s', t, i) && i >= Depth(s, t)
    ensures Shaped(s') && FrameOk(s', t, i)
  {
    hide Nearest;
  }

  lemma EnterSelf(s: State, t: nat, f: Frame, pick: nat, s': State)
    requires StepOf(s, t, f, pick, s') && f.CancelFrame? && f.pc.Enter?
    ensures Shaped(s') && IsCancelable(s', f.c) && CellOk(s', f.c)
  {}

  lemma EnterParentShape(s: State, t: nat, f: Frame, pick: nat, s': State)
    requires StepOf(s, t, f, pick, s') && f.CancelFrame? && f.pc.Enter? && Up(s, f.c).Some?
    ensures Shaped(s') && s'.tree == s.tree && ParentShape(s, t, f, s')
  {}

  lemma EnterCovers(s: State, t: nat, f: Frame, pick: nat, s': State, x: nat)
    requires StepOf(s, t, f, pick, s') && f.CancelFrame? && f.pc.Enter?
    requires IsCancelable(s, x) && x != f.c && Up(s, x) == Some(f.c) && Covered(s, x, f.c)
    ensures Shaped(s') && Covered(s', x, f.c)
  {
    EnterShape(s, t, f, pick, s');
    if s'.cells[f.c].lock == s.cells[f.c].lock {
      CoverKept(s, s', t, x, f.c);
    }
  }

  // ---- cancel stores the cause and closes the done channel ----

  lemma CloseShape(s: State, t: nat, f: Frame, pick: nat, s': State)
    requires StepOf(s, t, f, pick, s') && f.CancelFrame? && f.pc.Close?
    ensures Shaped(s') && AllGrow(s, s') && Elsewhere(s, s', t)
    ensures forall x :: 0 <= x < |s.cells| && x != f.c && Up(s, f.c) != Some(x) ==> s'.cells[x] == s.cells[x]
    ensures s'.cells[f.c].children <= s.cells[f.c].children
    ensures Depth(s, t) > 0 && |s'.threads[t]| > Depth(s, t) ==>
              Calls(s', s.threads[t][Depth(s, t) - 1], s'.threads[t][Depth(s, t)])
    ensures Depth(s, t) == 1 == |s'.threads[t]| ==> s'.cells[s.threads[t][0].c].err.Some?
  {
    assert s'.threads[t][..Depth(s, t)] == s.threads[t][..Depth(s, t)];
  }

  lemma CloseUndisturbed(s: State, t: nat, f: Frame, pick: nat, s': State, t': nat, i: nat)
    requires StepOf(s, t, f, pick, s') && f.CancelFrame? && f.pc.Close?
    requires ValidFrame(s, t', i) && FrameOk(s, t', i) && (t' != t || i < Depth(s, t))
    ensures Shaped(s') && s'.tree == s.tree
    ensures IsCancelable(s, s.threads[t'][i].c) && Undisturbed(s, s', s.threads[t'][i])
  {
    hide Nearest;
  }

  lemma CloseTop(s: State, t: nat, f: Frame, pick: nat, s': State, i: nat)
    requires StepOf(s, t, f, pick, s') && f.CancelFrame? && f.pc.Close?
    requires ValidFrame(s', t, i) && i >= Depth(s, t)
    ensures Shaped(s') && FrameOk(s', t, i)
  {
    hide Nearest;
  }

  lemma CloseSelf(s: State, t: nat, f: Frame, pick: nat, s': State)
    requires StepOf(s, t, f, pick, s') && f.CancelFrame? && f.pc.Close?
    ensures Shaped(s') && IsCancelable(s', f.c) && CellOk(s', f.c)
  {}

  lemma CloseParentShape(s: State, t: nat, f: Frame, pick: nat, s': State)
    requires StepOf(s, t, f, pick, s') && f.CancelFrame? && f.pc.Close? && Up(s, f.c).Some?
    ensures Shaped(s') && s'.tree == s.tree && ParentShape(s, t, f, s')
  {}

  lemma CloseCovers(s: State, t: nat, f: Frame, pick: nat, s': State, x: nat)
    requires StepOf(s, t, f, pick, s') && f.CancelFrame? && f.pc.Close?
    requires IsCancelable(s, x) && x != f.c && Up(s, x) == Some(f.c) && Covered(s, x, f.c)
    ensures Shaped(s') && Covered(s', x, f.c)
  {
    CloseShape(s, t, f, pick, s');
  }

  // ---- cancel visits a child, or releases the lock ----

  lemma LoopShape(s: State, t: nat, f: Frame, pick: nat, s': State)
    requires StepOf(s, t, f, pick, s') && f.CancelFrame? && f.pc.Loop?
    ensures Shaped(s') && AllGrow(s, s') && Elsewhere(s, s', t)
    ensures forall x :: 0 <= x < |s.cells| && x != f.c && Up(s, f.c) != Some(x) ==> s'.cells[x] == s.cells[x]
    ensures s'.cells[f.c].children <= s.cells[f.c].children
    ensures Depth(s, t) > 0 && |s'.threads[t]| > Depth(s, t) ==>
              Calls(s', s.threads[t][Depth(s, t) - 1], s'.threads[t][Depth(s, t)])
    ensures Depth(s, t) == 1 == |s'.threads[t]| ==> s'.cells[s.threads[t][0].c].err.Some?
  {
    if f.todo == {} {
      LoopShapeDone(s, t, f, pick, s');
    } else {
      LoopShapeCall(s, t, f, pick, s');
    }
  }

  lemma LoopShapeDone(s: State, t: nat, f: Frame, pick: nat, s': State)
    requires StepOf(s, t, f, pick, s') && f.CancelFrame? && f.pc.Loop? && f.todo == {}
    ensures Shaped(s') && AllGrow(s, s') && Elsewhere(s, s', t)
    ensures forall x :: 0 <= x < |s.cells| && x != f.c && Up(s, f.c) != Some(x) ==> s'.cells[x] == s.cells[x]
    ensures s'.cells[f.c].children <= s.cells[f.c].children
    ensures Depth(s, t) > 0 && |s'.threads[t]| > Depth(s, t) ==>
              Calls(s', s.threads[t][Depth(s, t) - 1], s'.threads[t][Depth(s, t)])
    ensures Depth(s, t) == 1 == |s'.threads[t]| ==> s'.cells[s.threads[t][0].c].err.Some?
  {
    hide Nearest;
    assert s'.threads[t][..Depth(s, t)] == s.threads[t][..Depth(s, t)];
  }

  lemma LoopShapeCall(s: State, t: nat, f: Frame, pick: nat, s': State)
    requires StepOf(s, t, f, pick, s') && f.CancelFrame? && f.pc.Loop? && f.todo != {}
    ensures Shaped(s') && AllGrow(s, s') && Elsewhere(s, s', t)
    ensures forall x :: 0 <= x < |s.cells| && x != f.c && Up(s, f.c) != Some(x) ==> s'.cells[x] == s.cells[x]
    ensures s'.cells[f.c].children <= s.cells[f.c].children
    ensures Depth(s, t) > 0 && |s'.threads[t]| > Depth(s, t) ==>
              Calls(s', s.threads[t][Depth(s, t) - 1], s'.threads[t][Depth(s, t)])
    ensures Depth(s, t) == 1 == |s'.threads[t]| ==> s'.cells[s.threads[t][0].c].err.Some?
  {
    hide Nearest;
    assert s'.threads[t][..Depth(s, t)] == s.threads[t][..Depth(s, t)];
  }

  lemma LoopUndisturbed(s: State, t: nat, f: Frame, pick: nat, s': State, t': nat, i: nat)
    requires StepOf(s, t, f, pick, s') && f.CancelFrame? && f.pc.Loop?
    requires ValidFrame(s, t', i) && FrameOk(s, t', i) && (t' != t || i < Depth(s, t))
    ensures Shaped(s') && s'.tree == s.tree
    ensures IsCancelable(s, s.threads[t'][i].c) && Undisturbed(s, s', s.threads[t'][i])
  {}

  lemma LoopTop(s: State, t: nat, f: Frame, pick: nat, s': State, i: nat)
    requires StepOf(s, t, f, pick, s') && f.CancelFrame? && f.pc.Loop?
    requires ValidFrame(s', t, i) && i >= Depth(s, t)
    ensures Shaped(s') && FrameOk(s', t, i)
  {
    hide Nearest;
    if f.todo == {} {
      LoopTopDone(s, t, f, pick, s');
    } else {
      LoopTopCall(s, t, f, pick, s', i);
    }
  }

  lemma LoopTopDone(s: State, t: nat, f: Frame, pick: nat, s': State)
    requires StepOf(s, t, f, pick, s') && f.CancelFrame? && f.pc.Loop? && f.todo == {}
    requires ValidFrame(s', t, Depth(s, t))
    ensures Shaped(s') && |s'.threads[t]| == |s.threads[t]| && FrameOk(s', t, Depth(s, t))
  {
    hide Nearest;
  }

  lemma LoopTopCall(s: State, t: nat, f: Frame, pick: nat, s': State, i: nat)
    requires StepOf(s, t, f, pick, s') && f.CancelFrame? && f.pc.Loop? && f.todo != {}
    requires ValidFrame(s', t, i) && i >= Depth(s, t)
    ensures Shaped(s') && FrameOk(s', t, i)
  {}

  lemma LoopSelf(s: State, t: nat, f: Frame, pick: nat, s': State)
    requires StepOf(s, t, f, pick, s') && f.CancelFrame? && f.pc.Loop?
    ensures Shaped(s') && IsCancelable(s', f.c) && CellOk(s', f.c)
  {
    hide StepOf, CellOk;
    if f.todo == {} {
      LoopSelfDone(s, t, f, pick, s');
    } else {
      LoopSelfCall(s, t, f, pick, s');
    }
  }

  lemma LoopSelfDone(s: State, t: nat, f: Frame, pick: nat, s': State)
    requires StepOf(s, t, f, pick, s') && f.CancelFrame? && f.pc.Loop? && f.todo == {}
    ensures Shaped(s') && IsCancelable(s', f.c) && CellOk(s', f.c)
  {}

  lemma LoopSelfCall(s: State, t: nat, f: Frame, pick: nat, s': State)
    requires StepOf(s, t, f, pick, s') && f.CancelFrame? && f.pc.Loop? && f.todo != {}
    ensures Shaped(s') && IsCancelable(s', f.c) && CellOk(s', f.c)
  {}

  lemma LoopParentShape(s: State, t: nat, f: Frame, pick: nat, s': State)
    requires StepOf(s, t, f, pick, s') && f.CancelFrame? && f.pc.Loop? && Up(s, f.c).Some?
    ensures Shaped(s') && s'.tree == s.tree && ParentShape(s, t, f, s')
  {}

  lemma LoopCovers(s: State, t: nat, f: Frame, pick: nat, s': State, x: nat)
    requires StepOf(s, t, f, pick, s') && f.CancelFrame? && f.pc.Loop?
    requires IsCancelable(s, x) && x != f.c && Up(s, x) == Some(f.c) && Covered(s, x, f.c)
    ensures Shaped(s') && Covered(s', x, f.c)
  {
    hide Nearest;
    LoopShape(s, t, f, pick, s');
  }

  // ---- removeChild finds the parent; a timer is stopped ----

  lemma LookupShape(s: State, t: nat, f: Frame, pick: nat, s': State)
    requires StepOf(s, t, f, pick, s') && f.CancelFrame? && (f.pc.Lookup? || f.pc.Stop?)
    ensures Shaped(s') && AllGrow(s, s') && Elsewhere(s, s', t)
    ensures forall x :: 0 <= x < |s.cells| && x != f.c && Up(s, f.c) != Some(x) ==> s'.cells[x] == s.cells[x]
    ensures s'.cells[f.c].children <= s.cells[f.c].children
    ensures Depth(s, t) > 0 && |s'.threads[t]| > Depth(s, t) ==>
              Calls(s', s.threads[t][Depth(s, t) - 1], s'.threads[t][Depth(s, t)])
    ensures Depth(s, t) == 1 == |s'.threads[t]| ==> s'.cells[s.threads[t][0].c].err.Some?
  {
    hide Nearest;
    assert s'.threads[t][..Depth(s, t)] == s.threads[t][..Depth(s, t)];
  }

  lemma LookupUndisturbed(s: State, t: nat, f: Frame, pick: nat, s': State, t': nat, i: nat)
    requires StepOf(s, t, f, pick, s') && f.CancelFrame? && (f.pc.Lookup? || f.pc.Stop?)
    requires ValidFrame(s, t', i) && FrameOk(s, t', i) && (t' != t || i < Depth(s, t))
    ensures Shaped(s') && s'.tree == s.tree
    ensures IsCancelable(s, s.threads[t'][i].c) && Undisturbed(s, s', s.threads[t'][i])
  {}

  lemma LookupTop(s: State, t: nat, f: Frame, pick: nat, s': State, i: nat)
    requires StepOf(s, t, f, pick, s') && f.CancelFrame? && (f.pc.Lookup? || f.pc.Stop?)
    requires ValidFrame(s', t, i) && i >= Depth(s, t)
    ensures Shaped(s') && FrameOk(s', t, i)
  {
    hide Nearest;
  }

  lemma LookupSelf(s: State, t: nat, f: Frame, pick: nat, s': State)
    requires StepOf(s, t, f, pick, s') && f.CancelFrame? && (f.pc.Lookup? || f.pc.Stop?)
    ensures Shaped(s') && IsCancelable(s', f.c) && CellOk(s', f.c)
  {
    LookupShape(s, t, f, pick, s');
    var c := f.c;
    LockKept(s, s', t, c);
    if RemovalPending(s, c) && (s.cells[c].remover != Some(t) || Depth(s, t) > 0) {
      RemovalKept(s, s', t, c);
    }
    CellKept(s, s', c);
  }

  lemma LookupParentShape(s: State, t: nat, f: Frame, pick: nat, s': State)
    requires StepOf(s, t, f, pick, s') && f.CancelFrame? && (f.pc.Lookup? || f.pc.Stop?) && Up(s, f.c).Some?
    ensures Shaped(s') && s'.tree == s.tree && ParentShape(s, t, f, s')
  {
    hide Nearest;
  }

  lemma LookupCovers(s: State, t: nat, f: Frame, pick: nat, s': State, x: nat)
    requires StepOf(s, t, f, pick, s') && f.CancelFrame? && (f.pc.Lookup? || f.pc.Stop?)
    requires IsCancelable(s, x) && x != f.c && Up(s, x) == Some(f.c) && Covered(s, x, f.c)
    ensures Shaped(s') && Covered(s', x, f.c)
  {
    LookupShape(s, t, f, pick, s');
    if s'.cells[f.c].lock == s.cells[f.c].lock {
      CoverKept(s, s', t, x, f.c);
    }
  }

  // ---- removeChild deletes the child under the parent lock ----

  lemma DeleteShape(s: State, t: nat, f: Frame, pick: nat, s': State)
    requires StepOf(s, t, f, pick, s') && f.CancelFrame? && f.pc.Delete?
    ensures Shaped(s') && AllGrow(s, s') && Elsewhere(s, s', t)
    ensures forall x :: 0 <= x < |s.cells| && x != f.c && Up(s, f.c) != Some(x) ==> s'.cells[x] == s.cells[x]
    ensures s'.cells[f.c].children <= s.cells[f.c].children
    ensures Depth(s, t) == 0
  {
    hide Nearest;
    assert s'.threads[t][..Depth(s, t)] == s.threads[t][..Depth(s, t)];
  }

  lemma DeleteUndisturbed(s: State, t: nat, f: Frame, pick: nat, s': State, t': nat, i: nat)
    requires StepOf(s, t, f, pick, s') && f.CancelFrame? && f.pc.Delete?
    requires ValidFrame(s, t', i) && FrameOk(s, t', i) && t' != t
    ensures Shaped(s') && s'.tree == s.tree
    ensures IsCancelable(s, s.threads[t'][i].c) && Undisturbed(s, s', s.threads[t'][i])
  {
    hide Nearest;
  }

  lemma DeleteTop(s: State, t: nat, f: Frame, pick: nat, s': State, i: nat)
    requires StepOf(s, t, f, pick, s') && f.CancelFrame? && f.pc.Delete?
    requires ValidFrame(s', t, i) && i >= Depth(s, t)
    ensures Shaped(s') && FrameOk(s', t, i)
  {
    hide Nearest;
  }

  lemma DeleteSelf(s: State, t: nat, f: Frame, pick: nat, s': State)
    requires StepOf(s, t, f, pick, s') && f.CancelFrame? && f.pc.Delete?
    ensures Shaped(s') && IsCancelable(s', f.c) && CellOk(s', f.c)
  {
    hide Nearest;
    DeleteShape(s, t, f, pick, s');
    var c := f.c;
    LockKept(s, s', t, c);
    if RemovalPending(s, c) && s.cells[c].remover != Some(t) {
      RemovalKept(s, s', t, c);
    }
    CellKept(s, s', c);
  }

  lemma DeleteParentShape(s: State, t: nat, f: Frame, pick: nat, s': State)
    requires StepOf(s, t, f, pick, s') && f.CancelFrame? && f.pc.Delete? && Up(s, f.c).Some?
    ensures Shaped(s') && s'.tree == s.tree && ParentShape(s, t, f, s')
  {}

  lemma DeleteCovers(s: State, t: nat, f: Frame, pick: nat, s': State, x: nat)
    requires StepOf(s, t, f, pick, s') && f.CancelFrame? && f.pc.Delete?
    requires IsCancelable(s, x) && x != f.c && Up(s, x) == Some(f.c) && Covered(s, x, f.c)
    ensures Shaped(s') && Covered(s', x, f.c)
  {
    DeleteShape(s, t, f, pick, s');
    if s'.cells[f.c].lock == s.cells[f.c].lock {
      CoverKept(s, s', t, x, f.c);
    }
  }

  // ---- propagateCancel before it takes the parent lock ----

  lemma BeginShape(s: State, t: nat, f: Frame, pick: nat, s': State)
    requires StepOf(s, t, f, pick, s') && f.CreateFrame? && BeforeLink(f.at) && !f.at.Register?
    ensures Shaped(s') && AllGrow(s, s') && Elsewhere(s, s', t)
    ensures forall x :: 0 <= x < |s.cells| && x != f.c && Up(s, f.c) != Some(x) ==> s'.cells[x] == s.cells[x]
    ensures s'.cells[f.c].children <= s.cells[f.c].children
    ensures Depth(s, t) == 0
  {
    hide Nearest;
    assert s'.threads[t][..Depth(s, t)] == s.threads[t][..Depth(s, t)];
  }

  lemma BeginUndisturbed(s: State, t: nat, f: Frame, pick: nat, s': State, t': nat, i: nat)
    requires StepOf(s, t, f, pick, s') && f.CreateFrame? && BeforeLink(f.at) && !f.at.Register?
    requires ValidFrame(s, t', i) && FrameOk(s, t', i) && t' != t
    ensures Shaped(s') && s'.tree == s.tree
    ensures IsCancelable(s, s.threads[t'][i].c) && Undisturbed(s, s', s.threads[t'][i])
  {
    hide Nearest;
  }

  lemma BeginTop(s: State, t: nat, f: Frame, pick: nat, s': State, i: nat)
    requires StepOf(s, t, f, pick, s') && f.CreateFrame? && BeforeLink(f.at) && !f.at.Register?
    requires ValidFrame(s', t, i) && i >= Depth(s, t)
    ensures Shaped(s') && FrameOk(s', t, i)
  {
    hide Nearest;
  }

  lemma BeginSelf(s: State, t: nat, f: Frame, pick: nat, s': State)
    requires StepOf(s, t, f, pick, s') && f.CreateFrame? && BeforeLink(f.at) && !f.at.Register?
    ensures Shaped(s') && IsCancelable(s', f.c) && CellOk(s', f.c)
  {
    BeginShape(s, t, f, pick, s');
    var c := f.c;
    LockKept(s, s', t, c);
    if RemovalPending(s, c) && s.cells[c].remover != Some(t) {
      RemovalKept(s, s', t, c);
    }
    CellKept(s, s', c);
  }

  lemma BeginParentShape(s: State, t: nat, f: Frame, pick: nat, s': State)
    requires StepOf(s, t, f, pick, s') && f.CreateFrame? && BeforeLink(f.at) && !f.at.Register? && Up(s, f.c).Some?
    ensures Shaped(s') && s'.tree == s.tree && ParentShape(s, t, f, s')
  {
    hide Nearest;
  }

  lemma BeginCovers(s: State, t: nat, f: Frame, pick: nat, s': State, x: nat)
    requires StepOf(s, t, f, pick, s') && f.CreateFrame? && BeforeLink(f.at) && !f.at.Register?
    requires IsCancelable(s, x) && x != f.c && Up(s, x) == Some(f.c) && Covered(s, x, f.c)
    ensures Shaped(s') && Covered(s', x, f.c)
  {
    BeginShape(s, t, f, pick, s');
    if s'.cells[f.c].lock == s.cells[f.c].lock {
      CoverKept(s, s', t, x, f.c);
    }
  }

  // ---- propagateCancel under the parent lock ----

  lemma RegisterShape(s: State, t: nat, f: Frame, pick: nat, s': State)
    requires StepOf(s, t, f, pick, s') && f.CreateFrame? && f.at.Register?
    ensures Shaped(s') && AllGrow(s, s') && Elsewhere(s, s', t)
    ensures forall x :: 0 <= x < |s.cells| && x != f.c && Up(s, f.c) != Some(x) ==> s'.cells[x] == s.cells[x]
    ensures s'.cells[f.c].children <= s.cells[f.c].children
    ensures Depth(s, t) == 0
  {
    hide Nearest;
    assert s'.threads[t][..Depth(s, t)] == s.threads[t][..Depth(s, t)];
  }

  lemma RegisterUndisturbed(s: State, t: nat, f: Frame, pick: nat, s': State, t': nat, i: nat)
    requires StepOf(s, t, f, pick, s') && f.CreateFrame? && f.at.Register?
    requires ValidFrame(s, t', i) && FrameOk(s, t', i) && t' != t
    ensures Shaped(s') && s'.tree == s.tree
    ensures IsCancelable(s, s.threads[t'][i].c) && Undisturbed(s, s', s.threads[t'][i])
  {
    hide Nearest;
  }

  lemma RegisterTop(s: State, t: nat, f: Frame, pick: nat, s': State, i: nat)
    requires StepOf(s, t, f, pick, s') && f.CreateFrame? && f.at.Register?
    requires ValidFrame(s', t, i) && i >= Depth(s, t)
    ensures Shaped(s') && FrameOk(s', t, i)
  {}

  lemma RegisterSelf(s: State, t: nat, f: Frame, pick: nat, s': State)
    requires StepOf(s, t, f, pick, s') && f.CreateFrame? && f.at.Register?
    ensures Shaped(s') && IsCancelable(s', f.c) && CellOk(s', f.c)
  {
    RegisterShape(s, t, f, pick, s');
    var c := f.c;
    LockKept(s, s', t, c);
    if RemovalPending(s, c) && s.cells[c].remover != Some(t) {
      RemovalKept(s, s', t, c);
    }
    CellKept(s, s', c);
  }

  lemma RegisterParentShape(s: State, t: nat, f: Frame, pick: nat, s': State)
    requires StepOf(s, t, f, pick, s') && f.CreateFrame? && f.at.Register? && Up(s, f.c).Some?
    ensures Shaped(s') && s'.tree == s.tree && ParentShape(s, t, f, s')
  {}

  lemma RegisterCovers(s: State, t: nat, f: Frame, pick: nat, s': State, x: nat)
    requires StepOf(s, t, f, pick, s') && f.CreateFrame? && f.at.Register?
    requires IsCancelable(s, x) && x != f.c && Up(s, x) == Some(f.c) && Covered(s, x, f.c)
    ensures Shaped(s') && Covered(s', x, f.c)
  {
    hide Nearest;
    RegisterShape(s, t, f, pick, s');
    if s'.cells[f.c].lock == s.cells[f.c].lock {
      CoverKept(s, s', t, x, f.c);
    }
  }

  // ---- creation returns ----

  lemma EndShape(s: State, t: nat, f: Frame, pick: nat, s': State)
    requires StepOf(s, t, f, pick, s') && f.CreateFrame? && (f.at.Called? || f.at.Holding? || f.at.Arm?)
    ensures Shaped(s') && AllGrow(s, s') && Elsewhere(s, s', t)
    ensures forall x :: 0 <= x < |s.cells| && x != f.c && Up(s, f.c) != Some(x) ==> s'.cells[x] == s.cells[x]
    ensures s'.cells[f.c].children <= s.cells[f.c].children
    ensures Depth(s, t) == 0
  {
    hide Nearest;
    assert s'.threads[t][..Depth(s, t)] == s.threads[t][..Depth(s, t)];
  }

  lemma EndUndisturbed(s: State, t: nat, f: Frame, pick: nat, s': State, t': nat, i: nat)
    requires StepOf(s, t, f, pick, s') && f.CreateFrame? && (f.at.Called? || f.at.Holding? || f.at.Arm?)
    requires ValidFrame(s, t', i) && FrameOk(s, t', i) && t' != t
    ensures Shaped(s') && s'.tree == s.tree
    ensures IsCancelable(s, s.threads[t'][i].c) && Undisturbed(s, s', s.threads[t'][i])
  {
    hide Nearest;
  }

  lemma EndTop(s: State, t: nat, f: Frame, pick: nat, s': State, i: nat)
    requires StepOf(s, t, f, pick, s') && f.CreateFrame? && (f.at.Called? || f.at.Holding? || f.at.Arm?)
    requires ValidFrame(s', t, i) && i >= Depth(s, t)
    ensures Shaped(s') && FrameOk(s', t, i)
  {
    hide Nearest;
  }

  lemma EndSelf(s: State, t: nat, f: Frame, pick: nat, s': State)
    requires StepOf(s, t, f, pick, s') && f.CreateFrame? && (f.at.Called? || f.at.Holding? || f.at.Arm?)
    ensures Shaped(s') && IsCancelable(s', f.c) && CellOk(s', f.c)
  {
    EndShape(s, t, f, pick, s');
    var c := f.c;
    LockKept(s, s', t, c);
    if RemovalPending(s, c) && s.cells[c].remover != Some(t) {
      RemovalKept(s, s', t, c);
    }
    if Up(s, c).Some? && s.cells[c].err.None? && s.cells[c].linked {
      CoverKept(s, s', t, c, Up(s, c).value);
    }
    CellKept(s, s', c);
  }

  lemma EndParentShape(s: State, t: nat, f: Frame, pick: nat, s': State)
    requires StepOf(s, t, f, pick, s') && f.CreateFrame? && (f.at.Called? || f.at.Holding? || f.at.Arm?) && Up(s, f.c).Some?
    ensures Shaped(s') && s'.tree == s.tree && ParentShape(s, t, f, s')
  {}

  lemma EndCovers(s: State, t: nat, f: Frame, pick: nat, s': State, x: nat)
    requires StepOf(s, t, f, pick, s') && f.CreateFrame? && (f.at.Called? || f.at.Holding? || f.at.Arm?)
    requires IsCancelable(s, x) && x != f.c && Up(s, x) == Some(f.c) && Covered(s, x, f.c)
    ensures Shaped(s') && Covered(s', x, f.c)
  {
    EndShape(s, t, f, pick, s');
    if s'.cells[f.c].lock == s.cells[f.c].lock {
      CoverKept(s, s', t, x, f.c);
    }
  }

  // ---- Err ----

  lemma ErrShape(s: State, t: nat, f: Frame, pick: nat, s': State)
    requires StepOf(s, t, f, pick, s') && f.ErrFrame?
    ensures Shaped(s') && AllGrow(s, s') && Elsewhere(s, s', t)
    ensures forall x :: 0 <= x < |s.cells| && x != f.c && Up(s, f.c) != Some(x) ==> s'.cells[x] == s.cells[x]
    ensures s'.cells[f.c].children <= s.cells[f.c].children
    ensures Depth(s, t) == 0
  {
    assert s'.threads[t][..Depth(s, t)] == s.threads[t][..Depth(s, t)];
  }

  lemma ErrUndisturbed(s: State, t: nat, f: Frame, pick: nat, s': State, t': nat, i: nat)
    requires StepOf(s, t, f, pick, s') && f.ErrFrame?
    requires ValidFrame(s, t', i) && FrameOk(s, t', i) && t' != t
    ensures Shaped(s') && s'.tree == s.tree
    ensures IsCancelable(s, s.threads[t'][i].c) && Undisturbed(s, s', s.threads[t'][i])
  {
    hide Nearest;
  }

  lemma ErrTop(s: State, t: nat, f: Frame, pick: nat, s': State, i: nat)
    requires StepOf(s, t, f, pick, s') && f.ErrFrame?
    requires ValidFrame(s', t, i) && i >= Depth(s, t)
    ensures Shaped(s') && FrameOk(s', t, i)
  {
    hide Nearest;
  }

  lemma ErrSelf(s: State, t: nat, f: Frame, pick: nat, s': State)
    requires StepOf(s, t, f, pick, s') && f.ErrFrame?
    ensures Shaped(s') && IsCancelable(s', f.c) && CellOk(s', f.c)
  {
    hide Nearest;
    ErrShape(s, t, f, pick, s');
    var c := f.c;
    LockKept(s, s', t, c);
    if RemovalPending(s, c) && s.cells[c].remover != Some(t) {
      RemovalKept(s, s', t, c);
    }
    if Up(s, c).Some? && s.cells[c].err.None? && s.cells[c].linked {
      CoverKept(s, s', t, c, Up(s, c).value);
    }
    if BeingCreated(s, c) && s.cells[c].creator != t {
      SameFrame(s, s', t, Owner(s.cells[c].creator, 0));
    }
    CellKept(s, s', c);
  }

  lemma ErrParentShape(s: State, t: nat, f: Frame, pick: nat, s': State)
    requires StepOf(s, t, f, pick, s') && f.ErrFrame? && Up(s, f.c).Some?
    ensures Shaped(s') && s'.tree == s.tree && ParentShape(s, t, f, s')
  {}

  lemma ErrCovers(s: State, t: nat, f: Frame, pick: nat, s': State, x: nat)
    requires StepOf(s, t, f, pick, s') && f.ErrFrame?
    requires IsCancelable(s, x) && x != f.c && Up(s, x) == Some(f.c) && Covered(s, x, f.c)
    ensures Shaped(s') && Covered(s', x, f.c)
  {
    ErrShape(s, t, f, pick, s');
    if s'.cells[f.c].lock == s.cells[f.c].lock {
      CoverKept(s, s', t, x, f.c);
    }
  }

  // ---- all steps together ----

  lemma AnyShape(s: State, t: nat, f: Frame, pick: nat, s': State)
    requires StepOf(s, t, f, pick, s')
    ensures Shaped(s') && AllGrow(s, s') && Elsewhere(s, s', t)
    ensures forall x :: 0 <= x < |s.cells| && x != f.c && Up(s, f.c) != Some(x) ==> s'.cells[x] == s.cells[x]
    ensures s'.cells[f.c].children <= s.cells[f.c].children
    ensures Depth(s, t) > 0 && |s'.threads[t]| > Depth(s, t) ==>
              Calls(s', s.threads[t][Depth(s, t) - 1], s'.threads[t][Depth(s, t)])
    ensures Depth(s, t) == 1 == |s'.threads[t]| ==> s'.cells[s.threads[t][0].c].err.Some?
  {
    KnownPoints(s, t, f, pick, s');
    hide StepOf, AllGrow, Elsewhere, Calls, Shaped;
    if f.CancelFrame? && f.pc.Enter? {
      EnterShape(s, t, f, pick, s');
    } else if f.CancelFrame? && f.pc.Close? {
      CloseShape(s, t, f, pick, s');
    } else if f.CancelFrame? && f.pc.Loop? {
      LoopShape(s, t, f, pick, s');
    } else if f.CancelFrame? && f.pc.Delete? {
      DeleteShape(s, t, f, pick, s');
    } else if f.CancelFrame? {
      LookupShape(s, t, f, pick, s');
    } else if f.CreateFrame? && f.at.Register? {
      RegisterShape(s, t, f, pick, s');
    } else if f.CreateFrame? && BeforeLink(f.at) {
      BeginShape(s, t, f, pick, s');
    } else if f.CreateFrame? {
      EndShape(s, t, f, pick, s');
    } else {
      ErrShape(s, t, f, pick, s');
    }
  }

  lemma KnownPoints(s: State, t: nat, f: Frame, pick: nat, s': State)
    requires StepOf(s, t, f, pick, s')
    ensures Shaped(s) && Busy(s, t) && IsCancelable(s, f.c)
    ensures f.CreateFrame? ==> BeforeLink(f.at) || f.at.Called? || f.at.Holding? || f.at.Arm?
    ensures f.CreateFrame? || f.ErrFrame? || f.pc.Delete? ==> Depth(s, t) == 0
  {}

  lemma AnyUndisturbed(s: State, t: nat, f: Frame, pick: nat, s': State, t': nat, i: nat)
    requires StepOf(s, t, f, pick, s')
    requires ValidFrame(s, t', i) && FrameOk(s, t', i) && (t' != t || i < Depth(s, t))
    ensures Shaped(s') && s'.tree == s.tree
    ensures IsCancelable(s, s.threads[t'][i].c) && Undisturbed(s, s', s.threads[t'][i])
  {
    KnownPoints(s, t, f, pick, s');
    hide StepOf, FrameOk, Undisturbed, Shaped;
    if f.CancelFrame? && f.pc.Enter? {
      EnterUndisturbed(s, t, f, pick, s', t', i);
    } else if f.CancelFrame? && f.pc.Close? {
      CloseUndisturbed(s, t, f, pick, s', t', i);
    } else if f.CancelFrame? && f.pc.Loop? {
      LoopUndisturbed(s, t, f, pick, s', t', i);
    } else if f.CancelFrame? && f.pc.Delete? {
      DeleteUndisturbed(s, t, f, pick, s', t', i);
    } else if f.CancelFrame? {
      LookupUndisturbed(s, t, f, pick, s', t', i);
    } else if f.CreateFrame? && f.at.Register? {
      RegisterUndisturbed(s, t, f, pick, s', t', i);
    } else if f.CreateFrame? && BeforeLink(f.at) {
      BeginUndisturbed(s, t, f, pick, s', t', i);
    } else if f.CreateFrame? {
      EndUndisturbed(s, t, f, pick, s', t', i);
    } else {
      ErrUndisturbed(s, t, f, pick, s', t', i);
    }
  }

  lemma AnyTop(s: State, t: nat, f: Frame, pick: nat, s': State, i: nat)
    requires StepOf(s, t, f, pick, s')
    requires ValidFrame(s', t, i) && i >= Depth(s, t)
    ensures Shaped(s') && FrameOk(s', t, i)
  {
    KnownPoints(s, t, f, pick, s');
    hide StepOf, FrameOk, Shaped;
    if f.CancelFrame? && f.pc.Enter? {
      EnterTop(s, t, f, pick, s', i);
    } else if f.CancelFrame? && f.pc.Close? {
      CloseTop(s, t, f, pick, s', i);
    } else if f.CancelFrame? && f.pc.Loop? {
      LoopTop(s, t, f, pick, s', i);
    } else if f.CancelFrame? && f.pc.Delete? {
      DeleteTop(s, t, f, pick, s', i);
    } else if f.CancelFrame? {
      LookupTop(s, t, f, pick, s', i);
    } else if f.CreateFrame? && f.at.Register? {
      RegisterTop(s, t, f, pick, s', i);
    } else if f.CreateFrame? && BeforeLink(f.at) {
      BeginTop(s, t, f, pick, s', i);
    } else if f.CreateFrame? {
      EndTop(s, t, f, pick, s', i);
    } else {
      ErrTop(s, t, f, pick, s', i);
    }
  }

  lemma AnySelf(s: State, t: nat, f: Frame, pick: nat, s': State)
    requires StepOf(s, t, f, pick, s')
    ensures Shaped(s') && IsCancelable(s', f.c) && CellOk(s', f.c)
  {
    KnownPoints(s, t, f, pick, s');
    hide StepOf, CellOk, Shaped, IsCancelable;
    if f.CancelFrame? && f.pc.Enter? {
      EnterSelf(s, t, f, pick, s');
    } else if f.CancelFrame? && f.pc.Close? {
      CloseSelf(s, t, f, pick, s');
    } else if f.CancelFrame? && f.pc.Loop? {
      LoopSelf(s, t, f, pick, s');
    } else if f.CancelFrame? && f.pc.Delete? {
      DeleteSelf(s, t, f, pick, s');
    } else if f.CancelFrame? {
      LookupSelf(s, t, f, pick, s');
    } else if f.CreateFrame? && f.at.Register? {
      RegisterSelf(s, t, f, pick, s');
    } else if f.CreateFrame? && BeforeLink(f.at) {
      BeginSelf(s, t, f, pick, s');
    } else if f.CreateFrame? {
      EndSelf(s, t, f, pick, s');
    } else {
      ErrSelf(s, t, f, pick, s');
    }
  }

  lemma AnyParentShape(s: State, t: nat, f: Frame, pick: nat, s': State)
    requires StepOf(s, t, f, pick, s') && Up(s, f.c).Some?
    ensures Shaped(s') && s'.tree == s.tree && ParentShape(s, t, f, s')
  {
    KnownPoints(s, t, f, pick, s');
    hide StepOf, ParentShape, Shaped, IsCancelable, Up;
    if f.CancelFrame? && f.pc.Enter? {
      EnterParentShape(s, t, f, pick, s');
    } else if f.CancelFrame? && f.pc.Close? {
      CloseParentShape(s, t, f, pick, s');
    } else if f.CancelFrame? && f.pc.Loop? {
      LoopParentShape(s, t, f, pick, s');
    } else if f.CancelFrame? && f.pc.Delete? {
      DeleteParentShape(s, t, f, pick, s');
    } else if f.CancelFrame? {
      LookupParentShape(s, t, f, pick, s');
    } else if f.CreateFrame? && f.at.Register? {
      RegisterParentShape(s, t, f, pick, s');
    } else if f.CreateFrame? && BeforeLink(f.at) {
      BeginParentShape(s, t, f, pick, s');
    } else if f.CreateFrame? {
      EndParentShape(s, t, f, pick, s');
    } else {
      ErrParentShape(s, t, f, pick, s');
    }
  }

  lemma AnyCovers(s: State, t: nat, f: Frame, pick: nat, s': State, x: nat)
    requires StepOf(s, t, f, pick, s')
    requires IsCancelable(s, x) && x != f.c && Up(s, x) == Some(f.c) && Covered(s, x, f.c)
    ensures Shaped(s') && Covered(s', x, f.c)
  {
    KnownPoints(s, t, f, pick, s');
    hide StepOf, Covered, Shaped, IsCancelable, Up;
    if f.CancelFrame? && f.pc.Enter? {
      EnterCovers(s, t, f, pick, s', x);
    } else if f.CancelFrame? && f.pc.Close? {
      CloseCovers(s, t, f, pick, s', x);
    } else if f.CancelFrame? && f.pc.Loop? {
      LoopCovers(s, t, f, pick, s', x);
    } else if f.CancelFrame? && f.pc.Delete? {
      DeleteCovers(s, t, f, pick, s', x);
    } else if f.CancelFrame? {
      LookupCovers(s, t, f, pick, s', x);
    } else if f.CreateFrame? && f.at.Register? {
      RegisterCovers(s, t, f, pick, s', x);
    } else if f.CreateFrame? && BeforeLink(f.at) {
      BeginCovers(s, t, f, pick, s', x);
    } else if f.CreateFrame? {
      EndCovers(s, t, f, pick, s', x);
    } else {
      ErrCovers(s, t, f, pick, s', x);
    }
  }

  /** The parent's cell. */
  lemma AnyParent(s: State, t: nat, f: Frame, pick: nat, s': State)
    requires StepOf(s, t, f, pick, s') && Up(s, f.c).Some?
    requires Up(s, Up(s, f.c).value).Some? ==> CellOk(s, Up(s, Up(s, f.c).value).value)
    ensures Shaped(s') && IsCancelable(s', Up(s, f.c).value) && CellOk(s', Up(s, f.c).value)
  {
    AnyShape(s, t, f, pick, s');
    AnyParentShape(s, t, f, pick, s');
    ParentInstance(s, t, f, pick, s');
    hide StepOf;
    ParentKept(s, t, f, s');
  }

  lemma ParentInstance(s: State, t: nat, f: Frame, pick: nat, s': State)
    requires StepOf(s, t, f, pick, s') && Up(s, f.c).Some?
    ensures Shaped(s) && AtTop(s, t, f) && IsCancelable(s, f.c) && CellOk(s, Up(s, f.c).value)
    ensures f.c != Up(s, f.c).value && Up(s, Up(s, f.c).value) != Some(f.c) && Up(s, Up(s, f.c).value) != Up(s, f.c)
  {
    hide CellOk, FrameOk, Next;
  }

  /** The cells that belong neither to the context nor to its parent. */
  lemma AnyCell(s: State, t: nat, f: Frame, pick: nat, s': State, x: nat)
    requires StepOf(s, t, f, pick, s')
    requires IsCancelable(s, x) && x != f.c && Up(s, f.c) != Some(x) && CellOk(s, x)
    requires Up(s, x).Some? ==> CellOk(s, Up(s, x).value)
    ensures Shaped(s') && IsCancelable(s', x) && CellOk(s', x)
  {
    AnyShape(s, t, f, pick, s');
    KnownPoints(s, t, f, pick, s');
    if Up(s, f.c).Some? {
      AnyParentShape(s, t, f, pick, s');
    }
    if Up(s, x).Some? && s.cells[x].err.None? && s.cells[x].linked {
      var p := Up(s, x).value;
      if p == f.c {
        AnyCovers(s, t, f, pick, s', x);
      } else {
        CoverKept(s, s', t, x, p);
      }
    }
    hide Next, FrameOk;
    BystanderKept(s, s', t, x);
  }

  lemma StepFrames(s: State, t: nat, f: Frame, pick: nat, s': State)
    requires Inv(s) && StepOf(s, t, f, pick, s')
    ensures Shaped(s') && AllGrow(s, s') && FramesOk(s')
  {
    AnyShape(s, t, f, pick, s');
    KnownPoints(s, t, f, pick, s');
    hide StepOf, FrameOk, CellOk, Undisturbed, Calls, Grows;
    forall t': nat, i: nat | ValidFrame(s, t', i) && (t' != t || i < Depth(s, t))
      ensures IsCancelable(s, s.threads[t'][i].c) && Undisturbed(s, s', s.threads[t'][i])
    {
      assert FrameOk(s, t', i);
      AnyUndisturbed(s, t, f, pick, s', t', i);
    }
    forall i: nat | Depth(s, t) <= i < |s'.threads[t]| ensures FrameOk(s', t, i) {
      AnyTop(s, t, f, pick, s', i);
    }
    FramesKept(s, s', t);
  }

  lemma StepCells(s: State, t: nat, f: Frame, pick: nat, s': State)
    requires Inv(s) && StepOf(s, t, f, pick, s')
    ensures Shaped(s') && CellsOk(s')
  {
    AnyShape(s, t, f, pick, s');
    KnownPoints(s, t, f, pick, s');
    hide StepOf, FrameOk, CellOk, Calls, Grows, Elsewhere;
    forall x: nat | IsCancelable(s', x) ensures CellOk(s', x) {
      assert CellOk(s, x);
      if x == f.c {
        AnySelf(s, t, f, pick, s');
      } else if Up(s, f.c) == Some(x) {
        AnyParent(s, t, f, pick, s');
      } else {
        AnyCell(s, t, f, pick, s', x);
      }
    }
  }

  /** Every step of every thread keeps the invariant. */
  lemma NextKeeps(s: State, t: nat, pick: nat, s': State)
    requires Inv(s) && Next(s, t, pick) == Some(s')
    ensures Inv(s') && AllGrow(s, s')
  {
    Instances(s, t);
    hide FrameOk, CellOk, Next, FramesOk, CellsOk;
    var f := Top(s, t);
    assert StepOf(s, t, f, pick, s');
    StepFrames(s, t, f, pick, s');
    StepCells(s, t, f, pick, s');
  }
}
