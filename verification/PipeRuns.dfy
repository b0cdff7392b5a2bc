/**
 What a run of the pipe has to do with the calls made in it: every call goes on with the
 arguments it was made with, and every close error that is stored or returned is the one some
 close was given.
 */
module PipeRuns {
  import opened Options
  import opened Bytes
  import opened Pipe

  // ---- calls keep their arguments ----

  /** The same call, further on. */
  predicate SameCall(x: Thread, y: Thread) {
    match x
    case Writer(data, _, _, _) => y.Writer? && y.data == data
    case Reader(room, _, _) => y.Reader? && y.room == room
    case Closer(reading, err, _) => y.Closer? && y.reading == reading && y.err == err
  }

  lemma {:induction false} StepSameCalls(s: State, a: Action, m: State, t: nat)
    requires Do(s, a) == Some(m) && t < |s.threads|
    ensures t < |m.threads| && SameCall(s.threads[t], m.threads[t])
  {
    if a.Run? {
      RunSameCall(s, a.t, m, t);
    }
    hide WriteStep, ReadStep, CloseStep;
  }

  lemma {:induction false} RunSameCall(s: State, u: nat, m: State, t: nat)
    requires Do(s, Run(u)) == Some(m) && t < |s.threads|
    ensures t < |m.threads| && SameCall(s.threads[t], m.threads[t])
  {}

  lemma {:induction false} RunSameCalls(s: State, run: seq<Action>, s': State, t: nat)
    requires Exec(s, run) == Some(s') && t < |s.threads|
    ensures t < |s'.threads| && SameCall(s.threads[t], s'.threads[t])
    decreases |run|
  {
    hide Do;
    if run != [] {
      StepSameCalls(s, run[0], Do(s, run[0]).value, t);
      RunSameCalls(Do(s, run[0]).value, run[1..], s', t);
    }
  }

  /** The error a close stores: its argument, or EOF for the write end and ErrClosedPipe for the
      read end. */
  predicate ClosesWith(a: Action, reading: bool, e: Error) {
    if reading then a.CloseRead? && e == (if a.err.Some? then a.err.value else ErrClosedPipe)
    else a.CloseWrite? && e == (if a.err.Some? then a.err.value else EOF)
  }

  /** What a call looks like in every later state. */
  predicate Called(a: Action, x: Thread) {
    match a
    case Write(data) => x.Writer? && x.data == data
    case Read(room) => x.Reader? && x.room == room
    case CloseRead(_) => x.Closer? && x.reading && ClosesWith(a, true, x.err)
    case CloseWrite(_) => x.Closer? && !x.reading && ClosesWith(a, false, x.err)
    case _ => false
  }

  predicate IsCall(a: Action) { a.Write? || a.Read? || a.CloseRead? || a.CloseWrite? }

  lemma CallStarts(s: State, a: Action, m: State)
    requires IsCall(a) && Do(s, a) == Some(m)
    ensures |m.threads| == |s.threads| + 1 && Called(a, m.threads[|s.threads|])
  {}

  /** A call goes on as it was made, and a close that has returned has closed the pipe and left an
      error. */
  lemma {:induction false} CallGoesOn(s: State, a: Action, m: State, run: seq<Action>, s': State)
    requires Reachable(s) && IsCall(a) && Do(s, a) == Some(m) && Exec(m, run) == Some(s')
    ensures |s.threads| < |s'.threads| && Called(a, s'.threads[|s.threads|])
    ensures a.CloseRead? && Finished(s'.threads[|s.threads|]) ==> s'.done && s'.rerr.Some?
    ensures a.CloseWrite? && Finished(s'.threads[|s.threads|]) ==> s'.done && s'.werr.Some?
  {
    var t := |s.threads|;
    CallStarts(s, a, m);
    RunSameCalls(m, run, s', t);
    ReachableInv(s);
    hide Do;
    DoKeeps(s, a, m);
    ExecKeeps(m, run, s');
    assert ThreadOk(s', t);
  }

  // ---- an open pipe ----

  /** A read that returns bytes fills its buffer, or returns the last bytes of a write, and then the
      write returns too. */
  lemma {:induction false} FullRead(s: State, w: nat, r: nat, s': State)
    requires Reachable(s) && Do(s, Acknowledge(w, r)) == Some(s')
    ensures r < |s'.threads| && s'.threads[r].Reader? && s'.threads[r].rpc == RDone(None)
    ensures w < |s'.threads| && s'.threads[w].Writer?
    ensures |s'.threads[r].got| == s'.threads[r].room || s'.threads[w].wpc == WDone(None)
  {
    ReachableInv(s);
    assert ThreadOk(s, w) && ThreadOk(s, r);
  }

  /** While a write and a read are in flight on an open pipe, something can step: nobody waits for
      ever. */
  lemma {:induction false} OpenProgress(s: State, w: nat, r: nat) returns (a: Action)
    requires Reachable(s) && !s.done && w < |s.threads| && r < |s.threads|
    requires s.threads[w].Writer? && s.threads[r].Reader?
    requires !Finished(s.threads[w]) && !Finished(s.threads[r])
    ensures (a.Run? || a.Transfer? || a.Acknowledge?) && Do(s, a).Some?
  {
    ReachableInv(s);
    assert ThreadOk(s, w) && ThreadOk(s, r);
    if s.pair.Some? {
      a := Acknowledge(s.pair.value.0, s.pair.value.1);
    } else if s.threads[r].rpc.RStart? {
      a := Run(r);
    } else if s.threads[w].wpc.WSelect? {
      a := Transfer(w, r);
    } else if s.threads[w].wpc.WLock? && s.wrMu.Some? {
      var h := s.wrMu.value;
      assert h in s.log && ThreadOk(s, h);
      a := Transfer(h, r);
    } else {
      a := Run(w);
    }
  }

  // ---- where close errors come from ----

  /** Some close of that end in the run was given e. */
  ghost predicate Closed(run: seq<Action>, reading: bool, e: Error) {
    exists i :: 0 <= i < |run| && ClosesWith(run[i], reading, e)
  }

  ghost predicate ThreadTraced(run: seq<Action>, x: Thread) {
    x.Closer? ==> Closed(run, x.reading, x.err)
  }

  ghost predicate Traced(s: State, run: seq<Action>) {
    && (forall t :: 0 <= t < |s.threads| ==> ThreadTraced(run, s.threads[t]))
    && (s.rerr.Some? ==> Closed(run, true, s.rerr.value))
    && (s.werr.Some? ==> Closed(run, false, s.werr.value))
  }

  lemma {:induction false} ClosedMore(run: seq<Action>, a: Action, reading: bool, e: Error)
    ensures Closed(run, reading, e) || ClosesWith(a, reading, e) ==> Closed(run + [a], reading, e)
  {
    var more := run + [a];
    assert more[|run|] == a;
    assert forall i :: 0 <= i < |run| ==> more[i] == run[i];
  }

  lemma {:induction false} TracedThread(s: State, run: seq<Action>, a: Action, m: State, t: nat)
    requires Traced(s, run) && Do(s, a) == Some(m) && t < |m.threads|
    ensures ThreadTraced(run + [a], m.threads[t])
  {
    var x := m.threads[t];
    if t < |s.threads| {
      StepSameCalls(s, a, m, t);
      assert ThreadTraced(run, s.threads[t]);
    } else {
      NewThread(s, a, m, t);
    }
    hide Do;
    if x.Closer? {
      ClosedMore(run, a, x.reading, x.err);
    }
  }

  lemma NewThread(s: State, a: Action, m: State, t: nat)
    requires Do(s, a) == Some(m) && |s.threads| <= t < |m.threads|
    ensures IsCall(a) && Called(a, m.threads[t])
  {}

  /** A step stores no error but its closer's. */
  lemma StepStores(s: State, a: Action, m: State)
    requires Do(s, a) == Some(m)
    ensures m.rerr == s.rerr || (a.Run? && a.t < |s.threads| && s.threads[a.t].Closer? && s.threads[a.t].reading && m.rerr == Some(s.threads[a.t].err))
    ensures m.werr == s.werr || (a.Run? && a.t < |s.threads| && s.threads[a.t].Closer? && !s.threads[a.t].reading && m.werr == Some(s.threads[a.t].err))
  {}

  lemma {:induction false} TracedStep(s: State, run: seq<Action>, a: Action, m: State)
    requires Traced(s, run) && Do(s, a) == Some(m)
    ensures Traced(m, run + [a])
  {
    forall t: nat | t < |m.threads| ensures ThreadTraced(run + [a], m.threads[t]) {
      TracedThread(s, run, a, m, t);
    }
    StepStores(s, a, m);
    hide Do;
    if a.Run? && a.t < |s.threads| {
      assert ThreadTraced(run, s.threads[a.t]);
    }
    if m.rerr.Some? {
      ClosedMore(run, a, true, m.rerr.value);
    }
    if m.werr.Some? {
      ClosedMore(run, a, false, m.werr.value);
    }
  }

  lemma {:induction false} TracedRun(s: State, run: seq<Action>, more: seq<Action>, s': State)
    requires Traced(s, run) && Exec(s, more) == Some(s')
    ensures Traced(s', run + more)
    decreases |more|
  {
    hide Do, Traced;
    if more == [] {
      assert run + more == run;
    } else {
      var m := Do(s, more[0]).value;
      TracedStep(s, run, more[0], m);
      TracedRun(m, run + [more[0]], more[1..], s');
      assert run + [more[0]] + more[1..] == run + more;
    }
  }

  /** A stored close error is one that a close of that end was given. */
  lemma {:induction false} StoredFromClose(run: seq<Action>, s: State)
    requires Exec(Start, run) == Some(s)
    ensures s.rerr.Some? ==> Closed(run, true, s.rerr.value)
    ensures s.werr.Some? ==> Closed(run, false, s.werr.value)
  {
    assert Traced(Start, []);
    TracedRun(Start, [], run, s);
    assert [] + run == run;
  }

  ghost predicate Ends(run: seq<Action>, reading: bool) {
    exists i :: 0 <= i < |run| && (if reading then run[i].CloseRead? else run[i].CloseWrite?)
  }

  /** A read that fails returns what a close of the write end was given, or ErrClosedPipe after a
      close of its own end. */
  lemma {:induction false} ReadErrorFrom(run: seq<Action>, s: State, t: nat)
    requires Exec(Start, run) == Some(s) && t < |s.threads|
    requires s.threads[t].Reader? && s.threads[t].rpc.RDone? && s.threads[t].rpc.err.Some?
    ensures var e := s.threads[t].rpc.err.value;
      Closed(run, false, e) || (e == ErrClosedPipe && Ends(run, true))
  {
    ReadResult(s, t);
    StoredFromClose(run, s);
    hide Exec;
  }

  lemma {:induction false} WriteErrorFrom(run: seq<Action>, s: State, t: nat)
    requires Exec(Start, run) == Some(s) && t < |s.threads|
    requires s.threads[t].Writer? && s.threads[t].wpc.WDone? && s.threads[t].wpc.err.Some?
    ensures var e := s.threads[t].wpc.err.value;
      Closed(run, true, e) || (e == ErrClosedPipe && Ends(run, false))
  {
    WriteResult(s, t);
    StoredFromClose(run, s);
    hide Exec;
  }

  /** If only the write end is closed, and always with e, every read that fails returns e. */
  lemma {:induction false} ReadAfterClose(run: seq<Action>, s: State, t: nat, e: Error)
    requires Exec(Start, run) == Some(s) && t < |s.threads|
    requires s.threads[t].Reader? && s.threads[t].rpc.RDone? && s.threads[t].rpc.err.Some?
    requires forall i :: 0 <= i < |run| ==> !run[i].CloseRead? && (run[i].CloseWrite? ==> ClosesWith(run[i], false, e))
    ensures s.threads[t].rpc.err == Some(e)
  {
    ReadErrorFrom(run, s, t);
    hide Exec;
  }

  /** The mirror image for writes. */
  lemma {:induction false} WriteAfterClose(run: seq<Action>, s: State, t: nat, e: Error)
    requires Exec(Start, run) == Some(s) && t < |s.threads|
    requires s.threads[t].Writer? && s.threads[t].wpc.WDone? && s.threads[t].wpc.err.Some?
    requires forall i :: 0 <= i < |run| ==> !run[i].CloseWrite? && (run[i].CloseRead? ==> ClosesWith(run[i], true, e))
    ensures s.threads[t].wpc.err == Some(e)
  {
    WriteErrorFrom(run, s, t);
    hide Exec;
  }

  /** After a plain Close of the write end reads return EOF; after one of the read end writes return
      ErrClosedPipe. */
  lemma {:induction false} PlainClose(run: seq<Action>, s: State, t: nat)
    requires Exec(Start, run) == Some(s) && t < |s.threads|
    ensures s.threads[t].Reader? && s.threads[t].rpc.RDone? && s.threads[t].rpc.err.Some?
        && (forall i :: 0 <= i < |run| ==> !run[i].CloseRead? && (run[i].CloseWrite? ==> run[i].err.None?))
      ==> s.threads[t].rpc.err == Some(EOF)
    ensures s.threads[t].Writer? && s.threads[t].wpc.WDone? && s.threads[t].wpc.err.Some?
        && (forall i :: 0 <= i < |run| ==> !run[i].CloseWrite? && (run[i].CloseRead? ==> run[i].err.None?))
      ==> s.threads[t].wpc.err == Some(ErrClosedPipe)
  {
    hide Exec;
    if s.threads[t].Reader? && s.threads[t].rpc.RDone? && s.threads[t].rpc.err.Some?
      && (forall i :: 0 <= i < |run| ==> !run[i].CloseRead? && (run[i].CloseWrite? ==> run[i].err.None?)) {
      ReadAfterClose(run, s, t, EOF);
    }
    if s.threads[t].Writer? && s.threads[t].wpc.WDone? && s.threads[t].wpc.err.Some?
      && (forall i :: 0 <= i < |run| ==> !run[i].CloseWrite? && (run[i].CloseRead? ==> run[i].err.None?)) {
      WriteAfterClose(run, s, t, ErrClosedPipe);
    }
  }
}
