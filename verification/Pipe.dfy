/**
 The synchronous pipe of io/pipe.go as a state machine: any number of concurrent writes,
 reads and closes, interleaved in every way. The two unbuffered channels are joint steps of
 a sender and a receiver. `log`, `readLog`, `delivered` and `pair` record history: the writes
 in the order they took the write mutex, the reads in the order they received, the bytes
 handed over, and the writer and reader between data and acknowledgement.
 */
module Pipe {
  import opened Options
  import opened Bytes

  datatype Error = ErrClosedPipe | EOF | Given(id: nat)

  datatype WritePc =
    | WStart | WLock | WSelect | WAwait
    | WLoadOwn | WLoadOther(own: Option<Error>)       // writeCloseError: werr, then rerr
    | WDone(err: Option<Error>)

  datatype ReadPc =
    | RStart | RSelect | RAck
    | RLoadOwn | RLoadOther(own: Option<Error>)       // readCloseError: rerr, then werr
    | RDone(err: Option<Error>)

  datatype ClosePc = CStore | CClose | CDone

  datatype Thread =
    | Writer(data: seq<Byte>, b: seq<Byte>, n: nat, wpc: WritePc)
    | Reader(room: nat, got: seq<Byte>, rpc: ReadPc)
    | Closer(reading: bool, err: Error, cpc: ClosePc)

  datatype State = State(
    threads: seq<Thread>,
    wrMu: Option<nat>,
    done: bool,
    rerr: Option<Error>,
    werr: Option<Error>,
    log: seq<nat>,
    readLog: seq<nat>,
    delivered: seq<Byte>,
    pair: Option<(nat, nat)>
  )

  const Start: State := State([], None, false, None, None, [], [], [], None)

  datatype Action =
    | Run(t: nat)                                   // a step of one thread alone
    | Transfer(w: nat, r: nat)                      // p.wrCh <- b meets bw := <-p.wrCh
    | Acknowledge(w: nat, r: nat)                   // p.rdCh <- nr meets nw := <-p.rdCh
    | Write(data: seq<Byte>) | Read(room: nat)
    | CloseRead(err: Option<Error>) | CloseWrite(err: Option<Error>)

  function Put(s: State, t: nat, x: Thread): State
    requires t < |s.threads|
  {
    s.(threads := s.threads[t := x])
  }

  /** onceError.Store. */
  function StoreOnce(stored: Option<Error>, e: Error): Option<Error> {
    if stored.Some? then stored else Some(e)
  }

  /** After `copy(b, bw)` the loop runs again unless everything is written. */
  function AfterAck(w: Thread, nw: nat): Thread
    requires w.Writer? && nw <= |w.b|
  {
    var rest := w.b[nw..];
    Writer(w.data, rest, w.n + nw, if rest == [] then WDone(None) else WSelect)
  }

  function WriteStep(s: State, t: nat): (r: Option<State>)
    requires t < |s.threads| && s.threads[t].Writer?
  {
    var w := s.threads[t];
    match w.wpc
    case WStart => Some(Put(s, t, w.(wpc := if s.done then WLoadOwn else WLock)))
    case WLock =>
      if s.wrMu.Some? then None
      else Some(Put(s, t, w.(wpc := WSelect)).(wrMu := Some(t), log := s.log + [t]))
    case WSelect => if s.done then Some(Put(s, t, w.(wpc := WLoadOwn))) else None
    case WAwait => None
    case WLoadOwn => Some(Put(s, t, w.(wpc := WLoadOther(s.werr))))
    case WLoadOther(own) =>
      var e := if own.None? && s.rerr.Some? then s.rerr.value else ErrClosedPipe;
      Some(Put(s, t, w.(wpc := WDone(Some(e)))).(wrMu := if s.wrMu == Some(t) then None else s.wrMu))
    case WDone(_) => None
  }

  function ReadStep(s: State, t: nat): (r: Option<State>)
    requires t < |s.threads| && s.threads[t].Reader?
  {
    var x := s.threads[t];
    match x.rpc
    case RStart => Some(Put(s, t, x.(rpc := if s.done then RLoadOwn else RSelect)))
    case RSelect => if s.done then Some(Put(s, t, x.(rpc := RLoadOwn))) else None
    case RAck => None
    case RLoadOwn => Some(Put(s, t, x.(rpc := RLoadOther(s.rerr))))
    case RLoadOther(own) =>
      var e := if own.None? && s.werr.Some? then s.werr.value else ErrClosedPipe;
      Some(Put(s, t, x.(rpc := RDone(Some(e)))))
    case RDone(_) => None
  }

  function CloseStep(s: State, t: nat): (r: Option<State>)
    requires t < |s.threads| && s.threads[t].Closer?
  {
    var c := s.threads[t];
    match c.cpc
    case CStore =>
      var s1 := Put(s, t, c.(cpc := CClose));
      Some(if c.reading then s1.(rerr := StoreOnce(s.rerr, c.err)) else s1.(werr := StoreOnce(s.werr, c.err)))
    case CClose => Some(Put(s, t, c.(cpc := CDone)).(done := true))
    case CDone => None
  }

  predicate CanTransfer(s: State, w: nat, r: nat) {
    && w < |s.threads| && r < |s.threads|
    && s.threads[w].Writer? && s.threads[w].wpc.WSelect?
    && s.threads[r].Reader? && s.threads[r].rpc.RSelect?
  }

  predicate CanAcknowledge(s: State, w: nat, r: nat) {
    && w < |s.threads| && r < |s.threads|
    && s.threads[w].Writer? && s.threads[w].wpc.WAwait?
    && s.threads[r].Reader? && s.threads[r].rpc.RAck?
  }

  function Do(s: State, a: Action): (r: Option<State>) {
    match a
    case Run(t) =>
      if t >= |s.threads| then None
      else (match s.threads[t]
            case Writer(_, _, _, _) => WriteStep(s, t)
            case Reader(_, _, _) => ReadStep(s, t)
            case Closer(_, _, _) => CloseStep(s, t))
    case Transfer(w, r) =>
      if !CanTransfer(s, w, r) then None
      else
        var b := s.threads[w].b;
        var nr := if s.threads[r].room < |b| then s.threads[r].room else |b|;
        var s1 := Put(s, w, s.threads[w].(wpc := WAwait));
        var s2 := Put(s1, r, s1.threads[r].(got := b[..nr], rpc := RAck));
        Some(s2.(delivered := s.delivered + b[..nr], readLog := s.readLog + [r], pair := Some((w, r))))
    case Acknowledge(w, r) =>
      // The value sent on rdCh cannot exceed what was offered: b[nw:] is in range.
      if !CanAcknowledge(s, w, r) || |s.threads[r].got| > |s.threads[w].b| then None
      else
        var w' := AfterAck(s.threads[w], |s.threads[r].got|);
        var s1 := Put(s, w, w');
        var s2 := Put(s1, r, s1.threads[r].(rpc := RDone(None)));
        Some(s2.(pair := None, wrMu := if w'.wpc.WDone? then None else s.wrMu))
    case Write(data) => Some(s.(threads := s.threads + [Writer(data, data, 0, WStart)]))
    case Read(room) => Some(s.(threads := s.threads + [Reader(room, [], RStart)]))
    case CloseRead(err) =>
      Some(s.(threads := s.threads + [Closer(true, if err.Some? then err.value else ErrClosedPipe, CStore)]))
    case CloseWrite(err) =>
      Some(s.(threads := s.threads + [Closer(false, if err.Some? then err.value else EOF, CStore)]))
  }

  function Exec(s: State, run: seq<Action>): (r: Option<State>)
    decreases |run|
  {
    if run == [] then Some(s)
    else
      var next := Do(s, run[0]);
      if next.None? then None else Exec(next.value, run[1..])
  }

  // ---- the invariant ----

  /** The write mutex is held from the lock to the return. */
  predicate Locked(s: State, t: nat) { s.wrMu == Some(t) }

  /** What an operation on a closed pipe returns: ErrClosedPipe once its own end is closed, the
      error of the other end otherwise. */
  predicate CloseError(e: Error, own: Option<Error>, other: Option<Error>) {
    (e == ErrClosedPipe && own.Some?) || other == Some(e)
  }

  ghost predicate WriterOk(s: State, t: nat)
    requires t < |s.threads| && s.threads[t].Writer?
  {
    var w := s.threads[t];
    && w.n <= |w.data| && w.b == w.data[w.n..]
    && (w.wpc.WSelect? || w.wpc.WAwait? ==> Locked(s, t))
    && (w.wpc.WAwait? <==> s.pair.Some? && s.pair.value.0 == t)
    && (w.wpc.WStart? || w.wpc.WLock? ==> !Locked(s, t) && t !in s.log)
    && (t !in s.log ==> w.n == 0 && !Locked(s, t))
    && (w.wpc.WLoadOwn? || w.wpc.WLoadOther? ==> s.done && (Locked(s, t) <==> t in s.log))
    && (w.wpc.WLoadOther? && w.wpc.own.Some? ==> s.werr == w.wpc.own)
    && (w.wpc.WLoadOther? && w.wpc.own.None? ==> s.rerr.Some?)
    && (w.wpc.WDone? ==> !Locked(s, t))
    && (w.wpc == WDone(None) ==> t in s.log && w.n == |w.data|)
    && (w.n == |w.data| && w.n > 0 ==> w.wpc == WDone(None))
    && (w.wpc.WDone? && w.wpc.err.Some? ==>
          s.done && CloseError(w.wpc.err.value, s.werr, s.rerr))
  }

  ghost predicate ReaderOk(s: State, t: nat)
    requires t < |s.threads| && s.threads[t].Reader?
  {
    var x := s.threads[t];
    && |x.got| <= x.room
    && (x.rpc.RAck? <==> s.pair.Some? && s.pair.value.1 == t)
    && (x.rpc.RAck? || x.rpc == RDone(None) <==> t in s.readLog)
    && (t !in s.readLog ==> x.got == [])
    && (x.rpc.RLoadOwn? || x.rpc.RLoadOther? ==> s.done)
    && (x.rpc.RLoadOther? && x.rpc.own.Some? ==> s.rerr == x.rpc.own)
    && (x.rpc.RLoadOther? && x.rpc.own.None? ==> s.werr.Some?)
    && (x.rpc.RDone? && x.rpc.err.Some? ==>
          s.done && CloseError(x.rpc.err.value, s.rerr, s.werr))
  }

  ghost predicate CloserOk(s: State, t: nat)
    requires t < |s.threads| && s.threads[t].Closer?
  {
    var c := s.threads[t];
    && (!c.cpc.CStore? ==> if c.reading then s.rerr.Some? else s.werr.Some?)
    && (c.cpc.CDone? ==> s.done)
  }

  ghost predicate ThreadOk(s: State, t: nat)
    requires t < |s.threads|
  {
    match s.threads[t]
    case Writer(_, _, _, _) => WriterOk(s, t)
    case Reader(_, _, _) => ReaderOk(s, t)
    case Closer(_, _, _) => CloserOk(s, t)
  }

  /** What the write of thread t has handed over: its first n bytes, and the bytes of the
      transfer that is not acknowledged yet. */
  ghost function Part(s: State, t: nat): seq<Byte> {
    if t >= |s.threads| || !s.threads[t].Writer? || s.threads[t].n > |s.threads[t].data| then []
    else
      var w := s.threads[t];
      if s.pair.Some? && s.pair.value.0 == t && s.pair.value.1 < |s.threads| && s.threads[s.pair.value.1].Reader?
      then w.data[..w.n] + s.threads[s.pair.value.1].got
      else w.data[..w.n]
  }

  ghost function Sent(s: State, log: seq<nat>): seq<Byte> {
    if log == [] then [] else Sent(s, log[..|log| - 1]) + Part(s, log[|log| - 1])
  }

  ghost function Got(s: State, t: nat): seq<Byte> {
    if t < |s.threads| && s.threads[t].Reader? then s.threads[t].got else []
  }

  ghost function Received(s: State, log: seq<nat>): seq<Byte> {
    if log == [] then [] else Received(s, log[..|log| - 1]) + Got(s, log[|log| - 1])
  }

  /** The logs name each write and each read once; the mutex holder is the latest write. */
  ghost predicate LogsOk(s: State) {
    && (s.wrMu.Some? ==> s.log != [] && s.log[|s.log| - 1] == s.wrMu.value)
    && (forall t :: t in s.log ==> t < |s.threads| && s.threads[t].Writer?)
    && (forall t :: t in s.readLog ==> t < |s.threads| && s.threads[t].Reader?)
    && (forall i, j :: 0 <= i < j < |s.log| ==> s.log[i] != s.log[j])
    && (forall i, j :: 0 <= i < j < |s.readLog| ==> s.readLog[i] != s.readLog[j])
  }

  /** A transfer in progress: the reader holds the first bytes of what the writer offers, as many as
      it has room for. */
  ghost predicate PairOk(s: State) {
    s.pair.Some? ==>
      var (w, r) := s.pair.value;
      && CanAcknowledge(s, w, r)
      && |s.threads[r].got| <= |s.threads[w].b|
      && s.threads[r].got == s.threads[w].b[..|s.threads[r].got|]
      && (|s.threads[r].got| == s.threads[r].room || |s.threads[r].got| == |s.threads[w].b|)
  }

  ghost predicate GlobalOk(s: State) {
    && LogsOk(s) && PairOk(s)
    && (s.done ==> s.rerr.Some? || s.werr.Some?)
    && s.delivered == Sent(s, s.log)
    && s.delivered == Received(s, s.readLog)
  }

  ghost predicate Inv(s: State) {
    GlobalOk(s) && forall t: nat :: t < |s.threads| ==> ThreadOk(s, t)
  }

  // ---- every action keeps the invariant ----

  /** Nothing that thread t relies on changed. */
  ghost predicate Untouched(s: State, s': State, t: nat) {
    && t < |s.threads| && t < |s'.threads| && s'.threads[t] == s.threads[t]
    && (Locked(s', t) <==> Locked(s, t))
    && (t in s'.log <==> t in s.log) && (t in s'.readLog <==> t in s.readLog)
    && ((s'.pair.Some? && s'.pair.value.0 == t) <==> (s.pair.Some? && s.pair.value.0 == t))
    && ((s'.pair.Some? && s'.pair.value.1 == t) <==> (s.pair.Some? && s.pair.value.1 == t))
    && Closing(s, s')
  }

  /** Close errors are stored once, and a closed pipe stays closed. */
  predicate Closing(s: State, s': State) {
    && (s.done ==> s'.done)
    && (s.rerr.Some? ==> s'.rerr == s.rerr) && (s.werr.Some? ==> s'.werr == s.werr)
  }

  lemma ThreadKept(s: State, s': State, t: nat)
    requires Untouched(s, s', t) && ThreadOk(s, t)
    ensures ThreadOk(s', t)
  {}

  lemma {:induction false} SentSame(s: State, s': State, log: seq<nat>)
    requires forall t :: t in log ==> Part(s', t) == Part(s, t)
    ensures Sent(s', log) == Sent(s, log)
  {
    if log != [] {
      SentSame(s, s', log[..|log| - 1]);
    }
  }

  lemma {:induction false} ReceivedSame(s: State, s': State, log: seq<nat>)
    requires forall t :: t in log ==> Got(s', t) == Got(s, t)
    ensures Received(s', log) == Received(s, log)
  {
    if log != [] {
      ReceivedSame(s, s', log[..|log| - 1]);
    }
  }

  lemma {:induction false} SentPush(s: State, log: seq<nat>, t: nat)
    ensures Sent(s, log + [t]) == Sent(s, log) + Part(s, t)
  {
    assert (log + [t])[..|log|] == log;
  }

  lemma {:induction false} ReceivedPush(s: State, log: seq<nat>, t: nat)
    ensures Received(s, log + [t]) == Received(s, log) + Got(s, t)
  {
    assert (log + [t])[..|log|] == log;
  }

  /** A new thread changes nothing for the others. */
  lemma SpawnThread(s: State, a: Action, s': State, t: nat)
    requires (a.Write? || a.Read? || a.CloseRead? || a.CloseWrite?) && Do(s, a) == Some(s')
    requires t < |s'.threads| && LogsOk(s) && PairOk(s) && (t < |s.threads| ==> ThreadOk(s, t))
    requires s.wrMu.Some? ==> s.wrMu.value < |s.threads|
    ensures ThreadOk(s', t)
  {
    if t < |s.threads| {
      ThreadKept(s, s', t);
    }
  }

  lemma SpawnGlobal(s: State, a: Action, s': State)
    requires GlobalOk(s) && (a.Write? || a.Read? || a.CloseRead? || a.CloseWrite?) && Do(s, a) == Some(s')
    ensures GlobalOk(s')
  {
    SpawnShape(s, a, s');
    hide Do, Sent, Received;
    SpawnLogs(s, s');
    SpawnBytes(s, s');
    hide LogsOk, PairOk;
  }

  /** One more thread, at the end. */
  ghost predicate OneMore(s: State, s': State) {
    && |s'.threads| == |s.threads| + 1
    && (forall t :: 0 <= t < |s.threads| ==> s'.threads[t] == s.threads[t])
    && s'.wrMu == s.wrMu && s'.done == s.done && s'.rerr == s.rerr && s'.werr == s.werr
    && s'.log == s.log && s'.readLog == s.readLog && s'.delivered == s.delivered && s'.pair == s.pair
  }

  lemma SpawnLogs(s: State, s': State)
    requires OneMore(s, s') && LogsOk(s) && PairOk(s)
    ensures LogsOk(s') && PairOk(s')
  {
    if s.pair.Some? {
      var w, r := s.pair.value.0, s.pair.value.1;
      assert s'.threads[w] == s.threads[w] && s'.threads[r] == s.threads[r];
    }
  }

  lemma SpawnBytes(s: State, s': State)
    requires OneMore(s, s') && LogsOk(s) && PairOk(s)
    ensures Sent(s', s.log) == Sent(s, s.log) && Received(s', s.readLog) == Received(s, s.readLog)
  {
    SentSame(s, s', s.log);
    ReceivedSame(s, s', s.readLog);
  }

  lemma SpawnShape(s: State, a: Action, s': State)
    requires (a.Write? || a.Read? || a.CloseRead? || a.CloseWrite?) && Do(s, a) == Some(s')
    ensures OneMore(s, s')
  {}

  lemma SpawnKeeps(s: State, a: Action, s': State)
    requires Inv(s) && (a.Write? || a.Read? || a.CloseRead? || a.CloseWrite?) && Do(s, a) == Some(s')
    ensures Inv(s')
  {
    SpawnGlobal(s, a, s');
    assert s.wrMu.Some? ==> s.log[|s.log| - 1] in s.log;
    hide ThreadOk, Sent, Received;
    forall t: nat | t < |s'.threads| ensures ThreadOk(s', t) {
      assert t < |s.threads| ==> ThreadOk(s, t);
      SpawnThread(s, a, s', t);
    }
  }

  // A step of one thread alone moves no bytes.

  lemma LoneSelf(s: State, t: nat, s': State)
    requires Do(s, Run(t)) == Some(s') && ThreadOk(s, t) && (s.done ==> s.rerr.Some? || s.werr.Some?)
    ensures t < |s'.threads| && ThreadOk(s', t) && Closing(s, s')
  {
    hide WriterOk, ReaderOk, CloserOk, WriteStep, ReadStep, CloseStep, Closing;
    if s.threads[t].Writer? {
      LoneWriter(s, t, s');
    } else if s.threads[t].Reader? {
      LoneReader(s, t, s');
    } else {
      LoneCloser(s, t, s');
    }
  }

  lemma LoneWriter(s: State, t: nat, s': State)
    requires t < |s.threads| && s.threads[t].Writer? && WriteStep(s, t) == Some(s') && WriterOk(s, t)
    requires s.done ==> s.rerr.Some? || s.werr.Some?
    ensures t < |s'.threads| && s'.threads[t].Writer? && WriterOk(s', t) && Closing(s, s')
  {}

  lemma LoneReader(s: State, t: nat, s': State)
    requires t < |s.threads| && s.threads[t].Reader? && ReadStep(s, t) == Some(s') && ReaderOk(s, t)
    requires s.done ==> s.rerr.Some? || s.werr.Some?
    ensures t < |s'.threads| && s'.threads[t].Reader? && ReaderOk(s', t) && Closing(s, s')
  {}

  lemma LoneCloser(s: State, t: nat, s': State)
    requires t < |s.threads| && s.threads[t].Closer? && CloseStep(s, t) == Some(s') && CloserOk(s, t)
    ensures t < |s'.threads| && s'.threads[t].Closer? && CloserOk(s', t) && Closing(s, s')
  {}

  lemma LoneOther(s: State, t: nat, s': State, u: nat)
    requires Do(s, Run(t)) == Some(s') && u < |s.threads| && u != t && ThreadOk(s, u)
    ensures u < |s'.threads| && Untouched(s, s', u)
  {
    hide ThreadOk;
  }

  /** What a lone step may change: nothing that counts bytes. */
  ghost predicate LoneShape(s: State, t: nat, s': State) {
    && t < |s.threads| == |s'.threads|
    && (forall u :: 0 <= u < |s.threads| && u != t ==> s'.threads[u] == s.threads[u])
    && s'.pair == s.pair && s'.readLog == s.readLog && s'.delivered == s.delivered
    && (s.pair.Some? ==> s.pair.value.0 != t && s.pair.value.1 != t)
    && (s'.threads[t].Writer? <==> s.threads[t].Writer?)
    && (s'.threads[t].Reader? <==> s.threads[t].Reader?)
    && (s.threads[t].Writer? ==> s'.threads[t].data == s.threads[t].data && s'.threads[t].n == s.threads[t].n)
    && (s.threads[t].Reader? ==> s'.threads[t].got == s.threads[t].got)
    && (s'.log == s.log || (s'.log == s.log + [t] && t !in s.log && s.threads[t].Writer? && s.threads[t].n == 0))
    && (s'.wrMu.None? || (s'.wrMu == s.wrMu && s'.log == s.log) || (s'.wrMu == Some(t) && s'.log == s.log + [t]))
  }

  lemma LoneShaped(s: State, t: nat, s': State)
    requires Do(s, Run(t)) == Some(s') && ThreadOk(s, t) && PairOk(s)
    ensures LoneShape(s, t, s')
  {
    LoneBystander(s, t, s');
    hide PairOk, WriterOk, ReaderOk, CloserOk, WriteStep, ReadStep, CloseStep;
    if s.threads[t].Writer? {
      WriterShaped(s, t, s');
    } else if s.threads[t].Reader? {
      ReaderShaped(s, t, s');
    } else {
      CloserShaped(s, t, s');
    }
  }

  lemma WriterShaped(s: State, t: nat, s': State)
    requires t < |s.threads| && s.threads[t].Writer? && WriteStep(s, t) == Some(s') && WriterOk(s, t)
    requires s.pair.Some? ==> s.pair.value.0 != t && s.pair.value.1 != t
    ensures LoneShape(s, t, s')
  {}

  lemma ReaderShaped(s: State, t: nat, s': State)
    requires t < |s.threads| && s.threads[t].Reader? && ReadStep(s, t) == Some(s') && ReaderOk(s, t)
    requires s.pair.Some? ==> s.pair.value.0 != t && s.pair.value.1 != t
    ensures LoneShape(s, t, s')
  {}

  lemma CloserShaped(s: State, t: nat, s': State)
    requires t < |s.threads| && s.threads[t].Closer? && CloseStep(s, t) == Some(s')
    requires s.pair.Some? ==> s.pair.value.0 != t && s.pair.value.1 != t
    ensures LoneShape(s, t, s')
  {}

  lemma LoneBystander(s: State, t: nat, s': State)
    requires Do(s, Run(t)) == Some(s') && PairOk(s)
    ensures s.pair.Some? ==> s.pair.value.0 != t && s.pair.value.1 != t
  {}

  lemma LonePair(s: State, t: nat, s': State)
    requires LoneShape(s, t, s') && PairOk(s)
    ensures PairOk(s')
  {
    if s.pair.Some? {
      var w, r := s.pair.value.0, s.pair.value.1;
      assert s'.threads[w] == s.threads[w] && s'.threads[r] == s.threads[r];
    }
  }

  lemma LoneLogs(s: State, t: nat, s': State)
    requires LoneShape(s, t, s') && LogsOk(s)
    ensures LogsOk(s')
  {}

  lemma LonePart(s: State, t: nat, s': State, u: nat)
    requires LoneShape(s, t, s') && PairOk(s)
    ensures Part(s', u) == Part(s, u) && Got(s', u) == Got(s, u)
  {
    if s.pair.Some? {
      var r := s.pair.value.1;
      assert s'.threads[r] == s.threads[r];
    }
  }

  lemma LoneBytes(s: State, t: nat, s': State)
    requires LoneShape(s, t, s') && PairOk(s)
    ensures Sent(s', s'.log) == Sent(s, s.log) && Received(s', s'.readLog) == Received(s, s.readLog)
  {
    forall u: nat ensures Part(s', u) == Part(s, u) && Got(s', u) == Got(s, u) {
      LonePart(s, t, s', u);
    }
    hide Part, Got;
    SentSame(s, s', s.log);
    ReceivedSame(s, s', s.readLog);
    if s'.log != s.log {
      SentPush(s', s.log, t);
      EmptyPart(s, t);
    }
  }

  lemma EmptyPart(s: State, t: nat)
    requires t < |s.threads| && s.threads[t].Writer? && s.threads[t].n == 0
    requires s.pair.Some? ==> s.pair.value.0 != t
    ensures Part(s, t) == []
  {}

  lemma LoneGlobal(s: State, t: nat, s': State)
    requires GlobalOk(s) && Do(s, Run(t)) == Some(s') && ThreadOk(s, t)
    ensures GlobalOk(s') && |s'.threads| == |s.threads|
  {
    LoneShaped(s, t, s');
    LonePair(s, t, s');
    LoneLogs(s, t, s');
    LoneBytes(s, t, s');
    hide LoneShape, LogsOk, PairOk, Sent, Received;
    LoneClosed(s, t, s');
  }

  lemma LoneClosed(s: State, t: nat, s': State)
    requires Do(s, Run(t)) == Some(s') && ThreadOk(s, t) && (s.done ==> s.rerr.Some? || s.werr.Some?)
    ensures s'.done ==> s'.rerr.Some? || s'.werr.Some?
    ensures s'.delivered == s.delivered && |s'.threads| == |s.threads|
  {}

  lemma LoneKeeps(s: State, t: nat, s': State)
    requires Inv(s) && Do(s, Run(t)) == Some(s')
    ensures Inv(s') && Closing(s, s')
  {
    assert ThreadOk(s, t);
    LoneGlobal(s, t, s');
    LoneSelf(s, t, s');
    hide ThreadOk, LogsOk, PairOk, Sent, Received, Do, Untouched;
    forall u: nat | u < |s'.threads| ensures ThreadOk(s', u) {
      assert ThreadOk(s, u);
      if u != t {
        LoneOther(s, t, s', u);
        ThreadKept(s, s', u);
      }
    }
  }

  // A transfer hands bytes to the reader.

  lemma NoPair(s: State, w: nat)
    requires Inv(s) && w < |s.threads| && s.threads[w].Writer? && s.threads[w].wpc.WSelect?
    ensures s.pair.None? && s.wrMu == Some(w)
  {
    assert ThreadOk(s, w);
    assert s.pair.Some? ==> ThreadOk(s, s.pair.value.0);
  }

  lemma TransferThread(s: State, w: nat, r: nat, s': State, u: nat)
    requires Do(s, Transfer(w, r)) == Some(s') && u < |s.threads| && s.pair.None?
    requires ThreadOk(s, w) && ThreadOk(s, r) && ThreadOk(s, u)
    ensures u < |s'.threads| && ThreadOk(s', u)
  {
    if u != w && u != r {
      ThreadKept(s, s', u);
    }
  }

  lemma TransferLogs(s: State, w: nat, r: nat, s': State)
    requires Do(s, Transfer(w, r)) == Some(s') && ThreadOk(s, w) && ThreadOk(s, r) && LogsOk(s)
    ensures LogsOk(s') && PairOk(s')
  {
    assert s'.readLog == s.readLog + [r];
  }

  lemma TransferPart(s: State, w: nat, r: nat, s': State, u: nat)
    requires Do(s, Transfer(w, r)) == Some(s') && s.pair.None? && ThreadOk(s, w)
    ensures u != w ==> Part(s', u) == Part(s, u)
    ensures Part(s', w) == Part(s, w) + s'.threads[r].got
    ensures u != r ==> Got(s', u) == Got(s, u)
  {}

  lemma {:induction false} SentGrows(s: State, s': State, log: seq<nat>, w: nat, got: seq<Byte>)
    requires log != [] && log[|log| - 1] == w && forall i, j :: 0 <= i < j < |log| ==> log[i] != log[j]
    requires forall u: nat :: u != w ==> Part(s', u) == Part(s, u)
    requires Part(s', w) == Part(s, w) + got
    ensures Sent(s', log) == Sent(s, log) + got
  {
    hide Part, Sent;
    var before := log[..|log| - 1];
    assert log == before + [w] && w !in before;
    SentPush(s, before, w);
    SentPush(s', before, w);
    SentSame(s, s', before);
    Associate(Sent(s, before), Part(s, w), got);
  }

  lemma {:induction false} ReceivedGrows(s: State, s': State, log: seq<nat>, r: nat)
    requires r !in log && forall u: nat :: u != r ==> Got(s', u) == Got(s, u)
    ensures Received(s', log + [r]) == Received(s, log) + Got(s', r)
  {
    hide Got;
    ReceivedSame(s, s', log);
    ReceivedPush(s', log, r);
  }

  lemma TransferGot(s: State, w: nat, r: nat, s': State)
    requires Do(s, Transfer(w, r)) == Some(s') && ThreadOk(s, r)
    ensures r < |s'.threads| && s'.threads[r].Reader? && Got(s', r) == s'.threads[r].got
    ensures r !in s.readLog && s'.readLog == s.readLog + [r] && s'.log == s.log
    ensures s'.delivered == s.delivered + s'.threads[r].got
  {}

  lemma TransferBytes(s: State, w: nat, r: nat, s': State)
    requires Do(s, Transfer(w, r)) == Some(s') && ThreadOk(s, w) && ThreadOk(s, r) && LogsOk(s)
    requires s.pair.None? && s.wrMu == Some(w)
    ensures Sent(s', s'.log) == Sent(s, s.log) + s'.threads[r].got
    ensures Received(s', s'.readLog) == Received(s, s.readLog) + s'.threads[r].got
    ensures s'.delivered == s.delivered + s'.threads[r].got
  {
    TransferLogs(s, w, r, s');
    forall u: nat
      ensures u != w ==> Part(s', u) == Part(s, u)
      ensures u != r ==> Got(s', u) == Got(s, u)
    {
      TransferPart(s, w, r, s', u);
    }
    TransferPart(s, w, r, s', w);
    TransferGot(s, w, r, s');
    hide Part, Got, Sent, Received, ThreadOk, Do;
    SentGrows(s, s', s.log, w, s'.threads[r].got);
    ReceivedGrows(s, s', s.readLog, r);
  }

  lemma TransferKeeps(s: State, w: nat, r: nat, s': State)
    requires Inv(s) && Do(s, Transfer(w, r)) == Some(s')
    ensures Inv(s') && Closing(s, s')
  {
    NoPair(s, w);
    assert ThreadOk(s, w) && ThreadOk(s, r);
    TransferLogs(s, w, r, s');
    TransferBytes(s, w, r, s');
    assert |s'.threads| == |s.threads|;
    hide ThreadOk, LogsOk, PairOk, Sent, Received;
    forall u: nat | u < |s'.threads| ensures ThreadOk(s', u) {
      assert ThreadOk(s, u);
      TransferThread(s, w, r, s', u);
    }
  }

  // An acknowledgement moves the writer on.

  lemma AcknowledgePair(s: State, w: nat, r: nat)
    requires Inv(s) && CanAcknowledge(s, w, r)
    ensures s.pair == Some((w, r))
  {
    assert ThreadOk(s, w) && ThreadOk(s, r);
  }

  lemma AcknowledgeThread(s: State, w: nat, r: nat, s': State, u: nat)
    requires Do(s, Acknowledge(w, r)) == Some(s') && u < |s.threads| && s.pair == Some((w, r))
    requires ThreadOk(s, w) && ThreadOk(s, r) && ThreadOk(s, u) && LogsOk(s)
    ensures u < |s'.threads| && ThreadOk(s', u)
  {
    if u != w && u != r {
      ThreadKept(s, s', u);
    }
  }

  lemma AcknowledgeLogs(s: State, w: nat, r: nat, s': State)
    requires Do(s, Acknowledge(w, r)) == Some(s') && s.pair == Some((w, r)) && LogsOk(s)
    ensures LogsOk(s') && PairOk(s')
  {}

  lemma AcknowledgePart(s: State, w: nat, r: nat, s': State, u: nat)
    requires Do(s, Acknowledge(w, r)) == Some(s') && s.pair == Some((w, r))
    requires ThreadOk(s, w) && PairOk(s)
    ensures Part(s', u) == Part(s, u) && Got(s', u) == Got(s, u)
  {
    if u == w {
      AcknowledgeOwn(s, w, r, s');
    } else {
      AcknowledgeOther(s, w, r, s', u);
    }
  }

  lemma AcknowledgeOwn(s: State, w: nat, r: nat, s': State)
    requires Do(s, Acknowledge(w, r)) == Some(s') && s.pair == Some((w, r))
    requires ThreadOk(s, w) && PairOk(s)
    ensures Part(s', w) == Part(s, w) && Got(s', w) == Got(s, w)
  {
    var x := s.threads[w];
    TakeMore(x.data, x.n, |s.threads[r].got|);
  }

  lemma AcknowledgeOther(s: State, w: nat, r: nat, s': State, u: nat)
    requires Do(s, Acknowledge(w, r)) == Some(s') && s.pair == Some((w, r)) && u != w
    ensures Part(s', u) == Part(s, u) && Got(s', u) == Got(s, u)
  {}

  lemma TakeMore(data: seq<Byte>, n: nat, m: nat)
    requires n + m <= |data|
    ensures data[..n + m] == data[..n] + data[n..][..m]
  {}

  lemma AcknowledgeBytes(s: State, w: nat, r: nat, s': State)
    requires Do(s, Acknowledge(w, r)) == Some(s') && s.pair == Some((w, r))
    requires ThreadOk(s, w) && PairOk(s)
    ensures Sent(s', s'.log) == Sent(s, s.log) && Received(s', s'.readLog) == Received(s, s.readLog)
    ensures s'.delivered == s.delivered
  {
    forall u: nat ensures Part(s', u) == Part(s, u) && Got(s', u) == Got(s, u) {
      AcknowledgePart(s, w, r, s', u);
    }
    hide Part, Got;
    SentSame(s, s', s.log);
    ReceivedSame(s, s', s.readLog);
  }

  lemma AcknowledgeKeeps(s: State, w: nat, r: nat, s': State)
    requires Inv(s) && Do(s, Acknowledge(w, r)) == Some(s')
    ensures Inv(s') && Closing(s, s')
  {
    AcknowledgePair(s, w, r);
    assert ThreadOk(s, w) && ThreadOk(s, r);
    AcknowledgeLogs(s, w, r, s');
    AcknowledgeBytes(s, w, r, s');
    assert |s'.threads| == |s.threads|;
    hide ThreadOk, LogsOk, PairOk, Sent, Received;
    forall u: nat | u < |s'.threads| ensures ThreadOk(s', u) {
      assert ThreadOk(s, u);
      AcknowledgeThread(s, w, r, s', u);
    }
  }

  /** Every action keeps the invariant and every stored close error. */
  lemma DoKeeps(s: State, a: Action, s': State)
    requires Inv(s) && Do(s, a) == Some(s')
    ensures Inv(s') && Closing(s, s')
  {
    match a
    case Run(t) => LoneKeeps(s, t, s');
    case Transfer(w, r) => TransferKeeps(s, w, r, s');
    case Acknowledge(w, r) => AcknowledgeKeeps(s, w, r, s');
    case Write(_) => SpawnKeeps(s, a, s');
    case Read(_) => SpawnKeeps(s, a, s');
    case CloseRead(_) => SpawnKeeps(s, a, s');
    case CloseWrite(_) => SpawnKeeps(s, a, s');
  }

  // ---- what holds in every run ----

  lemma {:induction false} ExecKeeps(s: State, run: seq<Action>, s': State)
    requires Inv(s) && Exec(s, run) == Some(s')
    ensures Inv(s') && Closing(s, s')
    decreases |run|
  {
    if run != [] {
      DoKeeps(s, run[0], Do(s, run[0]).value);
      ExecKeeps(Do(s, run[0]).value, run[1..], s');
    }
  }

  ghost predicate Reachable(s: State) { exists run :: Exec(Start, run) == Some(s) }

  lemma ReachableInv(s: State)
    requires Reachable(s)
    ensures Inv(s)
  {
    var run :| Exec(Start, run) == Some(s);
    ExecKeeps(Start, run, s);
  }

  /** A write between its lock and its return. */
  predicate Transferring(s: State, t: nat) {
    t < |s.threads| && s.threads[t].Writer? && (s.threads[t].wpc.WSelect? || s.threads[t].wpc.WAwait?)
  }

  /** At most one write is transferring. */
  lemma OneWriter(s: State, t: nat, u: nat)
    requires Reachable(s) && Transferring(s, t) && Transferring(s, u)
    ensures t == u
  {
    ReachableInv(s);
    assert ThreadOk(s, t) && ThreadOk(s, u);
  }

  predicate Awaits(s: State, w: nat) { w < |s.threads| && s.threads[w].Writer? && s.threads[w].wpc.WAwait? }

  predicate Owes(s: State, r: nat) { r < |s.threads| && s.threads[r].Reader? && s.threads[r].rpc.RAck? }

  /** A reader owes an acknowledgement exactly when a writer awaits one: each has its partner,
      the partner is the only one, and the handshake is possible, so neither blocks. */
  lemma AckOwed(s: State, w: nat, r: nat)
    requires Reachable(s) && (Awaits(s, w) || Owes(s, r))
    ensures s.pair.Some?
    ensures var (w', r') := s.pair.value;
      && Awaits(s, w') && Owes(s, r') && Do(s, Acknowledge(w', r')).Some?
      && (Awaits(s, w) ==> w == w') && (Owes(s, r) ==> r == r')
  {
    ReachableInv(s);
    if Awaits(s, w) {
      assert ThreadOk(s, w);
    }
    if Owes(s, r) {
      assert ThreadOk(s, r);
    }
  }

  /** The bytes delivered, which are the reads' bytes in the order the reads received, are
      the concatenation, in lock order, of what each write has handed over. */
  lemma Delivered(s: State)
    requires Reachable(s)
    ensures s.delivered == Sent(s, s.log) == Received(s, s.readLog)
    ensures forall i, j :: 0 <= i < j < |s.log| ==> s.log[i] != s.log[j]
  {
    ReachableInv(s);
    hide Sent, Received, ThreadOk, PairOk;
  }

  /** What a write has handed over is its first n bytes, except while it awaits an
      acknowledgement; a write that never took the mutex has handed over nothing. */
  lemma HandedOver(s: State, t: nat)
    requires Reachable(s) && t < |s.threads| && s.threads[t].Writer?
    ensures var w := s.threads[t];
      && w.n <= |w.data|
      && (!Awaits(s, t) ==> Part(s, t) == w.data[..w.n])
      && (t !in s.log ==> w.n == 0)
  {
    ReachableInv(s);
    assert ThreadOk(s, t);
  }

  /** A write returns nil exactly when it wrote everything, and otherwise a non-nil error:
      the reader's close error, or ErrClosedPipe if the write end is closed. */
  lemma WriteResult(s: State, t: nat)
    requires Reachable(s) && t < |s.threads| && s.threads[t].Writer? && s.threads[t].wpc.WDone?
    ensures var w := s.threads[t];
      && (w.wpc.err.None? ==> w.n == |w.data| && t in s.log)
      && (w.wpc.err.Some? ==> w.n < |w.data| || w.data == [])
      && (w.wpc.err.Some? ==> s.done && CloseError(w.wpc.err.value, s.werr, s.rerr))
      && (w.wpc.err.Some? && s.werr.None? ==> w.wpc.err == s.rerr)
  {
    ReachableInv(s);
    assert ThreadOk(s, t);
  }

  /** A read returns nil with its bytes, or no bytes and the writer's close error, or ErrClosedPipe if
      the read end is closed. */
  lemma ReadResult(s: State, t: nat)
    requires Reachable(s) && t < |s.threads| && s.threads[t].Reader? && s.threads[t].rpc.RDone?
    ensures var x := s.threads[t];
      && |x.got| <= x.room
      && (x.rpc.err.None? ==> t in s.readLog)
      && (x.rpc.err.Some? ==> x.got == [] && s.done && CloseError(x.rpc.err.value, s.rerr, s.werr))
      && (x.rpc.err.Some? && s.rerr.None? ==> x.rpc.err == s.werr)
  {
    ReachableInv(s);
    assert ThreadOk(s, t);
  }

  /** A closed pipe has a stored close error, and no later action changes a stored one. */
  lemma CloseErrorKept(s: State, run: seq<Action>, s': State)
    requires Reachable(s) && Exec(s, run) == Some(s')
    ensures s.done ==> s.rerr.Some? || s.werr.Some?
    ensures s.done ==> s'.done
    ensures s.rerr.Some? ==> s'.rerr == s.rerr
    ensures s.werr.Some? ==> s'.werr == s.werr
  {
    ReachableInv(s);
    ExecKeeps(s, run, s');
  }

  // ---- after a close, every operation returns ----

  predicate Finished(x: Thread) {
    match x
    case Writer(_, _, _, pc) => pc.WDone?
    case Reader(_, _, pc) => pc.RDone?
    case Closer(_, _, pc) => pc.CDone?
  }

  /** Once done is closed, some operation in flight can step. */
  lemma ClosedProgress(s: State, t: nat) returns (a: Action)
    requires Reachable(s) && s.done && t < |s.threads| && !Finished(s.threads[t])
    ensures (a.Run? || a.Acknowledge?) && Do(s, a).Some?
  {
    ReachableInv(s);
    assert ThreadOk(s, t);
    if s.pair.Some? {
      a := Acknowledge(s.pair.value.0, s.pair.value.1);
    } else if s.threads[t].Writer? && s.threads[t].wpc.WLock? && s.wrMu.Some? {
      var h := s.wrMu.value;
      assert h in s.log && ThreadOk(s, h);
      a := Run(h);
    } else {
      a := Run(t);
    }
  }

  function Left(x: Thread): nat {
    match x
    case Writer(_, _, _, pc) =>
      (match pc
       case WStart => 8
       case WLock => 7
       case WSelect => 5
       case WAwait => 6
       case WLoadOwn => 2
       case WLoadOther(_) => 1
       case WDone(_) => 0)
    case Reader(_, _, pc) =>
      (match pc
       case RStart => 11
       case RSelect => 10
       case RAck => 5
       case RLoadOwn => 2
       case RLoadOther(_) => 1
       case RDone(_) => 0)
    case Closer(_, _, pc) =>
      (match pc
       case CStore => 2
       case CClose => 1
       case CDone => 0)
  }

  function Remaining(threads: seq<Thread>): nat {
    if threads == [] then 0 else Left(threads[0]) + Remaining(threads[1..])
  }

  lemma {:induction false} RemainingUpdate(threads: seq<Thread>, t: nat, x: Thread)
    requires t < |threads|
    ensures Remaining(threads[t := x]) + Left(threads[t]) == Remaining(threads) + Left(x)
  {
    if t == 0 {
      assert threads[0 := x][1..] == threads[1..];
    } else {
      RemainingUpdate(threads[1..], t - 1, x);
      assert threads[t := x][1..] == threads[1..][t - 1 := x];
    }
  }

  /** Every step of the operations in flight, handshakes included, leaves less to do, so no
      schedule of them is infinite; with `ClosedProgress`, after a close all of them return. */
  lemma StepsDecrease(s: State, a: Action, s': State)
    requires (a.Run? || a.Transfer? || a.Acknowledge?) && Do(s, a) == Some(s')
    ensures Remaining(s'.threads) < Remaining(s.threads)
  {
    match a
    case Run(t) => OneStep(s, t, s');
    case Transfer(w, r) => TwoSteps(s, w, r, s');
    case Acknowledge(w, r) => TwoSteps(s, w, r, s');
  }

  lemma OneStep(s: State, t: nat, s': State)
    requires Do(s, Run(t)) == Some(s')
    ensures Remaining(s'.threads) < Remaining(s.threads)
  {
    StepShorter(s, t, s');
    hide Do, Left;
    RemainingUpdate(s.threads, t, s'.threads[t]);
  }

  lemma StepShorter(s: State, t: nat, s': State)
    requires Do(s, Run(t)) == Some(s')
    ensures t < |s.threads| == |s'.threads| && s'.threads == s.threads[t := s'.threads[t]]
    ensures Left(s'.threads[t]) < Left(s.threads[t])
  {}

  lemma TwoSteps(s: State, w: nat, r: nat, s': State)
    requires Do(s, Transfer(w, r)) == Some(s') || Do(s, Acknowledge(w, r)) == Some(s')
    ensures Remaining(s'.threads) < Remaining(s.threads)
  {
    var m := s.threads[w := s'.threads[w]];
    RemainingUpdate(s.threads, w, s'.threads[w]);
    RemainingUpdate(m, r, s'.threads[r]);
    assert s'.threads == m[r := s'.threads[r]];
  }
}
