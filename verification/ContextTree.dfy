/**
 The cancellation tree of context/context.go as a state machine over its atomic steps.

 A context is a number: its place in creation order. `tree` holds what never changes (the
 kind and the parent), `cells` the fields of each cancelCtx (err, cause, done, children and
 the mutex), and `threads` one call stack per operation in flight, because `cancel`
 recurses into its children while holding its own lock. A step moves the top frame of one
 thread from one program point to the next; a step that needs a held mutex, or a channel
 that is not closed yet, is not possible. Timers and user calls are operations that may
 start at any time, so a run is any sequence of actions.

 `lock` also names the frame that holds the mutex, and `linked`, `ready`, `creator`,
 `remover` and `own` record history. No step looks at them except that the caller must
 have received a context before using it (`ready`).
 */
module ContextTree {
  import opened Options

  datatype Kind = Background | WithValue | WithoutCancel | Cancelable(timer: bool)

  datatype Node = Node(kind: Kind, parent: nat)

  datatype Error = Canceled | DeadlineExceeded

  /** The cause is the caller's, or the error itself when the caller gave none. */
  datatype Cause = Given(id: nat) | OfError(err: Error)

  /** The lazily created done channel: `closedchan` is the shared, already closed one. */
  datatype Done = NoChannel | Open | Closed | ClosedChan {
    predicate IsClosed() { Closed? || ClosedChan? }
    /** The context made a channel of its own. */
    predicate IsOwn() { Open? || Closed? }
  }

  datatype Owner = Owner(thread: nat, depth: nat)

  datatype Cell = Cell(
    err: Option<Error>,
    cause: Option<Cause>,
    done: Done,
    children: set<nat>,
    lock: Option<Owner>,
    linked: bool,              // registered with the parent, or there is none to register with
    ready: bool,               // returned to the caller
    creator: nat,              // the thread that creates it
    remover: Option<nat>,      // the thread that canceled it and will remove it from its parent
    own: bool                  // canceled directly, not by the parent
  )

  datatype CancelPc = Enter | Close | Loop | Lookup | Delete | Stop

  datatype CreatePc = GetDone | Select | ReadCause | Match | Register | Called | Holding | Arm
                    | Spawn    // the goroutine fall-back for foreign parents
                    | Panic    // "missing cancel error"

  datatype ErrPc = Load | Wait

  datatype Frame =
    | CancelFrame(c: nat, remove: bool, err: Error, cause: Cause, own: bool, pc: CancelPc, todo: set<nat>)
    | CreateFrame(c: nat, at: CreatePc)
    | ErrFrame(c: nat, step: ErrPc)

  datatype State = State(tree: seq<Node>, cells: seq<Cell>, threads: seq<seq<Frame>>)

  // ---- the tree ----

  predicate TreeOk(tree: seq<Node>) {
    forall x :: 0 <= x < |tree| ==> tree[x].kind.Background? || tree[x].parent < x
  }

  /** `Done`, `Err` and `Value(&cancelCtxKey)` of a context all resolve to this cancelCtx. */
  function Nearest(tree: seq<Node>, x: nat): (r: Option<nat>)
    requires TreeOk(tree) && x < |tree|
    ensures r.Some? ==> r.value <= x && tree[r.value].kind.Cancelable?
  {
    match tree[x].kind
    case Background => None
    case WithoutCancel => None
    case WithValue => Nearest(tree, tree[x].parent)
    case Cancelable(_) => Some(x)
  }

  predicate IsCancelable(s: State, x: nat) { x < |s.tree| && s.tree[x].kind.Cancelable? }

  /** The cancelCtx that `propagateCancel` attaches c to. */
  function Up(s: State, c: nat): (r: Option<nat>)
    requires TreeOk(s.tree) && IsCancelable(s, c)
    ensures r.Some? ==> r.value < c && IsCancelable(s, r.value)
  {
    Nearest(s.tree, s.tree[c].parent)
  }

  predicate Shaped(s: State) { TreeOk(s.tree) && |s.cells| == |s.tree| }

  // ---- updates ----

  function SetCell(s: State, x: nat, cell: Cell): State
    requires x < |s.cells|
  {
    s.(cells := s.cells[x := cell])
  }

  function Busy(s: State, t: nat): bool { t < |s.threads| && s.threads[t] != [] }

  function Top(s: State, t: nat): Frame
    requires Busy(s, t)
  {
    s.threads[t][|s.threads[t]| - 1]
  }

  function Pop(s: State, t: nat): State
    requires Busy(s, t)
  {
    s.(threads := s.threads[t := s.threads[t][..|s.threads[t]| - 1]])
  }

  function SetTop(s: State, t: nat, f: Frame): State
    requires Busy(s, t)
  {
    s.(threads := s.threads[t := s.threads[t][..|s.threads[t]| - 1] + [f]])
  }

  /** Replaces the top frame and calls another on top of it. */
  function Call(s: State, t: nat, f: Frame, g: Frame): State
    requires Busy(s, t)
  {
    s.(threads := s.threads[t := s.threads[t][..|s.threads[t]| - 1] + [f, g]])
  }

  // ---- cancel ----

  function CloseDone(d: Done): Done {
    match d
    case NoChannel => ClosedChan
    case Open => Closed
    case _ => d
  }

  /** A timer's cancel takes its own lock once more, to stop the timer. */
  function AfterRemoval(s: State, t: nat, f: Frame): State
    requires Busy(s, t) && f.CancelFrame? && IsCancelable(s, f.c)
  {
    if s.tree[f.c].kind.timer then SetTop(s, t, f.(pc := Stop)) else Pop(s, t)
  }

  function AfterUnlock(s: State, t: nat, f: Frame): State
    requires Busy(s, t) && f.CancelFrame? && IsCancelable(s, f.c)
  {
    if f.remove then SetTop(s, t, f.(pc := Lookup)) else AfterRemoval(s, t, f)
  }

  /** One step of `cancel`; `pick` is the child the range loop visits next. */
  function CancelStep(s: State, t: nat, f: Frame, pick: nat): (r: Option<State>)
    requires Shaped(s) && Busy(s, t) && f.CancelFrame? && IsCancelable(s, f.c)
  {
    var c := f.c;
    var cell := s.cells[c];
    match f.pc
    case Enter =>
      if cell.lock.Some? then None
      else if cell.err.Some? then
        Some(if s.tree[c].kind.timer then AfterUnlock(s, t, f) else Pop(s, t))
      else
        var owner := Owner(t, |s.threads[t]| - 1);
        var cell' := cell.(err := Some(f.err), own := f.own, lock := Some(owner),
                           remover := if f.remove then Some(t) else None);
        Some(SetTop(SetCell(s, c, cell'), t, f.(pc := Close)))
    case Close =>
      var cell' := cell.(cause := Some(f.cause), done := CloseDone(cell.done));
      Some(SetTop(SetCell(s, c, cell'), t, f.(pc := Loop, todo := cell.children)))
    case Loop =>
      if f.todo == {} then
        Some(AfterUnlock(SetCell(s, c, cell.(children := {}, lock := None)), t, f))
      else if pick !in f.todo then None
      else
        var g := CancelFrame(pick, false, f.err, f.cause, false, Enter, {});
        Some(Call(s, t, f.(todo := f.todo - {pick}), g))
    case Lookup =>
      if Up(s, c).None? then Some(AfterRemoval(s, t, f))
      else
        var p := Up(s, c).value;
        var up := s.cells[p];
        if up.done.ClosedChan? then Some(AfterRemoval(s, t, f))
        else if up.done.NoChannel? then
          if up.lock.Some? then None
          else Some(SetTop(SetCell(s, p, up.(done := Open)), t, f.(pc := Delete)))
        else Some(SetTop(s, t, f.(pc := Delete)))
    case Delete =>
      if Up(s, c).None? then Some(AfterRemoval(s, t, f))
      else
        var p := Up(s, c).value;
        var up := s.cells[p];
        if up.lock.Some? then None
        else Some(AfterRemoval(SetCell(s, p, up.(children := up.children - {c})), t, f))
    case Stop =>
      if cell.lock.Some? then None else Some(Pop(s, t))
  }

  // ---- creation: propagateCancel ----

  function Finish(s: State, t: nat, c: nat): State
    requires Shaped(s) && Busy(s, t) && IsCancelable(s, c)
  {
    if s.tree[c].kind.timer then SetTop(s, t, CreateFrame(c, Arm))
    else Pop(SetCell(s, c, s.cells[c].(ready := true)), t)
  }

  /** The frame that cancels a new child because its parent already is. */
  function CancelNew(c: nat, err: Error, cause: Option<Cause>): Frame {
    CancelFrame(c, false, err, if cause.Some? then cause.value else OfError(err), false, Enter, {})
  }

  function CreateStep(s: State, t: nat, f: Frame): (r: Option<State>)
    requires Shaped(s) && Busy(s, t) && f.CreateFrame? && IsCancelable(s, f.c)
  {
    var c := f.c;
    if Up(s, c).None? then
      match f.at
      case Arm => if s.cells[c].lock.Some? then None else Some(Pop(SetCell(s, c, s.cells[c].(ready := true)), t))
      case _ => Some(Finish(SetCell(s, c, s.cells[c].(linked := true)), t, c))
    else
      var p := Up(s, c).value;
      var up := s.cells[p];
      match f.at
      case GetDone =>
        if up.done.NoChannel? then
          if up.lock.Some? then None
          else Some(SetTop(SetCell(s, p, up.(done := Open)), t, CreateFrame(c, Select)))
        else Some(SetTop(s, t, CreateFrame(c, Select)))
      case Select =>
        Some(SetTop(s, t, CreateFrame(c, if up.done.IsClosed() then ReadCause else Match)))
      case ReadCause =>
        if up.lock.Some? then None
        else if up.err.None? then Some(SetTop(s, t, CreateFrame(c, Panic)))
        else Some(Call(s, t, CreateFrame(c, Called), CancelNew(c, up.err.value, up.cause)))
      case Match =>
        Some(SetTop(s, t, CreateFrame(c, if up.done.IsOwn() then Register else Spawn)))
      case Register =>
        if up.lock.Some? then None
        else if up.err.Some? then
          var held := SetCell(s, p, up.(lock := Some(Owner(t, |s.threads[t]| - 1))));
          Some(Call(held, t, CreateFrame(c, Holding), CancelNew(c, up.err.value, up.cause)))
        else
          var s1 := SetCell(s, p, up.(children := up.children + {c}));
          Some(Finish(SetCell(s1, c, s1.cells[c].(linked := true)), t, c))
      case Called => Some(Finish(s, t, c))
      case Holding => Some(Finish(SetCell(s, p, up.(lock := None)), t, c))
      case Arm => if s.cells[c].lock.Some? then None else Some(Pop(SetCell(s, c, s.cells[c].(ready := true)), t))
      case Spawn => None
      case Panic => None
  }

  // ---- Err ----

  /** `Err` waits for the done channel before it returns a non-nil error. */
  function ErrStep(s: State, t: nat, f: Frame): (r: Option<State>)
    requires Shaped(s) && Busy(s, t) && f.ErrFrame? && IsCancelable(s, f.c)
  {
    var cell := s.cells[f.c];
    match f.step
    case Load => Some(if cell.err.None? then Pop(s, t) else SetTop(s, t, ErrFrame(f.c, Wait)))
    case Wait =>
      if cell.done.IsClosed() then Some(Pop(s, t))
      else if cell.done.NoChannel? && cell.lock.None? then Some(SetCell(s, f.c, cell.(done := Open)))
      else None
  }

  // ---- actions ----

  datatype Action =
    | Run(t: nat, pick: nat)
    | Derive(parent: nat, kind: Kind)          // WithValue, WithoutCancel
    | Create(parent: nat, timer: bool)         // WithCancel, WithDeadline
    | StartCancel(c: nat, remove: bool, err: Error, cause: Option<Cause>)
    | StartErr(c: nat)
    | CallDone(c: nat)

  function NewCell(creator: nat, ready: bool): Cell {
    Cell(None, None, NoChannel, {}, None, false, ready, creator, None, false)
  }

  const Start: State := State([Node(Background, 0)], [NewCell(0, true)], [])

  function Next(s: State, t: nat, pick: nat): (r: Option<State>)
    requires Shaped(s)
  {
    if !Busy(s, t) || !IsCancelable(s, Top(s, t).c) then None
    else
      var f := Top(s, t);
      match f
      case CancelFrame(_, _, _, _, _, _, _) => CancelStep(s, t, f, pick)
      case CreateFrame(_, _) => CreateStep(s, t, f)
      case ErrFrame(_, _) => ErrStep(s, t, f)
  }

  /** The caller has the context. */
  predicate Usable(s: State, x: nat)
    requires Shaped(s)
  {
    x < |s.tree| && s.cells[x].ready
  }

  function Spawned(s: State, f: Frame): State { s.(threads := s.threads + [[f]]) }

  function Do(s: State, a: Action): (r: Option<State>)
    requires Shaped(s)
  {
    match a
    case Run(t, pick) => Next(s, t, pick)
    case Derive(parent, kind) =>
      if Usable(s, parent) && (kind.WithValue? || kind.WithoutCancel?) then
        Some(s.(tree := s.tree + [Node(kind, parent)], cells := s.cells + [NewCell(0, true)]))
      else None
    case Create(parent, timer) =>
      if Usable(s, parent) then
        var c := |s.tree|;
        Some(Spawned(s.(tree := s.tree + [Node(Cancelable(timer), parent)],
                        cells := s.cells + [NewCell(|s.threads|, false)]), CreateFrame(c, GetDone)))
      else None
    case StartCancel(c, remove, err, cause) =>
      // Only the cancel function of an already expired deadline does not remove.
      if Usable(s, c) && IsCancelable(s, c) && (remove || s.cells[c].err.Some?) then
        Some(Spawned(s, CancelFrame(c, remove, err, if cause.Some? then cause.value else OfError(err), true, Enter, {})))
      else None
    case StartErr(c) =>
      if Usable(s, c) && IsCancelable(s, c) then Some(Spawned(s, ErrFrame(c, Load))) else None
    case CallDone(c) =>
      if Usable(s, c) && IsCancelable(s, c) && (s.cells[c].done != NoChannel || s.cells[c].lock.None?) then
        Some(if s.cells[c].done.NoChannel? then SetCell(s, c, s.cells[c].(done := Open)) else s)
      else None
  }
}
