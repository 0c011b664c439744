/**
  `OnceLock` and `LazyLock` as an interleaving of atomic steps.  An agent is one call; there are
  unboundedly many.  An initialiser may return a value, panic, or break (return its residual).
 */
module OnceLock {
  import opened Wrappers

  /**
    The lock word, by its three flag bits LOCK = 0x1, INIT = 0x2 and POISONED = 1 << 63.  Every
    value ever stored or or-ed in is built from these, so the other bits stay clear.
    */
  datatype Word = Word(lock: bool, init: bool, poisoned: bool)

  const ZERO := Word(false, false, false)
  const LOCK := Word(true, false, false)
  const INIT := Word(false, true, false)
  const POISONED := Word(false, false, true)

  type Agent = nat

  datatype Outcome<V> = Value(v: V) | Panic | Break

  datatype Call<V> =
    | GetOrInit        // `get_or_init`, `get_or_try_init`
    | SetTo(own: V)    // `set`: the closure takes the caller's value
    | Peek             // `get`: the closure breaks
    | Force            // `LazyLock::force`: the closure first takes `init_fn`

  /** Where a call stands in `try_get_or_init`, one constructor per access to shared state. */
  datatype Pc<V> =
    | Start
    | CheckPoison
    | Acquire                      // the `fetch_or` loop
    | Recheck(m: Word)
    | Decide(m: Word)
    | Initialise
    | Running                      // inside the initialiser, the bomb armed
    | Write(v: V)
    | Publish(v: V)
    | Explode                      // the initialiser panicked, the bomb is about to poison
    | Release                      // the initialiser broke, about to store 0
    | ExplodeAfter                 // ... and then to drop the bomb
    | Returned(seen: V, ran: bool) // a reference to the cell; `ran` if this call's closure ran
    | Broke
    | Panicked

  datatype Thread<V> = Thread(call: Call<V>, pc: Pc<V>)

  datatype State<V> = State(
    word: Word,
    cell: Option<V>,
    initFn: bool,                  // `LazyLock::init_fn` still holds the closure
    threads: map<Agent, Thread<V>>,
    writes: nat,                   // history: how often the cell was written
    takes: nat,                    // history: how often `init_fn` was taken
    storedBy: Option<Agent>,       // history: whose call wrote the cell
    expectFailed: bool)            // history: `init_fn` was found empty

  function New<V>(): State<V> { State(ZERO, None, true, map[], 0, 0, None, false) }

  function NewInit<V>(v: V): State<V> { State(INIT, Some(v), false, map[], 1, 0, None, false) }

  predicate Inited<V>(s: State<V>) { s.word.init }

  predicate Poisoned<V>(s: State<V>) { s.word.poisoned }

  datatype Step<V> =
    | Begin(a: Agent, call: Call<V>)
    | Go(a: Agent)                        // one step of the call outside its initialiser
    | Yield(a: Agent, outcome: Outcome<V>)  // the initialiser ends

  predicate Enabled<V(==)>(s: State<V>, step: Step<V>) {
    match step
    case Begin(a, _) => a !in s.threads
    case Go(a) =>
      a in s.threads &&
      var pc := s.threads[a].pc;
      !pc.Running? && !pc.Returned? && !pc.Broke? && !pc.Panicked? &&
      (pc.Start? && Inited(s) ==> s.cell.Some?) &&
      (pc.Decide? && pc.m.init ==> s.cell.Some?)
    case Yield(a, outcome) =>
      a in s.threads && s.threads[a].pc.Running? &&
      match s.threads[a].call
      case GetOrInit => true
      case SetTo(own) => outcome == Value(own)
      case Peek => outcome.Break?
      case Force => !outcome.Break?
  }

  function Move<V>(s: State<V>, a: Agent, pc: Pc<V>): State<V>
    requires a in s.threads
  {
    s.(threads := s.threads[a := s.threads[a].(pc := pc)])
  }

  function Apply<V(==)>(s: State<V>, step: Step<V>): State<V>
    requires Enabled(s, step)
  {
    match step
    case Begin(a, call) => s.(threads := s.threads[a := Thread(call, Start)])
    case Go(a) => Advance(s, a)
    case Yield(a, outcome) =>
      match outcome
      case Value(v) => Move(s, a, Write(v))
      case Panic => Move(s, a, Explode)
      case Break => Move(s, a, Release)
  }

  function Advance<V(==)>(s: State<V>, a: Agent): State<V>
    requires Enabled(s, Step.Go(a))
  {
    match s.threads[a].pc
    case Start =>
      if Inited(s) then Move(s, a, Returned(s.cell.value, false)) else Move(s, a, CheckPoison)
    case CheckPoison => Move(s, a, if Poisoned(s) then Panicked else Acquire)
    case Acquire =>
      var m := s.word;
      Move(s.(word := s.word.(lock := true)), a, if m.lock then Acquire else Recheck(m))
    case Recheck(m) => Move(s, a, if Poisoned(s) then Panicked else Decide(m))
    case Decide(m) => Move(s, a, if m.init then Returned(s.cell.value, false) else Initialise)
    case Initialise =>
      if !s.threads[a].call.Force? then Move(s, a, Running)
      else if s.initFn then Move(s.(initFn := false, takes := s.takes + 1), a, Running)
      else Move(s.(expectFailed := true), a, Explode)
    case Write(v) => Move(s.(cell := Some(v), writes := s.writes + 1, storedBy := Some(a)), a, Publish(v))
    case Publish(v) => Move(s.(word := INIT), a, Returned(v, true))
    case Explode => Move(s.(word := POISONED), a, Panicked)
    case Release => Move(s.(word := ZERO), a, ExplodeAfter)
    case ExplodeAfter => Move(s.(word := POISONED), a, Broke)
    case _ => s
  }

  ghost predicate CanRun<V>(s: State<V>, steps: seq<Step<V>>)
    decreases |steps|
  {
    steps == [] || (Enabled(s, steps[0]) && CanRun(Apply(s, steps[0]), steps[1..]))
  }

  ghost function Run<V>(s: State<V>, steps: seq<Step<V>>): State<V>
    requires CanRun(s, steps)
    decreases |steps|
  {
    if steps == [] then s else Run(Apply(s, steps[0]), steps[1..])
  }

  predicate Breaks<V>(step: Step<V>) { step.Yield? && step.outcome.Break? }

  predicate BreakFree<V>(steps: seq<Step<V>>) { forall i :: 0 <= i < |steps| ==> !Breaks(steps[i]) }

  // ---------------------------------------------------------------- the invariant of break-free runs

  /** Between lock acquisition and publication (or poisoning). */
  predicate Holds<V>(pc: Pc<V>) {
    match pc
    case Recheck(m) => m == ZERO
    case Decide(m) => m == ZERO
    case Initialise | Running | Write(_) | Publish(_) | Explode => true
    case _ => false
  }

  /** Holding, with `init_fn` not yet taken. */
  predicate BeforeTake<V>(pc: Pc<V>) {
    match pc
    case Recheck(m) => m == ZERO
    case Decide(m) => m == ZERO
    case Initialise => true
    case _ => false
  }

  /** INIT and POISONED are never set together. */
  predicate WordShape(w: Word) { !(w.init && w.poisoned) }

  predicate Exclusive<V>(s: State<V>) {
    && (forall a, b :: a in s.threads && b in s.threads && Holds(s.threads[a].pc) && Holds(s.threads[b].pc) ==> a == b)
    && (forall a :: a in s.threads && Holds(s.threads[a].pc) ==> s.word == LOCK)
  }

  /** LOCK alone in the word means that a call is in there. */
  predicate Held<V>(s: State<V>) { s.word == LOCK ==> exists a :: a in s.threads && Holds(s.threads[a].pc) }

  /** What the position of one call says about the shared state. */
  predicate PcOk<V(==)>(s: State<V>, a: Agent)
    requires a in s.threads
  {
    var call := s.threads[a].call;
    match s.threads[a].pc
    case Recheck(m) =>
      && s.storedBy != Some(a)
      && (m == ZERO || (m == INIT && Inited(s)) || (m == POISONED && Poisoned(s)))
    case Decide(m) => s.storedBy != Some(a) && (m == ZERO || (m == INIT && Inited(s)))
    case Write(v) => s.cell.None? && (call.SetTo? ==> v == call.own)
    case Publish(v) => s.cell == Some(v) && s.storedBy == Some(a) && (call.SetTo? ==> v == call.own)
    case Release => false
    case ExplodeAfter => false
    case Broke => false
    case Panicked => s.storedBy != Some(a) && Poisoned(s)
    case Returned(seen, ran) =>
      && Inited(s) && s.cell == Some(seen) && (ran <==> s.storedBy == Some(a))
      && (ran && call.SetTo? ==> seen == call.own)
    case _ => s.storedBy != Some(a)
  }

  predicate CellOk<V>(s: State<V>) {
    && s.writes == (if s.cell.Some? then 1 else 0)
    && (Inited(s) ==> s.cell.Some?)
    && (s.cell.Some? && !Inited(s) ==> exists a :: a in s.threads && s.threads[a].pc.Publish?)
    && (s.storedBy.Some? ==> s.cell.Some? && s.storedBy.value in s.threads)
  }

  predicate InitFnOk<V>(s: State<V>) {
    && !s.expectFailed
    && s.takes + (if s.initFn then 1 else 0) <= 1
    && (s.word == ZERO ==> s.initFn)
    && (forall a :: a in s.threads && BeforeTake(s.threads[a].pc) ==> s.initFn)
  }

  predicate Inv<V(==)>(s: State<V>) {
    && WordShape(s.word)
    && Exclusive(s)
    && Held(s)
    && (forall a :: a in s.threads ==> PcOk(s, a))
    && CellOk(s)
    && InitFnOk(s)
  }

  /** `OnceLock::new`, `LazyLock::new`, or the `new_init` of either. */
  ghost predicate Initial<V(!new)>(s: State<V>) { s == New() || exists v :: s == NewInit(v) }

  lemma InitialInv<V(!new)>(s: State<V>)
    requires Initial(s)
    ensures Inv(s)
  {
  }

  /** A step that moves one call and leaves the shared state alone. */
  lemma LocalMove<V>(s: State<V>, a: Agent, pc: Pc<V>)
    requires Inv(s) && a in s.threads && PcOk(Move(s, a, pc), a)
    requires Holds(pc) <==> Holds(s.threads[a].pc)
    requires BeforeTake(pc) ==> BeforeTake(s.threads[a].pc)
    requires !s.threads[a].pc.Publish?
    ensures Inv(Move(s, a, pc))
  {
    var s' := Move(s, a, pc);
    forall b | b in s'.threads
      ensures PcOk(s', b)
    {
      assert PcOk(s, b);
    }
    StillHeld(s, s');
    StillStored(s, s');
  }

  lemma StillHeld<V>(s: State<V>, s': State<V>)
    requires Held(s) && s'.word == s.word
    requires forall b :: b in s.threads && Holds(s.threads[b].pc) ==> b in s'.threads && Holds(s'.threads[b].pc)
    ensures Held(s')
  {
    if s.word == LOCK {
      var b :| b in s.threads && Holds(s.threads[b].pc);
      assert Holds(s'.threads[b].pc);
    }
  }

  lemma StillStored<V>(s: State<V>, s': State<V>)
    requires CellOk(s) && s' == s.(threads := s'.threads)
    requires forall b :: b in s.threads ==> b in s'.threads && (s.threads[b].pc.Publish? ==> s'.threads[b].pc.Publish?)
    ensures CellOk(s')
  {
    if s.cell.Some? && !Inited(s) {
      var b :| b in s.threads && s.threads[b].pc.Publish?;
      assert s'.threads[b].pc.Publish?;
    }
  }

  lemma NewcomerHoldsNothing<V>(s: State<V>, a: Agent, call: Call<V>)
    requires Exclusive(s) && InitFnOk(s) && a !in s.threads
    ensures var s' := s.(threads := s.threads[a := Thread(call, Start)]); Exclusive(s') && InitFnOk(s')
  {
  }

  lemma BeginKeeps<V>(s: State<V>, a: Agent, call: Call<V>)
    requires Inv(s) && a !in s.threads
    ensures Inv(s.(threads := s.threads[a := Thread(call, Start)]))
  {
    var s' := s.(threads := s.threads[a := Thread(call, Start)]);
    forall b | b in s'.threads
      ensures PcOk(s', b)
    {
      if b != a { assert PcOk(s, b); }
    }
    NewcomerHoldsNothing(s, a, call);
    StillHeld(s, s');
    StillStored(s, s');
  }

  /** Setting LOCK when it is already set changes nothing but the spinning call. */
  lemma SpinKeeps<V>(s: State<V>, a: Agent)
    requires Inv(s) && a in s.threads && s.threads[a].pc.Acquire? && s.word.lock
    ensures Inv(Advance(s, a))
  {
    assert Advance(s, a) == Move(s, a, Acquire);
    LocalMove(s, a, Acquire);
  }

  lemma AcquireKeeps<V>(s: State<V>, a: Agent)
    requires Inv(s) && a in s.threads && s.threads[a].pc.Acquire? && !s.word.lock
    ensures Inv(Advance(s, a))
  {
    var s' := Advance(s, a);
    assert s' == Move(s.(word := s.word.(lock := true)), a, Recheck(s.word));
    assert Inited(s') == Inited(s) && Poisoned(s') == Poisoned(s);
    assert forall b :: b in s.threads ==> !Holds(s.threads[b].pc);
    assert PcOk(s', a) by { assert PcOk(s, a); }
    forall b | b in s'.threads
      ensures PcOk(s', b)
    {
      assert PcOk(s, b);
    }
    assert Exclusive(s');
    assert Held(s') by { if s'.word == LOCK { assert Holds(s'.threads[a].pc); } }
    assert CellOk(s');
    assert InitFnOk(s');
  }

  /** The only call holding the lock is `a`. */
  lemma OnlyHolder<V>(s: State<V>, a: Agent, b: Agent)
    requires Inv(s) && a in s.threads && b in s.threads && a != b && Holds(s.threads[a].pc)
    ensures !Holds(s.threads[b].pc)
  {
  }

  lemma TakeKeeps<V>(s: State<V>, a: Agent)
    requires Inv(s) && a in s.threads && s.threads[a].pc.Initialise? && s.threads[a].call.Force?
    ensures s.initFn && Inv(Advance(s, a))
  {
    assert BeforeTake(s.threads[a].pc);
    assert PcOk(s, a);
    LocalMove(s, a, Running);
    var mid := Move(s, a, Running);
    var s' := Advance(s, a);
    assert s' == mid.(initFn := false, takes := s.takes + 1);
    forall b | b in s'.threads
      ensures PcOk(s', b) && !BeforeTake(s'.threads[b].pc)
    {
      assert PcOk(mid, b);
      if b != a { OnlyHolder(s, a, b); }
    }
    assert Holds(s'.threads[a].pc);
    assert Exclusive(mid) && CellOk(mid);
  }

  lemma WriteKeeps<V>(s: State<V>, a: Agent)
    requires Inv(s) && a in s.threads && s.threads[a].pc.Write?
    ensures Inv(Advance(s, a))
  {
    var s' := Advance(s, a);
    assert PcOk(s, a);
    forall b | b in s'.threads
      ensures PcOk(s', b)
    {
      assert PcOk(s, b);
      if b != a { OnlyHolder(s, a, b); }
    }
    assert s'.threads[a].pc.Publish?;
  }

  lemma PublishKeeps<V>(s: State<V>, a: Agent)
    requires Inv(s) && a in s.threads && s.threads[a].pc.Publish?
    ensures Inv(Advance(s, a))
  {
    var s' := Advance(s, a);
    assert PcOk(s, a);
    forall b | b in s'.threads
      ensures PcOk(s', b) && !Holds(s'.threads[b].pc)
    {
      assert PcOk(s, b);
      if b != a { OnlyHolder(s, a, b); }
    }
  }

  lemma ExplodeKeeps<V>(s: State<V>, a: Agent)
    requires Inv(s) && a in s.threads && s.threads[a].pc.Explode?
    ensures Inv(Advance(s, a))
  {
    var s' := Advance(s, a);
    assert PcOk(s, a);
    forall b | b in s'.threads
      ensures PcOk(s', b) && !Holds(s'.threads[b].pc)
    {
      assert PcOk(s, b);
      if b != a { OnlyHolder(s, a, b); }
    }
    if s.cell.Some? {
      var b :| b in s.threads && s.threads[b].pc.Publish?;
      OnlyHolder(s, a, b);
    }
  }

  /** The steps that only read shared state. */
  lemma ReadKeeps<V>(s: State<V>, a: Agent)
    requires Inv(s) && Enabled(s, Step.Go(a))
    requires var pc := s.threads[a].pc; pc.Start? || pc.CheckPoison? || pc.Recheck? || pc.Decide?
    ensures Inv(Advance(s, a))
  {
    assert PcOk(s, a);
    match s.threads[a].pc
    case Start => LocalMove(s, a, if Inited(s) then Returned(s.cell.value, false) else CheckPoison);
    case CheckPoison => LocalMove(s, a, if Poisoned(s) then Panicked else Acquire);
    case Recheck(m) => LocalMove(s, a, if Poisoned(s) then Panicked else Decide(m));
    case Decide(m) => LocalMove(s, a, if m.init then Returned(s.cell.value, false) else Initialise);
  }

  lemma AdvanceKeeps<V>(s: State<V>, a: Agent)
    requires Inv(s) && Enabled(s, Step.Go(a))
    ensures Inv(Advance(s, a))
  {
    assert PcOk(s, a);
    match s.threads[a].pc
    case Acquire => if s.word.lock { SpinKeeps(s, a); } else { AcquireKeeps(s, a); }
    case Initialise =>
      if s.threads[a].call.Force? { TakeKeeps(s, a); } else { LocalMove(s, a, Running); }
    case Write(_) => WriteKeeps(s, a);
    case Publish(_) => PublishKeeps(s, a);
    case Explode => ExplodeKeeps(s, a);
    case _ => ReadKeeps(s, a);
  }

  lemma YieldKeeps<V>(s: State<V>, a: Agent, outcome: Outcome<V>)
    requires Inv(s) && Enabled(s, Yield(a, outcome)) && !outcome.Break?
    ensures Inv(Apply(s, Yield(a, outcome)))
  {
    assert PcOk(s, a);
    LocalMove(s, a, if outcome.Value? then Write(outcome.v) else Explode);
  }

  lemma StepKeepsInv<V>(s: State<V>, step: Step<V>)
    requires Inv(s) && Enabled(s, step) && !Breaks(step)
    ensures Inv(Apply(s, step))
  {
    match step
    case Begin(a, call) => BeginKeeps(s, a, call);
    case Go(a) => AdvanceKeeps(s, a);
    case Yield(a, outcome) => YieldKeeps(s, a, outcome);
  }

  /** One step never clears INIT or POISONED, and never changes an initialised cell. */
  lemma StepAbsorbs<V>(s: State<V>, step: Step<V>)
    requires Inv(s) && Enabled(s, step) && !Breaks(step)
    ensures Inited(s) ==> Inited(Apply(s, step)) && Apply(s, step).cell == s.cell
    ensures Poisoned(s) ==> Poisoned(Apply(s, step))
    ensures Settled(s) ==> Apply(s, step).word == s.word
  {
    if step.Go? {
      var a := step.a;
      assert PcOk(s, a);
      if Holds(s.threads[a].pc) { assert s.word == LOCK; }
    }
  }

  /** Locked with nobody left to unlock: INIT or POISONED was set and a late arrival added LOCK. */
  predicate Settled<V>(s: State<V>) { s.word.lock && (s.word.init || s.word.poisoned) }

  // ---------------------------------------------------------------- results over every break-free run

  lemma {:induction false} RunKeepsInv<V>(s: State<V>, steps: seq<Step<V>>)
    requires Inv(s) && CanRun(s, steps) && BreakFree(steps)
    ensures Inv(Run(s, steps))
    decreases |steps|
  {
    if steps != [] {
      StepKeepsInv(s, steps[0]);
      RunKeepsInv(Apply(s, steps[0]), steps[1..]);
    }
  }

  /** INIT and POISONED are absorbing, and an initialised cell keeps its value for the rest of the run. */
  lemma {:induction false} FlagsAbsorbing<V>(s: State<V>, steps: seq<Step<V>>)
    requires Inv(s) && CanRun(s, steps) && BreakFree(steps)
    ensures Inited(s) ==> Inited(Run(s, steps)) && Run(s, steps).cell == s.cell
    ensures Poisoned(s) ==> Poisoned(Run(s, steps))
    decreases |steps|
  {
    if steps != [] {
      StepKeepsInv(s, steps[0]);
      StepAbsorbs(s, steps[0]);
      FlagsAbsorbing(Apply(s, steps[0]), steps[1..]);
    }
  }

  /** The states reached from a fresh lock by a break-free run. */
  lemma Reached<V(!new)>(s0: State<V>, steps: seq<Step<V>>)
    requires Initial(s0) && CanRun(s0, steps) && BreakFree(steps)
    ensures Inv(Run(s0, steps))
  {
    InitialInv(s0);
    RunKeepsInv(s0, steps);
  }

  /** Any number of calls, panicking or not: one initialiser at a time, one write, and no reader beside the writer. */
  lemma OneWriterOneValue<V(!new)>(s0: State<V>, steps: seq<Step<V>>, a: Agent, b: Agent)
    requires Initial(s0) && CanRun(s0, steps) && BreakFree(steps)
    requires a in Run(s0, steps).threads && b in Run(s0, steps).threads
    ensures var s := Run(s0, steps); var pa := s.threads[a].pc; var pb := s.threads[b].pc;
            && !(Inited(s) && Poisoned(s))
            && s.writes <= 1
            && (Holds(pa) && Holds(pb) ==> a == b)
            && (pa.Write? ==> s.writes == 0 && !pb.Returned?)
  {
    Reached(s0, steps);
    var s := Run(s0, steps);
    assert PcOk(s, a) && PcOk(s, b);
    if s.threads[a].pc.Write? { assert Holds(s.threads[a].pc); }
  }

  /** Every reference returned at any time sees the one stored value, then and for ever after. */
  lemma ReferencesStayValid<V(!new)>(s0: State<V>, steps: seq<Step<V>>, more: seq<Step<V>>, a: Agent)
    requires Initial(s0) && CanRun(s0, steps) && BreakFree(steps)
    requires CanRun(Run(s0, steps), more) && BreakFree(more)
    requires a in Run(s0, steps).threads && Run(s0, steps).threads[a].pc.Returned?
    ensures var later := Run(Run(s0, steps), more);
            Inited(later) && later.cell == Some(Run(s0, steps).threads[a].pc.seen)
  {
    Reached(s0, steps);
    var s := Run(s0, steps);
    assert PcOk(s, a);
    FlagsAbsorbing(s, more);
  }

  /** What `set` gives back: the closure takes the value when it runs, and what is left is the error. */
  function GivenBack<V>(t: Thread<V>): Option<V>
    requires t.call.SetTo? && t.pc.Returned?
  {
    if t.pc.ran then None else Some(t.call.own)
  }

  /**
    `set` gives nothing back (reports `Ok`) exactly when this call wrote the cell; then the cell holds
    the caller's value.  Otherwise it gives the value back.  Of two calls at most one reports `Ok`.
    */
  lemma SetReportsOwnership<V(!new)>(s0: State<V>, steps: seq<Step<V>>, a: Agent, b: Agent)
    requires Initial(s0) && CanRun(s0, steps) && BreakFree(steps)
    requires var s := Run(s0, steps);
             a in s.threads && b in s.threads && s.threads[a].call.SetTo? && s.threads[a].pc.Returned?
    ensures var s := Run(s0, steps); var pa := s.threads[a].pc; var pb := s.threads[b].pc;
            && GivenBack(s.threads[a]) == (if s.storedBy == Some(a) then None else Some(s.threads[a].call.own))
            && (s.storedBy == Some(a) ==> s.cell == Some(s.threads[a].call.own))
            && (pa.ran && pb.Returned? && pb.ran ==> a == b)
  {
    Reached(s0, steps);
    assert PcOk(Run(s0, steps), a) && PcOk(Run(s0, steps), b);
  }

  /** In a break-free run a call panics only if an initialiser has: then the lock is poisoned. */
  lemma PanicsOnlyIfPoisoned<V(!new)>(s0: State<V>, steps: seq<Step<V>>, a: Agent)
    requires Initial(s0) && CanRun(s0, steps) && BreakFree(steps)
    requires a in Run(s0, steps).threads && Run(s0, steps).threads[a].pc.Panicked?
    ensures Poisoned(Run(s0, steps))
  {
    Reached(s0, steps);
    assert PcOk(Run(s0, steps), a);
  }

  /** Two steps of one call. */
  lemma TwoSteps<V>(s: State<V>, x: Step<V>, y: Step<V>)
    requires Enabled(s, x) && Enabled(Apply(s, x), y)
    ensures CanRun(s, [x] + [y]) && Run(s, [x] + [y]) == Apply(Apply(s, x), y)
  {
    RunOne(s, x);
    RunOne(Apply(s, x), y);
    RunAppend(s, [x], [y]);
  }

  lemma ThreeSteps<V>(s: State<V>, x: Step<V>, y: Step<V>, z: Step<V>)
    requires Enabled(s, x) && Enabled(Apply(s, x), y) && Enabled(Apply(Apply(s, x), y), z)
    ensures CanRun(s, [x] + [y] + [z]) && Run(s, [x] + [y] + [z]) == Apply(Apply(Apply(s, x), y), z)
  {
    TwoSteps(s, x, y);
    RunOne(Apply(Apply(s, x), y), z);
    RunAppend(s, [x] + [y], [z]);
  }

  /** On an initialised lock every call returns the stored value by its first access, and changes nothing. */
  lemma InitialisedReturns<V(!new)>(s0: State<V>, steps: seq<Step<V>>, a: Agent, call: Call<V>)
    requires Initial(s0) && CanRun(s0, steps) && BreakFree(steps)
    requires Inited(Run(s0, steps)) && a !in Run(s0, steps).threads
    ensures var s := Run(s0, steps); var go: seq<Step<V>> := [Begin(a, call)] + [Go(a)];
            && s.cell.Some? && CanRun(s, go)
            && var s' := Run(s, go);
               && s' == s.(threads := s'.threads)
               && a in s'.threads && s'.threads[a].pc == Returned(s.cell.value, false)
  {
    Reached(s0, steps);
    TwoSteps(Run(s0, steps), Begin(a, call), Go(a));
  }

  /** On a poisoned lock every call panics at its second access, and changes nothing. */
  lemma PoisonedPanics<V(!new)>(s0: State<V>, steps: seq<Step<V>>, a: Agent, call: Call<V>)
    requires Initial(s0) && CanRun(s0, steps) && BreakFree(steps)
    requires Poisoned(Run(s0, steps)) && a !in Run(s0, steps).threads
    ensures var s := Run(s0, steps); var go: seq<Step<V>> := [Begin(a, call)] + [Go(a)] + [Go(a)];
            && CanRun(s, go)
            && var s' := Run(s, go);
               s' == s.(threads := s'.threads) && a in s'.threads && s'.threads[a].pc == Panicked
  {
    Reached(s0, steps);
    ThreeSteps(Run(s0, steps), Begin(a, call), Go(a), Go(a));
  }

  /** Where a call that has taken the lock goes next, left to run alone. */
  predicate NextFor<V(==)>(s: State<V>, s': State<V>, a: Agent) {
    && a in s'.threads
    && (Poisoned(s) ==> s'.threads[a].pc == Panicked)
    && (Inited(s) ==> s.cell.Some? && s'.threads[a].pc == Returned(s.cell.value, false))
    && (!Poisoned(s) && !Inited(s) ==> s'.threads[a].pc == Initialise)
  }

  /**
    A call that has taken the lock, left to run alone: on a poisoned lock it panics, on an initialised
    one it returns the stored value, and otherwise it goes on to its initialiser.
    */
  lemma TakenLockDecides<V(!new)>(s0: State<V>, steps: seq<Step<V>>, a: Agent)
    requires Initial(s0) && CanRun(s0, steps) && BreakFree(steps)
    requires a in Run(s0, steps).threads && Run(s0, steps).threads[a].pc.Recheck?
    ensures var s := Run(s0, steps);
            && (Poisoned(s) ==> CanRun(s, [Go(a)]) && NextFor(s, Run(s, [Go(a)]), a))
            && (!Poisoned(s) ==> CanRun(s, [Go(a)] + [Go(a)]) && NextFor(s, Run(s, [Go(a)] + [Go(a)]), a))
  {
    Reached(s0, steps);
    var s := Run(s0, steps);
    assert PcOk(s, a);
    if Poisoned(s) {
      RunOne(s, Go(a));
    } else {
      TakenAndClean(s, a);
    }
  }

  lemma TakenAndClean<V>(s: State<V>, a: Agent)
    requires Inv(s) && a in s.threads && s.threads[a].pc.Recheck? && !Poisoned(s)
    ensures CanRun(s, [Go(a)] + [Go(a)]) && NextFor(s, Run(s, [Go(a)] + [Go(a)]), a)
  {
    assert PcOk(s, a);
    if Holds(s.threads[a].pc) { assert s.word == LOCK; }
    TwoSteps(s, Go(a), Go(a));
  }

  /** The initialiser is entered: for `force` with the closure just taken, for the others as they are. */
  lemma InitialiserEntered<V(!new)>(s0: State<V>, steps: seq<Step<V>>, a: Agent)
    requires Initial(s0) && CanRun(s0, steps) && BreakFree(steps)
    requires a in Run(s0, steps).threads && Run(s0, steps).threads[a].pc.Initialise?
    ensures var s := Run(s0, steps);
            && CanRun(s, [Go(a)])
            && var s' := Run(s, [Go(a)]);
               && a in s'.threads && s'.threads[a].pc == Running && s'.word == s.word
               && (s.threads[a].call.Force? ==> s.initFn && !s'.initFn)
  {
    Reached(s0, steps);
    var s := Run(s0, steps);
    assert BeforeTake(s.threads[a].pc);
    RunOne(s, Go(a));
  }

  /** An initialiser's value, its call left to run alone, is stored, published and returned. */
  lemma ValueEndsCall<V>(s: State<V>, a: Agent, v: V)
    requires Enabled(s, Yield(a, Value(v)))
    ensures var end: seq<Step<V>> := [Yield(a, Value(v))] + [Go(a)] + [Go(a)];
            && CanRun(s, end)
            && var s' := Run(s, end);
               && s'.word == INIT && s'.cell == Some(v) && s'.storedBy == Some(a)
               && a in s'.threads && s'.threads[a].pc == Returned(v, true)
  {
    ThreeSteps(s, Yield(a, Value(v)), Go(a), Go(a));
  }

  /** An initialiser's panic, its call left to run alone, poisons the lock and goes on. */
  lemma PanicEndsCall<V>(s: State<V>, a: Agent)
    requires Enabled(s, Yield(a, Outcome<V>.Panic))
    ensures var end: seq<Step<V>> := [Yield(a, Panic)] + [Go(a)];
            && CanRun(s, end)
            && var s' := Run(s, end);
               s'.word == POISONED && s'.cell == s.cell && a in s'.threads && s'.threads[a].pc == Panicked
  {
    TwoSteps(s, Yield(a, Panic), Go(a));
  }

  /** `LazyLock::force` takes the closure at most once and never finds it gone. */
  lemma InitFnTakenOnce<V(!new)>(s0: State<V>, steps: seq<Step<V>>)
    requires Initial(s0) && CanRun(s0, steps) && BreakFree(steps)
    ensures Run(s0, steps).takes <= 1 && !Run(s0, steps).expectFailed
  {
    Reached(s0, steps);
  }

  /** Once a late arrival has set LOCK beside INIT or POISONED, a spinning call spins in every continuation. */
  lemma {:induction false} SpinnerStuck<V>(s: State<V>, steps: seq<Step<V>>, a: Agent)
    requires Inv(s) && CanRun(s, steps)
    requires Settled(s) && a in s.threads && s.threads[a].pc.Acquire?
    ensures a in Run(s, steps).threads && Run(s, steps).threads[a].pc.Acquire?
    decreases |steps|
  {
    if steps != [] {
      NoInitialiserRuns(s, steps[0]);
      StepKeepsInv(s, steps[0]);
      StepAbsorbs(s, steps[0]);
      SpinnerStuck(Apply(s, steps[0]), steps[1..], a);
    }
  }

  lemma NoInitialiserRuns<V>(s: State<V>, step: Step<V>)
    requires Inv(s) && Settled(s) && Enabled(s, step)
    ensures !step.Yield?
  {
    if step.Yield? { assert Holds(s.threads[step.a].pc); }
  }

  /** Some continuation takes the spinning call `a` out of its loop. */
  ghost predicate CanLeave<V(!new)>(s: State<V>, a: Agent) {
    exists steps :: CanRun(s, steps) && Left(Run(s, steps), a)
  }

  predicate Left<V>(s: State<V>, a: Agent) { a in s.threads && !s.threads[a].pc.Acquire? }

  /** In every state a break-free run reaches: a spinning call can still leave its loop iff the lock is not settled. */
  lemma SpinnerCanLeaveIff<V(!new)>(s0: State<V>, steps: seq<Step<V>>, a: Agent)
    requires Initial(s0) && CanRun(s0, steps) && BreakFree(steps)
    requires a in Run(s0, steps).threads && Run(s0, steps).threads[a].pc.Acquire?
    ensures CanLeave(Run(s0, steps), a) <==> !Settled(Run(s0, steps))
  {
    Reached(s0, steps);
    var s := Run(s0, steps);
    if Settled(s) {
      forall more | CanRun(s, more)
        ensures !Left(Run(s, more), a)
      {
        SpinnerStuck(s, more, a);
      }
    } else if s.word.lock {
      var h :| h in s.threads && Holds(s.threads[h].pc);
      var x := HolderReleases(s, h, a);
      var s1 := Run(s, x);
      Extend(s, x, s1, Go(a), Apply(s1, Go(a)));
      assert Left(Run(s, x + [Go(a)]), a);
    } else {
      RunOne(s, Go(a));
      assert Left(Run(s, [Go(a)]), a);
    }
  }

  /** How many steps a call in the critical section is away from releasing the word. */
  function StepsLeft<V>(pc: Pc<V>): nat {
    match pc
    case Recheck(_) => 7
    case Decide(_) => 6
    case Initialise => 5
    case Running => 4
    case Write(_) => 3
    case Publish(_) => 2
    case Explode => 2
    case _ => 1
  }

  /** An outcome the call's initialiser may end with. */
  function SomeOutcome<V>(call: Call<V>): Outcome<V> {
    match call
    case SetTo(own) => Value(own)
    case Peek => Break
    case _ => Panic
  }

  /** Left to run alone, a call in the critical section clears LOCK; other calls stay where they are. */
  lemma {:induction false} HolderReleases<V>(s: State<V>, h: Agent, a: Agent) returns (steps: seq<Step<V>>)
    requires h in s.threads && (Holds(s.threads[h].pc) || s.threads[h].pc.Release?) && s.word == LOCK
    requires a in s.threads && a != h
    ensures CanRun(s, steps) && !Run(s, steps).word.lock
    ensures a in Run(s, steps).threads && Run(s, steps).threads[a] == s.threads[a]
    decreases StepsLeft(s.threads[h].pc)
  {
    var step := if s.threads[h].pc.Running? then Yield(h, SomeOutcome(s.threads[h].call)) else Go(h);
    var s1 := Apply(s, step);
    if s1.word.lock {
      var rest := HolderReleases(s1, h, a);
      steps := [step] + rest;
      assert steps[1..] == rest;
    } else {
      RunOne(s, step);
      steps := [step];
    }
  }

  // ---------------------------------------------------------------- initialisers that break

  /** Every initialiser outcome of the run is one of `allowed`. */
  ghost predicate Uses<V>(steps: seq<Step<V>>, allowed: iset<Outcome<V>>) {
    forall i :: 0 <= i < |steps| && steps[i].Yield? ==> steps[i].outcome in allowed
  }

  /** No step of the run takes an initialised lock back. */
  ghost predicate KeepsInit<V>(s: State<V>, steps: seq<Step<V>>)
    requires CanRun(s, steps)
    decreases |steps|
  {
    steps == [] ||
    ((Inited(s) ==> Inited(Apply(s, steps[0]))) && KeepsInit(Apply(s, steps[0]), steps[1..]))
  }

  /** The calls a `LazyLock` offers, and those of a `OnceLock`. */
  predicate Offers<V>(lazy: bool, call: Call<V>) { if lazy then call.Peek? || call.Force? else !call.Force? }

  /** Only calls of that kind of lock are begun, and every outcome is one of `allowed`. */
  ghost predicate Fits<V>(steps: seq<Step<V>>, lazy: bool, allowed: iset<Outcome<V>>) {
    Uses(steps, allowed) && forall i :: 0 <= i < |steps| && steps[i].Begin? ==> Offers(lazy, steps[i].call)
  }

  ghost predicate Safe<V(!new)>(lazy: bool, allowed: iset<Outcome<V>>) {
    forall steps: seq<Step<V>> :: CanRun(New(), steps) && Fits(steps, lazy, allowed) ==> KeepsInit(New(), steps)
  }

  /**
    As written, the shared-reference path drops the bomb after a break.  "Initialised stays
    initialised" then holds, for either kind of lock and a set of initialiser outcomes, iff a break and
    a value cannot meet.
    */
  lemma SafeIffNoBreakBesideValue<V(!new)>(lazy: bool, allowed: iset<Outcome<V>>)
    ensures Safe(lazy, allowed) <==> !(Break in allowed && exists v :: Value(v) in allowed)
  {
    if Break in allowed && exists v :: Value(v) in allowed {
      var v :| Value(v) in allowed;
      BreakLosesInit(lazy, v);
      LosingFits(lazy, v, allowed);
    } else {
      forall steps: seq<Step<V>> | CanRun(New(), steps) && Fits(steps, lazy, allowed)
        ensures KeepsInit(New(), steps)
      {
        SafeRun(steps, allowed);
      }
    }
  }

  lemma LosingFits<V>(lazy: bool, v: V, allowed: iset<Outcome<V>>)
    requires Break in allowed && Value(v) in allowed
    ensures Fits(LosingRun(lazy, v), lazy, allowed)
  {
  }

  lemma SafeRun<V(!new)>(steps: seq<Step<V>>, allowed: iset<Outcome<V>>)
    requires CanRun(New(), steps) && Uses(steps, allowed)
    requires Break !in allowed || forall v :: Value(v) !in allowed
    ensures KeepsInit(New(), steps)
  {
    if Break !in allowed {
      InitialInv(New<V>());
      BreakFreeKeepsInit(New(), steps);
    } else {
      ValueFreeKeepsInit(New(), steps, allowed);
    }
  }

  lemma {:induction false} BreakFreeKeepsInit<V>(s: State<V>, steps: seq<Step<V>>)
    requires Inv(s) && CanRun(s, steps) && BreakFree(steps)
    ensures KeepsInit(s, steps)
    decreases |steps|
  {
    if steps != [] {
      StepKeepsInv(s, steps[0]);
      StepAbsorbs(s, steps[0]);
      BreakFreeKeepsInit(Apply(s, steps[0]), steps[1..]);
    }
  }

  /** Nobody has a value to write, so INIT never appears. */
  predicate NoValue<V>(s: State<V>) {
    !Inited(s) && forall a :: a in s.threads ==> !s.threads[a].pc.Write? && !s.threads[a].pc.Publish?
  }

  lemma {:induction false} ValueFreeKeepsInit<V(!new)>(s: State<V>, steps: seq<Step<V>>, allowed: iset<Outcome<V>>)
    requires NoValue(s) && CanRun(s, steps) && Uses(steps, allowed)
    requires forall v :: Value(v) !in allowed
    ensures KeepsInit(s, steps)
    decreases |steps|
  {
    if steps != [] {
      NoValueStep(s, steps[0]);
      ValueFreeKeepsInit(Apply(s, steps[0]), steps[1..], allowed);
    }
  }

  lemma NoValueStep<V>(s: State<V>, step: Step<V>)
    requires NoValue(s) && Enabled(s, step) && !(step.Yield? && step.outcome.Value?)
    ensures NoValue(Apply(s, step))
  {
    var s' := Apply(s, step);
    if step.Go? {
      assert !s.threads[step.a].pc.Write? && !s.threads[step.a].pc.Publish?;
      NoValueMove(s, s', step.a, s'.threads[step.a]);
    } else {
      NoValueMove(s, s', step.a, s'.threads[step.a]);
    }
  }

  lemma NoValueMove<V>(s: State<V>, s': State<V>, a: Agent, t: Thread<V>)
    requires NoValue(s) && s'.threads == s.threads[a := t] && !t.pc.Write? && !t.pc.Publish? && !Inited(s')
    ensures NoValue(s')
  {
  }

  lemma {:induction false} RunAppend<V>(s: State<V>, x: seq<Step<V>>, y: seq<Step<V>>)
    requires CanRun(s, x) && CanRun(Run(s, x), y)
    ensures CanRun(s, x + y) && Run(s, x + y) == Run(Run(s, x), y)
    decreases |x|
  {
    if x == [] {
      assert x + y == y;
    } else {
      assert (x + y)[0] == x[0] && (x + y)[1..] == x[1..] + y;
      RunAppend(Apply(s, x[0]), x[1..], y);
    }
  }

  lemma {:induction false} KeepsInitSuffix<V>(s: State<V>, x: seq<Step<V>>, y: seq<Step<V>>)
    requires CanRun(s, x) && CanRun(Run(s, x), y) && CanRun(s, x + y) && KeepsInit(s, x + y)
    ensures KeepsInit(Run(s, x), y)
    decreases |x|
  {
    if x == [] {
      assert x + y == y;
    } else {
      assert (x + y)[0] == x[0] && (x + y)[1..] == x[1..] + y;
      KeepsInitSuffix(Apply(s, x[0]), x[1..], y);
    }
  }

  lemma RunOne<V>(s: State<V>, step: Step<V>)
    requires Enabled(s, step)
    ensures CanRun(s, [step]) && Run(s, [step]) == Apply(s, step)
  {
    assert [step][1..] == [];
    assert CanRun(Apply(s, step), []);
  }

  /** One more step, from a known state to a known state. */
  lemma Extend<V>(s0: State<V>, x: seq<Step<V>>, s: State<V>, step: Step<V>, s': State<V>)
    requires CanRun(s0, x) && Run(s0, x) == s && Enabled(s, step) && Apply(s, step) == s'
    ensures CanRun(s0, x + [step]) && Run(s0, x + [step]) == s'
  {
    RunOne(s, step);
    RunAppend(s0, x, [step]);
  }

  /** `s` with call `a` at `pc` and the word `w`. */
  function At<V>(s: State<V>, a: Agent, call: Call<V>, w: Word, pc: Pc<V>): State<V> {
    s.(word := w, threads := s.threads[a := Thread(call, pc)])
  }

  predicate Here<V(==)>(s: State<V>, a: Agent, call: Call<V>, pc: Pc<V>) {
    a in s.threads && s.threads[a] == Thread(call, pc)
  }

  lemma MoveAt<V>(s: State<V>, a: Agent, call: Call<V>, w: Word, pc: Pc<V>, pc': Pc<V>)
    ensures Move(At(s, a, call, w, pc), a, pc') == At(s, a, call, w, pc')
  {
    assert s.threads[a := Thread(call, pc)][a := Thread(call, pc')] == s.threads[a := Thread(call, pc')];
  }

  lemma AdvanceAt<V>(s: State<V>, a: Agent, call: Call<V>, w: Word, pc: Pc<V>, w': Word, pc': Pc<V>)
    requires Enabled(At(s, a, call, w, pc), Step.Go(a))
    requires Advance(At(s, a, call, w, pc), a) == Move(At(s, a, call, w', pc), a, pc')
    ensures Apply(At(s, a, call, w, pc), Go(a)) == At(s, a, call, w', pc')
  {
    MoveAt(s, a, call, w', pc, pc');
  }

  /** A call that finds the word clear gets as far as its initialiser. */
  function ToAcquire<V>(a: Agent, call: Call<V>): seq<Step<V>> {
    [Begin(a, call)] + [Go(a)] + [Go(a)]
  }

  function ToLock<V>(a: Agent, call: Call<V>): seq<Step<V>> {
    ToAcquire(a, call) + [Go(a)]
  }

  function ToInitialise<V>(a: Agent, call: Call<V>): seq<Step<V>> {
    ToLock(a, call) + [Go(a)] + [Go(a)]
  }

  function ToInitialiser<V>(a: Agent, call: Call<V>): seq<Step<V>> {
    ToInitialise(a, call) + [Go(a)]
  }

  lemma ReachAcquire<V>(s: State<V>, a: Agent, call: Call<V>)
    requires s.word == ZERO && a !in s.threads
    ensures CanRun(s, ToAcquire(a, call)) && Run(s, ToAcquire(a, call)) == At(s, a, call, ZERO, Acquire)
  {
    var x := [Begin(a, call)];
    RunOne(s, Begin(a, call));
    AdvanceAt(s, a, call, ZERO, Start, ZERO, CheckPoison);
    Extend(s, x, At(s, a, call, ZERO, Start), Go(a), At(s, a, call, ZERO, CheckPoison));
    AdvanceAt(s, a, call, ZERO, CheckPoison, ZERO, Acquire);
    Extend(s, x + [Go(a)], At(s, a, call, ZERO, CheckPoison), Go(a), At(s, a, call, ZERO, Acquire));
  }

  lemma ReachLock<V>(s: State<V>, a: Agent, call: Call<V>)
    requires s.word == ZERO && a !in s.threads
    ensures CanRun(s, ToLock(a, call)) && Run(s, ToLock(a, call)) == At(s, a, call, LOCK, Recheck(ZERO))
  {
    ReachAcquire(s, a, call);
    AdvanceAt(s, a, call, ZERO, Acquire, LOCK, Recheck(ZERO));
    Extend(s, ToAcquire(a, call), At(s, a, call, ZERO, Acquire), Go(a), At(s, a, call, LOCK, Recheck(ZERO)));
  }

  lemma ReachInitialise<V>(s: State<V>, a: Agent, call: Call<V>)
    requires s.word == ZERO && a !in s.threads
    ensures CanRun(s, ToInitialise(a, call))
    ensures Run(s, ToInitialise(a, call)) == At(s, a, call, LOCK, Initialise)
  {
    var x := ToLock(a, call);
    ReachLock(s, a, call);
    AdvanceAt(s, a, call, LOCK, Recheck(ZERO), LOCK, Decide(ZERO));
    Extend(s, x, At(s, a, call, LOCK, Recheck(ZERO)), Go(a), At(s, a, call, LOCK, Decide(ZERO)));
    AdvanceAt(s, a, call, LOCK, Decide(ZERO), LOCK, Initialise);
    Extend(s, x + [Go(a)], At(s, a, call, LOCK, Decide(ZERO)), Go(a), At(s, a, call, LOCK, Initialise));
  }

  /** `s` once the call has taken what its initialiser needs. */
  function Taken<V>(s: State<V>, call: Call<V>): State<V> {
    if call.Force? then s.(initFn := false, takes := s.takes + 1) else s
  }

  lemma ReachInitialiser<V>(s: State<V>, a: Agent, call: Call<V>)
    requires s.word == ZERO && a !in s.threads && (call.Force? ==> s.initFn)
    ensures CanRun(s, ToInitialiser(a, call))
    ensures Run(s, ToInitialiser(a, call)) == At(Taken(s, call), a, call, LOCK, Running)
  {
    ReachInitialise(s, a, call);
    MoveAt(Taken(s, call), a, call, LOCK, Initialise, Running);
    Extend(s, ToInitialise(a, call), At(s, a, call, LOCK, Initialise), Go(a),
           At(Taken(s, call), a, call, LOCK, Running));
  }

  /** A call whose initialiser breaks releases the word, its bomb still to be dropped. */
  function ToBreak<V>(a: Agent, call: Call<V>): seq<Step<V>> {
    ToInitialiser(a, call) + [Yield(a, Break)] + [Go(a)]
  }

  lemma ReachBreak<V>(s: State<V>, a: Agent, call: Call<V>)
    requires s.word == ZERO && a !in s.threads && (call.GetOrInit? || call.Peek?)
    ensures CanRun(s, ToBreak(a, call)) && Run(s, ToBreak(a, call)) == At(s, a, call, ZERO, ExplodeAfter)
  {
    var x := ToInitialiser(a, call);
    ReachInitialiser(s, a, call);
    MoveAt(s, a, call, LOCK, Running, Release);
    Extend(s, x, At(s, a, call, LOCK, Running), Yield(a, Break), At(s, a, call, LOCK, Release));
    AdvanceAt(s, a, call, LOCK, Release, ZERO, ExplodeAfter);
    Extend(s, x + [Yield(a, Break)], At(s, a, call, LOCK, Release), Go(a), At(s, a, call, ZERO, ExplodeAfter));
  }

  /** A `get` that finds the lock free and uninitialised, left to run alone, poisons it. */
  lemma PeekPoisons<V>(s: State<V>, a: Agent)
    requires s.word == ZERO && a !in s.threads
    ensures var alone := ToBreak(a, Peek) + [Go(a)];
            CanRun(s, alone) && Poisoned(Run(s, alone))
  {
    ReachBreak(s, a, Peek);
    AdvanceAt(s, a, Peek, ZERO, ExplodeAfter, POISONED, Broke);
    Extend(s, ToBreak(a, Peek), At(s, a, Peek, ZERO, ExplodeAfter), Go(a), At(s, a, Peek, POISONED, Broke));
  }

  function ToValue<V>(a: Agent, call: Call<V>, v: V): seq<Step<V>> {
    ToInitialiser<V>(a, call) + [Yield(a, Value(v))] + [Go(a)] + [Go(a)]
  }

  /** `s` once call `a` has stored `v`. */
  function Stored<V>(s: State<V>, a: Agent, call: Call<V>, v: V): State<V> {
    Taken(s, call).(cell := Some(v), writes := s.writes + 1, storedBy := Some(a))
  }

  lemma ReachWrite<V>(s: State<V>, a: Agent, call: Call<V>, v: V)
    requires s.word == ZERO && a !in s.threads && (call.GetOrInit? || (call.Force? && s.initFn))
    ensures var x := ToInitialiser<V>(a, call) + [Yield(a, Value(v))];
            CanRun(s, x) && Run(s, x) == At(Taken(s, call), a, call, LOCK, Write(v))
  {
    var t := Taken(s, call);
    ReachInitialiser(s, a, call);
    MoveAt(t, a, call, LOCK, Running, Write(v));
    Extend(s, ToInitialiser(a, call), At(t, a, call, LOCK, Running), Yield(a, Value(v)),
           At(t, a, call, LOCK, Write(v)));
  }

  lemma ReachValue<V>(s: State<V>, a: Agent, call: Call<V>, v: V)
    requires s.word == ZERO && a !in s.threads && (call.GetOrInit? || (call.Force? && s.initFn))
    ensures CanRun(s, ToValue(a, call, v))
    ensures Run(s, ToValue(a, call, v)) == At(Stored(s, a, call, v), a, call, INIT, Returned(v, true))
  {
    var x := ToInitialiser<V>(a, call);
    var t, u := Taken(s, call), Stored(s, a, call, v);
    ReachWrite(s, a, call, v);
    MoveAt(u, a, call, LOCK, Write(v), Publish(v));
    Extend(s, x + [Yield(a, Value(v))], At(t, a, call, LOCK, Write(v)), Go(a), At(u, a, call, LOCK, Publish(v)));
    AdvanceAt(u, a, call, LOCK, Publish(v), INIT, Returned(v, true));
    Extend(s, x + [Yield(a, Value(v))] + [Go(a)], At(u, a, call, LOCK, Publish(v)), Go(a),
           At(u, a, call, INIT, Returned(v, true)));
  }

  /** How a lock of either kind is initialised. */
  function Initialiser<V>(lazy: bool): Call<V> { if lazy then Force else GetOrInit }

  /** `get` 0 breaks and releases the word; call 1 initialises; call 0 then drops its bomb. */
  function LosingRun<V>(lazy: bool, v: V): seq<Step<V>> {
    ToBreak<V>(0, Peek) + ToValue(1, Initialiser(lazy), v) + [Go(0)]
  }

  lemma BreakLosesInit<V>(lazy: bool, v: V)
    ensures CanRun(New(), LosingRun(lazy, v)) && !KeepsInit(New(), LosingRun(lazy, v))
    ensures !Inited(Run(New(), LosingRun(lazy, v)))
  {
    LosingPrefix(lazy, v);
    var s: State<V> := New();
    var x := ToBreak<V>(0, Peek) + ToValue(1, Initialiser(lazy), v);
    var top := Run(s, x);
    Extend(s, x, top, Go(0), Apply(top, Go(0)));
    RunOne(top, Go(0));
    if KeepsInit(s, x + [Go(0)]) {
      KeepsInitSuffix(s, x, [Go(0)]);
    }
  }

  lemma LosingPrefix<V>(lazy: bool, v: V)
    ensures var x := ToBreak<V>(0, Peek) + ToValue(1, Initialiser(lazy), v);
            && CanRun(New<V>(), x) && Inited(Run(New<V>(), x))
            && Here(Run(New<V>(), x), 0, Peek, ExplodeAfter)
  {
    var x := ToBreak<V>(0, Peek);
    ReachBreak(New<V>(), 0, Peek);
    ReachValue(Run(New<V>(), x), 1, Initialiser(lazy), v);
    RunAppend(New<V>(), x, ToValue(1, Initialiser(lazy), v));
  }

  // ---------------------------------------------------------------- a stuck spinner

  /** Calls 1 and 2 pass their poison check; call 0 initialises; call 1 then sets LOCK beside INIT. */
  function StrandingRun<V>(v: V): seq<Step<V>> {
    ToAcquire<V>(1, GetOrInit) + ToAcquire<V>(2, GetOrInit) + ToValue(0, GetOrInit, v) + [Go(1)]
  }

  /** A run without breaks or panics from a fresh lock that leaves call 2 spinning for ever on an initialised lock. */
  lemma SpinnerStrands<V(!new)>(v: V)
    ensures CanRun(New(), StrandingRun(v)) && BreakFree(StrandingRun(v))
    ensures var s := Run(New(), StrandingRun(v));
            && Inited(s) && Settled(s) && s.cell == Some(v)
            && 2 in s.threads && s.threads[2].pc.Acquire? && !CanLeave(s, 2)
  {
    var s: State<V> := New();
    var x := ToAcquire<V>(1, GetOrInit) + ToAcquire<V>(2, GetOrInit);
    TwoAtAcquire<V>();
    ReachValue(Run(s, x), 0, GetOrInit, v);
    RunAppend(s, x, ToValue(0, GetOrInit, v));
    x := x + ToValue(0, GetOrInit, v);
    var top := Run(s, x);
    assert Here(top, 1, GetOrInit, Acquire) && Here(top, 2, GetOrInit, Acquire);
    LateArrival(top, 1, 2);
    Extend(s, x, top, Go(1), Apply(top, Go(1)));
    StrandingIsBreakFree(v);
    SpinnerCanLeaveIff(s, StrandingRun(v), 2);
  }

  lemma TwoAtAcquire<V>()
    ensures var x := ToAcquire<V>(1, GetOrInit) + ToAcquire<V>(2, GetOrInit);
            && CanRun(New<V>(), x) && Run(New<V>(), x).word == ZERO && 0 !in Run(New<V>(), x).threads
            && Here(Run(New<V>(), x), 1, GetOrInit, Acquire) && Here(Run(New<V>(), x), 2, GetOrInit, Acquire)
  {
    var x := ToAcquire<V>(1, GetOrInit);
    ReachAcquire(New<V>(), 1, GetOrInit);
    ReachAcquire(Run(New<V>(), x), 2, GetOrInit);
    RunAppend(New<V>(), x, ToAcquire(2, GetOrInit));
  }

  /** A call that finds INIT alone in the word settles the lock; the other one keeps spinning. */
  lemma LateArrival<V>(s: State<V>, a: Agent, b: Agent)
    requires a != b && s.word == INIT && Here(s, a, GetOrInit, Acquire) && Here(s, b, GetOrInit, Acquire)
    ensures Enabled(s, Step.Go(a))
    ensures var s' := Apply(s, Go(a)); Settled(s') && Inited(s') && s'.cell == s.cell && Here(s', b, GetOrInit, Acquire)
  {
  }

  lemma StrandingIsBreakFree<V>(v: V)
    ensures BreakFree(StrandingRun(v))
  {
  }

  // ---------------------------------------------------------------- breaks and mutual exclusion

  /** At most one initialiser is running. */
  predicate Alone<V>(s: State<V>) {
    forall a, b :: a in s.threads && b in s.threads && s.threads[a].pc.Running? && s.threads[b].pc.Running? ==> a == b
  }

  ghost predicate OneInitialiser<V(!new)>(lazy: bool, allowed: iset<Outcome<V>>) {
    forall steps: seq<Step<V>> :: CanRun(New(), steps) && Fits(steps, lazy, allowed) ==> Alone(Run(New(), steps))
  }

  predicate TakenOnce<V>(s: State<V>) { s.takes <= 1 && !s.expectFailed }

  ghost predicate InitFnSafe<V(!new)>(allowed: iset<Outcome<V>>) {
    forall steps: seq<Step<V>> :: CanRun(New(), steps) && Fits(steps, true, allowed) ==> TakenOnce(Run(New(), steps))
  }

  /** On either kind of lock, initialisers exclude each other over a set of outcomes iff none of them is a break. */
  lemma OneInitialiserIff<V(!new)>(lazy: bool, allowed: iset<Outcome<V>>)
    ensures OneInitialiser(lazy, allowed) <==> Break !in allowed
  {
    if Break in allowed {
      var third, fourth: Call<V> := Initialiser(lazy), if lazy then Peek else GetOrInit;
      BreaksOverlap(lazy, third, fourth);
      OverlapFits(lazy, third, fourth, allowed);
      var s := Run(New(), OverlapRun(third, fourth));
      assert s.threads[2].pc.Running? && s.threads[3].pc.Running?;
      assert !Alone(s);
    } else {
      forall steps: seq<Step<V>> | CanRun(New(), steps) && Fits(steps, lazy, allowed)
        ensures Alone(Run(New(), steps))
      {
        Reached(New(), steps);
      }
    }
  }

  /** In every run over a set of outcomes `LazyLock::force` finds its closure, iff none of them is a break. */
  lemma InitFnSafeIff<V(!new)>(allowed: iset<Outcome<V>>)
    ensures InitFnSafe(allowed) <==> Break !in allowed
  {
    if Break in allowed {
      BreaksOverlap<V>(true, Force, Force);
      OverlapFits<V>(true, Force, Force, allowed);
      assert !TakenOnce(Run(New(), OverlapRun<V>(Force, Force)));
    } else {
      forall steps: seq<Step<V>> | CanRun(New(), steps) && Fits(steps, true, allowed)
        ensures TakenOnce(Run(New(), steps))
      {
        InitFnTakenOnce(New(), steps);
      }
    }
  }

  /** `get` 0 has broken and cleared the word, `get` 1 is in its initialiser, call 2 is about to take the lock. */
  function Overlap1<V>(c: Call<V>): seq<Step<V>> { ToAcquire(2, c) + ToBreak<V>(0, Peek) + ToInitialiser<V>(1, Peek) }

  /** The bomb of 0 goes off, 2 takes the lock with POISONED set, and 1 breaks and clears the word. */
  function Overlap2<V>(): seq<Step<V>> { [Go(0)] + [Go(2)] + [Yield(1, Break)] + [Go(1)] }

  /** 2 passes its second poison check and initialises without holding LOCK. */
  function Overlap3<V>(): seq<Step<V>> { [Go(2)] + [Go(2)] + [Go(2)] }

  /** 3 takes the lock in the ordinary way. */
  function OverlapRun<V>(c: Call<V>, d: Call<V>): seq<Step<V>> {
    Overlap1(c) + Overlap2() + Overlap3() + (ToInitialise(3, d) + [Go(3)])
  }

  lemma OverlapFits<V>(lazy: bool, c: Call<V>, d: Call<V>, allowed: iset<Outcome<V>>)
    requires Break in allowed && Offers(lazy, c) && Offers(lazy, d)
    ensures Fits(OverlapRun(c, d), lazy, allowed)
  {
    FitsAppend(ToAcquire(2, c), ToBreak(0, Peek), lazy, allowed);
    FitsAppend(ToAcquire(2, c) + ToBreak(0, Peek), ToInitialiser(1, Peek), lazy, allowed);
    FitsAppend(Overlap1(c), Overlap2(), lazy, allowed);
    FitsAppend(Overlap1(c) + Overlap2(), Overlap3(), lazy, allowed);
    FitsAppend(Overlap1(c) + Overlap2() + Overlap3(), ToInitialise(3, d) + [Go(3)], lazy, allowed);
  }

  lemma FitsAppend<V>(x: seq<Step<V>>, y: seq<Step<V>>, lazy: bool, allowed: iset<Outcome<V>>)
    requires Fits(x, lazy, allowed) && Fits(y, lazy, allowed)
    ensures Fits(x + y, lazy, allowed)
  {
  }

  /** Call 2 is one that initialises. */
  predicate Plain<V>(c: Call<V>) { c.GetOrInit? || c.Force? }

  lemma Stage0<V>(c: Call<V>)
    requires Plain(c)
    ensures var x := ToAcquire(2, c) + ToBreak<V>(0, Peek);
            && CanRun(New<V>(), x)
            && var s := Run(New<V>(), x);
               && s.word == ZERO && s.initFn && 1 !in s.threads && 3 !in s.threads
               && Here(s, 0, Peek, ExplodeAfter) && Here(s, 2, c, Acquire)
  {
    var s1 := At(New<V>(), 2, c, ZERO, Acquire);
    ReachAcquire(New<V>(), 2, c);
    ReachBreak(s1, 0, Peek);
    RunAppend(New<V>(), ToAcquire(2, c), ToBreak(0, Peek));
    assert At(s1, 0, Peek, ZERO, ExplodeAfter).threads.Keys == {0, 2};
  }

  lemma Stage1<V>(c: Call<V>)
    requires Plain(c)
    ensures CanRun(New<V>(), Overlap1(c))
    ensures var s := Run(New<V>(), Overlap1(c));
            && s.word == LOCK && s.initFn && 3 !in s.threads
            && Here(s, 0, Peek, ExplodeAfter) && Here(s, 1, Peek, Running) && Here(s, 2, c, Acquire)
  {
    Stage0(c);
    var x := ToAcquire(2, c) + ToBreak<V>(0, Peek);
    ReachInitialiser(Run(New<V>(), x), 1, Peek);
    RunAppend(New<V>(), x, ToInitialiser(1, Peek));
  }

  lemma BombGoesOff<V>(s: State<V>, c: Call<V>)
    requires s.word == LOCK && s.initFn && 3 !in s.threads && Plain(c)
    requires Here(s, 0, Peek, ExplodeAfter) && Here(s, 1, Peek, Running) && Here(s, 2, c, Acquire)
    ensures CanRun(s, [Go(0)] + [Go(2)])
    ensures var s' := Run(s, [Go(0)] + [Go(2)]);
            && s'.initFn && 3 !in s'.threads && Here(s', 1, Peek, Running) && Here(s', 2, c, Recheck(POISONED))
  {
    var s1 := Apply(s, Go(0));
    RunOne(s, Go(0));
    Extend(s, [Go(0)], s1, Go(2), Apply(s1, Go(2)));
  }

  lemma Stage2<V>(s: State<V>, c: Call<V>)
    requires s.word == LOCK && s.initFn && 3 !in s.threads && Plain(c)
    requires Here(s, 0, Peek, ExplodeAfter) && Here(s, 1, Peek, Running) && Here(s, 2, c, Acquire)
    ensures CanRun(s, Overlap2())
    ensures var s' := Run(s, Overlap2());
            s'.word == ZERO && s'.initFn && 3 !in s'.threads && Here(s', 2, c, Recheck(POISONED))
  {
    BombGoesOff(s, c);
    var s2 := Run(s, [Go(0)] + [Go(2)]);
    var s3 := Apply(s2, Yield(1, Break));
    Extend(s, [Go(0)] + [Go(2)], s2, Yield(1, Break), s3);
    Extend(s, [Go(0)] + [Go(2)] + [Yield(1, Break)], s3, Go(1), Apply(s3, Go(1)));
  }

  lemma Stage3<V>(s: State<V>, c: Call<V>)
    requires s.word == ZERO && s.initFn && 3 !in s.threads && Here(s, 2, c, Recheck(POISONED)) && Plain(c)
    ensures CanRun(s, Overlap3())
    ensures var s' := Run(s, Overlap3());
            s'.word == ZERO && s'.initFn == !c.Force? && 3 !in s'.threads && Here(s', 2, c, Running)
  {
    var s1 := Apply(s, Go(2));
    RunOne(s, Go(2));
    var s2 := Apply(s1, Go(2));
    Extend(s, [Go(2)], s1, Go(2), s2);
    Extend(s, [Go(2)] + [Go(2)], s2, Go(2), Apply(s2, Go(2)));
  }

  lemma Stage4<V>(s: State<V>, c: Call<V>, d: Call<V>)
    requires s.word == ZERO && s.initFn == !c.Force? && 3 !in s.threads && Here(s, 2, c, Running)
    ensures CanRun(s, ToInitialise(3, d) + [Go(3)])
    ensures var s' := Run(s, ToInitialise(3, d) + [Go(3)]);
            && Here(s', 2, c, Running)
            && (!d.Force? ==> Here(s', 3, d, Running))
            && (c.Force? && d.Force? ==> s'.expectFailed)
  {
    ReachInitialise(s, 3, d);
    var s1 := At(s, 3, d, LOCK, Initialise);
    Extend(s, ToInitialise(3, d), s1, Go(3), Apply(s1, Go(3)));
  }

  /**
    Two `get` calls that break let call 2 initialise without the lock; call 3 then runs its initialiser
    beside it, or finds the closure of a `LazyLock` gone.
    */
  lemma BreaksOverlap<V>(lazy: bool, c: Call<V>, d: Call<V>)
    requires Plain(c) && Offers(lazy, c) && Offers(lazy, d)
    ensures CanRun(New(), OverlapRun(c, d))
    ensures var s := Run(New(), OverlapRun(c, d));
            && Here(s, 2, c, Running)
            && (!d.Force? ==> Here(s, 3, d, Running))
            && (c.Force? && d.Force? ==> s.expectFailed)
  {
    var s: State<V> := New();
    Stage1(c);
    var x := Overlap1(c);
    Stage2(Run(s, x), c);
    RunAppend(s, x, Overlap2());
    x := x + Overlap2();
    Stage3(Run(s, x), c);
    RunAppend(s, x, Overlap3());
    x := x + Overlap3();
    Stage4(Run(s, x), c, d);
    RunAppend(s, x, ToInitialise(3, d) + [Go(3)]);
  }
}
