/**
  The futex word behind `Mutex` and `RwLock`, as an interleaving of atomic steps.  An agent is one
  lock request and the guard it yields; there are unboundedly many of them, and a thread holding
  several guards is several agents.
 */
module Futex {

  const EXCLUSIVE: nat := 0x8000_0000
  const WORD_SIZE: nat := 0x1_0000_0000

  type Agent = nat

  datatype Phase =
    | Idle
    | WantShared(load: nat)     // inside `lock_shared`, with its local `load`
    | TryingShared(load: nat)   // inside `try_lock_shared`
    | WantExclusive             // inside `lock_exclusive`
    | Shared                    // holds a shared guard
    | Exclusive                 // holds the exclusive guard

  datatype State = State(word: nat, agents: map<Agent, Phase>)

  const INIT := State(0, map[])

  function PhaseOf(s: State, a: Agent): Phase {
    if a in s.agents then s.agents[a] else Idle
  }

  function Become(s: State, a: Agent, p: Phase): State {
    s.(agents := s.agents[a := p])
  }

  /** One atomic access to the word.  `weak` marks a weak compare-exchange that fails spuriously. */
  datatype Step =
    | BeginShared(a: Agent)
    | SharedCas(a: Agent, weak: bool)
    | SharedSpin(a: Agent)
    | BeginTryShared(a: Agent)
    | TrySharedCas(a: Agent, weak: bool)
    | TrySharedGiveUp(a: Agent)
    | BeginExclusive(a: Agent)
    | ExclusiveCas(a: Agent, weak: bool)
    | TryExclusive(a: Agent)
    | UnlockShared(a: Agent)
    | UnlockExclusive(a: Agent)
    | Downgrade(a: Agent)

  predicate Enabled(s: State, step: Step) {
    var p := PhaseOf(s, step.a);
    match step
    case BeginShared(_) => p.Idle?
    case SharedCas(_, _) => p.WantShared? && p.load < EXCLUSIVE
    case SharedSpin(_) => p.WantShared? && p.load >= EXCLUSIVE
    case BeginTryShared(_) => p.Idle?
    case TrySharedCas(_, _) => p.TryingShared? && p.load < EXCLUSIVE
    case TrySharedGiveUp(_) => p.TryingShared? && p.load >= EXCLUSIVE
    case BeginExclusive(_) => p.Idle?
    case ExclusiveCas(_, _) => p.WantExclusive?
    case TryExclusive(_) => p.Idle?
    case UnlockShared(_) => p.Shared?
    case UnlockExclusive(_) => p.Exclusive?
    case Downgrade(_) => p.Exclusive?
  }

  function Apply(s: State, step: Step): State
    requires Enabled(s, step)
  {
    var p := PhaseOf(s, step.a);
    match step
    case BeginShared(a) => Become(s, a, WantShared(0))
    case SharedCas(a, weak) =>
      if s.word == p.load && !weak
      then Become(s.(word := p.load + 1), a, Shared)
      else Become(s, a, WantShared(s.word))
    case SharedSpin(_) => s
    case BeginTryShared(a) => Become(s, a, TryingShared(s.word))
    case TrySharedCas(a, weak) =>
      if s.word == p.load && !weak
      then Become(s.(word := p.load + 1), a, Shared)
      else Become(s, a, TryingShared(s.word))
    case TrySharedGiveUp(a) => Become(s, a, Idle)
    case BeginExclusive(a) => Become(s, a, WantExclusive)
    case ExclusiveCas(a, weak) =>
      if s.word == 0 && !weak then Become(s.(word := EXCLUSIVE), a, Exclusive) else s
    case TryExclusive(a) =>
      if s.word == 0 then Become(s.(word := EXCLUSIVE), a, Exclusive) else s
    case UnlockShared(a) => Become(s.(word := (s.word + (WORD_SIZE - 1)) % WORD_SIZE), a, Idle)
    case UnlockExclusive(a) => Become(s.(word := 0), a, Idle)
    case Downgrade(a) => Become(s.(word := 1), a, Shared)
  }

  predicate CanRun(s: State, steps: seq<Step>)
    decreases |steps|
  {
    steps == [] || (Enabled(s, steps[0]) && CanRun(Apply(s, steps[0]), steps[1..]))
  }

  function Run(s: State, steps: seq<Step>): State
    requires CanRun(s, steps)
    decreases |steps|
  {
    if steps == [] then s else Run(Apply(s, steps[0]), steps[1..])
  }

  // ---------------------------------------------------------------- holders

  function Readers(s: State): set<Agent> { set a | a in s.agents && s.agents[a].Shared? }

  function Writers(s: State): set<Agent> { set a | a in s.agents && s.agents[a].Exclusive? }

  ghost predicate Inv(s: State) {
    && s.word == |Readers(s)| + EXCLUSIVE * |Writers(s)|
    && |Writers(s)| <= 1
    && (Writers(s) != {} ==> Readers(s) == {})
    && |Readers(s)| <= EXCLUSIVE
  }

  lemma HoldersAfter(s: State, w: nat, a: Agent, p: Phase)
    ensures Readers(Become(s.(word := w), a, p)) == if p.Shared? then Readers(s) + {a} else Readers(s) - {a}
    ensures Writers(Become(s.(word := w), a, p)) == if p.Exclusive? then Writers(s) + {a} else Writers(s) - {a}
  {
  }

  lemma NoOtherWriter(s: State, a: Agent)
    requires Inv(s) && PhaseOf(s, a).Exclusive?
    ensures Writers(s) == {a} && Readers(s) == {} && s.word == EXCLUSIVE
  {
    assert a in Writers(s);
    if b :| b in Writers(s) && b != a {
      assert {a, b} <= Writers(s);
      Subset({a, b}, Writers(s));
    }
  }

  lemma {:induction false} Subset(x: set<Agent>, y: set<Agent>)
    requires x <= y
    ensures |x| <= |y|
  {
    if x != {} {
      var e :| e in x;
      Subset(x - {e}, y - {e});
    }
  }

  lemma StayOut(s: State, a: Agent, p: Phase)
    requires Inv(s) && !PhaseOf(s, a).Shared? && !PhaseOf(s, a).Exclusive? && !p.Shared? && !p.Exclusive?
    ensures Inv(Become(s, a, p))
  {
    HoldersAfter(s, s.word, a, p);
    assert a !in Readers(s) && a !in Writers(s);
    assert Readers(Become(s, a, p)) == Readers(s) && Writers(Become(s, a, p)) == Writers(s);
  }

  lemma GainReader(s: State, a: Agent)
    requires Inv(s) && !PhaseOf(s, a).Shared? && !PhaseOf(s, a).Exclusive? && s.word < EXCLUSIVE
    ensures Inv(Become(s.(word := s.word + 1), a, Shared))
  {
    HoldersAfter(s, s.word + 1, a, Shared);
    assert a !in Readers(s) && a !in Writers(s);
    assert |Readers(s) + {a}| == |Readers(s)| + 1;
    assert |Writers(s)| == 0;
    assert Writers(s) == {};
  }

  lemma GainWriter(s: State, a: Agent)
    requires Inv(s) && s.word == 0
    ensures Inv(Become(s.(word := EXCLUSIVE), a, Exclusive))
  {
    HoldersAfter(s, EXCLUSIVE, a, Exclusive);
    assert |Readers(s)| == 0 && |Writers(s)| == 0;
    assert Readers(s) == {} && Writers(s) == {};
    assert Readers(s) - {a} == {} && Writers(s) + {a} == {a};
  }

  lemma LoseReader(s: State, a: Agent)
    requires Inv(s) && PhaseOf(s, a).Shared?
    ensures 0 < s.word <= EXCLUSIVE && Writers(s) == {}
    ensures Inv(Become(s.(word := s.word - 1), a, Idle))
  {
    assert a in Readers(s);
    assert |Writers(s)| == 0;
    assert |Readers(s) - {a}| == |Readers(s)| - 1;
    HoldersAfter(s, s.word - 1, a, Idle);
    assert Writers(s) - {a} == {};
  }

  lemma LoseWriter(s: State, a: Agent, p: Phase)
    requires Inv(s) && PhaseOf(s, a).Exclusive? && (p.Idle? || p.Shared?)
    ensures Inv(Become(s.(word := if p.Idle? then 0 else 1), a, p))
  {
    NoOtherWriter(s, a);
    HoldersAfter(s, if p.Idle? then 0 else 1, a, p);
    assert Readers(s) - {a} == {} && Readers(s) + {a} == {a} && Writers(s) - {a} == {};
  }

  lemma StepKeepsInv(s: State, step: Step)
    requires Inv(s) && Enabled(s, step)
    ensures Inv(Apply(s, step))
  {
    var a := step.a;
    match step
    case UnlockShared(_) => LoseReader(s, a);
    case UnlockExclusive(_) => LoseWriter(s, a, Idle);
    case Downgrade(_) => LoseWriter(s, a, Shared);
    case ExclusiveCas(_, weak) => if s.word == 0 && !weak { GainWriter(s, a); }
    case TryExclusive(_) => if s.word == 0 { GainWriter(s, a); }
    case SharedSpin(_) =>
    case _ =>
      var p := PhaseOf(Apply(s, step), a);
      if p.Shared? { GainReader(s, a); } else { StayOut(s, a, p); }
  }

  // ---------------------------------------------------------------- results over every run

  /** In every reachable state the word is the reader count plus 2^31 times the writer count. */
  lemma {:induction false} WordCountsHolders(s: State, steps: seq<Step>)
    requires Inv(s) && CanRun(s, steps)
    ensures Inv(Run(s, steps))
    decreases |steps|
  {
    if steps != [] {
      StepKeepsInv(s, steps[0]);
      WordCountsHolders(Apply(s, steps[0]), steps[1..]);
    }
  }

  lemma InitInv()
    ensures Inv(INIT)
  {
    assert Readers(INIT) == {} && Writers(INIT) == {};
  }

  /** A writer excludes every other holder, in every run, also across the wrap of 2^31 readers. */
  lemma WriterExcludesAll(steps: seq<Step>, a: Agent, b: Agent)
    requires CanRun(INIT, steps) && a != b
    requires PhaseOf(Run(INIT, steps), a).Exclusive?
    ensures !PhaseOf(Run(INIT, steps), b).Exclusive? && !PhaseOf(Run(INIT, steps), b).Shared?
  {
    InitInv();
    WordCountsHolders(INIT, steps);
    var s := Run(INIT, steps);
    NoOtherWriter(s, a);
    assert b !in Writers(s) && b !in Readers(s);
  }

  /** `downgrade` leaves the caller as the only reader. */
  lemma DowngradeLeavesOneReader(steps: seq<Step>, a: Agent)
    requires CanRun(INIT, steps) && Enabled(Run(INIT, steps), Downgrade(a))
    ensures var s' := Apply(Run(INIT, steps), Downgrade(a));
            Readers(s') == {a} && Writers(s') == {} && s'.word == 1
  {
    InitInv();
    WordCountsHolders(INIT, steps);
    var s := Run(INIT, steps);
    NoOtherWriter(s, a);
    HoldersAfter(s, 1, a, Shared);
  }

  predicate IsLocked(s: State) { s.word != 0 }

  predicate IsLockedExclusive(s: State) { s.word >= EXCLUSIVE }

  /** What the two queries report: `is_locked_exclusive` also says yes at exactly 2^31 readers. */
  lemma QueriesReport(steps: seq<Step>)
    requires CanRun(INIT, steps)
    ensures var s := Run(INIT, steps);
            && (IsLocked(s) <==> Readers(s) != {} || Writers(s) != {})
            && (IsLockedExclusive(s) <==> Writers(s) != {} || |Readers(s)| == EXCLUSIVE)
  {
    InitInv();
    WordCountsHolders(INIT, steps);
    var s := Run(INIT, steps);
    assert Writers(s) != {} ==> |Writers(s)| == 1;
  }

  /** While the word looks exclusively locked, whoever holds it, no step admits another holder. */
  lemma FullWordAdmitsNobody(s: State, step: Step)
    requires Inv(s) && Enabled(s, step) && IsLockedExclusive(s)
    ensures !step.Downgrade? ==> Readers(Apply(s, step)) <= Readers(s)
    ensures Writers(Apply(s, step)) <= Writers(s)
  {
    var s' := Apply(s, step);
    if step.a in s'.agents {
      HoldersAfter(s, s'.word, step.a, s'.agents[step.a]);
    }
  }

  // ---------------------------------------------------------------- when a shared request can still succeed

  /** `lock_shared` never reloads `load` after seeing the top bit: such a request waits for ever. */
  lemma {:induction false} SharedRequestStuck(s: State, steps: seq<Step>, a: Agent)
    requires CanRun(s, steps) && PhaseOf(s, a).WantShared? && PhaseOf(s, a).load >= EXCLUSIVE
    ensures PhaseOf(Run(s, steps), a) == PhaseOf(s, a)
    decreases |steps|
  {
    if steps != [] {
      SharedRequestStuck(Apply(s, steps[0]), steps[1..], a);
    }
  }

  /** Some continuation lets the waiting request `a` acquire the lock. */
  ghost predicate CanAcquire(s: State, a: Agent) {
    exists steps :: CanRun(s, steps) && PhaseOf(Run(s, steps), a).Shared?
  }

  /** A waiting shared request can still succeed iff its local `load` lacks the top bit. */
  lemma SharedRequestCanSucceedIff(s: State, a: Agent)
    requires Inv(s) && PhaseOf(s, a).WantShared?
    ensures CanAcquire(s, a) <==> PhaseOf(s, a).load < EXCLUSIVE
  {
    if PhaseOf(s, a).load >= EXCLUSIVE {
      forall steps | CanRun(s, steps)
        ensures !PhaseOf(Run(s, steps), a).Shared?
      {
        SharedRequestStuck(s, steps, a);
      }
    } else if s.word < EXCLUSIVE {
      AcquireInTwo(s, a);
    } else {
      var release: Step;
      if b :| b in Writers(s) {
        release := UnlockExclusive(b);
        NoOtherWriter(s, b);
      } else {
        release := AnyReader(s);
        LoseReader(s, release.a);
      }
      StepKeepsInv(s, release);
      var s1 := Apply(s, release);
      AcquireInTwo(s1, a);
      var rest :| CanRun(s1, rest) && PhaseOf(Run(s1, rest), a).Shared?;
      RunCons(s, release, rest);
    }
  }

  /** With the word full and no writer there is a reader, and it can leave. */
  ghost function AnyReader(s: State): (step: Step)
    requires Inv(s) && s.word >= EXCLUSIVE && Writers(s) == {}
    ensures step.UnlockShared? && Enabled(s, step)
  {
    assert Readers(s) != {};
    var b :| b in Readers(s);
    UnlockShared(b)
  }

  lemma AcquireInTwo(s: State, a: Agent)
    requires s.word < EXCLUSIVE && PhaseOf(s, a).WantShared? && PhaseOf(s, a).load < EXCLUSIVE
    ensures CanAcquire(s, a)
  {
    var step := SharedCas(a, false);
    var s1 := Apply(s, step);
    RunOne(s, step);
    if s.word != PhaseOf(s, a).load {
      RunOne(s1, step);
      RunCons(s, step, [step]);
    }
  }

  lemma RunOne(s: State, step: Step)
    requires Enabled(s, step)
    ensures CanRun(s, [step]) && Run(s, [step]) == Apply(s, step)
  {
    assert [step][1..] == [];
    assert CanRun(Apply(s, step), []);
  }

  lemma RunCons(s: State, step: Step, rest: seq<Step>)
    requires Enabled(s, step) && CanRun(Apply(s, step), rest)
    ensures CanRun(s, [step] + rest) && Run(s, [step] + rest) == Run(Apply(s, step), rest)
  {
    assert ([step] + rest)[1..] == rest;
  }

  /** Agent 0 locks, agent 1 asks for a shared lock and sees the top bit, agent 0 unlocks. */
  function StrandingRun(): seq<Step> {
    [TryExclusive(0)] + ([BeginShared(1)] + ([SharedCas(1, false)] + [UnlockExclusive(0)]))
  }

  /** One writer passing by is enough: the lock ends up free, and the waiting request can never take it. */
  lemma SharedRequestStrands()
    ensures CanRun(INIT, StrandingRun())
    ensures var s := Run(INIT, StrandingRun());
            && !IsLocked(s) && PhaseOf(s, 1) == WantShared(EXCLUSIVE) && !CanAcquire(s, 1)
  {
    var s1 := Apply(INIT, TryExclusive(0));
    var s2 := Apply(s1, BeginShared(1));
    var s3 := Apply(s2, SharedCas(1, false));
    RunOne(s3, UnlockExclusive(0));
    RunCons(s2, SharedCas(1, false), [UnlockExclusive(0)]);
    RunCons(s1, BeginShared(1), [SharedCas(1, false)] + [UnlockExclusive(0)]);
    RunCons(INIT, TryExclusive(0), [BeginShared(1)] + ([SharedCas(1, false)] + [UnlockExclusive(0)]));
    InitInv();
    WordCountsHolders(INIT, StrandingRun());
    SharedRequestCanSucceedIff(Run(INIT, StrandingRun()), 1);
  }

  // ---------------------------------------------------------------- requests left alone

  /** `lock_exclusive` takes the lock at a compare-exchange iff the word is 0 and it does not fail spuriously. */
  lemma ExclusiveTakesIff(s: State, a: Agent, weak: bool)
    requires Enabled(s, ExclusiveCas(a, weak))
    ensures var s' := Apply(s, ExclusiveCas(a, weak));
            if s.word == 0 && !weak then PhaseOf(s', a).Exclusive? && s'.word == EXCLUSIVE else s' == s
  {
  }

  /** `try_lock_exclusive` takes the lock iff the word is 0. */
  lemma TryExclusiveTakesIff(s: State, a: Agent)
    requires Enabled(s, TryExclusive(a))
    ensures var s' := Apply(s, TryExclusive(a));
            if s.word == 0 then PhaseOf(s', a).Exclusive? && s'.word == EXCLUSIVE else s' == s
  {
  }

  /** `lock_exclusive` on a free lock, left alone, holds it. */
  lemma LoneExclusive(s: State, a: Agent)
    requires PhaseOf(s, a).Idle? && s.word == 0
    ensures var run := [BeginExclusive(a)] + [ExclusiveCas(a, false)];
            CanRun(s, run) && PhaseOf(Run(s, run), a).Exclusive?
  {
    RunOne(Apply(s, BeginExclusive(a)), ExclusiveCas(a, false));
    RunCons(s, BeginExclusive(a), [ExclusiveCas(a, false)]);
  }

  /** `try_lock_shared`, left alone, becomes one more reader iff the top bit is clear, and else gives up. */
  lemma LoneTryShared(s: State, a: Agent)
    requires PhaseOf(s, a).Idle?
    ensures var last := if s.word < EXCLUSIVE then TrySharedCas(a, false) else TrySharedGiveUp(a);
            var run := [BeginTryShared(a)] + [last];
            && CanRun(s, run)
            && (s.word < EXCLUSIVE ==> PhaseOf(Run(s, run), a).Shared? && Run(s, run).word == s.word + 1)
            && (s.word >= EXCLUSIVE ==> PhaseOf(Run(s, run), a).Idle? && Run(s, run).word == s.word)
  {
    var last := if s.word < EXCLUSIVE then TrySharedCas(a, false) else TrySharedGiveUp(a);
    RunOne(Apply(s, BeginTryShared(a)), last);
    RunCons(s, BeginTryShared(a), [last]);
  }

  /** `lock_shared`, left alone with the top bit clear, becomes one more reader after at most two attempts. */
  lemma LoneShared(s: State, a: Agent)
    requires PhaseOf(s, a).Idle? && s.word < EXCLUSIVE
    ensures var cas := SharedCas(a, false);
            var run := [BeginShared(a)] + (if s.word == 0 then [cas] else [cas] + [cas]);
            CanRun(s, run) && PhaseOf(Run(s, run), a).Shared? && Run(s, run).word == s.word + 1
  {
    var cas := SharedCas(a, false);
    var s1 := Apply(s, BeginShared(a));
    RunOne(s1, cas);
    if s.word != 0 {
      RunOne(Apply(s1, cas), cas);
      RunCons(s1, cas, [cas]);
      RunCons(s, BeginShared(a), [cas] + [cas]);
    } else {
      RunCons(s, BeginShared(a), [cas]);
    }
  }
}
