/**
 * The resolution engine of executeQuery, conjoin, disjoin and simpleQuery.
 * The source threads closures: every query becomes a function of a success
 * continuation `success(frame, fail)` and a failure continuation `fail()`.
 * Here those closures are data (Sk, Fk) and running them is a small-step
 * machine, bounded by fuel since a search may not end.
 *
 * The interpreter-wide cutFunction is the failure continuation FCut: after
 * `!` every backtrack reaches it, and calling it calls ngFunction, which
 * ends the whole run (End.CutFailure).
 */
module Resolution {
  import opened Wrappers
  import opened Terms
  import opened Frames
  import opened Unification
  import opened Rules
  import opened Renaming

  /** Success continuations: the caller's own, or conjoin's successFunction. */
  datatype Sk =
    | STop
    | SConj(right: Option<Term>, next: Sk)

  /**
   * Failure continuations: the caller's own; cutFunction; the failFunction
   * of a rule try in simpleQuery (the rest of the stream to search); the
   * failFunction of disjoin (the right disjunct).
   */
  datatype Fk =
    | FTop
    | FCut
    | FNextRule(pattern: Term, rest: Stream, frame: Frame, sk: Sk, fk: Fk)
    | FDisj(right: Option<Term>, frame: Frame, sk: Sk, fk: Fk)

  /** How a run ends: the caller's fail was called, ngFunction was called,
      a continuation was returned without being applied, or fuel ran out. */
  datatype End = Exhausted | CutFailure | Dropped | OutOfFuel

  datatype Config =
    | Solve(goal: Option<Term>, frame: Frame, sk: Sk, fk: Fk)            // executeQuery(goal, frame)(sk, fk)
    | Search(pattern: Term, frame: Frame, rules: Stream, sk: Sk, fk: Fk)   // searchRule(rules)(sk, fk)
    | Succeed(sk: Sk, frame: Frame, fk: Fk)                                // sk(frame, fk)
    | Fail(fk: Fk)                                                         // fk()
    | Done(end: End)

  /** A configuration and the next rule-application id (currentRuleId). */
  datatype Machine = Machine(config: Config, nextId: RuleId)

  /** disjoin's failFunction as the source writes it, or with its result applied. */
  datatype Reading = AsWritten | Corrected

  datatype Transition = Transition(next: Machine, answer: Option<Frame>)

  datatype Outcome = Outcome(answers: seq<Frame>, end: End, nextId: RuleId)

  /** executeQuery's dispatch on the goal. */
  function SolveGoal(store: seq<Rule>, goal: Option<Term>, f: Frame, sk: Sk, fk: Fk): (c: Config)
    ensures c.Solve? || c.Search? || c.Succeed?
    ensures c.frame == f
    ensures c.Succeed? <==> goal.None? || goal.value == Symbol("!")
    ensures c.Succeed? ==> c.sk == sk && (c.fk == fk || c.fk == FCut)
    ensures c.Search? ==> c.pattern == goal.value && c.rules == Stream(store, 0) && c.sk == sk && c.fk == fk
  {
    if goal.None? then Succeed(sk, f, fk)
    else
      var q := goal.value;
      if q.Symbol? && q.value == "!" then Succeed(sk, f, FCut)
      else if q.Compound? && q.name == "," then Solve(Arg(q, 0), f, SConj(Arg(q, 1), sk), fk)
      else if q.Compound? && q.name == ";" then Solve(Arg(q, 0), f, sk, FDisj(Arg(q, 1), f, sk, fk))
      else Search(q, f, Stream(store, 0), sk, fk)
  }

  /** Calling a failure continuation; both failFunctions test `fail === cutFunction` first. */
  function Resume(fk: Fk, reading: Reading): (c: Config)
    ensures fk.FCut? ==> c == Done(CutFailure)
    ensures (fk.FNextRule? || fk.FDisj?) && fk.fk.FCut? ==> c == Fail(FCut)
    ensures c == Done(Dropped) ==> reading == AsWritten && fk.FDisj?
  {
    match fk
    case FTop => Done(Exhausted)
    case FCut => Done(CutFailure)
    case FNextRule(p, rest, f, sk, outer) =>
      if outer.FCut? then Fail(FCut) else Search(p, f, rest, sk, outer)
    case FDisj(right, f, sk, outer) =>
      if outer.FCut? then Fail(FCut)
      else if reading == AsWritten then Done(Dropped)
      else Solve(right, f, sk, outer)
  }

  /**
   * One step. A rule try takes the next id, renames the rule with it and
   * unifies the pattern with the renamed conclusion under the caller's
   * frame; the body runs on success, the try's failFunction is called on
   * failure. A success reaching the caller's continuation is an answer,
   * after which the next one is asked for by calling `fail`.
   */
  function Step(store: seq<Rule>, m: Machine, reading: Reading): (t: Transition)
    requires m.config.Search? ==> Acyclic(m.config.frame)
    ensures t.answer.Some? <==> m.config.Succeed? && m.config.sk.STop?
    ensures t.answer.Some? ==> t.answer.value == m.config.frame
    ensures m.config.Done? ==> t.next == m
    ensures t.next.nextId >= m.nextId
  {
    var n := m.nextId;
    match m.config
    case Solve(goal, f, sk, fk) => Transition(Machine(SolveGoal(store, goal, f, sk, fk), n), None)
    case Search(p, f, s, sk, fk) =>
      if s.IsNull() then Transition(Machine(Fail(fk), n), None)
      else
        var rule := RenamedRule(s.Value().value, n);
        var failure := FNextRule(p, s.Rest(), f, sk, fk);
        var unified := Unify(p, rule.conclusion, f);
        var c := if unified.Some? then Solve(rule.body, unified.value, sk, failure) else Fail(failure);
        Transition(Machine(c, n + 1), None)
    case Succeed(sk, f, fk) =>
      if sk.STop? then Transition(Machine(Fail(fk), n), Some(f))
      else Transition(Machine(Solve(sk.right, f, sk.next, fk), n), None)
    case Fail(fk) => Transition(Machine(Resume(fk, reading), n), None)
    case Done(_) => Transition(m, None)
  }

  // ---------------------------------------------------------------------
  // Every frame of a machine is acyclic

  ghost predicate FkOk(fk: Fk) {
    match fk
    case FTop => true
    case FCut => true
    case FNextRule(_, _, f, _, outer) => Acyclic(f) && FkOk(outer)
    case FDisj(_, f, _, outer) => Acyclic(f) && FkOk(outer)
  }

  ghost predicate ConfigOk(c: Config) {
    match c
    case Solve(_, f, _, fk) => Acyclic(f) && FkOk(fk)
    case Search(_, f, _, _, fk) => Acyclic(f) && FkOk(fk)
    case Succeed(_, f, fk) => Acyclic(f) && FkOk(fk)
    case Fail(fk) => FkOk(fk)
    case Done(_) => true
  }

  /**
   * A step keeps every frame acyclic, answers with an acyclic frame, and
   * takes an id exactly when it tries a rule.
   */
  lemma StepKeepsOk(store: seq<Rule>, m: Machine, reading: Reading)
    requires ConfigOk(m.config)
    ensures ConfigOk(Step(store, m, reading).next.config)
    ensures Step(store, m, reading).answer.Some? ==> Acyclic(Step(store, m, reading).answer.value)
    ensures Step(store, m, reading).next.nextId == m.nextId + (if m.config.Search? && !m.config.rules.IsNull() then 1 else 0)
  {
  }

  function Emitted(answer: Option<Frame>): (s: seq<Frame>)
    ensures |s| <= 1 && (answer.Some? ==> s == [answer.value]) && (answer.None? ==> s == [])
  {
    if answer.Some? then [answer.value] else []
  }

  /**
   * Up to `fuel` steps from `m`: the answers in the order they are found,
   * how the run ended and the id counter afterwards.
   */
  function Run(store: seq<Rule>, m: Machine, fuel: nat, reading: Reading): (r: Outcome)
    requires ConfigOk(m.config)
    ensures r.nextId >= m.nextId
    ensures |r.answers| <= fuel
    ensures forall i | 0 <= i < |r.answers| :: Acyclic(r.answers[i])
    ensures m.config.Done? ==> r == Outcome([], m.config.end, m.nextId)
    ensures reading == Corrected && m.config != Done(Dropped) ==> r.end != Dropped
  {
    Exec(store, m, fuel, reading)
  }

  /** The runs of Run, step by step. */
  function Exec(store: seq<Rule>, m: Machine, fuel: nat, reading: Reading): (r: Outcome)
    requires ConfigOk(m.config)
    ensures r.nextId >= m.nextId
    ensures |r.answers| <= fuel
    ensures forall i | 0 <= i < |r.answers| :: Acyclic(r.answers[i])
    ensures m.config.Done? ==> r == Outcome([], m.config.end, m.nextId)
    ensures reading == Corrected && m.config != Done(Dropped) ==> r.end != Dropped
    decreases fuel
  {
    if m.config.Done? then Outcome([], m.config.end, m.nextId)
    else if fuel == 0 then Outcome([], OutOfFuel, m.nextId)
    else
      var t := Step(store, m, reading);
      StepKeepsOk(store, m, reading);
      var rest := Exec(store, t.next, fuel - 1, reading);
      Outcome(Emitted(t.answer) + rest.answers, rest.end, rest.nextId)
  }

  /** executeQuery(query, frame)(success, fail) run to its end, within fuel. */
  function Query(store: seq<Rule>, query: Term, frame: Frame, nextId: RuleId, fuel: nat): (r: Outcome)
    requires Acyclic(frame)
    ensures r.nextId >= nextId && r.end != Dropped
    ensures forall i | 0 <= i < |r.answers| :: Acyclic(r.answers[i])
  {
    Run(store, Machine(Solve(Some(query), frame, STop, FTop), nextId), fuel, Corrected)
  }

  /** `k` steps, the answers they produce dropped. */
  function Steps(store: seq<Rule>, m: Machine, k: nat, reading: Reading): (r: Machine)
    requires ConfigOk(m.config)
    ensures ConfigOk(r.config) && r.nextId >= m.nextId
    decreases k
  {
    if k == 0 then m
    else
      StepKeepsOk(store, m, reading);
      Steps(store, Step(store, m, reading).next, k - 1, reading)
  }
}
