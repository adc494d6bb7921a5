/**
 * Whole runs of small programs, derived from the step lemmas: a pair of
 * facts enumerated in order, the right disjunct that the source never runs,
 * and the reach of a cut.
 */
module Scenarios {
  import opened Wrappers
  import opened Terms
  import opened Frames
  import opened Unification
  import opened Rules
  import opened Renaming
  import opened Resolution
  import opened ResolutionProofs

  /** `a ; b`, for symbols `a` and `b` other than `!`. */
  function Either(a: string, b: string): Term {
    Compound(";", [Symbol(a), Symbol(b)])
  }

  /** The failure continuation disjoin builds for `a ; b` at the top. */
  function EitherFk(b: string): Fk {
    FDisj(Some(Symbol(b)), EmptyFrame, STop, FTop)
  }

  /**
   * With only the fact `b.` stored, the left disjunct `a` of `a ; b`
   * tries the fact, misses it and calls disjoin's failFunction.
   */
  lemma {:induction false} EitherLeftFails(a: string, b: string, fuel: nat, reading: Reading)
    requires a != b && a != "!" && fuel >= 6
    ensures Acyclic(EmptyFrame)
    ensures Run([Rule(Symbol(b), None)], Machine(Solve(Some(Either(a, b)), EmptyFrame, STop, FTop), 1), fuel, reading)
         == Run([Rule(Symbol(b), None)], Machine(Fail(EitherFk(b)), 2), fuel - 1 - 1 - 2 - 1, reading)
  {
    EmptyFrameAcyclic();
    var store := [Rule(Symbol(b), None)];
    var fd := EitherFk(b);
    RunSolve(store, Some(Either(a, b)), EmptyFrame, STop, FTop, 1, fuel, reading);
    RunSolve(store, Some(Symbol(a)), EmptyFrame, STop, fd, 1, fuel - 1, reading);
    assert Misses(Symbol(a), EmptyFrame, store, 0, 1);
    assert Skippable(Symbol(a), EmptyFrame, store, 0, 1, fd, 1);
    var k: nat := fuel - 1 - 1 - 2;
    assert k + 2 * 1 == fuel - 1 - 1;
    NoUnifyingRuleFails(store, Symbol(a), EmptyFrame, store, 0, STop, fd, 1, 1, k, reading);
  }

  /** The right disjunct `b` alone, with the fact `b.` stored: one answer, the empty frame. */
  lemma {:induction false} EitherRightAnswers(b: string, n: RuleId, fuel: nat)
    requires b != "!" && fuel >= 7
    ensures Acyclic(EmptyFrame)
    ensures Run([Rule(Symbol(b), None)], Machine(Solve(Some(Symbol(b)), EmptyFrame, STop, FTop), n), fuel, Corrected)
         == Outcome([EmptyFrame], Exhausted, n + 1)
  {
    EmptyFrameAcyclic();
    var store := [Rule(Symbol(b), None)];
    RunSolve(store, Some(Symbol(b)), EmptyFrame, STop, FTop, n, fuel, Corrected);
    assert TryRule(Symbol(b), EmptyFrame, store, 0, n) == Some(EmptyFrame);
    assert FactsYield(Symbol(b), EmptyFrame, store, 0, n, [EmptyFrame]);
    var k: nat := fuel - 1 - 4 * 1;
    FactsAnswerInOrder(store, Symbol(b), EmptyFrame, store, 0, n, [EmptyFrame], k, Corrected);
  }

  /**
   * `a ; b` with only the fact `b.` stored: with disjoin's failFunction
   * applied the query answers once, through its right disjunct; as
   * written the run ends when the left disjunct fails, with no answer.
   */
  lemma EitherQuery(a: string, b: string, fuel: nat)
    requires a != b && a != "!" && b != "!" && fuel >= 13
    ensures Acyclic(EmptyFrame)
    ensures Query([Rule(Symbol(b), None)], Either(a, b), EmptyFrame, 1, fuel) == Outcome([EmptyFrame], Exhausted, 3)
    ensures Run([Rule(Symbol(b), None)], Machine(Solve(Some(Either(a, b)), EmptyFrame, STop, FTop), 1), fuel, AsWritten)
         == Outcome([], Dropped, 2)
  {
    EmptyFrameAcyclic();
    var store := [Rule(Symbol(b), None)];
    var rest: nat := fuel - 1 - 1 - 2 - 1;
    EitherLeftFails(a, b, fuel, Corrected);
    EitherLeftFails(a, b, fuel, AsWritten);
    RunDisjFailure(store, Some(Symbol(b)), EmptyFrame, STop, FTop, 2, rest);
    EitherRightAnswers(b, 2, rest - 1);
  }

  /** `rel(a, v)`, a binary fact or goal. */
  function Pair(rel: string, a: string, v: Term): Term {
    Compound(rel, [Symbol(a), v])
  }

  /** The frame frameToObject shows as `{x: v}`. */
  function Binding(x: string, v: string): Frame {
    Bind(VarKey(x, None), Symbol(v), EmptyFrame)
  }

  /** `rel(a, b). rel(a, c).` */
  function TwoFacts(rel: string, a: string, b: string, c: string): seq<Rule> {
    [Rule(Pair(rel, a, Symbol(b)), None), Rule(Pair(rel, a, Symbol(c)), None)]
  }

  /** rel(a, X) against the renamed fact rel(a, v) binds X to v and nothing else. */
  lemma UnifyWithFact(rel: string, a: string, x: string, v: string, id: RuleId)
    ensures Acyclic(EmptyFrame)
    ensures Unify(Pair(rel, a, Variable(x, None)), Renamed(Pair(rel, a, Symbol(v)), id), EmptyFrame) == Some(Binding(x, v))
  {
    EmptyFrameAcyclic();
    var p1, p2 := Pair(rel, a, Variable(x, None)), Pair(rel, a, Symbol(v));
    assert Renamed(p2, id).args == p2.args;
    UnifyCompoundCase(p1, p2, EmptyFrame);
    UnifyArgsStep(p1, p2, 0, EmptyFrame);
    assert Unify(Symbol(a), Symbol(a), EmptyFrame) == Some(EmptyFrame);
    UnifyArgsStep(p1, p2, 1, EmptyFrame);
    assert !IsDependent(Variable(x, None), Symbol(v), EmptyFrame);
    assert Unify(Variable(x, None), Symbol(v), EmptyFrame) == Some(Binding(x, v));
    UnifyArgsEnd(p1, p2, Binding(x, v));
  }

  /**
   * With the facts `rel(a, b). rel(a, c).` stored, the query rel(a, X)
   * answers X = b, then X = c, in the order of the facts, and then fails;
   * each fact tried takes an id.
   */
  lemma TwoFactsQuery(rel: string, a: string, b: string, c: string, x: string, fuel: nat)
    requires rel != "," && rel != ";" && fuel >= 11
    ensures Acyclic(EmptyFrame)
    ensures Query(TwoFacts(rel, a, b, c), Pair(rel, a, Variable(x, None)), EmptyFrame, 1, fuel)
         == Outcome([Binding(x, b), Binding(x, c)], Exhausted, 3)
  {
    EmptyFrameAcyclic();
    var p, store := Pair(rel, a, Variable(x, None)), TwoFacts(rel, a, b, c);
    var answers := [Binding(x, b), Binding(x, c)];
    UnifyWithFact(rel, a, x, b, 1);
    UnifyWithFact(rel, a, x, c, 2);
    assert TryRule(p, EmptyFrame, store, 0, 1) == Some(answers[0]);
    assert TryRule(p, EmptyFrame, store, 1, 2) == Some(answers[1]);
    assert FactsYield(p, EmptyFrame, store, 2, 3, answers[1..][1..]);
    assert FactsYield(p, EmptyFrame, store, 0, 1, answers);
    RunSolve(store, Some(p), EmptyFrame, STop, FTop, 1, fuel, Corrected);
    var k: nat := fuel - 1 - 4 * 2;
    FactsAnswerInOrder(store, p, EmptyFrame, store, 0, 1, answers, k, Corrected);
  }

  /** `q. q.`: the same fact stored twice. */
  function Twice(q: string): seq<Rule> {
    [Rule(Symbol(q), None), Rule(Symbol(q), None)]
  }

  /** `!, q` */
  function CutThen(q: string): Term {
    Compound(",", [Symbol("!"), Symbol(q)])
  }

  /** Without a cut, `q` answers once per stored fact. */
  lemma TwiceQuery(q: string, n: RuleId, fuel: nat)
    requires q != "!" && fuel >= 11
    ensures Acyclic(EmptyFrame)
    ensures Query(Twice(q), Symbol(q), EmptyFrame, n, fuel) == Outcome([EmptyFrame, EmptyFrame], Exhausted, n + 2)
  {
    EmptyFrameAcyclic();
    var store := Twice(q);
    var answers := [EmptyFrame, EmptyFrame];
    assert TryRule(Symbol(q), EmptyFrame, store, 0, n) == Some(EmptyFrame);
    assert TryRule(Symbol(q), EmptyFrame, store, 1, n + 1) == Some(EmptyFrame);
    assert FactsYield(Symbol(q), EmptyFrame, store, 2, n + 2, answers[1..][1..]);
    assert FactsYield(Symbol(q), EmptyFrame, store, 0, n, answers);
    RunSolve(store, Some(Symbol(q)), EmptyFrame, STop, FTop, n, fuel, Corrected);
    var k: nat := fuel - 1 - 4 * 2;
    FactsAnswerInOrder(store, Symbol(q), EmptyFrame, store, 0, n, answers, k, Corrected);
  }

  /** `!, q` runs the cut, which succeeds with cutFunction as the failure continuation, and then searches for `q`. */
  lemma CutThenSearches(q: string, fuel: nat, reading: Reading)
    requires q != "!" && fuel >= 5
    ensures Acyclic(EmptyFrame)
    ensures Run(Twice(q), Machine(Solve(Some(CutThen(q)), EmptyFrame, STop, FTop), 1), fuel, reading)
         == Run(Twice(q), Machine(Search(Symbol(q), EmptyFrame, Stream(Twice(q), 0), STop, FCut), 1), fuel - 1 - 1 - 1 - 1, reading)
  {
    EmptyFrameAcyclic();
    var store := Twice(q);
    RunSolve(store, Some(CutThen(q)), EmptyFrame, STop, FTop, 1, fuel, reading);
    RunSolve(store, Some(Symbol("!")), EmptyFrame, SConj(Some(Symbol(q)), STop), FTop, 1, fuel - 1, reading);
    RunConjSuccess(store, Some(Symbol(q)), STop, EmptyFrame, FCut, 1, fuel - 1 - 1, reading);
    RunSolve(store, Some(Symbol(q)), EmptyFrame, STop, FCut, 1, fuel - 1 - 1 - 1, reading);
  }

  /** After the cut, the first fact answers, and asking for the next answer calls ngFunction. */
  lemma CutFirstAnswer(q: string, n: RuleId, fuel: nat, reading: Reading)
    requires fuel >= 5
    ensures Acyclic(EmptyFrame)
    ensures Run(Twice(q), Machine(Search(Symbol(q), EmptyFrame, Stream(Twice(q), 0), STop, FCut), n), fuel, reading)
         == Outcome([EmptyFrame], CutFailure, n + 1)
  {
    EmptyFrameAcyclic();
    var store := Twice(q);
    var failure := FNextRule(Symbol(q), Stream(store, 1), EmptyFrame, STop, FCut);
    assert TryRule(Symbol(q), EmptyFrame, store, 0, n) == Some(EmptyFrame);
    RunTryUnifies(store, Symbol(q), EmptyFrame, store, 0, STop, FCut, n, fuel, reading);
    RunSolve(store, None, EmptyFrame, STop, failure, n + 1, fuel - 1, reading);
    RunAnswer(store, EmptyFrame, failure, n + 1, fuel - 1 - 1, reading);
    RunNextRule(store, Symbol(q), Stream(store, 1), EmptyFrame, STop, FCut, n + 1, fuel - 1 - 1 - 1, reading);
  }

  /**
   * `!, q` with `q.` stored twice: one answer, and the cut keeps the second
   * fact from ever being tried. The cutFunction is interpreter-wide, so the
   * cut ends the whole query through ngFunction.
   */
  lemma CutThenQuery(q: string, fuel: nat)
    requires q != "!" && fuel >= 9
    ensures Acyclic(EmptyFrame)
    ensures Query(Twice(q), CutThen(q), EmptyFrame, 1, fuel) == Outcome([EmptyFrame], CutFailure, 2)
    ensures Query(Twice(q), Symbol(q), EmptyFrame, 1, fuel + 2) == Outcome([EmptyFrame, EmptyFrame], Exhausted, 3)
  {
    CutThenSearches(q, fuel, Corrected);
    CutFirstAnswer(q, 1, fuel - 1 - 1 - 1 - 1, Corrected);
    TwiceQuery(q, 1, fuel + 2);
  }
}
