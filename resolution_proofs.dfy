/**
 * What the resolution engine promises: how each kind of goal proceeds, the
 * order in which rules are tried, how far a cut reaches, and what whole
 * runs of the simplest goals answer.
 *
 * Each lemma relates a run with `fuel` to a run with `fuel - 1` (or less)
 * from the configuration the step leads to, so that the lemmas chain.
 */
module ResolutionProofs {
  import opened Wrappers
  import opened Terms
  import opened Frames
  import opened Unification
  import opened Rules
  import opened Renaming
  import opened Resolution

  /** An answer found in front of the rest of a run. */
  function Prepend(f: Frame, o: Outcome): (r: Outcome)
    ensures |r.answers| == |o.answers| + 1 && r.answers[0] == f && r.answers[1..] == o.answers
    ensures r.end == o.end && r.nextId == o.nextId
  {
    Outcome([f] + o.answers, o.end, o.nextId)
  }

  /** A goal that executeQuery hands to simpleQuery. */
  predicate IsUserGoal(q: Term) {
    !(q.Symbol? && q.value == "!") && !(q.Compound? && (q.name == "," || q.name == ";"))
  }

  // ---------------------------------------------------------------------
  // executeQuery, goal by goal

  /**
   * A null goal succeeds with the frame unchanged; `!` succeeds with
   * cutFunction as its failure continuation; `A, B` runs A with a success
   * continuation that runs B; `A ; B` runs A with a failure continuation
   * that runs B under the same frame; any other goal searches the rules
   * from the first one.
   */
  lemma {:induction false} RunSolve(store: seq<Rule>, goal: Option<Term>, f: Frame, sk: Sk, fk: Fk, n: RuleId, fuel: nat, reading: Reading)
    requires Acyclic(f) && FkOk(fk) && fuel >= 1
    ensures var r := Run(store, Machine(Solve(goal, f, sk, fk), n), fuel, reading);
      && (goal.None? ==> r == Run(store, Machine(Succeed(sk, f, fk), n), fuel - 1, reading))
      && (goal == Some(Symbol("!")) ==> r == Run(store, Machine(Succeed(sk, f, FCut), n), fuel - 1, reading))
      && (goal.Some? && goal.value.Compound? && goal.value.name == "," ==>
            r == Run(store, Machine(Solve(Arg(goal.value, 0), f, SConj(Arg(goal.value, 1), sk), fk), n), fuel - 1, reading))
      && (goal.Some? && goal.value.Compound? && goal.value.name == ";" ==>
            r == Run(store, Machine(Solve(Arg(goal.value, 0), f, sk, FDisj(Arg(goal.value, 1), f, sk, fk)), n), fuel - 1, reading))
      && (goal.Some? && IsUserGoal(goal.value) ==>
            r == Run(store, Machine(Search(goal.value, f, Stream(store, 0), sk, fk), n), fuel - 1, reading))
  {
    var m := Machine(Solve(goal, f, sk, fk), n);
    StepKeepsOk(store, m, reading);
    assert Run(store, m, fuel, reading) == Run(store, Step(store, m, reading).next, fuel - 1, reading);
  }

  /**
   * conjoin: every success of the left goal, under the frame it produced,
   * continues as the right goal with the same failure continuation.
   */
  lemma {:induction false} RunConjSuccess(store: seq<Rule>, right: Option<Term>, sk: Sk, g: Frame, fk: Fk, n: RuleId, fuel: nat, reading: Reading)
    requires Acyclic(g) && FkOk(fk) && fuel >= 1
    ensures Run(store, Machine(Succeed(SConj(right, sk), g, fk), n), fuel, reading)
         == Run(store, Machine(Solve(right, g, sk, fk), n), fuel - 1, reading)
  {
    var m := Machine(Succeed(SConj(right, sk), g, fk), n);
    StepKeepsOk(store, m, reading);
  }

  /** A success reaching the caller is an answer; the next one is asked for by failing. */
  lemma {:induction false} RunAnswer(store: seq<Rule>, f: Frame, fk: Fk, n: RuleId, fuel: nat, reading: Reading)
    requires Acyclic(f) && FkOk(fk) && fuel >= 1
    ensures Run(store, Machine(Succeed(STop, f, fk), n), fuel, reading)
         == Prepend(f, Run(store, Machine(Fail(fk), n), fuel - 1, reading))
  {
    var m := Machine(Succeed(STop, f, fk), n);
    StepKeepsOk(store, m, reading);
  }

  /** The caller's fail ends the run as exhausted; cutFunction ends it through ngFunction. */
  lemma RunFailEnds(store: seq<Rule>, n: RuleId, fuel: nat, reading: Reading)
    requires fuel >= 1
    ensures Run(store, Machine(Fail(FTop), n), fuel, reading) == Outcome([], Exhausted, n)
    ensures Run(store, Machine(Fail(FCut), n), fuel, reading) == Outcome([], CutFailure, n)
  {
    var m := Machine(Fail(FTop), n);
    assert Run(store, m, fuel, reading) == Run(store, Machine(Done(Exhausted), n), fuel - 1, reading);
    var c := Machine(Fail(FCut), n);
    assert Run(store, c, fuel, reading) == Run(store, Machine(Done(CutFailure), n), fuel - 1, reading);
  }

  /**
   * The failFunction of a rule try searches the rest of the rules, unless
   * its own fail is cutFunction: then the failure goes to cutFunction and
   * the run ends without an answer.
   */
  lemma {:induction false} RunNextRule(store: seq<Rule>, p: Term, rest: Stream, f: Frame, sk: Sk, fk: Fk, n: RuleId, fuel: nat, reading: Reading)
    requires Acyclic(f) && FkOk(fk) && fuel >= 1
    ensures fk != FCut ==>
      Run(store, Machine(Fail(FNextRule(p, rest, f, sk, fk)), n), fuel, reading)
      == Run(store, Machine(Search(p, f, rest, sk, fk), n), fuel - 1, reading)
    ensures fk == FCut && fuel >= 2 ==>
      Run(store, Machine(Fail(FNextRule(p, rest, f, sk, fk)), n), fuel, reading) == Outcome([], CutFailure, n)
  {
    var m := Machine(Fail(FNextRule(p, rest, f, sk, fk)), n);
    StepKeepsOk(store, m, reading);
    if fk == FCut && fuel >= 2 {
      assert Run(store, m, fuel, reading) == Run(store, Machine(Fail(FCut), n), fuel - 1, reading);
      RunFailEnds(store, n, fuel - 1, reading);
    }
  }

  /**
   * disjoin's failFunction: with its result applied it runs the right
   * disjunct under the frame of the disjunction; as written it returns
   * that query unapplied, which ends the run. A cutFunction fail wins in
   * both readings.
   */
  lemma {:induction false} RunDisjFailure(store: seq<Rule>, right: Option<Term>, f: Frame, sk: Sk, fk: Fk, n: RuleId, fuel: nat)
    requires Acyclic(f) && FkOk(fk) && fuel >= 1
    ensures fk != FCut ==>
      Run(store, Machine(Fail(FDisj(right, f, sk, fk)), n), fuel, Corrected)
      == Run(store, Machine(Solve(right, f, sk, fk), n), fuel - 1, Corrected)
    ensures fk != FCut ==>
      Run(store, Machine(Fail(FDisj(right, f, sk, fk)), n), fuel, AsWritten) == Outcome([], Dropped, n)
    ensures fk == FCut && fuel >= 2 ==>
      Run(store, Machine(Fail(FDisj(right, f, sk, fk)), n), fuel, Corrected) == Outcome([], CutFailure, n)
  {
    var m := Machine(Fail(FDisj(right, f, sk, fk)), n);
    StepKeepsOk(store, m, Corrected);
    StepKeepsOk(store, m, AsWritten);
    assert Run(store, m, fuel, AsWritten) == Run(store, Step(store, m, AsWritten).next, fuel - 1, AsWritten);
    if fk == FCut && fuel >= 2 {
      assert Run(store, m, fuel, Corrected) == Run(store, Machine(Fail(FCut), n), fuel - 1, Corrected);
      RunFailEnds(store, n, fuel - 1, Corrected);
    }
  }

  // ---------------------------------------------------------------------
  // simpleQuery: the rules in order

  /**
   * A rule try: the try takes the next id; when the pattern unifies with
   * the renamed conclusion, the renamed body runs under the unifier with
   * the try's failFunction, and otherwise that failFunction is called.
   */
  lemma {:induction false} RunTry(store: seq<Rule>, p: Term, f: Frame, rules: seq<Rule>, index: nat, sk: Sk, fk: Fk, n: RuleId, fuel: nat, reading: Reading)
    requires Acyclic(f) && FkOk(fk) && index < |rules| && fuel >= 1
    ensures var rule := RenamedRule(rules[index], n);
      var failure := FNextRule(p, Stream(rules, index + 1), f, sk, fk);
      var r := Run(store, Machine(Search(p, f, Stream(rules, index), sk, fk), n), fuel, reading);
      && (Unify(p, rule.conclusion, f).None? ==> r == Run(store, Machine(Fail(failure), n + 1), fuel - 1, reading))
      && (Unify(p, rule.conclusion, f).Some? ==>
            r == Run(store, Machine(Solve(rule.body, Unify(p, rule.conclusion, f).value, sk, failure), n + 1), fuel - 1, reading))
  {
    var m := Machine(Search(p, f, Stream(rules, index), sk, fk), n);
    StepKeepsOk(store, m, reading);
    assert Run(store, m, fuel, reading) == Run(store, Step(store, m, reading).next, fuel - 1, reading);
  }

  /** Running out of rules calls the caller's fail. */
  lemma {:induction false} RunNoMoreRules(store: seq<Rule>, p: Term, f: Frame, rules: seq<Rule>, index: nat, sk: Sk, fk: Fk, n: RuleId, fuel: nat, reading: Reading)
    requires Acyclic(f) && FkOk(fk) && index >= |rules| && fuel >= 1
    ensures Run(store, Machine(Search(p, f, Stream(rules, index), sk, fk), n), fuel, reading)
         == Run(store, Machine(Fail(fk), n), fuel - 1, reading)
  {
    var m := Machine(Search(p, f, Stream(rules, index), sk, fk), n);
    StepKeepsOk(store, m, reading);
  }

  /** The unifier of `p` with the conclusion of the rule at `index` renamed with `id`, if any. */
  function TryRule(p: Term, f: Frame, rules: seq<Rule>, index: nat, id: RuleId): (r: Option<Frame>)
    requires Acyclic(f) && index < |rules|
  {
    Unify(p, Renamed(rules[index].conclusion, id), f)
  }

  /** The rule at `index`, renamed with `id`, does not unify with `p` under `f`. */
  ghost predicate Misses(p: Term, f: Frame, rules: seq<Rule>, index: nat, id: RuleId) {
    Acyclic(f) && index < |rules| && TryRule(p, f, rules, index, id).None?
  }

  /**
   * The `j` rules from `index` on miss `p` under `f`, each renamed with
   * the id it is tried with, and the failure continuation is not
   * cutFunction.
   */
  ghost predicate Skippable(p: Term, f: Frame, rules: seq<Rule>, index: nat, n: RuleId, fk: Fk, j: nat)
    decreases j
  {
    && Acyclic(f) && FkOk(fk) && fk != FCut && index + j <= |rules|
    && (j > 0 ==> Misses(p, f, rules, index, n) && Skippable(p, f, rules, index + 1, n + 1, fk, j - 1))
  }

  /** The `i`-th rule from `index` misses when tried `i` ids after `n`. */
  ghost predicate TryFails(p: Term, f: Frame, rules: seq<Rule>, index: nat, n: RuleId, i: nat) {
    Misses(p, f, rules, index + i, n + i)
  }

  /** Skippable says that every one of the `j` tries misses. */
  lemma SkippableMeans(p: Term, f: Frame, rules: seq<Rule>, index: nat, n: RuleId, fk: Fk, j: nat)
    ensures Skippable(p, f, rules, index, n, fk, j) <==>
      && Acyclic(f) && FkOk(fk) && fk != FCut && index + j <= |rules|
      && forall i | 0 <= i < j :: TryFails(p, f, rules, index, n, i)
  {
    if Skippable(p, f, rules, index, n, fk, j) {
      SkippableAllFail(p, f, rules, index, n, fk, j);
    } else if Acyclic(f) && FkOk(fk) && fk != FCut && index + j <= |rules| {
      if forall i | 0 <= i < j :: TryFails(p, f, rules, index, n, i) {
        AllFailSkippable(p, f, rules, index, n, fk, j);
      }
    }
  }

  lemma {:induction false} SkippableAllFail(p: Term, f: Frame, rules: seq<Rule>, index: nat, n: RuleId, fk: Fk, j: nat)
    requires Skippable(p, f, rules, index, n, fk, j)
    ensures forall i | 0 <= i < j :: TryFails(p, f, rules, index, n, i)
    decreases j
  {
    if j > 0 {
      var next: RuleId, after: nat := n + 1, index + 1;
      SkippableAllFail(p, f, rules, after, next, fk, j - 1);
      forall i | 0 < i < j ensures TryFails(p, f, rules, index, n, i) {
        assert TryFails(p, f, rules, after, next, i - 1);
        assert after + (i - 1) == index + i && next + (i - 1) == n + i;
      }
      assert TryFails(p, f, rules, index, n, 0);
    }
  }

  lemma {:induction false} AllFailSkippable(p: Term, f: Frame, rules: seq<Rule>, index: nat, n: RuleId, fk: Fk, j: nat)
    requires Acyclic(f) && FkOk(fk) && fk != FCut && index + j <= |rules|
    requires forall i | 0 <= i < j :: TryFails(p, f, rules, index, n, i)
    ensures Skippable(p, f, rules, index, n, fk, j)
    decreases j
  {
    if j > 0 {
      var next: RuleId, after: nat := n + 1, index + 1;
      forall i | 0 <= i < j - 1 ensures TryFails(p, f, rules, after, next, i) {
        assert TryFails(p, f, rules, index, n, i + 1);
        assert after + i == index + (i + 1) && next + i == n + (i + 1);
      }
      AllFailSkippable(p, f, rules, after, next, fk, j - 1);
      assert TryFails(p, f, rules, index, n, 0);
    }
  }

  /** A rule that does not unify is passed over, one id later. */
  lemma RunSkipOne(store: seq<Rule>, p: Term, f: Frame, rules: seq<Rule>, index: nat, sk: Sk, fk: Fk, n: RuleId, fuel: nat, reading: Reading)
    requires FkOk(fk) && fk != FCut && Misses(p, f, rules, index, n) && fuel >= 2
    ensures Run(store, Machine(Search(p, f, Stream(rules, index), sk, fk), n), fuel, reading)
         == Run(store, Machine(Search(p, f, Stream(rules, index + 1), sk, fk), n + 1), fuel - 1 - 1, reading)
  {
    RunTry(store, p, f, rules, index, sk, fk, n, fuel, reading);
    RunNextRule(store, p, Stream(rules, index + 1), f, sk, fk, n + 1, fuel - 1, reading);
  }

  /** RunSkipsRules with the place where the search arrives named. */
  lemma {:induction false} RunSkipsTo(store: seq<Rule>, p: Term, f: Frame, rules: seq<Rule>, index: nat, last: nat, sk: Sk, fk: Fk, n: RuleId, nLast: RuleId, j: nat, fuel: nat, fuelLast: nat, reading: Reading)
    requires Skippable(p, f, rules, index, n, fk, j)
    requires last == index + j && nLast == n + j && fuel == fuelLast + 2 * j
    ensures Run(store, Machine(Search(p, f, Stream(rules, index), sk, fk), n), fuel, reading)
         == Run(store, Machine(Search(p, f, Stream(rules, last), sk, fk), nLast), fuelLast, reading)
    decreases j
  {
    if j > 0 {
      RunSkipOne(store, p, f, rules, index, sk, fk, n, fuel, reading);
      RunSkipsTo(store, p, f, rules, index + 1, last, sk, fk, n + 1, nLast, j - 1, fuel - 1 - 1, fuelLast, reading);
    }
  }

  /**
   * Rules are tried in order, each with the next id: when the `j` rules
   * from `index` on do not unify with the pattern, the search goes on at
   * the rule after them, `j` ids later, with nothing answered.
   */
  lemma RunSkipsRules(store: seq<Rule>, p: Term, f: Frame, rules: seq<Rule>, index: nat, sk: Sk, fk: Fk, n: RuleId, j: nat, fuel: nat, reading: Reading)
    requires Skippable(p, f, rules, index, n, fk, j)
    ensures Run(store, Machine(Search(p, f, Stream(rules, index), sk, fk), n), fuel + 2 * j, reading)
         == Run(store, Machine(Search(p, f, Stream(rules, index + j), sk, fk), n + j), fuel, reading)
  {
    var last, nLast, big := index + j, n + j, fuel + 2 * j;
    RunSkipsTo(store, p, f, rules, index, last, sk, fk, n, nLast, j, big, fuel, reading);
  }

  /** A try whose renamed conclusion unifies runs the renamed body under the unifier. */
  lemma RunTryUnifies(store: seq<Rule>, p: Term, f: Frame, rules: seq<Rule>, index: nat, sk: Sk, fk: Fk, n: RuleId, fuel: nat, reading: Reading)
    requires Acyclic(f) && FkOk(fk) && index < |rules| && fuel >= 1
    requires TryRule(p, f, rules, index, n).Some?
    ensures Run(store, Machine(Search(p, f, Stream(rules, index), sk, fk), n), fuel, reading)
         == Run(store, Machine(Solve(RenamedBody(rules[index].body, n), TryRule(p, f, rules, index, n).value, sk,
                                     FNextRule(p, Stream(rules, index + 1), f, sk, fk)), n + 1), fuel - 1, reading)
  {
    RunTry(store, p, f, rules, index, sk, fk, n, fuel, reading);
  }

  /**
   * The first rule, in order, whose renamed conclusion unifies with the
   * pattern is the one whose body runs, under the unifier, with the id
   * after those of the rules passed over: the rule at `k`, `j` places on,
   * tried with the id `m`, `j` ids on, when the run starts with `big` steps.
   */
  lemma FirstUnifyingRuleRuns(store: seq<Rule>, p: Term, f: Frame, rules: seq<Rule>, index: nat, k: nat, sk: Sk, fk: Fk, n: RuleId, m: RuleId, j: nat, big: nat, fuel: nat, reading: Reading)
    requires Skippable(p, f, rules, index, n, fk, j) && k < |rules| && fuel >= 1
    requires k == index + j && m == n + j && big == fuel + 2 * j
    requires TryRule(p, f, rules, k, m).Some?
    ensures Run(store, Machine(Search(p, f, Stream(rules, index), sk, fk), n), big, reading)
      == Run(store, Machine(Solve(RenamedBody(rules[k].body, m), TryRule(p, f, rules, k, m).value, sk,
                                  FNextRule(p, Stream(rules, k + 1), f, sk, fk)), m + 1), fuel - 1, reading)
  {
    RunSkipsTo(store, p, f, rules, index, k, sk, fk, n, m, j, big, fuel, reading);
    RunTryUnifies(store, p, f, rules, k, sk, fk, m, fuel, reading);
  }

  /**
   * A fact that unifies answers the unifier; asking for the next answer
   * goes on with the rule after it, one id later.
   */
  lemma RunFactAnswers(store: seq<Rule>, p: Term, f: Frame, rules: seq<Rule>, index: nat, fk: Fk, n: RuleId, fuel: nat, reading: Reading)
    requires Acyclic(f) && FkOk(fk) && fk != FCut && index < |rules| && rules[index].body.None? && fuel >= 4
    requires TryRule(p, f, rules, index, n).Some?
    ensures Run(store, Machine(Search(p, f, Stream(rules, index), STop, fk), n), fuel, reading)
         == Prepend(TryRule(p, f, rules, index, n).value,
                    Run(store, Machine(Search(p, f, Stream(rules, index + 1), STop, fk), n + 1), fuel - 1 - 1 - 1 - 1, reading))
  {
    RunTryUnifies(store, p, f, rules, index, STop, fk, n, fuel, reading);
    RunFactTail(store, p, f, TryRule(p, f, rules, index, n).value, Stream(rules, index + 1), fk, n + 1, fuel - 1, reading);
  }

  /** A fact's empty body succeeds at once: an answer, then the search goes on with the rest of the stream. */
  lemma RunFactTail(store: seq<Rule>, p: Term, f: Frame, g: Frame, s: Stream, fk: Fk, n: RuleId, fuel: nat, reading: Reading)
    requires Acyclic(f) && Acyclic(g) && FkOk(fk) && fk != FCut && fuel >= 3
    ensures Run(store, Machine(Solve(None, g, STop, FNextRule(p, s, f, STop, fk)), n), fuel, reading)
         == Prepend(g, Run(store, Machine(Search(p, f, s, STop, fk), n), fuel - 1 - 1 - 1, reading))
  {
    var failure := FNextRule(p, s, f, STop, fk);
    RunSolve(store, None, g, STop, failure, n, fuel, reading);
    RunAnswer(store, g, failure, n, fuel - 1, reading);
    RunNextRule(store, p, s, f, STop, fk, n, fuel - 1 - 1, reading);
  }

  /**
   * The rules from `index` on are all facts, and the one at `index + i`,
   * renamed with `n + i`, unifies with `p` to `answers[i]`.
   */
  ghost predicate FactsYield(p: Term, f: Frame, rules: seq<Rule>, index: nat, n: RuleId, answers: seq<Frame>)
    decreases |answers|
  {
    && Acyclic(f) && index + |answers| == |rules|
    && (|answers| > 0 ==>
          && rules[index].body.None? && TryRule(p, f, rules, index, n) == Some(answers[0])
          && FactsYield(p, f, rules, index + 1, n + 1, answers[1..]))
  }

  /**
   * Facts answer in the order they are stored, each try taking one id, and
   * then the caller's fail ends the search.
   */
  lemma {:induction false} FactsAnswerInOrder(store: seq<Rule>, p: Term, f: Frame, rules: seq<Rule>, index: nat, n: RuleId, answers: seq<Frame>, fuel: nat, reading: Reading)
    requires FactsYield(p, f, rules, index, n, answers) && fuel >= 2
    ensures Run(store, Machine(Search(p, f, Stream(rules, index), STop, FTop), n), fuel + 4 * |answers|, reading)
         == Outcome(answers, Exhausted, n + |answers|)
    decreases |answers|
  {
    if |answers| == 0 {
      RunNoMoreRules(store, p, f, rules, index, STop, FTop, n, fuel, reading);
      RunFailEnds(store, n, fuel - 1, reading);
    } else {
      FactsAnswerInOrder(store, p, f, rules, index + 1, n + 1, answers[1..], fuel, reading);
      FactAnswersFirst(store, p, f, rules, index, n, answers, fuel, reading);
    }
  }

  /** The first fact's answer comes before those of the facts after it. */
  lemma FactAnswersFirst(store: seq<Rule>, p: Term, f: Frame, rules: seq<Rule>, index: nat, n: RuleId, answers: seq<Frame>, fuel: nat, reading: Reading)
    requires FactsYield(p, f, rules, index, n, answers) && |answers| > 0 && fuel >= 2
    requires Run(store, Machine(Search(p, f, Stream(rules, index + 1), STop, FTop), n + 1), fuel + 4 * |answers[1..]|, reading)
          == Outcome(answers[1..], Exhausted, n + 1 + |answers[1..]|)
    ensures Run(store, Machine(Search(p, f, Stream(rules, index), STop, FTop), n), fuel + 4 * |answers|, reading)
         == Outcome(answers, Exhausted, n + |answers|)
  {
    var big: nat := fuel + 4 * |answers|;
    RunFactAnswers(store, p, f, rules, index, FTop, n, big, reading);
    assert big - 1 - 1 - 1 - 1 == fuel + 4 * |answers[1..]|;
    assert answers == [answers[0]] + answers[1..];
  }

  /** When none of the `j` rules left from `index` unifies, the search ends by calling the caller's fail. */
  lemma NoUnifyingRuleFails(store: seq<Rule>, p: Term, f: Frame, rules: seq<Rule>, index: nat, sk: Sk, fk: Fk, n: RuleId, j: nat, fuel: nat, reading: Reading)
    requires index + j == |rules| && Skippable(p, f, rules, index, n, fk, j) && fuel >= 1
    ensures Run(store, Machine(Search(p, f, Stream(rules, index), sk, fk), n), fuel + 2 * j, reading)
         == Run(store, Machine(Fail(fk), n + j), fuel - 1, reading)
  {
    RunSkipsRules(store, p, f, rules, index, sk, fk, n, j, fuel, reading);
    RunNoMoreRules(store, p, f, rules, index + j, sk, fk, n + j, fuel, reading);
  }

  /**
   * After a cut, a rule try whose conclusion does not unify ends the whole
   * run through ngFunction: the later rules are never tried, even those
   * that would unify.
   */
  lemma {:induction false} CutStopsSearch(store: seq<Rule>, p: Term, f: Frame, rules: seq<Rule>, index: nat, sk: Sk, n: RuleId, fuel: nat, reading: Reading)
    requires Misses(p, f, rules, index, n) && fuel >= 3
    ensures Run(store, Machine(Search(p, f, Stream(rules, index), sk, FCut), n), fuel, reading) == Outcome([], CutFailure, n + 1)
  {
    RunTry(store, p, f, rules, index, sk, FCut, n, fuel, reading);
    RunNextRule(store, p, Stream(rules, index + 1), f, sk, FCut, n + 1, fuel - 1, reading);
  }

  // ---------------------------------------------------------------------
  // Whole runs of the simplest goals

  /** A null goal has exactly one answer, the frame it was given. */
  lemma NullGoalAnswersOnce(store: seq<Rule>, f: Frame, n: RuleId, fuel: nat, reading: Reading)
    requires Acyclic(f) && fuel >= 3
    ensures Run(store, Machine(Solve(None, f, STop, FTop), n), fuel, reading) == Outcome([f], Exhausted, n)
  {
    RunSolve(store, None, f, STop, FTop, n, fuel, reading);
    RunAnswer(store, f, FTop, n, fuel - 1, reading);
    RunFailEnds(store, n, fuel - 1 - 1, reading);
  }

  /** `!` has one answer, the frame it was given; asking for another calls ngFunction. */
  lemma CutAnswersOnce(store: seq<Rule>, f: Frame, n: RuleId, fuel: nat, reading: Reading)
    requires Acyclic(f) && fuel >= 3
    ensures Run(store, Machine(Solve(Some(Symbol("!")), f, STop, FTop), n), fuel, reading) == Outcome([f], CutFailure, n)
  {
    RunSolve(store, Some(Symbol("!")), f, STop, FTop, n, fuel, reading);
    RunAnswer(store, f, FCut, n, fuel - 1, reading);
    RunFailEnds(store, n, fuel - 1 - 1, reading);
  }
}
