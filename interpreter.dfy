/**
 * makeProlog: the interpreter object. Its state is the rule store allRules
 * and the counter currentRuleId; execute stores a clause or runs a query,
 * and every rule try during a query takes the next id from the counter.
 */
module Interpreter {
  import opened Wrappers
  import opened Terms
  import opened Frames
  import Unifier
  import opened Rules
  import opened Renaming
  import opened Resolution

  /** What execute is handed once the parser has read the text: a clause to store or a `?-` query. */
  datatype Input = Assert(clause: Term) | Ask(query: Term)

  /** The `:-` operator is infix, so the parser never builds a `:-` compound without two operands. */
  predicate IsParsedClause(t: Term) {
    t.Compound? && t.name == ":-" ==> |t.args| == 2
  }

  /** The rule execute stores for a clause: `head :- body` as a rule with a body, anything else as a fact. */
  function ClauseRule(t: Term): (r: Rule)
    requires IsParsedClause(t)
    ensures r.body.Some? <==> t.Compound? && t.name == ":-"
    ensures r.body.Some? ==> t == Compound(":-", [r.conclusion, r.body.value])
    ensures r.body.None? ==> r.conclusion == t
  {
    if t.Compound? && t.name == ":-" then Rule(t.args[0], Some(t.args[1])) else Rule(t, None)
  }

  /** `aFrame ? aFrame : makeEmptyFrame()` */
  function StartFrame(aFrame: Option<Frame>): (f: Frame)
    requires aFrame.Some? ==> Acyclic(aFrame.value)
    ensures Acyclic(f)
  {
    EmptyFrameAcyclic();
    if aFrame.Some? then aFrame.value else EmptyFrame
  }

  /** The answers found so far in front of the outcome of the rest of a run. */
  function After(found: seq<Frame>, rest: Outcome): (r: Outcome)
    ensures |r.answers| == |found| + |rest.answers|
    ensures r.answers[..|found|] == found && r.answers[|found|..] == rest.answers
    ensures r.end == rest.end && r.nextId == rest.nextId
  {
    Outcome(found + rest.answers, rest.end, rest.nextId)
  }

  /**
   * One more step taken by the driver keeps the outcome of the whole run
   * equal to the answers found so far followed by the run from the new
   * configuration.
   */
  lemma DriverStep(store: seq<Rule>, m: Machine, t: Transition, fuel: nat, found: seq<Frame>, whole: Outcome)
    requires ConfigOk(m.config) && !m.config.Done? && fuel >= 1 && t == Step(store, m, Corrected)
    requires whole == After(found, Run(store, m, fuel, Corrected))
    ensures ConfigOk(t.next.config)
    ensures whole == After(found + Emitted(t.answer), Run(store, t.next, fuel - 1, Corrected))
  {
    StepKeepsOk(store, m, Corrected);
    var rest := Run(store, t.next, fuel - 1, Corrected);
    assert Run(store, m, fuel, Corrected) == After(Emitted(t.answer), rest);
    assert found + (Emitted(t.answer) + rest.answers) == (found + Emitted(t.answer)) + rest.answers;
  }

  /** When the configuration is final or no fuel is left, the driver's answers are the whole run's. */
  lemma DriverStops(store: seq<Rule>, m: Machine, fuel: nat, found: seq<Frame>, whole: Outcome)
    requires ConfigOk(m.config) && (m.config.Done? || fuel == 0)
    requires whole == After(found, Run(store, m, fuel, Corrected))
    ensures whole == Outcome(found, if m.config.Done? then m.config.end else OutOfFuel, m.nextId)
  {
    assert Run(store, m, fuel, Corrected) == Outcome([], if m.config.Done? then m.config.end else OutOfFuel, m.nextId);
    assert found + [] == found;
  }

  class Prolog {
    const allRules: RuleList
    var currentRuleId: RuleId

    /** makeProlog: no rules, and the first rule try takes id 1. */
    constructor ()
      ensures fresh(allRules) && allRules.list == [] && currentRuleId == 1
    {
      allRules := new RuleList([]);
      currentRuleId := 1;
    }

    method AddRule(conclusion: Term, body: Option<Term>)
      modifies allRules
      ensures allRules.list == old(allRules.list) + [Rule(conclusion, body)]
    {
      allRules.Push(Rule(conclusion, body));
    }

    method AddRuleFirst(conclusion: Term, body: Option<Term>)
      modifies allRules
      ensures allRules.list == [Rule(conclusion, body)] + old(allRules.list)
    {
      allRules.Unshift(Rule(conclusion, body));
    }

    /** getRules ignores its pattern and frame: every stored rule is a candidate, in order. */
    method GetRules(pattern: Term, frame: Frame) returns (s: Stream)
      ensures s == Stream(allRules.list, 0)
    {
      s := allRules.GetStream();
      assert s.items == s.Remaining();
    }

    /** renameRuleVariable: the rule renamed with the id taken from the counter, which moves on by one. */
    method RenameRuleVariable(rule: Rule) returns (r: Rule)
      modifies this
      ensures r == RenamedRule(rule, old(currentRuleId))
      ensures currentRuleId == old(currentRuleId) + 1
    {
      var ruleId := currentRuleId;
      currentRuleId := currentRuleId + 1;
      var conclusion := Retrieve(rule.conclusion, ruleId);
      var body: Option<Term> := None;
      if rule.body.Some? {
        var b := Retrieve(rule.body.value, ruleId);
        body := Some(b);
      }
      r := Rule(conclusion, body);
    }

    /**
     * One step of a query as the closures take it: the same step as Step,
     * with the rule try renaming through the counter and unifying with the
     * looping unifier.
     */
    method StepOnce(m: Machine) returns (next: Machine, answer: Option<Frame>)
      requires ConfigOk(m.config) && !m.config.Done? && m.nextId == currentRuleId
      modifies this
      ensures Transition(next, answer) == Step(allRules.list, m, Corrected)
      ensures currentRuleId == next.nextId
    {
      answer := None;
      match m.config
      case Solve(goal, f, sk, fk) =>
        if goal.None? {
          next := Machine(Succeed(sk, f, fk), m.nextId);
        } else if goal.value.Symbol? && goal.value.value == "!" {
          next := Machine(Succeed(sk, f, FCut), m.nextId);
        } else if goal.value.Compound? && goal.value.name == "," {
          next := Machine(Solve(Arg(goal.value, 0), f, SConj(Arg(goal.value, 1), sk), fk), m.nextId);
        } else if goal.value.Compound? && goal.value.name == ";" {
          next := Machine(Solve(Arg(goal.value, 0), f, sk, FDisj(Arg(goal.value, 1), f, sk, fk)), m.nextId);
        } else {
          var applied := GetRules(goal.value, f);
          next := Machine(Search(goal.value, f, applied, sk, fk), m.nextId);
        }
      case Search(p, f, s, sk, fk) =>
        if s.IsNull() {
          next := Machine(Fail(fk), m.nextId);
        } else {
          var ruleNew := RenameRuleVariable(s.Value().value);
          var failure := FNextRule(p, s.Rest(), f, sk, fk);
          var unified := Unifier.Unify(p, ruleNew.conclusion, f);
          if unified.Some? {
            next := Machine(Solve(ruleNew.body, unified.value, sk, failure), currentRuleId);
          } else {
            next := Machine(Fail(failure), currentRuleId);
          }
        }
      case Succeed(sk, f, fk) =>
        if sk.STop? {
          answer := Some(f);
          next := Machine(Fail(fk), m.nextId);
        } else {
          next := Machine(Solve(sk.right, f, sk.next, fk), m.nextId);
        }
      case Fail(fk) =>
        next := Machine(Resume(fk, Corrected), m.nextId);
    }

    /**
     * executeQuery run by a caller that asks for every answer: the closures
     * are applied one step at a time, each rule try renaming through the
     * counter, until the run ends or `fuel` steps are spent. The result is
     * that of Query over the rules stored now, and the counter ends at the
     * id the run would hand out next.
     */
    method ExecuteQuery(query: Term, aFrame: Option<Frame>, fuel: nat) returns (r: Outcome)
      requires aFrame.Some? ==> Acyclic(aFrame.value)
      modifies this
      ensures r == Query(allRules.list, query, StartFrame(aFrame), old(currentRuleId), fuel)
      ensures currentRuleId == r.nextId
    {
      var frame := StartFrame(aFrame);
      var store := allRules.list;
      var m := Machine(Solve(Some(query), frame, STop, FTop), currentRuleId);
      ghost var whole := Run(store, m, fuel, Corrected);
      var answers: seq<Frame> := [];
      var left := fuel;
      assert whole == After(answers, Run(store, m, left, Corrected));
      while left > 0 && !m.config.Done?
        invariant store == allRules.list
        invariant ConfigOk(m.config) && m.nextId == currentRuleId
        invariant whole == After(answers, Run(store, m, left, Corrected))
        decreases left
      {
        var next, answer := StepOnce(m);
        DriverStep(store, m, Transition(next, answer), left, answers, whole);
        answers := answers + Emitted(answer);
        m := next;
        left := left - 1;
      }
      DriverStops(store, m, left, answers, whole);
      r := Outcome(answers, if m.config.Done? then m.config.end else OutOfFuel, m.nextId);
    }

    /**
     * execute on a parsed input: a clause is stored at the end and `null`
     * is returned; a query is run from the empty frame.
     */
    method Execute(input: Input, fuel: nat) returns (r: Option<Outcome>)
      requires input.Assert? ==> IsParsedClause(input.clause)
      modifies this, allRules
      ensures input.Assert? ==> r.None? && allRules.list == old(allRules.list) + [ClauseRule(input.clause)]
                                && currentRuleId == old(currentRuleId)
      ensures input.Ask? ==> allRules.list == old(allRules.list)
                             && r == Some(Query(allRules.list, input.query, StartFrame(None), old(currentRuleId), fuel))
                             && currentRuleId == r.value.nextId
    {
      match input
      case Assert(t) =>
        if t.Compound? && t.name == ":-" {
          AddRule(t.args[0], Some(t.args[1]));
        } else {
          AddRule(t, None);
        }
        r := None;
      case Ask(q) =>
        var outcome := ExecuteQuery(q, None, fuel);
        r := Some(outcome);
    }
  }
}
