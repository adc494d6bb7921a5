/**
 * renameRuleVariable: every variable of a rule's conclusion and body is
 * given the id of the rule application, so that the variables of two uses
 * of one rule, and those of the query, never meet.
 */
module Renaming {
  import opened Wrappers
  import opened Terms
  import opened Frames
  import opened Rules

  /** The term with every variable carrying `id`. */
  function Renamed(t: Term, id: RuleId): (r: Term)
    ensures r.Variable? <==> t.Variable?
    ensures r.Variable? ==> r.name == t.name && r.id == Some(id)
  {
    match t
    case Variable(n, _) => Variable(n, Some(id))
    case Symbol(_) => t
    case Compound(n, args) => Compound(n, seq(|args|, i requires 0 <= i < |args| => Renamed(args[i], id)))
  }

  function RenamedBody(body: Option<Term>, id: RuleId): (r: Option<Term>)
    ensures r.Some? <==> body.Some?
    ensures r.Some? ==> r.value == Renamed(body.value, id)
  {
    if body.Some? then Some(Renamed(body.value, id)) else None
  }

  /** The rule renameRuleVariable builds for the application `id`. */
  function RenamedRule(rule: Rule, id: RuleId): (r: Rule)
    ensures r.conclusion == Renamed(rule.conclusion, id)
    ensures r.body.None? <==> rule.body.None?
    ensures r.body.Some? ==> r.body.value == Renamed(rule.body.value, id)
  {
    Rule(Renamed(rule.conclusion, id), RenamedBody(rule.body, id))
  }

  /**
   * The nested retrieve of renameRuleVariable: a variable is rebuilt with
   * the id, a compound from its renamed arguments collected in a loop, and
   * a symbol is returned as it is.
   */
  method Retrieve(term: Term, ruleId: RuleId) returns (r: Term)
    ensures r == Renamed(term, ruleId)
  {
    if term.Variable? {
      return Variable(term.name, Some(ruleId));
    } else if term.Compound? {
      var elements: seq<Term> := [];
      var i := 0;
      while i < |term.args|
        invariant i <= |term.args|
        invariant |elements| == i
        invariant forall j | 0 <= j < i :: elements[j] == Renamed(term.args[j], ruleId)
      {
        var e := Retrieve(term.args[i], ruleId);
        elements := elements + [e];
        i := i + 1;
      }
      return Compound(term.name, elements);
    } else {
      return term;
    }
  }

  /** The term with every id dropped: what renaming must not change. */
  function Erased(t: Term): Term {
    match t
    case Variable(n, _) => Variable(n, None)
    case Symbol(_) => t
    case Compound(n, args) => Compound(n, seq(|args|, i requires 0 <= i < |args| => Erased(args[i])))
  }

  /**
   * Renaming keeps symbols, compound names, arities and variable names:
   * only ids differ between a term and its renaming.
   */
  lemma {:induction false} RenamedKeepsShape(t: Term, id: RuleId)
    ensures Erased(Renamed(t, id)) == Erased(t)
    ensures t.Symbol? ==> Renamed(t, id) == t
    ensures t.Compound? ==> Renamed(t, id).Compound? && Renamed(t, id).name == t.name && |Renamed(t, id).args| == |t.args|
  {
    if t.Compound? {
      forall i | 0 <= i < |t.args| ensures Erased(Renamed(t.args[i], id)) == Erased(t.args[i]) {
        RenamedKeepsShape(t.args[i], id);
      }
      assert Erased(Renamed(t, id)).args == Erased(t).args;
    }
  }

  /** Every variable of a renamed term carries the id, and names are kept. */
  lemma {:induction false} RenamedVars(t: Term, id: RuleId)
    ensures Vars(Renamed(t, id)) == set k | k in Vars(t) :: VarKey(k.name, Some(id))
  {
    if t.Compound? {
      var r := Renamed(t, id);
      forall i | 0 <= i < |t.args|
        ensures Vars(r.args[i]) == set k | k in Vars(t.args[i]) :: VarKey(k.name, Some(id))
      {
        RenamedVars(t.args[i], id);
      }
      forall k | k in Vars(r) ensures k in set k | k in Vars(t) :: VarKey(k.name, Some(id)) {
        var i :| 0 <= i < |r.args| && k in Vars(r.args[i]);
        var k0 :| k0 in Vars(t.args[i]) && k == VarKey(k0.name, Some(id));
        assert k0 in Vars(t);
      }
      forall k0 | k0 in Vars(t) ensures VarKey(k0.name, Some(id)) in Vars(r) {
        var i :| 0 <= i < |t.args| && k0 in Vars(t.args[i]);
        assert VarKey(k0.name, Some(id)) in Vars(r.args[i]);
      }
    }
  }

  /** Renaming again with another id is renaming once with that id. */
  lemma {:induction false} RenamedTwice(t: Term, a: RuleId, b: RuleId)
    ensures Renamed(Renamed(t, a), b) == Renamed(t, b)
  {
    if t.Compound? {
      forall i | 0 <= i < |t.args| ensures Renamed(Renamed(t.args[i], a), b) == Renamed(t.args[i], b) {
        RenamedTwice(t.args[i], a, b);
      }
      assert Renamed(Renamed(t, a), b).args == Renamed(t, b).args;
    }
  }

  /** A term without variables is its own renaming. */
  lemma {:induction false} RenamedGround(t: Term, id: RuleId)
    requires Vars(t) == {}
    ensures Renamed(t, id) == t
  {
    if t.Compound? {
      forall i | 0 <= i < |t.args| ensures Renamed(t.args[i], id) == t.args[i] {
        assert Vars(t.args[i]) <= Vars(t);
        RenamedGround(t.args[i], id);
      }
      assert Renamed(t, id).args == t.args;
    }
  }
}
