/**
 * Renaming apart. Every rule try renames the rule with the id it takes
 * from currentRuleId, and the counter only grows, so the variables of the
 * renamed rule meet none of the variables the search holds: not those of
 * the query, of the frame, nor those of pending conjuncts, disjuncts or
 * earlier rule applications.
 */
module Apart {
  import opened Wrappers
  import opened Terms
  import opened Frames
  import opened Unification
  import opened Rules
  import opened Renaming
  import opened Resolution

  function OptVars(t: Option<Term>): set<VarKey> {
    if t.Some? then Vars(t.value) else {}
  }

  /** The variables of the goals a success continuation still has to run. */
  function SkVars(sk: Sk): set<VarKey> {
    match sk
    case STop => {}
    case SConj(right, next) => OptVars(right) + SkVars(next)
  }

  /** The variables a failure continuation may bring back into the search. */
  function FkVars(fk: Fk): set<VarKey> {
    match fk
    case FTop => {}
    case FCut => {}
    case FNextRule(p, _, f, sk, outer) => Vars(p) + FrameVars(f) + SkVars(sk) + FkVars(outer)
    case FDisj(right, f, sk, outer) => OptVars(right) + FrameVars(f) + SkVars(sk) + FkVars(outer)
  }

  /** Every variable a configuration holds. The stored rules are not renamed yet and do not count. */
  function ConfigVars(c: Config): set<VarKey> {
    match c
    case Solve(goal, f, sk, fk) => OptVars(goal) + FrameVars(f) + SkVars(sk) + FkVars(fk)
    case Search(p, f, _, sk, fk) => Vars(p) + FrameVars(f) + SkVars(sk) + FkVars(fk)
    case Succeed(sk, f, fk) => FrameVars(f) + SkVars(sk) + FkVars(fk)
    case Fail(fk) => FkVars(fk)
    case Done(_) => {}
  }

  /** Every variable carries no id, as parsed, or an id already handed out. */
  ghost predicate IdsBelow(v: set<VarKey>, n: RuleId) {
    forall k | k in v :: k.id.None? || k.id.value < n
  }

  lemma ArgVars(q: Term, i: nat)
    requires q.Compound?
    ensures OptVars(Arg(q, i)) <= Vars(q)
  {
    if i < |q.args| {
      VarsOfArg(q, i);
    }
  }

  /** Every variable of a rule renamed with `id` carries `id`. */
  lemma RenamedIds(t: Term, id: RuleId)
    ensures forall k | k in Vars(Renamed(t, id)) :: k.id == Some(id)
  {
    RenamedVars(t, id);
  }

  /**
   * A step only moves variables around, except the rule try, whose new
   * variables are those of the rule renamed with the id it takes.
   */
  lemma {:induction false} StepVars(store: seq<Rule>, m: Machine, reading: Reading)
    requires ConfigOk(m.config)
    ensures var next := Step(store, m, reading).next;
      forall k | k in ConfigVars(next.config) :: k in ConfigVars(m.config) || k.id == Some(m.nextId)
  {
    var next := Step(store, m, reading).next;
    match m.config
    case Solve(goal, f, sk, fk) =>
      if goal.Some? && goal.value.Compound? {
        ArgVars(goal.value, 0);
        ArgVars(goal.value, 1);
      }
    case Search(p, f, s, sk, fk) =>
      if !s.IsNull() {
        var rule := s.Value().value;
        RenamedIds(rule.conclusion, m.nextId);
        if rule.body.Some? {
          RenamedIds(rule.body.value, m.nextId);
        }
      }
    case Succeed(sk, f, fk) =>
    case Fail(fk) =>
    case Done(_) =>
  }

  /** The ids of a configuration stay below the counter as the search runs. */
  lemma StepKeepsIdsBelow(store: seq<Rule>, m: Machine, reading: Reading)
    requires ConfigOk(m.config) && IdsBelow(ConfigVars(m.config), m.nextId)
    ensures IdsBelow(ConfigVars(Step(store, m, reading).next.config), Step(store, m, reading).next.nextId)
  {
    StepVars(store, m, reading);
    StepKeepsOk(store, m, reading);
  }

  /**
   * A rule try renames the rule with an id no variable of the search
   * carries yet, so the renamed conclusion and body share no variable with
   * the configuration.
   */
  lemma TryRenamedApart(store: seq<Rule>, m: Machine)
    requires m.config.Search? && !m.config.rules.IsNull()
    requires IdsBelow(ConfigVars(m.config), m.nextId)
    ensures var rule := RenamedRule(m.config.rules.Value().value, m.nextId);
      && Vars(rule.conclusion) !! ConfigVars(m.config)
      && OptVars(rule.body) !! ConfigVars(m.config)
  {
    var rule := m.config.rules.Value().value;
    RenamedIds(rule.conclusion, m.nextId);
    if rule.body.Some? {
      RenamedIds(rule.body.value, m.nextId);
    }
  }

  /** A query and frame as the parser builds them carry no ids. */
  lemma ParsedQueryIdsBelow(query: Term, frame: Frame, n: RuleId)
    requires forall k | k in Vars(query) + FrameVars(frame) :: k.id.None?
    ensures IdsBelow(ConfigVars(Solve(Some(query), frame, STop, FTop)), n)
  {
  }

  /**
   * However many steps a run of a parsed query has taken, the rule it tries
   * next is renamed apart from everything the search holds.
   */
  lemma {:induction false} EveryTryRenamedApart(store: seq<Rule>, m: Machine, k: nat, reading: Reading)
    requires ConfigOk(m.config) && IdsBelow(ConfigVars(m.config), m.nextId)
    ensures var c := Steps(store, m, k, reading);
      IdsBelow(ConfigVars(c.config), c.nextId)
      && (c.config.Search? && !c.config.rules.IsNull() ==>
            && Vars(RenamedRule(c.config.rules.Value().value, c.nextId).conclusion) !! ConfigVars(c.config)
            && OptVars(RenamedRule(c.config.rules.Value().value, c.nextId).body) !! ConfigVars(c.config))
    decreases k
  {
    if k == 0 {
      if m.config.Search? && !m.config.rules.IsNull() {
        TryRenamedApart(store, m);
      }
    } else {
      StepKeepsOk(store, m, reading);
      StepKeepsIdsBelow(store, m, reading);
      EveryTryRenamedApart(store, Step(store, m, reading).next, k - 1, reading);
    }
  }
}
