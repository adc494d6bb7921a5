/**
 * A session with the interpreter object: clauses stored through execute,
 * then queries, the id counter carrying over from one query to the next.
 */
module Session {
  import opened Wrappers
  import opened Terms
  import opened Frames
  import opened Resolution
  import opened Scenarios
  import opened Interpreter

  /**
   * `q.` asserted twice, then `?- !, q.` and `?- q.`: the cut query answers
   * once and ends through ngFunction, having tried one rule; the plain query
   * answers twice, its tries renamed with ids 2 and 3.
   */
  method CutSession(q: string) returns (first: Option<Outcome>, second: Option<Outcome>)
    requires q != "!"
    ensures first == Some(Outcome([EmptyFrame], CutFailure, 2))
    ensures second == Some(Outcome([EmptyFrame, EmptyFrame], Exhausted, 4))
  {
    var prolog := new Prolog();
    var stored := prolog.Execute(Assert(Symbol(q)), 0);
    stored := prolog.Execute(Assert(Symbol(q)), 0);
    assert prolog.allRules.list == Twice(q);
    CutThenQuery(q, 9);
    first := prolog.Execute(Ask(CutThen(q)), 9);
    TwiceQuery(q, 2, 11);
    second := prolog.Execute(Ask(Symbol(q)), 11);
  }
}
