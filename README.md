# myprolog in Dafny

A model of the core of myprolog, a small Prolog interpreter written in
JavaScript, together with the linear-term and interval helpers that ship
beside it.

The interpreter works on terms: compounds, variables and symbols. Bindings
live in persistent frames, and a frame is a linked list of key/value nodes.
Unification carries a dependency (occurs) check. Rules are kept in a store
that hands out snapshot streams. Each use of a rule renames its variables
with a fresh id taken from the interpreter's counter `currentRuleId`.
Queries are solved by continuation passing: a success continuation is
called once per answer, and a failure continuation is called to ask for
the next one. Cut is a distinguished failure continuation, `cutFunction`.

The model follows the source's own shape:

- **Values.** Terms, frames, rules and streams are datatypes. The pure
  recursive code (`isEqual`, `termToString`, `isDependent`, `unify`,
  `extendFrame`) is written as functions.
- **Loops.** Code that loops over a local result is written as a method
  with a loop, proved equal to the function that specifies it:
  - the argument loop of `unify`;
  - `getBoundValue` and `frameToObject`;
  - the `retrieve` of `renameRuleVariable`;
  - the loops of `mergeTwoTerms`, `isConstantTerm` and `termToString`;
  - the loops of `makeIntervals`.
- **Objects with state.** `makeList` becomes the class `RuleList`. The
  interpreter object becomes the class `Prolog`, with its fields
  `allRules` and `currentRuleId`.
- **Continuations.** Closures are turned into data:
  - a success continuation is `STop` or `SConj(right, next)`;
  - a failure continuation is `FTop`, `FCut`, `FNextRule(...)` or `FDisj(...)`;
  - the closure calls `executeQuery(goal)(sk, fk)`, `searchRule(rules)(sk, fk)`, `sk(frame, fk)` and `fk()` become the configurations of a step machine (module Resolution);
  - the identity test `fail === cutFunction` becomes a test for the constructor `FCut`.

**How a query runs.** The caller asks for every answer in turn, so a run
is the list of answers found, followed by how it ended:
- its failure continuation ran out (`Exhausted`);
- `cutFunction` called the interpreter's `ngFunction` (`CutFailure`);
- the fuel was spent (`OutOfFuel`);
- as written, disjoin's failure continuation returned an unapplied closure (`Dropped`).

**Keys and ids.**
- A frame is keyed by a variable's name and id, where the source uses the
  string `"?" + name + "#" + id`. `Terms.KeyStringInjective` proves the two
  keyings agree for every variable name the parser accepts.
- `Apart.EveryTryRenamedApart` proves that the renamed conclusion and
  body of every try share no variable with the search.

**What the unifier is proved to do.** It is sound, complete and most
general with respect to a frame read as a substitution (`Frames.Resolve`).
`unify` terminates on acyclic frames, by a measure made of the unbound
variables and the weight of the terms.

**Where the code differs from standard Prolog, the model follows the
code:**
- **Cut is global.** Once a `!` has run, every backtrack that reaches its
  failure continuation calls the interpreter-wide `ngFunction`. Cut is not
  scoped to the clause that contains it.
- **Absent features.** The code has no number terms, no anonymous
  variables, no `is/2`, no relational built-ins, no `op/3` and no list
  printing. None of them is modelled.

## Model

| member | source | states |
|---|---|---|
| Strings.NatToString | myprolog.js:384-386 | the printed id is a non-empty string of decimal digits, one digit exactly for ids below 10 |
| Strings.NatToStringInjective | myprolog.js:319-324 | two ids that print alike are equal, so the `#id` suffix tells ids apart |
| Strings.IntToString | linear.js:83 | a printed coefficient is never empty and starts with `-` exactly when it is negative |
| Terms.KeyOf | myprolog.js:317-318 | a variable's identity is its name and its id, and turning the identity back into a variable gives the same variable |
| Terms.Arg | myprolog.js:303 | `getTerm(i)` is the i-th argument when i is below the arity, and `undefined` (None) otherwise |
| Terms.IsEqual | myprolog.js:348-372 | the structural walk (symbols by value, variables by name and id, compounds by name, arity and pairwise arguments, different variants never) holds exactly when the terms are equal |
| Terms.TermToString | myprolog.js:373-398 | a symbol prints as its value; a variable prints as its string key without the leading `?`; a compound prints as its name first and ends with `)` |
| Terms.ArgsToStringIsJoin | myprolog.js:390-393 | from the second argument on, the loop of termToString writes each further argument preceded by `, ` |
| Terms.CompoundToString | myprolog.js:388-394 | a compound prints as its name, `(`, its arguments joined by `, `, then `)`; a zero-arity compound prints as its name followed by `)` |
| Terms.KeyString | myprolog.js:319-325 | the string key of a variable is `?` followed by its name, and nothing more while it has no id; once renamed, the name is followed by `#` and the printed id |
| Terms.KeyStringInjective | myprolog.js:319-325 | for names the parser accepts, two variables have the same string key exactly when they have the same name and id |
| Terms.KeyStringShape | myprolog.js:320-323 | an unrenamed variable's key is `?` and the name; a renamed one has `#` right after the name |
| Frames.Lookup | myprolog.js:268-276 | a lookup finds a value exactly when the key is bound in the frame |
| Frames.LookupIsNewest | myprolog.js:270-274 | the lookup fails exactly when no node carries the key; otherwise it returns the value of the first node from the head that carries it |
| Frames.BindValue | myprolog.js:277-284 | bindValue puts a new node holding the binding in front of the old frame; every other key looks up as before, and the old nodes follow unchanged |
| Frames.ExtendsKeepsBindings | myprolog.js:193-203 | a frame that extends another keeps every binding of it; a changed frame has a newly bound key at its head |
| Frames.ExtendsTransitive | myprolog.js:163-169 | extending an extension of a frame extends the frame, as the threaded `tmpFrame` does |
| Frames.GetBoundValue | myprolog.js:268-276 | the walk returns the newest binding of the variable's key, and null exactly when the key is unbound |
| Frames.ObjectOf | myprolog.js:285-292 | the object has one entry per key bound in the frame |
| Frames.ObjectOfFresh | myprolog.js:285-292 | when no key is bound twice, the object maps each key to its bound value |
| Frames.FrameToObject | myprolog.js:285-292 | the loop fills the object ObjectOf describes; when no key is bound twice, every entry agrees with the lookup |
| Frames.ResolveIsGround | myprolog.js:181 | following bindings through an acyclic frame to the end leaves no bound variable in the result |
| Frames.ResolveExtends | myprolog.js:193-203 | resolving under an extension of a frame is resolving under the frame, then under the extension |
| Unification.Unify | myprolog.js:153-174 | a non-null result extends the input frame and stays acyclic, and its new bindings mention only variables of the frame or of the two terms |
| Unification.ExtendFrame | myprolog.js:175-203 | a non-null result extends the input frame and stays acyclic, and its new bindings mention only variables of the frame, of the variable or of the value |
| Unification.UnifySame | myprolog.js:156-157 | two terms that are isEqual unify and leave the frame unchanged |
| Unification.UnifyClash | myprolog.js:171-172 | two different non-variable terms that are not compounds of the same name and arity do not unify |
| Unification.UnifyArgs | myprolog.js:163-170 | a non-null result of the argument loop from position i extends the input frame and stays acyclic, and its new bindings mention only variables of the frame or of the arguments from position i on |
| Unification.IsDependent | myprolog.js:177-192 | isDependent is false of a symbol, true of the variable itself, and false of any other variable that is unbound |
| Unification.IsDependentIffOccurs | myprolog.js:177-192 | for an unbound variable, isDependent holds exactly when the variable occurs in the value once the value's bindings are followed |
| Unification.BindAcyclic | myprolog.js:198-201 | binding an unbound variable to a value that does not depend on it keeps the frame acyclic |
| Unification.UnifyCompoundCase | myprolog.js:162-170 | two different compounds of the same name and arity unify exactly as the argument loop from position 0 does |
| Unification.UnifyArgsStep | myprolog.js:164-168 | a failing pair makes the loop return null; a succeeding pair threads its frame into the rest of the loop |
| Unification.UnifyArgsEnd | myprolog.js:170 | once every pair is done, the loop returns the threaded frame |
| Unification.ArgsStepMeasure | myprolog.js:164-165 | a turn of the loop never adds unbound variables, and removes one whenever it binds something |
| UnificationProofs.UnifySound | myprolog.js:153-174 | a non-null result of unify is acyclic and makes the two terms resolve to the same term |
| UnificationProofs.ExtendFrameSound | myprolog.js:175-203 | a non-null result of extendFrame is acyclic and makes the variable and the value resolve alike |
| UnificationProofs.UnifyArgsSound | myprolog.js:163-170 | a non-null result of the argument loop makes every remaining pair of arguments resolve alike |
| UnificationProofs.NoUnifierWhenDependent | myprolog.js:198-199 | when the variable occurs in a compound value, no frame that agrees with the current one can make them equal, so the occurs check rejects only hopeless bindings |
| UnificationProofs.ExtendFrameRejects | myprolog.js:198-199 | when extendFrame fails by the dependency check, no unifier exists |
| UnificationProofs.UnifyComplete | myprolog.js:153-174 | for every frame that agrees with the current one and equates the two terms, unify succeeds, and that frame agrees with the result |
| UnificationProofs.ExtendFrameComplete | myprolog.js:175-203 | for every frame that agrees with the current one and equates the variable and the value, extendFrame succeeds, and that frame agrees with the result |
| UnificationProofs.UnifyArgsComplete | myprolog.js:163-170 | when some frame equates every remaining pair of arguments, the loop succeeds with a result that frame agrees with |
| UnificationProofs.UnifyIsMostGeneral | myprolog.js:153-203 | unify succeeds exactly when a unifier exists; its result then extends the frame, unifies the terms, and every unifier agrees with it |
| UnificationProofs.OccursCheckExample | myprolog.js:198-199 | X does not unify with f(a, X) in the empty frame |
| Unifier.Unify | myprolog.js:153-174 | the method returns what Unification.Unify does |
| Unifier.UnifyArguments | myprolog.js:162-170 | the loop reassigning `tmpFrame`, returning null at the first failing pair, returns what Unification.Unify does for the two compounds |
| Unifier.ExtendFrame | myprolog.js:175-203 | asking getBoundValue, the method returns what Unification.ExtendFrame does |
| Unifier.LoopTurn | myprolog.js:164-168 | after each turn either the whole unify is null or the loop invariant holds at the next position |
| Unifier.LoopMeasure | myprolog.js:165 | the recursive call of each turn is on a smaller measure than the whole call |
| Unifier.ExtendFrameAsWritten | myprolog.js:193-194 | an activation of extendFrame as written throws exactly when the variable is already bound, and agrees with the corrected definition otherwise |
| Unifier.BoundVariableThrows | myprolog.js:193-194 | with X bound to `a`, unifying X with `a` throws as written, while the corrected extendFrame returns the frame unchanged |
| Rules.Stream.Value | myprolog.js:230-232 | value() yields a rule exactly when the stream is not null, and the rule is the one at its index |
| Rules.Stream.Rest | myprolog.js:233-235 | rest() is the same list one index further on |
| Rules.StreamYields | myprolog.js:228-240 | a stream is null exactly when no rule remains; otherwise its value is the first rule remaining, and rest leaves the others |
| Rules.StreamFromStart | myprolog.js:248-251 | a stream from index 0 yields every rule of the list, in order |
| Rules.RuleList.constructor | myprolog.js:225-227 | makeList holds a copy of the initial list |
| Rules.RuleList.Unshift | myprolog.js:242-244 | unshift puts the rule in front of the list and leaves the rest as it was |
| Rules.RuleList.Push | myprolog.js:245-247 | push appends the rule and leaves the rest as it was |
| Rules.RuleList.GetStream | myprolog.js:248-251 | getStream yields, from index 0, exactly the rules the list holds now |
| Rules.RuleList.ToArray | myprolog.js:252-254 | toArray is the list the store holds |
| Rules.SnapshotIsolation | myprolog.js:248-251 | a stream taken before a push still yields only the earlier rule, while a stream taken after it yields both |
| Renaming.Renamed | myprolog.js:134-150 | retrieve turns each variable into a variable of the same name carrying the rule's id, and nothing else into a variable |
| Renaming.RenamedBody | myprolog.js:137-138 | a null body stays null, and any other body is renamed |
| Renaming.RenamedRule | myprolog.js:151 | the renamed rule has the renamed conclusion and the renamed body, and a null body stays null |
| Renaming.Retrieve | myprolog.js:134-150 | retrieve, filling the argument array in a loop, returns the term renamed with the rule's id |
| Renaming.RenamedKeepsShape | myprolog.js:139-149 | renaming changes only ids: symbols stay as they are, and compounds keep their name and arity |
| Renaming.RenamedVars | myprolog.js:139-140 | the variables of a renamed term are exactly the names of the original's variables, all carrying the new id |
| Renaming.RenamedTwice | myprolog.js:139-140 | renaming a renamed term replaces the old id with the new one |
| Renaming.RenamedGround | myprolog.js:147-149 | a term without variables is its own renaming |
| Resolution.SolveGoal | myprolog.js:77-94 | executeQuery's dispatch keeps the frame and never fails or ends the run; it succeeds at once exactly for a null goal or `!`, with the given fail or cutFunction; a search is for the goal itself over the whole store from its first rule, with the given continuations |
| Resolution.Resume | myprolog.js:103-124 | calling cutFunction ends the run through ngFunction; a failFunction given cutFunction calls it; the run ends with a continuation left unapplied only as written, and only at disjoin's failFunction |
| Resolution.Step | myprolog.js:77-131 | one step answers exactly when a success reaches the caller's continuation, and the answer is that success's frame; a finished run stays finished, and the counter never goes down |
| Resolution.StepKeepsOk | myprolog.js:77-131 | every step keeps the frames of the search acyclic and emits acyclic answers; the id counter moves on by one exactly at a rule try |
| Resolution.Run | myprolog.js:77-131 | a run never lowers the counter and finds at most one answer per step; every answer is acyclic, and with the disjunction applied no run is cut short |
| Resolution.Query | myprolog.js:77-94 | a query from an acyclic frame yields acyclic answers, never lowers the counter, and is never cut short by the disjunction |
| ResolutionProofs.RunSolve | myprolog.js:77-94 | executeQuery dispatches on the goal: a null goal to success, `!` to success with cutFunction, `,` to conjoin, `;` to disjoin, any other goal to the rule search |
| ResolutionProofs.RunConjSuccess | myprolog.js:95-102 | conjoin's successFunction runs the right conjunct under the frame the left one succeeded with |
| ResolutionProofs.RunAnswer | myprolog.js:80-82 | a success that reaches the caller is an answer, after which the run goes on by calling the failure continuation |
| ResolutionProofs.RunFailEnds | myprolog.js:18-20 | the caller's fail ends the run as exhausted; calling cutFunction ends it through ngFunction |
| ResolutionProofs.RunNextRule | myprolog.js:122-124 | a try's failFunction tries the next rule, or calls cutFunction when that was the fail it was given |
| ResolutionProofs.RunDisjFailure | myprolog.js:105-107 | disjoin's failFunction runs the right disjunct under the disjunction's frame once applied, ends the run as written, and calls cutFunction when that was the fail it was given |
| ResolutionProofs.RunTry | myprolog.js:119-128 | a rule try renames the rule with the next id, unifies under the caller's frame, and runs the body on success or calls its failFunction on failure |
| ResolutionProofs.RunNoMoreRules | myprolog.js:114-118 | a search with no rule left calls the caller's fail |
| ResolutionProofs.RunSkipOne | myprolog.js:122-127 | a rule that does not unify is passed over, and the next rule is tried with the next id |
| ResolutionProofs.RunSkipsRules | myprolog.js:113-131 | j rules in a row that do not unify are passed over in 2j steps, using j ids |
| ResolutionProofs.RunTryUnifies | myprolog.js:125-127 | a try whose renamed conclusion unifies runs the renamed body under the unifier |
| ResolutionProofs.FirstUnifyingRuleRuns | myprolog.js:111-131 | when the j rules from a position miss, the search runs, j rules and j ids on, the renamed body of the rule after them under its unifier, so the first rule in store order whose renamed conclusion unifies is the one that runs |
| ResolutionProofs.RunFactAnswers | myprolog.js:125-127 | a fact that unifies gives the unifier as an answer, and the search then goes on with the following rules |
| ResolutionProofs.FactsAnswerInOrder | myprolog.js:111-131 | facts that unify give their answers in store order, one rule id each, and the search then ends as exhausted |
| ResolutionProofs.NoUnifyingRuleFails | myprolog.js:114-118 | when none of the remaining rules unifies, the search calls the caller's fail |
| ResolutionProofs.CutStopsSearch | myprolog.js:122-124 | after a cut, a rule that does not unify ends the search through ngFunction instead of trying the rules after it |
| ResolutionProofs.NullGoalAnswersOnce | myprolog.js:79-82 | a null goal has exactly one answer, the frame it was given |
| ResolutionProofs.CutAnswersOnce | myprolog.js:83-86 | `!` has one answer, the frame it was given; asking for another calls ngFunction |
| Apart.StepVars | myprolog.js:125-127 | a step brings in no variable except those of the rule it renames with the current id |
| Apart.StepKeepsIdsBelow | myprolog.js:133 | every id the search holds stays below the counter |
| Apart.TryRenamedApart | myprolog.js:125-126 | the renamed conclusion and body of a try share no variable with the search |
| Apart.ParsedQueryIdsBelow | myprolog.js:310-311 | a parsed query and frame carry no ids, so they start below any counter |
| Apart.EveryTryRenamedApart | myprolog.js:132-140 | however many steps a run has taken, the ids stay below the counter, and the renamed conclusion and renamed body of the next rule it tries share no variable with the search |
| Scenarios.EitherLeftFails | myprolog.js:103-110 | `a ; b` with `a` failing comes to disjoin's failFunction, which as written ends the run |
| Scenarios.EitherRightAnswers | myprolog.js:111-131 | the query `b`, with the fact `b.` stored, has one answer, the empty frame |
| Scenarios.EitherQuery | myprolog.js:103-110 | with only `b.` stored, `a ; b` answers once with the disjunction applied, and with no answer as written |
| Scenarios.UnifyWithFact | myprolog.js:162-170 | rel(a, X) unifies with the renamed fact rel(a, v) by binding X to v and nothing else |
| Scenarios.TwoFactsQuery | myprolog.js:111-131 | with rel(a, b) and rel(a, c) stored, rel(a, X) answers X = b, then X = c, then ends as exhausted |
| Scenarios.TwiceQuery | myprolog.js:111-131 | without a cut, `q` answers once per stored fact |
| Scenarios.CutThenSearches | myprolog.js:83-88 | `!, q` succeeds at the cut with cutFunction as the failure continuation, then searches for `q` |
| Scenarios.CutFirstAnswer | myprolog.js:122-124 | after the cut, the first fact answers, and asking for the next answer calls ngFunction |
| Scenarios.CutThenQuery | myprolog.js:18-20 | `!, q` with `q.` stored twice answers once and ends through ngFunction, where `q` alone answers twice |
| Interpreter.StartFrame | myprolog.js:78 | a given frame is used as it is, and otherwise the empty frame; either is acyclic |
| Interpreter.Prolog.constructor | myprolog.js:14-15 | a new interpreter holds no rules, and its first rule try takes id 1 |
| Interpreter.Prolog.AddRule | myprolog.js:212-215 | addRule appends the rule made of the conclusion and the body |
| Interpreter.Prolog.AddRuleFirst | myprolog.js:208-211 | addRuleFirst puts the rule in front of the others |
| Interpreter.Prolog.GetRules | myprolog.js:205-207 | getRules ignores its pattern and frame and yields every stored rule, in order |
| Interpreter.Prolog.RenameRuleVariable | myprolog.js:132-152 | renameRuleVariable renames the rule with the counter's value and advances the counter by one |
| Interpreter.Prolog.StepOnce | myprolog.js:77-131 | one step of the closures, renaming through the counter and unifying with the looping unifier, is the step of the machine, and the counter ends at the machine's next id |
| Interpreter.Prolog.ExecuteQuery | myprolog.js:77-131 | asking for every answer, executeQuery gives the outcome Query defines over the rules stored now, and leaves the counter at the id the run would hand out next |
| Interpreter.ClauseRule | myprolog.js:68-72 | a `:-` clause gives a rule with a body, from which the clause is rebuilt as head and body; any other clause gives a fact whose conclusion is the clause |
| Interpreter.Prolog.Execute | myprolog.js:61-75 | a `:-` clause is stored as its head and body and any other clause as a fact, returning null; a query is run from the empty frame without changing the store |
| Session.CutSession | myprolog.js:18-20 | after asserting `q.` twice, `?- !, q.` answers once and ends through ngFunction, and a following `?- q.` answers twice with the counter carried over |
| Linear.Merge | linear.js:23-44 | the merged term starts with the keys of a, in a's order, and its keys are those of the two terms |
| Linear.NewKeysMeans | linear.js:38-40 | the keys the second loop adds are exactly the keys of b that a lacks, each added once |
| Linear.MergeMeans | linear.js:23-44 | the result has the keys of a in a's order, followed by b's keys that a lacks; a key in both holds func's value when that is not 0 and a's value otherwise; a key in one input keeps that input's value |
| Linear.MergeKeyStep | linear.js:33-41 | each turn of the second loop keeps the merged prefix invariant for one more key of b |
| Linear.CopyTerm | linear.js:27-31 | the first loop copies every own key of a, in order, with its value |
| Linear.MergeTwoTerms | linear.js:23-44 | the two loops build exactly the merge MergeMeans describes, leaving both inputs alone |
| Linear.IsConstant | linear.js:66-74 | a term is constant exactly when each of its own keys is the constant key `""` |
| Linear.ConstantMeans | linear.js:66-74 | a term is constant exactly when it has no key or only the key `""` |
| Linear.IsConstantTerm | linear.js:66-74 | the loop, returning false at the first key other than `""`, answers whether the term is constant |
| Linear.TermString | linear.js:75-87 | termToString never returns the empty string, and a term without keys prints as `0` |
| Linear.RenderedEmpty | linear.js:78-85 | the text built so far is empty exactly when no entry has been written yet |
| Linear.RenderedPieces | linear.js:78-85 | each entry appends its coefficient and key, preceded by `+` exactly when it is not the first entry and its coefficient is positive |
| Linear.RenderedStartsBare | linear.js:80-83 | the text starts with the first entry's coefficient and key, with no sign added |
| Linear.NoPlusInNumber | linear.js:83 | a printed coefficient never contains `+` |
| Linear.NoPlusWithoutPositive | linear.js:80-82 | with no positive coefficient and no `+` in the keys, the text contains no `+` |
| Linear.TermStringCases | linear.js:86 | a term without keys prints as `0`; any other prints as its non-empty rendered entries |
| Linear.TermToString | linear.js:75-87 | the loop over the term's own keys, in order, returns the text described by TermString |
| Linear.Interval.IsDetermined | linear.js:167-169 | an interval without bounds is determined, and a determined interval has only constant bounds |
| Linear.Interval.IsContradiction | linear.js:170-180 | a contradiction has both bounds, both constant; with both ends closed, its upper constant is below its lower one |
| Linear.Interval.UnderSup | linear.js:185 | a missing upper bound admits every number; a present one admits only numbers at most its constant, and none when that constant is `undefined` |
| Linear.Interval.OverInf | linear.js:185 | a missing lower bound admits every number; a present one admits only numbers at least its constant, and none when that constant is `undefined` |
| Linear.Interval.Contains | linear.js:181-186 | a contained number lies within both bounds of a determined interval that is not a contradiction; an undetermined interval contains nothing |
| Linear.Interval.SupOpenMessage | linear.js:190 | the `supOpen` message is true for a missing upper bound, and otherwise exactly when the bound is open |
| Linear.Interval.InfOpenMessage | linear.js:192 | the `infOpen` message is true for a missing lower bound, and otherwise exactly when the bound is open |
| Linear.ContradictionIsEmpty | linear.js:170-180 | no number lies within both bounds of a contradictory interval |
| Linear.ClosedIntervalHasMember | linear.js:181-186 | a determined, closed, non-contradictory interval contains its lower bound |
| Linear.MissingBoundIsOpen | linear.js:181-192 | a null bound constrains nothing and its message reports it open; an interval with no bounds contains every number |
| Linear.IntervalsDetermined | linear.js:202-210 | makeIntervals' isDetermined is true exactly when every interval is determined |
| Linear.IntervalsContradiction | linear.js:211-219 | makeIntervals' isContradiction is true exactly when some interval is a contradiction |
| Linear.IntervalsContradictionIsEmpty | linear.js:211-219 | when some interval is a contradiction, no number lies within all of them |

## Left out

- The parser (myprolog.js:9-11, 22-60) is not modelled. It is built on the foreign libraries rena-js and kalimotxo, whose code is not part of this model. execute is modelled from the parsed input: a clause, or a `?-` query.
- app.js is not modelled, because it is console input and output. How the answers are shown, and when the next one is asked for, belongs to it. The model's caller always asks for the next answer.
- ngFunction is supplied by the interpreter's creator and is not visible. Calling it ends the run with `CutFailure`.
- Resolution may diverge, so every run carries a step budget (`fuel`). A run that uses up its budget ends with `OutOfFuel`. The model proves no termination of resolution.
- Closures and object identity are replaced by continuations as data. `fail === cutFunction` is modelled as a test for `FCut`.
- Resolution.Run: models disjoin with its closure applied, as the code evidently intends. The code as written is modelled only by the `AsWritten` reading of Resolution.Step (see Findings).
- Unifier.ExtendFrameAsWritten: models one activation of extendFrame as written. The calls it makes into unify are those of the corrected definition.
- Coefficients and bounds in linear.js are modelled as integers, not JavaScript floating-point numbers.
- Object keys in linear.js are enumerated in insertion order. JavaScript enumerates integer-like keys first; the model does not capture that.
- The broken parts of linear.js are left out, because each throws or does nothing useful:
  - mapTerm never returns its result.
  - multiplyTerm, negateTerm, addTerms and subtractTerms call an undefined makeLinearTerm.
  - substituteFactor depends on mapTerm.
  - makeInequation's solve calls an undefined addTerm.
  - The operators table reads `operators["="]` and its other entries while `operators` is still undefined (linear.js:9, 89-92), so loading linear.js throws a TypeError. As shipped, none of its functions can be called; the model treats the file as if it had loaded.
  - makeIntervals.reduce compares objects with `<` and `>`.
  - makeInterval.toString overwrites its own result.
- The message dispatch of makeInterval (linear.js:187-198) is not modelled as a function of message strings. Each message is modelled as a predicate on the interval.
- `contains` (linear.js:181-186) is modelled, although the dispatch never exposes it.
- Linear.RenderedStartsBare: stated for at least one entry, because text without entries has no first entry.
- Linear.NoPlusWithoutPositive: stated for at least one entry; for no entries, TermStringCases gives `0`.
- Linear.TermToString: the integer printed is that of IntToString. A JavaScript number's fractional or exponent form is not modelled.
- Frames.FrameToObject: keys are variable identities, not the string keys the source uses. Terms.KeyStringInjective links the two for parser-legal names.

## Findings

| source | as written | input that shows it | evidently intended | confidence | as-written member | corrected member |
|---|---|---|---|---|---|---|
| myprolog.js:194 | extendFrame unifies `bindingVal`, which is defined nowhere, so a bound variable throws a ReferenceError | X bound to `a`, then unify X with `a` | unify the variable's bound value with `val` | not executed | Unifier.BoundVariableThrows | Unification.ExtendFrame |
| myprolog.js:106 | disjoin's failFunction returns `executeQuery(right, frame)` without applying it to `(success, fail)`, so the right disjunct never runs | `a ; b` with only the fact `b.` stored | run the right disjunct with the disjunction's success and fail | not executed | Scenarios.EitherQuery | ResolutionProofs.RunDisjFailure |
