/**
 * Binding frames: the persistent linked list built by makeEmptyFrame and
 * bindValue, read by getBoundValue and frameToObject. A frame node is keyed
 * by the variable's identity (see Terms.KeyStringInjective for why this is
 * the same as the source's string key).
 *
 * The module also holds the notions the unifier is proved against: the
 * variables of a term, acyclic frames (a rank map that strictly decreases
 * along every binding), a weight that measures a term with its bindings
 * expanded, and full dereferencing (Resolve).
 */
module Frames {
  import opened Wrappers
  import opened Terms

  datatype Frame = EmptyFrame | Bind(key: VarKey, value: Term, rest: Frame)

  /** The keys bound somewhere in the frame. */
  function Dom(f: Frame): set<VarKey> {
    match f
    case EmptyFrame => {}
    case Bind(k, _, rest) => {k} + Dom(rest)
  }

  /** getBoundValue's result: the newest binding of `k`, if any. */
  function Lookup(f: Frame, k: VarKey): (r: Option<Term>)
    ensures r.Some? <==> k in Dom(f)
  {
    match f
    case EmptyFrame => None
    case Bind(k', v, rest) => if k' == k then Some(v) else Lookup(rest, k)
  }

  function BoundValue(f: Frame, k: VarKey): Term
    requires k in Dom(f)
  {
    Lookup(f, k).value
  }

  /** The entries of the frame, newest first. */
  function Entries(f: Frame): (s: seq<(VarKey, Term)>)
    ensures |s| == 0 <==> f.EmptyFrame?
  {
    match f
    case EmptyFrame => []
    case Bind(k, v, rest) => [(k, v)] + Entries(rest)
  }

  /**
   * Lookup finds the newest entry with the key: an entry at position `i`
   * with no entry of that key before it; and it finds nothing exactly when
   * no entry has the key.
   */
  lemma {:induction false} LookupIsNewest(f: Frame, k: VarKey)
    ensures Lookup(f, k).None? <==> forall i | 0 <= i < |Entries(f)| :: Entries(f)[i].0 != k
    ensures Lookup(f, k).Some? ==>
      exists i | 0 <= i < |Entries(f)| ::
        && Entries(f)[i] == (k, Lookup(f, k).value)
        && forall j | 0 <= j < i :: Entries(f)[j].0 != k
  {
    match f
    case EmptyFrame =>
    case Bind(k', v, rest) =>
      LookupIsNewest(rest, k);
      EntriesOfBind(k', v, rest);
      if k' == k {
        LookupHead(k, v, rest);
      } else if Lookup(rest, k).Some? {
        var i :| 0 <= i < |Entries(rest)| && Entries(rest)[i] == (k, Lookup(rest, k).value)
          && forall j | 0 <= j < i :: Entries(rest)[j].0 != k;
        assert Entries(f)[i + 1] == Entries(rest)[i];
        assert forall j | 0 <= j < i + 1 :: Entries(f)[j].0 != k by {
          forall j | 0 <= j < i + 1 ensures Entries(f)[j].0 != k {
            if j > 0 { assert Entries(f)[j] == Entries(rest)[j - 1]; }
          }
        }
      } else {
        forall i | 0 <= i < |Entries(f)| ensures Entries(f)[i].0 != k {
          if i > 0 { assert Entries(f)[i] == Entries(rest)[i - 1]; } else { assert Entries(f)[0] == (k', v); }
        }
      }
  }

  lemma EntriesOfBind(k: VarKey, v: Term, rest: Frame)
    ensures Entries(Bind(k, v, rest))[0] == (k, v)
    ensures forall i | 0 < i < |Entries(Bind(k, v, rest))| :: Entries(Bind(k, v, rest))[i] == Entries(rest)[i - 1]
  {
  }

  /** A binding at the head is the newest one. */
  lemma LookupHead(k: VarKey, v: Term, rest: Frame)
    ensures Lookup(Bind(k, v, rest), k) == Some(v)
    ensures !(forall i | 0 <= i < |Entries(Bind(k, v, rest))| :: Entries(Bind(k, v, rest))[i].0 != k)
    ensures 0 < |Entries(Bind(k, v, rest))| && Entries(Bind(k, v, rest))[0] == (k, v)
  {
    assert Entries(Bind(k, v, rest))[0] == (k, v);
  }

  /**
   * bindValue: a new head node whose rest is the given frame. The old frame
   * is not touched; the new one answers `value` for the variable and agrees
   * with the old one on every other key.
   */
  function BindValue(v: Term, value: Term, f: Frame): (r: Frame)
    requires v.Variable?
    ensures Lookup(r, KeyOf(v)) == Some(value)
    ensures forall k | k != KeyOf(v) :: Lookup(r, k) == Lookup(f, k)
    ensures Dom(r) == Dom(f) + {KeyOf(v)} && Entries(r) == [(KeyOf(v), value)] + Entries(f)
  {
    Bind(KeyOf(v), value, f)
  }

  /** No key is bound twice. */
  predicate Fresh(f: Frame) {
    f.Bind? ==> f.key !in Dom(f.rest) && Fresh(f.rest)
  }

  /** `g` is `f` with zero or more bindings of keys new to `f` in front. */
  predicate Extends(g: Frame, f: Frame) {
    g == f || (g.Bind? && g.key !in Dom(g.rest) && Extends(g.rest, f))
  }

  lemma {:induction false} ExtendsKeepsBindings(g: Frame, f: Frame)
    requires Extends(g, f)
    ensures Dom(f) <= Dom(g)
    ensures forall k | k in Dom(f) :: Lookup(g, k) == Lookup(f, k)
    ensures Fresh(f) ==> Fresh(g)
    ensures g != f ==> g.Bind? && g.key !in Dom(f)
  {
    if g != f {
      ExtendsKeepsBindings(g.rest, f);
    }
  }

  lemma {:induction false} ExtendsTransitive(h: Frame, g: Frame, f: Frame)
    requires Extends(h, g) && Extends(g, f)
    ensures Extends(h, f)
  {
    if h != g {
      ExtendsTransitive(h.rest, g, f);
    }
  }

  /** The variables occurring in a term. */
  function Vars(t: Term): set<VarKey> {
    match t
    case Variable(n, id) => {VarKey(n, id)}
    case Symbol(_) => {}
    case Compound(_, args) => set i, k | 0 <= i < |args| && k in Vars(args[i]) :: k
  }

  lemma VarsOfArg(t: Term, i: nat)
    requires t.Compound? && i < |t.args|
    ensures Vars(t.args[i]) <= Vars(t)
  {
  }

  /** Every key of the frame and every variable of a bound value. */
  function FrameVars(f: Frame): set<VarKey> {
    match f
    case EmptyFrame => {}
    case Bind(k, v, rest) => {k} + Vars(v) + FrameVars(rest)
  }

  lemma {:induction false} BoundValueVars(f: Frame, k: VarKey)
    requires k in Dom(f)
    ensures Vars(BoundValue(f, k)) <= FrameVars(f)
    ensures Dom(f) <= FrameVars(f)
  {
    if f.key != k {
      BoundValueVars(f.rest, k);
    } else if f.rest.Bind? {
      BoundValueVars(f.rest, f.rest.key);
    }
  }

  // ---------------------------------------------------------------------
  // Acyclic frames

  /** Every bound variable of a binding ranks strictly below the bound key. */
  ghost predicate Ranked(f: Frame, r: map<VarKey, nat>) {
    && Dom(f) <= r.Keys
    && forall k, j | k in Dom(f) && j in Vars(BoundValue(f, k)) && j in Dom(f) :: r[j] < r[k]
  }

  /** Following bindings from any term always comes to an end. */
  ghost predicate Acyclic(f: Frame) {
    exists r :: Ranked(f, r)
  }

  ghost function TheRank(f: Frame): (r: map<VarKey, nat>)
    requires Acyclic(f)
    ensures Ranked(f, r)
  {
    var r :| Ranked(f, r); r
  }

  lemma EmptyFrameAcyclic()
    ensures Acyclic(EmptyFrame)
  {
    assert Ranked(EmptyFrame, map[]);
  }

  function Max(a: nat, b: nat): nat {
    if a < b then b else a
  }

  /** One more than the highest rank of a bound variable of `t` (0 if none). */
  ghost function RankOf(t: Term, f: Frame, r: map<VarKey, nat>): nat
    requires Dom(f) <= r.Keys
    decreases t
  {
    match t
    case Variable(n, id) => if VarKey(n, id) in Dom(f) then r[VarKey(n, id)] + 1 else 0
    case Symbol(_) => 0
    case Compound(_, _) => RankOfArgs(t, f, r, 0)
  }

  ghost function RankOfArgs(t: Term, f: Frame, r: map<VarKey, nat>, i: nat): nat
    requires Dom(f) <= r.Keys && t.Compound? && i <= |t.args|
    decreases t, |t.args| - i
  {
    if i == |t.args| then 0 else Max(RankOf(t.args[i], f, r), RankOfArgs(t, f, r, i + 1))
  }

  lemma {:induction false} RankOfArgsBound(t: Term, f: Frame, r: map<VarKey, nat>, i: nat, j: nat)
    requires Dom(f) <= r.Keys && t.Compound? && i <= j < |t.args|
    ensures RankOf(t.args[j], f, r) <= RankOfArgs(t, f, r, i)
    decreases j - i
  {
    if i < j {
      RankOfArgsBound(t, f, r, i + 1, j);
    }
  }

  /** RankOf is at most any bound that exceeds every bound variable's rank. */
  lemma {:induction false} RankOfAtMost(t: Term, f: Frame, r: map<VarKey, nat>, bound: nat)
    requires Dom(f) <= r.Keys
    requires forall j | j in Vars(t) && j in Dom(f) :: r[j] < bound
    ensures RankOf(t, f, r) <= bound
    decreases t, 1
  {
    if t.Compound? {
      RankOfArgsAtMost(t, f, r, bound, 0);
    }
  }

  lemma {:induction false} RankOfArgsAtMost(t: Term, f: Frame, r: map<VarKey, nat>, bound: nat, i: nat)
    requires Dom(f) <= r.Keys && t.Compound? && i <= |t.args|
    requires forall j | j in Vars(t) && j in Dom(f) :: r[j] < bound
    ensures RankOfArgs(t, f, r, i) <= bound
    decreases t, 0, |t.args| - i
  {
    if i < |t.args| {
      VarsOfArg(t, i);
      RankOfAtMost(t.args[i], f, r, bound);
      RankOfArgsAtMost(t, f, r, bound, i + 1);
    }
  }

  lemma BoundValueRanksLower(f: Frame, r: map<VarKey, nat>, k: VarKey)
    requires Ranked(f, r) && k in Dom(f)
    ensures RankOf(BoundValue(f, k), f, r) < RankOf(VarOf(k), f, r)
  {
    RankOfAtMost(BoundValue(f, k), f, r, r[k]);
  }

  // ---------------------------------------------------------------------
  // Weight: the size of a term with every binding expanded

  ghost function WeightR(t: Term, f: Frame, r: map<VarKey, nat>): (w: nat)
    requires Ranked(f, r)
    ensures w >= 1
    decreases RankOf(t, f, r), t, 1
  {
    match t
    case Variable(n, id) =>
      var k := VarKey(n, id);
      if k in Dom(f) then
        BoundValueRanksLower(f, r, k);
        1 + WeightR(BoundValue(f, k), f, r)
      else 1
    case Symbol(_) => 1
    case Compound(_, _) => 1 + WeightArgsR(t, f, r, 0)
  }

  ghost function WeightArgsR(t: Term, f: Frame, r: map<VarKey, nat>, i: nat): nat
    requires Ranked(f, r) && t.Compound? && i <= |t.args|
    decreases RankOf(t, f, r), t, 0, |t.args| - i
  {
    if i == |t.args| then 0
    else
      RankOfArgsBound(t, f, r, 0, i);
      WeightR(t.args[i], f, r) + WeightArgsR(t, f, r, i + 1)
  }

  ghost function Weight(t: Term, f: Frame): nat
    requires Acyclic(f)
  {
    WeightR(t, f, TheRank(f))
  }

  /** The weight of the arguments of a compound from position `i` on. */
  ghost function WeightFrom(t: Term, i: nat, f: Frame): nat
    requires Acyclic(f) && t.Compound? && i <= |t.args|
  {
    WeightArgsR(t, f, TheRank(f), i)
  }

  lemma WeightOfBound(f: Frame, k: VarKey)
    requires Acyclic(f) && k in Dom(f)
    ensures Weight(VarOf(k), f) == 1 + Weight(BoundValue(f, k), f)
  {
  }

  lemma WeightOfCompound(t: Term, f: Frame)
    requires Acyclic(f) && t.Compound?
    ensures Weight(t, f) == 1 + WeightFrom(t, 0, f)
  {
  }

  lemma WeightFromStep(t: Term, i: nat, f: Frame)
    requires Acyclic(f) && t.Compound? && i < |t.args|
    ensures WeightFrom(t, i, f) == Weight(t.args[i], f) + WeightFrom(t, i + 1, f)
  {
  }

  lemma {:induction false} WeightOfArgs(t: Term, f: Frame)
    requires Acyclic(f) && t.Compound?
    ensures forall i | 0 <= i < |t.args| :: Weight(t.args[i], f) < Weight(t, f)
  {
    forall i | 0 <= i < |t.args| ensures Weight(t.args[i], f) < Weight(t, f) {
      WeightFromAtLeast(t, 0, i, f);
    }
  }

  lemma {:induction false} WeightFromAtLeast(t: Term, i: nat, j: nat, f: Frame)
    requires Acyclic(f) && t.Compound? && i <= j < |t.args|
    ensures Weight(t.args[j], f) <= WeightFrom(t, i, f)
    decreases j - i
  {
    if i < j {
      WeightFromAtLeast(t, i + 1, j, f);
    }
  }

  // ---------------------------------------------------------------------
  // Full dereferencing

  /** The term with every bound variable replaced, transitively, by its value. */
  ghost function Resolve(t: Term, f: Frame): Term
    requires Acyclic(f)
    decreases Weight(t, f)
  {
    match t
    case Variable(_, _) =>
      var k := KeyOf(t);
      if k in Dom(f) then
        WeightOfBound(f, k);
        Resolve(BoundValue(f, k), f)
      else t
    case Symbol(_) => t
    case Compound(n, args) =>
      WeightOfArgs(t, f);
      Compound(n, seq(|args|, i requires 0 <= i < |args| => Resolve(args[i], f)))
  }

  /** A resolved term mentions no bound variable. */
  lemma {:induction false} ResolveIsGround(t: Term, f: Frame)
    requires Acyclic(f)
    ensures Vars(Resolve(t, f)) !! Dom(f)
    decreases Weight(t, f)
  {
    match t
    case Variable(_, _) =>
      if KeyOf(t) in Dom(f) {
        WeightOfBound(f, KeyOf(t));
        ResolveIsGround(BoundValue(f, KeyOf(t)), f);
      }
    case Symbol(_) =>
    case Compound(n, args) =>
      WeightOfArgs(t, f);
      var rt := Resolve(t, f);
      forall i | 0 <= i < |args| ensures Vars(rt.args[i]) !! Dom(f) {
        ResolveIsGround(args[i], f);
      }
  }

  /**
   * Extending a frame acts on resolved terms as resolving once more:
   * resolving under `g` is resolving under `f` and then under `g`.
   */
  lemma {:induction false} ResolveExtends(t: Term, g: Frame, f: Frame)
    requires Acyclic(f) && Acyclic(g) && Extends(g, f)
    ensures Resolve(t, g) == Resolve(Resolve(t, f), g)
    decreases Weight(t, f)
  {
    ExtendsKeepsBindings(g, f);
    match t
    case Variable(_, _) =>
      var k := KeyOf(t);
      if k in Dom(f) {
        WeightOfBound(f, k);
        WeightOfBound(g, k);
        ResolveExtends(BoundValue(f, k), g, f);
      }
    case Symbol(_) =>
    case Compound(n, args) =>
      WeightOfArgs(t, f);
      WeightOfArgs(t, g);
      var rf := Resolve(t, f);
      WeightOfArgs(rf, g);
      forall i | 0 <= i < |args| ensures Resolve(args[i], g) == Resolve(rf.args[i], g) {
        ResolveExtends(args[i], g, f);
      }
  }

  // ---------------------------------------------------------------------
  // getBoundValue and frameToObject, as the loops the source runs

  /** getBoundValue: walk from the newest node outward to the first key match. */
  method GetBoundValue(variable: Term, frame: Frame) returns (r: Option<Term>)
    requires variable.Variable?
    ensures r == Lookup(frame, KeyOf(variable))
    ensures r.None? <==> KeyOf(variable) !in Dom(frame)
  {
    var nowFrame := frame;
    while nowFrame.Bind?
      invariant Lookup(nowFrame, KeyOf(variable)) == Lookup(frame, KeyOf(variable))
      decreases nowFrame
    {
      if nowFrame.key == KeyOf(variable) {
        return Some(nowFrame.value);
      }
      nowFrame := nowFrame.rest;
    }
    return None;
  }

  /**
   * The object frameToObject fills: one entry per key; since the walk goes
   * from the newest node outward and each visit overwrites, the oldest
   * binding of a key is the one that remains.
   */
  function ObjectOf(f: Frame): (m: map<VarKey, Term>)
    ensures m.Keys == Dom(f)
  {
    match f
    case EmptyFrame => map[]
    case Bind(k, v, rest) => map[k := v] + ObjectOf(rest)
  }

  /** On a frame that binds no key twice the object agrees with Lookup. */
  lemma {:induction false} ObjectOfFresh(f: Frame)
    requires Fresh(f)
    ensures forall k | k in Dom(f) :: ObjectOf(f)[k] == BoundValue(f, k)
  {
    if f.Bind? {
      ObjectOfFresh(f.rest);
    }
  }

  method FrameToObject(frame: Frame) returns (result: map<VarKey, Term>)
    ensures result == ObjectOf(frame)
    ensures Fresh(frame) ==> forall k | k in result :: Lookup(frame, k) == Some(result[k])
  {
    var nowFrame := frame;
    result := map[];
    while nowFrame.Bind?
      invariant result + ObjectOf(nowFrame) == ObjectOf(frame)
      decreases nowFrame
    {
      assert ObjectOf(nowFrame) == map[nowFrame.key := nowFrame.value] + ObjectOf(nowFrame.rest);
      result := result[nowFrame.key := nowFrame.value];
      nowFrame := nowFrame.rest;
    }
    if Fresh(frame) {
      ObjectOfFresh(frame);
    }
  }
}
