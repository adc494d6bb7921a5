/**
 * unify and extendFrame with their dependency (occurs) check, as functions
 * over persistent frames, together with the facts they are proved against:
 * a successful unification only prepends bindings of new keys and keeps the
 * frame acyclic (this module), both terms then resolve to the same term,
 * and a unifier is found whenever one exists (module UnificationProofs).
 */
module Unification {
  import opened Wrappers
  import opened Terms
  import opened Frames

  // ---------------------------------------------------------------------
  // Free variables under a frame

  /** The unbound variables a term stands for once its bindings are followed. */
  ghost function FreeVars(t: Term, f: Frame): set<VarKey>
    requires Acyclic(f)
  {
    Vars(Resolve(t, f))
  }

  /** The free variables of the arguments of `t` from position `i` on. */
  ghost function ArgFreeVars(t: Term, i: nat, f: Frame): set<VarKey>
    requires Acyclic(f) && t.Compound? && i <= |t.args|
  {
    set j, k | i <= j < |t.args| && k in FreeVars(t.args[j], f) :: k
  }

  lemma FreeVarsOfUnbound(k: VarKey, f: Frame)
    requires Acyclic(f) && k !in Dom(f)
    ensures FreeVars(VarOf(k), f) == {k}
  {
  }

  lemma FreeVarsOfBound(k: VarKey, f: Frame)
    requires Acyclic(f) && k in Dom(f)
    ensures FreeVars(VarOf(k), f) == FreeVars(BoundValue(f, k), f)
  {
  }

  lemma FreeVarsOfCompound(t: Term, f: Frame)
    requires Acyclic(f) && t.Compound?
    ensures FreeVars(t, f) == ArgFreeVars(t, 0, f)
  {
    var rt := Resolve(t, f);
    assert forall i | 0 <= i < |t.args| :: rt.args[i] == Resolve(t.args[i], f);
    forall k | k in FreeVars(t, f) ensures k in ArgFreeVars(t, 0, f) {
      var i :| 0 <= i < |rt.args| && k in Vars(rt.args[i]);
      assert k in FreeVars(t.args[i], f);
    }
    forall k | k in ArgFreeVars(t, 0, f) ensures k in FreeVars(t, f) {
      var i :| 0 <= i < |t.args| && k in FreeVars(t.args[i], f);
      assert k in Vars(rt.args[i]);
    }
  }

  lemma ArgFreeVarsStep(t: Term, i: nat, f: Frame)
    requires Acyclic(f) && t.Compound? && i < |t.args|
    ensures ArgFreeVars(t, i, f) == FreeVars(t.args[i], f) + ArgFreeVars(t, i + 1, f)
  {
  }

  /** A variable of `t` contributes its own free variables to those of `t`. */
  lemma {:induction false} VarsFree(t: Term, j: VarKey, f: Frame)
    requires Acyclic(f) && j in Vars(t)
    ensures FreeVars(VarOf(j), f) <= FreeVars(t, f)
  {
    if t.Compound? {
      var i :| 0 <= i < |t.args| && j in Vars(t.args[i]);
      VarsFree(t.args[i], j, f);
      FreeVarsOfCompound(t, f);
    }
  }

  lemma {:induction false} RankOfAbove(t: Term, f: Frame, r: map<VarKey, nat>, j: VarKey)
    requires Dom(f) <= r.Keys && j in Vars(t) && j in Dom(f)
    ensures r[j] < RankOf(t, f, r)
  {
    if t.Compound? {
      var i :| 0 <= i < |t.args| && j in Vars(t.args[i]);
      RankOfAbove(t.args[i], f, r, j);
      RankOfArgsBound(t, f, r, 0, i);
    }
  }

  // ---------------------------------------------------------------------
  // The termination measure: variables mentioned anywhere and not yet bound

  /** The variables of the arguments of `t` from position `i` on. */
  function VarsFrom(t: Term, i: nat): set<VarKey>
    requires t.Compound? && i <= |t.args|
  {
    set j, k | i <= j < |t.args| && k in Vars(t.args[j]) :: k
  }

  /** The variables of both terms and of the frame that the frame leaves unbound. */
  function Unbound(p1: Term, p2: Term, f: Frame): set<VarKey> {
    (Vars(p1) + Vars(p2) + FrameVars(f)) - Dom(f)
  }

  function UnboundFrom(p1: Term, p2: Term, i: nat, f: Frame): set<VarKey>
    requires p1.Compound? && p2.Compound? && i <= |p1.args| && i <= |p2.args|
  {
    (VarsFrom(p1, i) + VarsFrom(p2, i) + FrameVars(f)) - Dom(f)
  }

  lemma VarsFromStep(t: Term, i: nat)
    requires t.Compound? && i < |t.args|
    ensures VarsFrom(t, i) == Vars(t.args[i]) + VarsFrom(t, i + 1)
  {
  }

  lemma SubsetCard<T>(a: set<T>, b: set<T>)
    requires a <= b
    ensures |a| <= |b|
    ensures a != b ==> |a| < |b|
  {
    assert b == a + (b - a);
    if a != b {
      var x :| x in b - a;
    }
  }

  lemma UnboundSymmetric(p1: Term, p2: Term, f: Frame)
    ensures Vars(p2) + Vars(p1) == Vars(p1) + Vars(p2)
    ensures Unbound(p2, p1, f) == Unbound(p1, p2, f)
  {
  }

  lemma UnboundFromZero(p1: Term, p2: Term, f: Frame)
    requires p1.Compound? && p2.Compound?
    ensures VarsFrom(p1, 0) == Vars(p1) && VarsFrom(p2, 0) == Vars(p2)
    ensures UnboundFrom(p1, p2, 0, f) == Unbound(p1, p2, f)
  {
    assert VarsFrom(p1, 0) == Vars(p1);
    assert VarsFrom(p2, 0) == Vars(p2);
  }

  lemma UnboundFromStep(p1: Term, p2: Term, i: nat, f: Frame)
    requires p1.Compound? && p2.Compound? && i < |p1.args| == |p2.args|
    ensures |Unbound(p1.args[i], p2.args[i], f)| <= |UnboundFrom(p1, p2, i, f)|
  {
    VarsFromStep(p1, i);
    VarsFromStep(p2, i);
    SubsetCard(Unbound(p1.args[i], p2.args[i], f), UnboundFrom(p1, p2, i, f));
  }

  /** Replacing a bound variable by its value mentions nothing new. */
  lemma UnboundOfBound(variable: Term, val: Term, f: Frame)
    requires variable.Variable? && KeyOf(variable) in Dom(f)
    ensures |Unbound(BoundValue(f, KeyOf(variable)), val, f)| <= |Unbound(variable, val, f)|
    ensures |Unbound(val, BoundValue(f, KeyOf(variable)), f)| <= |Unbound(val, variable, f)|
    ensures Vars(BoundValue(f, KeyOf(variable))) <= FrameVars(f)
  {
    BoundValueVars(f, KeyOf(variable));
    SubsetCard(Unbound(BoundValue(f, KeyOf(variable)), val, f), Unbound(variable, val, f));
    SubsetCard(Unbound(val, BoundValue(f, KeyOf(variable)), f), Unbound(val, variable, f));
  }

  // ---------------------------------------------------------------------
  // What a successful unification step does to the frame

  /**
   * `g` is acyclic, is `f` with bindings of new keys prepended, and its
   * keys and values mention only variables of `f` or of `V`.
   */
  ghost predicate Grows(g: Frame, f: Frame, V: set<VarKey>) {
    && Acyclic(g)
    && Extends(g, f)
    && FrameVars(g) <= FrameVars(f) + V
  }

  lemma BindGrows(variable: Term, val: Term, f: Frame)
    requires Acyclic(f) && variable.Variable?
    requires KeyOf(variable) !in Dom(f) && KeyOf(variable) !in FreeVars(val, f)
    ensures Grows(BindValue(variable, val, f), f, Vars(variable) + Vars(val))
  {
    BindAcyclic(KeyOf(variable), val, f);
  }

  lemma GrowsTrans(h: Frame, g: Frame, f: Frame, P: set<VarKey>, Q: set<VarKey>, R: set<VarKey>)
    requires Grows(g, f, P) && Grows(h, g, Q) && P <= R && Q <= R
    ensures Grows(h, f, R)
  {
    ExtendsTransitive(h, g, f);
  }

  /**
   * After the pair at `i` unified from `f` to `g`, the measure for the
   * remaining pairs under `g` is no larger, and smaller as soon as `g`
   * bound anything.
   */
  lemma ArgsStepMeasure(p1: Term, p2: Term, i: nat, f: Frame, g: Frame)
    requires p1.Compound? && p2.Compound? && i < |p1.args| == |p2.args|
    requires Grows(g, f, Vars(p1.args[i]) + Vars(p2.args[i]))
    ensures |UnboundFrom(p1, p2, i + 1, g)| <= |UnboundFrom(p1, p2, i, f)|
    ensures g != f ==> |UnboundFrom(p1, p2, i + 1, g)| < |UnboundFrom(p1, p2, i, f)|
  {
    ArgsStepSubset(p1, p2, i, f, g);
    if g != f {
      ArgsStepBinds(p1, p2, i, f, g);
    }
    SubsetCard(UnboundFrom(p1, p2, i + 1, g), UnboundFrom(p1, p2, i, f));
  }

  lemma ArgsStepSubset(p1: Term, p2: Term, i: nat, f: Frame, g: Frame)
    requires p1.Compound? && p2.Compound? && i < |p1.args| == |p2.args|
    requires Grows(g, f, Vars(p1.args[i]) + Vars(p2.args[i]))
    ensures UnboundFrom(p1, p2, i + 1, g) <= UnboundFrom(p1, p2, i, f)
  {
    VarsFromStep(p1, i);
    VarsFromStep(p2, i);
    ExtendsKeepsBindings(g, f);
  }

  /** The newest binding of a frame that grew was unbound before and is bound after. */
  lemma ArgsStepBinds(p1: Term, p2: Term, i: nat, f: Frame, g: Frame)
    requires p1.Compound? && p2.Compound? && i < |p1.args| == |p2.args|
    requires Grows(g, f, Vars(p1.args[i]) + Vars(p2.args[i])) && g != f
    ensures g.Bind? && g.key in UnboundFrom(p1, p2, i, f) && g.key !in UnboundFrom(p1, p2, i + 1, g)
  {
    VarsFromStep(p1, i);
    VarsFromStep(p2, i);
    ExtendsKeepsBindings(g, f);
    BoundValueVars(g, g.key);
  }

  // ---------------------------------------------------------------------
  // Binding a variable that passed the occurs check

  /**
   * Binding an unbound `x` to a value whose free variables do not include
   * `x` keeps the frame acyclic. The new rank puts `x` just above its value
   * and lifts every key that depends on `x` above it.
   */
  lemma BindAcyclic(x: VarKey, val: Term, f: Frame)
    requires Acyclic(f) && x !in Dom(f) && x !in FreeVars(val, f)
    ensures Acyclic(Bind(x, val, f))
  {
    var r := TheRank(f);
    var top := RankOf(val, f, r);
    var g := Bind(x, val, f);
    var r' := map k | k in Dom(g) ::
      if k == x then top else if x in FreeVars(VarOf(k), f) then r[k] + top + 1 else r[k];
    FreeVarsOfUnbound(x, f);
    forall k, j | k in Dom(g) && j in Vars(BoundValue(g, k)) && j in Dom(g) ensures r'[j] < r'[k] {
      if k == x {
        VarsFree(val, j, f);
        RankOfAbove(val, f, r, j);
      } else if j == x {
        VarsFree(BoundValue(f, k), x, f);
        FreeVarsOfBound(k, f);
      } else {
        VarsFree(BoundValue(f, k), j, f);
        FreeVarsOfBound(k, f);
      }
    }
    assert Ranked(g, r');
  }

  // ---------------------------------------------------------------------
  // isDependent

  /**
   * isDependent: whether `term` mentions `variable`, directly or through
   * the bindings of the frame.
   */
  function IsDependent(variable: Term, term: Term, f: Frame): (b: bool)
    requires Acyclic(f) && variable.Variable?
    ensures term.Symbol? ==> !b
    ensures term == variable ==> b
    ensures term.Variable? && term != variable && KeyOf(term) !in Dom(f) ==> !b
    decreases Weight(term, f), 1
  {
    match term
    case Variable(_, _) =>
      IsEqual(variable, term) ||
        (match Lookup(f, KeyOf(term))
         case Some(b) => WeightOfBound(f, KeyOf(term)); IsDependent(variable, b, f)
         case None => false)
    case Compound(_, _) => IsDependentFrom(variable, term, 0, f)
    case Symbol(_) => false
  }

  /** The loop of isDependent over the arguments from position `i` on. */
  function IsDependentFrom(variable: Term, term: Term, i: nat, f: Frame): bool
    requires Acyclic(f) && variable.Variable? && term.Compound? && i <= |term.args|
    decreases Weight(term, f), 0, |term.args| - i
  {
    if i == |term.args| then false
    else
      WeightOfArgs(term, f);
      IsDependent(variable, term.args[i], f) || IsDependentFrom(variable, term, i + 1, f)
  }

  /** For an unbound variable, isDependent is exactly the occurs check. */
  lemma {:induction false} IsDependentIffOccurs(variable: Term, term: Term, f: Frame)
    requires Acyclic(f) && variable.Variable? && KeyOf(variable) !in Dom(f)
    ensures IsDependent(variable, term, f) <==> KeyOf(variable) in FreeVars(term, f)
    decreases Weight(term, f), 1
  {
    match term
    case Variable(_, _) =>
      var k := KeyOf(term);
      if k in Dom(f) {
        WeightOfBound(f, k);
        FreeVarsOfBound(k, f);
        IsDependentIffOccurs(variable, BoundValue(f, k), f);
      } else {
        FreeVarsOfUnbound(k, f);
      }
    case Compound(_, _) =>
      FreeVarsOfCompound(term, f);
      IsDependentFromIffOccurs(variable, term, 0, f);
    case Symbol(_) =>
  }

  lemma {:induction false} IsDependentFromIffOccurs(variable: Term, term: Term, i: nat, f: Frame)
    requires Acyclic(f) && variable.Variable? && KeyOf(variable) !in Dom(f)
    requires term.Compound? && i <= |term.args|
    ensures IsDependentFrom(variable, term, i, f) <==> KeyOf(variable) in ArgFreeVars(term, i, f)
    decreases Weight(term, f), 0, |term.args| - i
  {
    if i < |term.args| {
      WeightOfArgs(term, f);
      ArgFreeVarsStep(term, i, f);
      IsDependentIffOccurs(variable, term.args[i], f);
      IsDependentFromIffOccurs(variable, term, i + 1, f);
    }
  }

  // ---------------------------------------------------------------------
  // unify and extendFrame

  /**
   * unify: equal terms leave the frame as it is; a variable on either side
   * goes to extendFrame; compounds of the same name and arity unify their
   * arguments pairwise, left to right; everything else fails. A result is
   * `None` where the source returns null.
   */
  function Unify(p1: Term, p2: Term, f: Frame): (r: Option<Frame>)
    requires Acyclic(f)
    ensures r.Some? ==> Grows(r.value, f, Vars(p1) + Vars(p2))
    decreases |Unbound(p1, p2, f)|, Weight(p1, f) + Weight(p2, f), 2
  {
    if IsEqual(p1, p2) then Some(f)
    else if p1.Variable? then ExtendFrame(p1, p2, f)
    else if p2.Variable? then
      UnboundSymmetric(p1, p2, f);
      ExtendFrame(p2, p1, f)
    else if p1.Compound? && p2.Compound? && p1.name == p2.name && |p1.args| == |p2.args| then
      UnboundFromZero(p1, p2, f);
      WeightOfCompound(p1, f);
      WeightOfCompound(p2, f);
      UnifyArgs(p1, p2, 0, f)
    else None
  }

  /**
   * extendFrame: a bound variable has its value unified with `val`; a
   * variable `val` that is bound has its value unified with the variable;
   * otherwise the variable is bound to `val`, unless `val` depends on it.
   */
  function ExtendFrame(variable: Term, val: Term, f: Frame): (r: Option<Frame>)
    requires Acyclic(f) && variable.Variable? && variable != val
    ensures r.Some? ==> Grows(r.value, f, Vars(variable) + Vars(val))
    decreases |Unbound(variable, val, f)|, Weight(variable, f) + Weight(val, f), 1
  {
    var x := KeyOf(variable);
    match Lookup(f, x)
    case Some(binding) =>
      WeightOfBound(f, x);
      UnboundOfBound(variable, val, f);
      Unify(binding, val, f)
    case None =>
      if val.Variable? then
        (match Lookup(f, KeyOf(val))
         case Some(binding) =>
           WeightOfBound(f, KeyOf(val));
           UnboundOfBound(val, variable, f);
           Unify(variable, binding, f)
         case None =>
           FreeVarsOfUnbound(KeyOf(val), f);
           BindGrows(variable, val, f);
           Some(BindValue(variable, val, f)))
      else if IsDependent(variable, val, f) then None
      else
        IsDependentIffOccurs(variable, val, f);
        BindGrows(variable, val, f);
        Some(BindValue(variable, val, f))
  }

  /** The argument loop of unify from position `i` on, threading the frame. */
  function UnifyArgs(p1: Term, p2: Term, i: nat, f: Frame): (r: Option<Frame>)
    requires Acyclic(f) && p1.Compound? && p2.Compound? && i <= |p1.args| == |p2.args|
    ensures r.Some? ==> Grows(r.value, f, VarsFrom(p1, i) + VarsFrom(p2, i))
    decreases |UnboundFrom(p1, p2, i, f)|, WeightFrom(p1, i, f) + WeightFrom(p2, i, f), 3
  {
    if i == |p1.args| then Some(f)
    else
      UnboundFromStep(p1, p2, i, f);
      WeightFromStep(p1, i, f);
      WeightFromStep(p2, i, f);
      match Unify(p1.args[i], p2.args[i], f)
      case None => None
      case Some(g) => UnifyArgsAfter(p1, p2, i, f, g)
  }

  /** The rest of the argument loop once the pair at `i` unified from `f` to `g`. */
  function UnifyArgsAfter(p1: Term, p2: Term, i: nat, f: Frame, g: Frame): (r: Option<Frame>)
    requires Acyclic(f) && p1.Compound? && p2.Compound? && i < |p1.args| == |p2.args|
    requires Grows(g, f, Vars(p1.args[i]) + Vars(p2.args[i]))
    ensures r.Some? ==> Grows(r.value, f, VarsFrom(p1, i) + VarsFrom(p2, i))
    decreases |UnboundFrom(p1, p2, i, f)|, WeightFrom(p1, i, f) + WeightFrom(p2, i, f), 0
  {
    WeightFromStep(p1, i, f);
    WeightFromStep(p2, i, f);
    ArgsStepMeasure(p1, p2, i, f, g);
    VarsFromStep(p1, i);
    VarsFromStep(p2, i);
    var r := UnifyArgs(p1, p2, i + 1, g);
    if r.Some? then
      GrowsTrans(r.value, g, f, Vars(p1.args[i]) + Vars(p2.args[i]), VarsFrom(p1, i + 1) + VarsFrom(p2, i + 1), VarsFrom(p1, i) + VarsFrom(p2, i));
      r
    else r
  }

  /** Terms that are isEqual unify without touching the frame. */
  lemma UnifySame(t: Term, f: Frame)
    requires Acyclic(f)
    ensures Unify(t, t, f) == Some(f)
  {
  }

  /**
   * Two different terms, neither a variable, that are not compounds of the
   * same name and arity never unify: symbols of different values, a symbol
   * against a compound, compounds of different names or arities.
   */
  lemma UnifyClash(p1: Term, p2: Term, f: Frame)
    requires Acyclic(f) && !p1.Variable? && !p2.Variable? && p1 != p2
    requires !(p1.Compound? && p2.Compound? && p1.name == p2.name && |p1.args| == |p2.args|)
    ensures Unify(p1, p2, f) == None
  {
  }

  /** unify of two different compounds of the same name and arity is their argument loop. */
  lemma UnifyCompoundCase(p1: Term, p2: Term, f: Frame)
    requires Acyclic(f) && p1.Compound? && p2.Compound? && p1.name == p2.name && |p1.args| == |p2.args| && p1 != p2
    ensures Unify(p1, p2, f) == UnifyArgs(p1, p2, 0, f)
  {
  }

  /** One step of the argument loop, unfolded. */
  lemma UnifyArgsStep(p1: Term, p2: Term, i: nat, f: Frame)
    requires Acyclic(f) && p1.Compound? && p2.Compound? && i < |p1.args| == |p2.args|
    ensures Unify(p1.args[i], p2.args[i], f).None? ==> UnifyArgs(p1, p2, i, f).None?
    ensures Unify(p1.args[i], p2.args[i], f).Some? ==>
      var g := Unify(p1.args[i], p2.args[i], f).value;
      && Grows(g, f, Vars(p1.args[i]) + Vars(p2.args[i]))
      && UnifyArgs(p1, p2, i, f) == UnifyArgs(p1, p2, i + 1, g)
  {
  }

  lemma UnifyArgsEnd(p1: Term, p2: Term, f: Frame)
    requires Acyclic(f) && p1.Compound? && p2.Compound? && |p1.args| == |p2.args|
    ensures UnifyArgs(p1, p2, |p1.args|, f) == Some(f)
  {
  }
}

module UnificationProofs {
  import opened Wrappers
  import opened Terms
  import opened Frames
  import opened Unification

  // ---------------------------------------------------------------------
  // Soundness: a unifier makes both terms resolve to the same term

  lemma {:induction false} UnifySound(p1: Term, p2: Term, f: Frame, g: Frame)
    requires Acyclic(f) && Unify(p1, p2, f) == Some(g)
    ensures Acyclic(g) && Resolve(p1, g) == Resolve(p2, g)
    decreases |Unbound(p1, p2, f)|, Weight(p1, f) + Weight(p2, f), 2
  {
    if p1 == p2 {
    } else if p1.Variable? {
      ExtendFrameSound(p1, p2, f, g);
    } else if p2.Variable? {
      UnboundSymmetric(p1, p2, f);
      ExtendFrameSound(p2, p1, f, g);
    } else {
      UnifySoundCompound(p1, p2, f, g);
    }
  }

  lemma {:induction false} UnifySoundCompound(p1: Term, p2: Term, f: Frame, g: Frame)
    requires Acyclic(f) && p1.Compound? && p2.Compound? && p1.name == p2.name && |p1.args| == |p2.args|
    requires p1 != p2 && Unify(p1, p2, f) == Some(g)
    ensures Acyclic(g) && Resolve(p1, g) == Resolve(p2, g)
    decreases |Unbound(p1, p2, f)|, Weight(p1, f) + Weight(p2, f), 1
  {
    UnboundFromZero(p1, p2, f);
    WeightOfCompound(p1, f);
    WeightOfCompound(p2, f);
    UnifyCompoundCase(p1, p2, f);
    UnifyArgsSound(p1, p2, 0, f, g);
    ResolveSameArgs(p1, p2, g);
  }

  /** Compounds of one name and arity whose arguments resolve alike resolve alike. */
  lemma ResolveSameArgs(p1: Term, p2: Term, g: Frame)
    requires Acyclic(g) && p1.Compound? && p2.Compound? && p1.name == p2.name && |p1.args| == |p2.args|
    requires forall j | 0 <= j < |p1.args| :: Resolve(p1.args[j], g) == Resolve(p2.args[j], g)
    ensures Resolve(p1, g) == Resolve(p2, g)
  {
    var r1, r2 := Resolve(p1, g), Resolve(p2, g);
    assert r1.args == r2.args;
  }

  lemma {:induction false} ExtendFrameSound(variable: Term, val: Term, f: Frame, g: Frame)
    requires Acyclic(f) && variable.Variable? && variable != val && ExtendFrame(variable, val, f) == Some(g)
    ensures Acyclic(g) && Resolve(variable, g) == Resolve(val, g)
    decreases |Unbound(variable, val, f)|, Weight(variable, f) + Weight(val, f), 1
  {
    var x := KeyOf(variable);
    if x in Dom(f) {
      ExtendFrameSoundBound(variable, val, f, g);
    } else if val.Variable? && KeyOf(val) in Dom(f) {
      ExtendFrameSoundValueBound(variable, val, f, g);
    } else {
      ExtendsKeepsBindings(g, f);
    }
  }

  /** extendFrame on a bound variable: its value was unified with `val`. */
  lemma {:induction false} ExtendFrameSoundBound(variable: Term, val: Term, f: Frame, g: Frame)
    requires Acyclic(f) && variable.Variable? && variable != val && ExtendFrame(variable, val, f) == Some(g)
    requires KeyOf(variable) in Dom(f)
    ensures Acyclic(g) && Resolve(variable, g) == Resolve(val, g)
    decreases |Unbound(variable, val, f)|, Weight(variable, f) + Weight(val, f), 0
  {
    var x := KeyOf(variable);
    WeightOfBound(f, x);
    UnboundOfBound(variable, val, f);
    UnifySound(BoundValue(f, x), val, f, g);
    ExtendsKeepsBindings(g, f);
    EqualUnderExtension(variable, BoundValue(f, x), f, g);
  }

  /** extendFrame on a bound `val`: the variable was unified with its value. */
  lemma {:induction false} ExtendFrameSoundValueBound(variable: Term, val: Term, f: Frame, g: Frame)
    requires Acyclic(f) && variable.Variable? && variable != val && ExtendFrame(variable, val, f) == Some(g)
    requires KeyOf(variable) !in Dom(f) && val.Variable? && KeyOf(val) in Dom(f)
    ensures Acyclic(g) && Resolve(variable, g) == Resolve(val, g)
    decreases |Unbound(variable, val, f)|, Weight(variable, f) + Weight(val, f), 0
  {
    var y := KeyOf(val);
    WeightOfBound(f, y);
    UnboundOfBound(val, variable, f);
    UnifySound(variable, BoundValue(f, y), f, g);
    ExtendsKeepsBindings(g, f);
    EqualUnderExtension(val, BoundValue(f, y), f, g);
  }

  lemma {:induction false} UnifyArgsSound(p1: Term, p2: Term, i: nat, f: Frame, h: Frame)
    requires Acyclic(f) && p1.Compound? && p2.Compound? && i <= |p1.args| == |p2.args|
    requires UnifyArgs(p1, p2, i, f) == Some(h)
    ensures Acyclic(h)
    ensures forall j | i <= j < |p1.args| :: Resolve(p1.args[j], h) == Resolve(p2.args[j], h)
    decreases |UnboundFrom(p1, p2, i, f)|, WeightFrom(p1, i, f) + WeightFrom(p2, i, f), 4
  {
    if i < |p1.args| {
      UnifyArgsSoundStep(p1, p2, i, f, h);
    } else {
      UnifyArgsEnd(p1, p2, f);
    }
  }

  lemma {:induction false} UnifyArgsSoundStep(p1: Term, p2: Term, i: nat, f: Frame, h: Frame)
    requires Acyclic(f) && p1.Compound? && p2.Compound? && i < |p1.args| == |p2.args|
    requires UnifyArgs(p1, p2, i, f) == Some(h)
    ensures Acyclic(h)
    ensures forall j | i <= j < |p1.args| :: Resolve(p1.args[j], h) == Resolve(p2.args[j], h)
    decreases |UnboundFrom(p1, p2, i, f)|, WeightFrom(p1, i, f) + WeightFrom(p2, i, f), 3
  {
    UnboundFromStep(p1, p2, i, f);
    WeightFromStep(p1, i, f);
    WeightFromStep(p2, i, f);
    UnifyArgsStep(p1, p2, i, f);
    var g := Unify(p1.args[i], p2.args[i], f).value;
    UnifySound(p1.args[i], p2.args[i], f, g);
    ArgsStepMeasure(p1, p2, i, f, g);
    UnifyArgsSound(p1, p2, i + 1, g, h);
    EqualUnderExtension(p1.args[i], p2.args[i], g, h);
    forall j | i <= j < |p1.args| ensures Resolve(p1.args[j], h) == Resolve(p2.args[j], h) {
      if j > i {
        assert i + 1 <= j;
      }
    }
  }

  /** Terms equal under `g` stay equal under any extension of `g`. */
  lemma EqualUnderExtension(a: Term, b: Term, g: Frame, h: Frame)
    requires Acyclic(g) && Acyclic(h) && Extends(h, g) && Resolve(a, g) == Resolve(b, g)
    ensures Resolve(a, h) == Resolve(b, h)
  {
    ResolveExtends(a, h, g);
    ResolveExtends(b, h, g);
  }

  // ---------------------------------------------------------------------
  // Completeness: unify finds a unifier whenever one exists, and the most
  // general one

  /** `h` is acyclic and agrees with every binding of `f`. */
  ghost predicate Satisfies(h: Frame, f: Frame) {
    && Acyclic(h)
    && forall k | k in Dom(f) :: Resolve(VarOf(k), h) == Resolve(BoundValue(f, k), h)
  }

  /** A frame that satisfies `f` resolves every term as `f` does, then further. */
  lemma {:induction false} SatisfiesResolve(t: Term, h: Frame, f: Frame)
    requires Acyclic(f) && Satisfies(h, f)
    ensures Resolve(t, h) == Resolve(Resolve(t, f), h)
    decreases Weight(t, f)
  {
    match t
    case Variable(_, _) =>
      if KeyOf(t) in Dom(f) {
        WeightOfBound(f, KeyOf(t));
        SatisfiesResolve(BoundValue(f, KeyOf(t)), h, f);
      }
    case Symbol(_) =>
    case Compound(n, args) =>
      WeightOfArgs(t, f);
      var rf := Resolve(t, f);
      forall i | 0 <= i < |args| ensures Resolve(args[i], h) == Resolve(rf.args[i], h) {
        SatisfiesResolve(args[i], h, f);
      }
      assert Resolve(t, h).args == Resolve(rf, h).args;
  }

  lemma ExtendsSatisfies(g: Frame, f: Frame)
    requires Acyclic(g) && Extends(g, f)
    ensures Satisfies(g, f)
  {
    ExtendsKeepsBindings(g, f);
  }

  function Height(t: Term): nat
    decreases t, 1
  {
    match t
    case Compound(_, _) => 1 + HeightFrom(t, 0)
    case _ => 0
  }

  function HeightFrom(t: Term, i: nat): nat
    requires t.Compound? && i <= |t.args|
    decreases t, 0, |t.args| - i
  {
    if i == |t.args| then 0 else Max(Height(t.args[i]), HeightFrom(t, i + 1))
  }

  lemma {:induction false} HeightOfArg(t: Term, i: nat, j: nat)
    requires t.Compound? && i <= j < |t.args|
    ensures Height(t.args[j]) <= HeightFrom(t, i)
    decreases j - i
  {
    if i < j {
      HeightOfArg(t, i + 1, j);
    }
  }

  /** Whatever a variable of `s` resolves to is a subterm of what `s` resolves to. */
  lemma {:induction false} OccursBelow(x: VarKey, s: Term, h: Frame)
    requires Acyclic(h) && x in Vars(s)
    ensures Height(Resolve(VarOf(x), h)) <= Height(Resolve(s, h))
    ensures s.Compound? ==> Height(Resolve(VarOf(x), h)) < Height(Resolve(s, h))
  {
    if s.Compound? {
      var i :| 0 <= i < |s.args| && x in Vars(s.args[i]);
      OccursBelow(x, s.args[i], h);
      var rs := Resolve(s, h);
      assert rs.args[i] == Resolve(s.args[i], h);
      HeightOfArg(rs, 0, i);
      assert Height(rs) == 1 + HeightFrom(rs, 0);
    }
  }

  /** The occurs check rejects only what has no unifier. */
  lemma NoUnifierWhenDependent(variable: Term, val: Term, f: Frame, h: Frame)
    requires Acyclic(f) && Satisfies(h, f) && variable.Variable? && val.Compound?
    requires KeyOf(variable) in FreeVars(val, f)
    ensures Resolve(variable, h) != Resolve(val, h)
  {
    SatisfiesResolve(val, h, f);
    OccursBelow(KeyOf(variable), Resolve(val, f), h);
  }

  /**
   * If some acyclic frame that satisfies `f` makes the terms equal, unify
   * succeeds, and that frame also satisfies the result: the result is a
   * most general unifier.
   */
  lemma {:induction false} UnifyComplete(p1: Term, p2: Term, f: Frame, h: Frame)
    requires Acyclic(f) && Satisfies(h, f) && Resolve(p1, h) == Resolve(p2, h)
    ensures Unify(p1, p2, f).Some? && Satisfies(h, Unify(p1, p2, f).value)
    decreases |Unbound(p1, p2, f)|, Weight(p1, f) + Weight(p2, f), 2
  {
    if p1 == p2 {
    } else if p1.Variable? {
      ExtendFrameComplete(p1, p2, f, h);
    } else if p2.Variable? {
      UnboundSymmetric(p1, p2, f);
      ExtendFrameComplete(p2, p1, f, h);
    } else if p1.Compound? && p2.Compound? && p1.name == p2.name && |p1.args| == |p2.args| {
      UnifyCompleteCompound(p1, p2, f, h);
    } else {
      ResolveShape(p1, h);
      ResolveShape(p2, h);
      assert false;
    }
  }

  lemma {:induction false} UnifyCompleteCompound(p1: Term, p2: Term, f: Frame, h: Frame)
    requires Acyclic(f) && Satisfies(h, f) && Resolve(p1, h) == Resolve(p2, h)
    requires p1.Compound? && p2.Compound? && p1.name == p2.name && |p1.args| == |p2.args| && p1 != p2
    ensures Unify(p1, p2, f).Some? && Satisfies(h, Unify(p1, p2, f).value)
    decreases |Unbound(p1, p2, f)|, Weight(p1, f) + Weight(p2, f), 1
  {
    UnboundFromZero(p1, p2, f);
    WeightOfCompound(p1, f);
    WeightOfCompound(p2, f);
    UnifyCompoundCase(p1, p2, f);
    ResolvedArgsAlike(p1, p2, h);
    UnifyArgsComplete(p1, p2, 0, f, h);
  }

  /** Compounds that resolve alike have arguments that resolve alike. */
  lemma ResolvedArgsAlike(p1: Term, p2: Term, h: Frame)
    requires Acyclic(h) && p1.Compound? && p2.Compound? && |p1.args| == |p2.args| && Resolve(p1, h) == Resolve(p2, h)
    ensures forall j | 0 <= j < |p1.args| :: Resolve(p1.args[j], h) == Resolve(p2.args[j], h)
  {
    var r1, r2 := Resolve(p1, h), Resolve(p2, h);
    assert forall j | 0 <= j < |p1.args| :: r1.args[j] == Resolve(p1.args[j], h);
    assert forall j | 0 <= j < |p2.args| :: r2.args[j] == Resolve(p2.args[j], h);
  }

  /** Resolving keeps a symbol, and a compound's name and arity. */
  lemma ResolveShape(t: Term, h: Frame)
    requires Acyclic(h)
    ensures t.Symbol? ==> Resolve(t, h) == t
    ensures t.Compound? ==> Resolve(t, h).Compound? && Resolve(t, h).name == t.name && |Resolve(t, h).args| == |t.args|
  {
  }

  lemma {:induction false} ExtendFrameComplete(variable: Term, val: Term, f: Frame, h: Frame)
    requires Acyclic(f) && Satisfies(h, f) && variable.Variable? && variable != val
    requires Resolve(variable, h) == Resolve(val, h)
    ensures ExtendFrame(variable, val, f).Some? && Satisfies(h, ExtendFrame(variable, val, f).value)
    decreases |Unbound(variable, val, f)|, Weight(variable, f) + Weight(val, f), 1
  {
    var x := KeyOf(variable);
    if x in Dom(f) {
      ExtendFrameCompleteBound(variable, val, f, h);
    } else if val.Variable? && KeyOf(val) in Dom(f) {
      ExtendFrameCompleteValueBound(variable, val, f, h);
    } else if !val.Variable? && IsDependent(variable, val, f) {
      if val.Compound? {
        ExtendFrameRejects(variable, val, f, h);
      }
      assert false;
    } else {
      ExtendFrameCompleteBind(variable, val, f, h);
    }
  }

  lemma {:induction false} ExtendFrameCompleteBound(variable: Term, val: Term, f: Frame, h: Frame)
    requires Acyclic(f) && Satisfies(h, f) && variable.Variable? && variable != val
    requires Resolve(variable, h) == Resolve(val, h) && KeyOf(variable) in Dom(f)
    ensures ExtendFrame(variable, val, f).Some? && Satisfies(h, ExtendFrame(variable, val, f).value)
    decreases |Unbound(variable, val, f)|, Weight(variable, f) + Weight(val, f), 0
  {
    var x := KeyOf(variable);
    WeightOfBound(f, x);
    UnboundOfBound(variable, val, f);
    SatisfiesBound(x, f, h);
    ExtendFrameBoundCase(variable, val, f);
    UnifyComplete(BoundValue(f, x), val, f, h);
  }

  /** extendFrame on a bound variable is the unification of its value with `val`. */
  lemma ExtendFrameBoundCase(variable: Term, val: Term, f: Frame)
    requires Acyclic(f) && variable.Variable? && variable != val && KeyOf(variable) in Dom(f)
    ensures ExtendFrame(variable, val, f) == Unify(BoundValue(f, KeyOf(variable)), val, f)
  {
  }

  lemma {:induction false} ExtendFrameCompleteValueBound(variable: Term, val: Term, f: Frame, h: Frame)
    requires Acyclic(f) && Satisfies(h, f) && variable.Variable? && variable != val
    requires Resolve(variable, h) == Resolve(val, h) && KeyOf(variable) !in Dom(f)
    requires val.Variable? && KeyOf(val) in Dom(f)
    ensures ExtendFrame(variable, val, f).Some? && Satisfies(h, ExtendFrame(variable, val, f).value)
    decreases |Unbound(variable, val, f)|, Weight(variable, f) + Weight(val, f), 0
  {
    var y := KeyOf(val);
    WeightOfBound(f, y);
    UnboundOfBound(val, variable, f);
    SatisfiesBound(y, f, h);
    UnifyComplete(variable, BoundValue(f, y), f, h);
  }

  /** In a frame satisfying `f`, a bound variable resolves as its value does. */
  lemma SatisfiesBound(k: VarKey, f: Frame, h: Frame)
    requires Acyclic(f) && Satisfies(h, f) && k in Dom(f)
    ensures Resolve(VarOf(k), h) == Resolve(BoundValue(f, k), h)
  {
  }

  /** A dependent `val` has no unifier with the variable. */
  lemma ExtendFrameRejects(variable: Term, val: Term, f: Frame, h: Frame)
    requires Acyclic(f) && Satisfies(h, f) && variable.Variable? && variable != val
    requires KeyOf(variable) !in Dom(f) && val.Compound? && IsDependent(variable, val, f)
    ensures Resolve(variable, h) != Resolve(val, h)
  {
    IsDependentIffOccurs(variable, val, f);
    NoUnifierWhenDependent(variable, val, f, h);
  }

  /** The binding extendFrame adds is one every such frame already agrees with. */
  lemma ExtendFrameCompleteBind(variable: Term, val: Term, f: Frame, h: Frame)
    requires Acyclic(f) && Satisfies(h, f) && variable.Variable? && variable != val
    requires Resolve(variable, h) == Resolve(val, h)
    requires KeyOf(variable) !in Dom(f) && !(val.Variable? && KeyOf(val) in Dom(f))
    requires !(!val.Variable? && IsDependent(variable, val, f))
    ensures ExtendFrame(variable, val, f).Some? && Satisfies(h, ExtendFrame(variable, val, f).value)
  {
    var g := ExtendFrame(variable, val, f).value;
    assert g == BindValue(variable, val, f);
  }

  lemma {:induction false} UnifyArgsComplete(p1: Term, p2: Term, i: nat, f: Frame, h: Frame)
    requires Acyclic(f) && Satisfies(h, f) && p1.Compound? && p2.Compound? && i <= |p1.args| == |p2.args|
    requires forall j | i <= j < |p1.args| :: Resolve(p1.args[j], h) == Resolve(p2.args[j], h)
    ensures UnifyArgs(p1, p2, i, f).Some? && Satisfies(h, UnifyArgs(p1, p2, i, f).value)
    decreases |UnboundFrom(p1, p2, i, f)|, WeightFrom(p1, i, f) + WeightFrom(p2, i, f), 4
  {
    if i < |p1.args| {
      UnifyArgsCompleteStep(p1, p2, i, f, h);
    } else {
      UnifyArgsEnd(p1, p2, f);
    }
  }

  lemma {:induction false} UnifyArgsCompleteStep(p1: Term, p2: Term, i: nat, f: Frame, h: Frame)
    requires Acyclic(f) && Satisfies(h, f) && p1.Compound? && p2.Compound? && i < |p1.args| == |p2.args|
    requires forall j | i <= j < |p1.args| :: Resolve(p1.args[j], h) == Resolve(p2.args[j], h)
    ensures UnifyArgs(p1, p2, i, f).Some? && Satisfies(h, UnifyArgs(p1, p2, i, f).value)
    decreases |UnboundFrom(p1, p2, i, f)|, WeightFrom(p1, i, f) + WeightFrom(p2, i, f), 3
  {
    UnboundFromStep(p1, p2, i, f);
    WeightFromStep(p1, i, f);
    WeightFromStep(p2, i, f);
    UnifyComplete(p1.args[i], p2.args[i], f, h);
    UnifyArgsStep(p1, p2, i, f);
    var g := Unify(p1.args[i], p2.args[i], f).value;
    ArgsStepMeasure(p1, p2, i, f, g);
    UnifyArgsComplete(p1, p2, i + 1, g, h);
  }

  /**
   * unify succeeds exactly when some acyclic frame satisfying the input
   * frame makes the two terms equal; its result is such a frame, and every
   * such frame satisfies the result.
   */
  lemma UnifyIsMostGeneral(p1: Term, p2: Term, f: Frame)
    requires Acyclic(f)
    ensures Unify(p1, p2, f).Some? <==> exists h :: Satisfies(h, f) && Resolve(p1, h) == Resolve(p2, h)
    ensures Unify(p1, p2, f).Some? ==>
      && Extends(Unify(p1, p2, f).value, f)
      && Resolve(p1, Unify(p1, p2, f).value) == Resolve(p2, Unify(p1, p2, f).value)
      && forall h | Satisfies(h, f) && Resolve(p1, h) == Resolve(p2, h) :: Satisfies(h, Unify(p1, p2, f).value)
  {
    if Unify(p1, p2, f).Some? {
      var g := Unify(p1, p2, f).value;
      UnifySound(p1, p2, f, g);
      ExtendsSatisfies(g, f);
      forall h | Satisfies(h, f) && Resolve(p1, h) == Resolve(p2, h) ensures Satisfies(h, g) {
        UnifyComplete(p1, p2, f, h);
      }
    } else {
      forall h | Satisfies(h, f) ensures Resolve(p1, h) != Resolve(p2, h) {
        if Resolve(p1, h) == Resolve(p2, h) {
          UnifyComplete(p1, p2, f, h);
        }
      }
    }
  }

  /** The occurs check in action: X does not unify with f(a, X). */
  lemma OccursCheckExample()
    ensures
      var x := Variable("X", None);
      var t := Compound("f", [Symbol("a"), x]);
      Acyclic(EmptyFrame) && Unify(x, t, EmptyFrame) == None
  {
    var x := Variable("X", None);
    var t := Compound("f", [Symbol("a"), x]);
    EmptyFrameAcyclic();
    assert IsDependent(x, t.args[1], EmptyFrame);
    assert IsDependentFrom(x, t, 1, EmptyFrame);
    assert IsDependent(x, t, EmptyFrame);
  }
}
