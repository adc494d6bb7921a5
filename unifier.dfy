/**
 * unify and extendFrame as the source runs them: unify walks the argument
 * pairs in a loop, reassigning the frame it threads, and extendFrame asks
 * getBoundValue. Each method computes exactly the function of module
 * Unification, so every fact proved there holds of them.
 */
module Unifier {
  import opened Wrappers
  import opened Terms
  import opened Frames
  import opened Unification

  method Unify(p1: Term, p2: Term, frame: Frame) returns (r: Option<Frame>)
    requires Acyclic(frame)
    ensures r == Unification.Unify(p1, p2, frame)
    decreases |Unbound(p1, p2, frame)|, Weight(p1, frame) + Weight(p2, frame), 2
  {
    if IsEqual(p1, p2) {
      return Some(frame);
    } else if p1.Variable? {
      r := ExtendFrame(p1, p2, frame);
    } else if p2.Variable? {
      UnboundSymmetric(p1, p2, frame);
      r := ExtendFrame(p2, p1, frame);
    } else if p1.Compound? && p2.Compound? && p1.name == p2.name && |p1.args| == |p2.args| {
      r := UnifyArguments(p1, p2, frame);
    } else {
      return None;
    }
  }

  /** The loop of unify over the argument pairs, threading `tmpFrame`. */
  method UnifyArguments(p1: Term, p2: Term, frame: Frame) returns (r: Option<Frame>)
    requires Acyclic(frame) && p1.Compound? && p2.Compound? && p1.name == p2.name && |p1.args| == |p2.args| && p1 != p2
    ensures r == Unification.Unify(p1, p2, frame)
    decreases |Unbound(p1, p2, frame)|, Weight(p1, frame) + Weight(p2, frame), 1
  {
    LoopStart(p1, p2, frame);
    var tmpFrame := frame;
    var i := 0;
    while i < |p1.args|
      invariant LoopInvariant(p1, p2, i, tmpFrame, frame)
      decreases |p1.args| - i
    {
      LoopMeasure(p1, p2, i, tmpFrame, frame);
      var next := Unify(p1.args[i], p2.args[i], tmpFrame);
      LoopTurn(p1, p2, i, tmpFrame, frame, next);
      if next.None? {
        return None;
      }
      tmpFrame := next.value;
      i := i + 1;
    }
    UnifyArgsEnd(p1, p2, tmpFrame);
    return Some(tmpFrame);
  }

  method ExtendFrame(variable: Term, val: Term, frame: Frame) returns (r: Option<Frame>)
    requires Acyclic(frame) && variable.Variable? && variable != val
    ensures r == Unification.ExtendFrame(variable, val, frame)
    decreases |Unbound(variable, val, frame)|, Weight(variable, frame) + Weight(val, frame), 0
  {
    var binding := GetBoundValue(variable, frame);
    if binding.Some? {
      WeightOfBound(frame, KeyOf(variable));
      UnboundOfBound(variable, val, frame);
      r := Unify(binding.value, val, frame);
    } else if val.Variable? {
      binding := GetBoundValue(val, frame);
      if binding.Some? {
        WeightOfBound(frame, KeyOf(val));
        UnboundOfBound(val, variable, frame);
        r := Unify(variable, binding.value, frame);
      } else {
        r := Some(BindValue(variable, val, frame));
      }
    } else if IsDependent(variable, val, frame) {
      r := None;
    } else {
      r := Some(BindValue(variable, val, frame));
    }
  }

  // ---------------------------------------------------------------------
  // extendFrame as written: its first branch names `bindingVal`, which is
  // not defined anywhere, so reaching it throws a ReferenceError.

  datatype Outcome = Returned(frame: Option<Frame>) | ReferenceError

  /**
   * One activation of extendFrame exactly as written; the calls it makes
   * into unify are those of the corrected definition.
   */
  function ExtendFrameAsWritten(variable: Term, val: Term, frame: Frame): (r: Outcome)
    requires Acyclic(frame) && variable.Variable? && variable != val
    ensures r.ReferenceError? <==> KeyOf(variable) in Dom(frame)
    ensures r.Returned? ==> r.frame == Unification.ExtendFrame(variable, val, frame)
  {
    match Lookup(frame, KeyOf(variable))
    case Some(_) => ReferenceError
    case None => Returned(Unification.ExtendFrame(variable, val, frame))
  }

  /**
   * With X bound to `a`, unifying X with `a` again throws in the source,
   * where the corrected extendFrame succeeds and leaves the frame as it is.
   */
  lemma BoundVariableThrows()
    ensures
      var x := Variable("X", None);
      var a := Symbol("a");
      var frame := BindValue(x, a, EmptyFrame);
      && Acyclic(frame)
      && ExtendFrameAsWritten(x, a, frame) == ReferenceError
      && Unification.ExtendFrame(x, a, frame) == Some(frame)
  {
    var x := Variable("X", None);
    var a := Symbol("a");
    EmptyFrameAcyclic();
    BindGrows(x, a, EmptyFrame);
  }

  /**
   * What holds before each turn of the argument loop: the pairs from `i` on
   * unify from `tmpFrame` to what unify returns for the whole compounds, and
   * the measure of what is left is below that of the whole call unless no
   * binding has been made yet.
   */
  ghost predicate LoopInvariant(p1: Term, p2: Term, i: nat, tmpFrame: Frame, frame: Frame) {
    && Acyclic(frame) && Acyclic(tmpFrame)
    && p1.Compound? && p2.Compound? && i <= |p1.args| == |p2.args|
    && UnifyArgs(p1, p2, i, tmpFrame) == Unification.Unify(p1, p2, frame)
    && |UnboundFrom(p1, p2, i, tmpFrame)| <= |Unbound(p1, p2, frame)|
    && (tmpFrame == frame || |UnboundFrom(p1, p2, i, tmpFrame)| < |Unbound(p1, p2, frame)|)
  }

  lemma LoopStart(p1: Term, p2: Term, frame: Frame)
    requires Acyclic(frame) && p1.Compound? && p2.Compound? && p1.name == p2.name && |p1.args| == |p2.args| && p1 != p2
    ensures LoopInvariant(p1, p2, 0, frame, frame)
  {
    UnboundFromZero(p1, p2, frame);
    UnifyCompoundCase(p1, p2, frame);
  }

  /** The recursive call of a turn of the argument loop is on a smaller measure. */
  lemma LoopMeasure(p1: Term, p2: Term, i: nat, tmpFrame: Frame, frame: Frame)
    requires LoopInvariant(p1, p2, i, tmpFrame, frame) && i < |p1.args|
    ensures
      var m := |Unbound(p1.args[i], p2.args[i], tmpFrame)|;
      || m < |Unbound(p1, p2, frame)|
      || (m == |Unbound(p1, p2, frame)| &&
          Weight(p1.args[i], tmpFrame) + Weight(p2.args[i], tmpFrame) < Weight(p1, frame) + Weight(p2, frame))
  {
    UnboundFromStep(p1, p2, i, tmpFrame);
    WeightOfArgs(p1, frame);
    WeightOfArgs(p2, frame);
  }

  /** After a turn of the argument loop the invariant holds again, or unify fails. */
  lemma LoopTurn(p1: Term, p2: Term, i: nat, tmpFrame: Frame, frame: Frame, next: Option<Frame>)
    requires LoopInvariant(p1, p2, i, tmpFrame, frame) && i < |p1.args|
    requires next == Unification.Unify(p1.args[i], p2.args[i], tmpFrame)
    ensures next.None? ==> Unification.Unify(p1, p2, frame).None?
    ensures next.Some? ==> LoopInvariant(p1, p2, i + 1, next.value, frame)
  {
    UnifyArgsStep(p1, p2, i, tmpFrame);
    if next.Some? {
      ArgsStepMeasure(p1, p2, i, tmpFrame, next.value);
    }
  }
}
