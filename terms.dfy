/**
 * The term model of the interpreter: compound terms, variables and symbols,
 * their structural equality (isEqual) and their printed form (termToString).
 */
module Terms {
  import opened Wrappers
  import opened Strings

  /** Rule-application ids are handed out from 1 upward; a variable that has
      never been renamed has no id (the source stores `null`). */
  type RuleId = n: nat | n >= 1 witness 1

  /**
   * makeCompoundTerm, makeVariable and makeSymbol. There is no number
   * variant and no anonymous variable in this interpreter.
   */
  datatype Term =
    | Compound(name: string, args: seq<Term>)
    | Variable(name: string, id: Option<RuleId>)
    | Symbol(value: string)

  /** The identity of a variable: its name and its rule-application id. */
  datatype VarKey = VarKey(name: string, id: Option<RuleId>)

  function KeyOf(v: Term): (k: VarKey)
    requires v.Variable?
    ensures VarOf(k) == v
  {
    VarKey(v.name, v.id)
  }

  function VarOf(k: VarKey): (v: Term)
    ensures v.Variable? && v.name == k.name && v.id == k.id
  {
    Variable(k.name, k.id)
  }

  /** The argument at `i`, or `None` where the source reads `undefined`. */
  function Arg(t: Term, i: nat): (r: Option<Term>)
    requires t.Compound?
    ensures r.Some? <==> i < |t.args|
    ensures r.Some? ==> r.value == t.args[i]
  {
    if i < |t.args| then Some(t.args[i]) else None
  }

  /**
   * isEqual: symbols by value, variables by name and id, compounds by name,
   * arity and pairwise-equal arguments; different variants never. This
   * structural walk coincides with equality of terms.
   */
  function IsEqual(a: Term, b: Term): (r: bool)
    ensures r <==> a == b
  {
    if a.Symbol? && b.Symbol? then
      a.value == b.value
    else if a.Variable? && b.Variable? then
      a.name == b.name && a.id == b.id
    else if a.Compound? && b.Compound? && a.name == b.name && |a.args| == |b.args| then
      var same := forall i | 0 <= i < |a.args| :: IsEqual(a.args[i], b.args[i]);
      assert same ==> a.args == b.args;
      same
    else
      false
  }

  /**
   * termToString: a symbol prints its value, a variable its name followed
   * by `#id` once renamed, a compound its name, then "(" before the first
   * argument and ", " before each further one, then ")".
   */
  function TermToString(t: Term): (s: string)
    ensures t.Symbol? ==> s == t.value
    ensures t.Variable? ==> "?" + s == KeyString(KeyOf(t))
    ensures t.Compound? ==> |s| > |t.name| && s[..|t.name|] == t.name && s[|s| - 1] == ')'
    decreases t, 1
  {
    match t
    case Symbol(v) => v
    case Variable(n, id) => n + (if id.Some? then "#" + NatToString(id.value) else "")
    case Compound(n, _) => n + ArgsToString(t, 0) + ")"
  }

  /** The text the loop of termToString appends for the arguments from `i` on. */
  function ArgsToString(t: Term, i: nat): string
    requires t.Compound? && i <= |t.args|
    decreases t, 0, |t.args| - i
  {
    if i == |t.args| then ""
    else (if i > 0 then ", " else "(") + TermToString(t.args[i]) + ArgsToString(t, i + 1)
  }

  /** Strings joined with a separator: the reference for argument lists. */
  function Join(s: seq<string>, sep: string): string {
    if |s| == 0 then "" else if |s| == 1 then s[0] else s[0] + sep + Join(s[1..], sep)
  }

  function ArgStrings(t: Term): (s: seq<string>)
    requires t.Compound?
    ensures |s| == |t.args|
  {
    seq(|t.args|, i requires 0 <= i < |t.args| => TermToString(t.args[i]))
  }

  lemma {:induction false} ArgsToStringIsJoin(t: Term, i: nat)
    requires t.Compound? && 0 < i <= |t.args|
    ensures ArgsToString(t, i) == if i == |t.args| then "" else ", " + Join(ArgStrings(t)[i..], ", ")
    decreases |t.args| - i
  {
    if i < |t.args| {
      var s := ArgStrings(t);
      ArgsToStringIsJoin(t, i + 1);
      assert s[i..][1..] == s[i + 1..];
      if i + 1 == |t.args| {
        assert Join(s[i..], ", ") == s[i];
      } else {
        assert Join(s[i..], ", ") == s[i] + ", " + Join(s[i + 1..], ", ");
      }
    }
  }

  /**
   * A compound with arguments prints as `name(a0, a1, ...)`; one without
   * arguments prints as `name)`, since the source only emits "(" in front
   * of a first argument.
   */
  lemma CompoundToString(t: Term)
    requires t.Compound?
    ensures |t.args| == 0 ==> TermToString(t) == t.name + ")"
    ensures |t.args| > 0 ==> TermToString(t) == t.name + "(" + Join(ArgStrings(t), ", ") + ")"
  {
    if |t.args| > 0 {
      var s := ArgStrings(t);
      ArgsToStringIsJoin(t, 1);
      assert s[1..] == s[0..][1..];
      if |t.args| == 1 {
        assert Join(s, ", ") == s[0];
      } else {
        assert Join(s, ", ") == s[0] + ", " + Join(s[1..], ", ");
      }
    }
  }

  /**
   * The key a variable is stored under in a binding frame: its toString,
   * "?" + name, followed by "#" + id once renamed.
   */
  function KeyString(k: VarKey): (s: string)
    ensures |s| >= |k.name| + 1 && s[0] == '?' && s[1..|k.name| + 1] == k.name
    ensures k.id.None? ==> |s| == |k.name| + 1
    ensures k.id.Some? ==> |s| > |k.name| + 1 && s[|k.name| + 1] == '#' && s[|k.name| + 2..] == NatToString(k.id.value)
  {
    "?" + k.name + (if k.id.Some? then "#" + NatToString(k.id.value) else "")
  }

  /** Names the parser produces for variables: `[A-Z][a-zA-Z0-9_]*`. */
  predicate IsVariableName(n: string) {
    && |n| >= 1
    && 'A' <= n[0] <= 'Z'
    && forall i | 0 <= i < |n| ::
         'a' <= n[i] <= 'z' || 'A' <= n[i] <= 'Z' || IsDigit(n[i]) || n[i] == '_'
  }

  /**
   * For parser-made names the string key is injective, so keying frames on
   * the pair (name, id) is the same as keying them on the string.
   */
  lemma KeyStringInjective(a: VarKey, b: VarKey)
    requires IsVariableName(a.name) && IsVariableName(b.name)
    ensures KeyString(a) == KeyString(b) <==> a == b
  {
    if KeyString(a) == KeyString(b) {
      KeyStringSameName(a, b);
      KeyStringSameName(b, a);
      var s := KeyString(a);
      var n := |a.name| + 1;
      assert a.name == s[1..n] == b.name;
      if a.id.Some? && b.id.Some? {
        NatToStringInjective(a.id.value, b.id.value);
      }
    }
  }

  /** Equal keys force the first name to be no longer than the second. */
  lemma KeyStringSameName(a: VarKey, b: VarKey)
    requires IsVariableName(a.name) && IsVariableName(b.name)
    requires KeyString(a) == KeyString(b)
    ensures |a.name| <= |b.name|
  {
    KeyStringShape(b);
  }

  lemma KeyStringShape(k: VarKey)
    ensures k.id.None? ==> |KeyString(k)| == |k.name| + 1
    ensures k.id.Some? ==> |KeyString(k)| > |k.name| + 1 && KeyString(k)[|k.name| + 1] == '#'
  {
  }
}
