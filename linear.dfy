/**
 * The linear-term helpers of linear.js. A linear term is a JavaScript
 * object from variable names to coefficients, the key `""` holding the
 * constant; its own keys are enumerated in insertion order.
 */
module Linear {
  import opened Wrappers
  import opened Strings

  /** The own keys in insertion order, and the coefficient each holds. */
  datatype LinearTerm = LinearTerm(keys: seq<string>, coeff: map<string, int>)

  predicate Distinct(s: seq<string>) {
    forall i, j | 0 <= i < j < |s| :: s[i] != s[j]
  }

  /** Every key is listed once, and exactly the keys are listed. */
  predicate Valid(t: LinearTerm) {
    Distinct(t.keys) && (forall k | k in t.coeff :: k in t.keys) && Listed(t)
  }

  /** Every listed key holds a coefficient. */
  predicate Listed(t: LinearTerm) {
    forall k | k in t.keys :: k in t.coeff
  }

  /** `result[k] = v`: a new key goes last, an existing key keeps its place. */
  function Put(t: LinearTerm, k: string, v: int): LinearTerm {
    LinearTerm(if k in t.coeff then t.keys else t.keys + [k], t.coeff[k := v])
  }

  lemma PutValid(t: LinearTerm, k: string, v: int)
    requires Valid(t)
    ensures Valid(Put(t, k, v))
  {
    if k !in t.coeff {
      var s := t.keys + [k];
      forall i, j | 0 <= i < j < |s| ensures s[i] != s[j] {
        if j == |t.keys| {
          assert s[i] == t.keys[i];
        }
      }
    }
  }

  // ---------------------------------------------------------------------
  // mergeTwoTerms

  /** The keys of `s`, in order, that `a` lacks: those the second loop of mergeTwoTerms adds. */
  function NewKeys(s: seq<string>, a: map<string, int>): seq<string>
    decreases |s|
  {
    if |s| == 0 then []
    else NewKeys(s[..|s| - 1], a) + (if s[|s| - 1] in a then [] else [s[|s| - 1]])
  }

  lemma NewKeysSnoc(s: seq<string>, a: map<string, int>, j: nat)
    requires j < |s|
    ensures NewKeys(s[..j + 1], a) == NewKeys(s[..j], a) + (if s[j] in a then [] else [s[j]])
  {
    assert s[..j + 1][..j] == s[..j];
  }

  /** The keys NewKeys keeps are exactly the keys of `s` outside `a`, each once when `s` lists it once. */
  lemma {:induction false} NewKeysMeans(s: seq<string>, a: map<string, int>)
    ensures forall k :: k in NewKeys(s, a) <==> k in s && k !in a
    ensures Distinct(s) ==> Distinct(NewKeys(s, a))
    decreases |s|
  {
    if |s| > 0 {
      var init, last := s[..|s| - 1], s[|s| - 1];
      NewKeysMeans(init, a);
      assert s == init + [last];
      if Distinct(s) {
        assert Distinct(init);
        assert last !in init;
      }
    }
  }

  /** What a key holds after the merge. */
  function MergedValue(a: LinearTerm, b: LinearTerm, func: (int, int) -> int, k: string): int
    requires k in a.coeff || k in b.coeff
  {
    if k in a.coeff && k in b.coeff then
      (if func(a.coeff[k], b.coeff[k]) != 0 then func(a.coeff[k], b.coeff[k]) else a.coeff[k])
    else if k in a.coeff then a.coeff[k]
    else b.coeff[k]
  }

  /** mergeTwoTerms(a, b, func), stated on the whole objects. */
  function Merge(a: LinearTerm, b: LinearTerm, func: (int, int) -> int): (r: LinearTerm)
    ensures |r.keys| >= |a.keys| && r.keys[..|a.keys|] == a.keys
    ensures r.coeff.Keys == a.coeff.Keys + b.coeff.Keys
  {
    LinearTerm(a.keys + NewKeys(b.keys, a.coeff),
               map k | k in a.coeff.Keys + b.coeff.Keys :: MergedValue(a, b, func, k))
  }

  /**
   * The merge holds the keys of both terms: `a`'s keys first in their
   * order, then the keys only `b` has in `b`'s order. A key only in `a`
   * keeps its coefficient, a key only in `b` takes `b`'s, and a key in both
   * takes `func` of the two unless that is 0, when `a`'s coefficient stays.
   */
  lemma MergeMeans(a: LinearTerm, b: LinearTerm, func: (int, int) -> int)
    requires Valid(a) && Valid(b)
    ensures var r := Merge(a, b, func);
      && Valid(r)
      && (forall k :: k in r.coeff <==> k in a.coeff || k in b.coeff)
      && r.keys[..|a.keys|] == a.keys
      && (forall k | k in r.keys[|a.keys|..] :: k in b.coeff && k !in a.coeff)
      && (forall k | k in a.coeff && k !in b.coeff :: r.coeff[k] == a.coeff[k])
      && (forall k | k in b.coeff && k !in a.coeff :: r.coeff[k] == b.coeff[k])
      && (forall k | k in a.coeff && k in b.coeff ::
            r.coeff[k] == if func(a.coeff[k], b.coeff[k]) != 0 then func(a.coeff[k], b.coeff[k]) else a.coeff[k])
  {
    var r := Merge(a, b, func);
    var added := NewKeys(b.keys, a.coeff);
    NewKeysMeans(b.keys, a.coeff);
    assert r.keys[|a.keys|..] == added;
    forall i, j | 0 <= i < j < |r.keys| ensures r.keys[i] != r.keys[j] {
      if j < |a.keys| {
      } else if i < |a.keys| {
        assert r.keys[i] in a.keys;
        assert r.keys[j] in added;
      } else {
        assert r.keys[i] == added[i - |a.keys|] && r.keys[j] == added[j - |a.keys|];
      }
    }
  }

  /**
   * The state of mergeTwoTerms once the first `j` keys of `b`, the set
   * `seen`, have been merged into the copy of `a`.
   */
  ghost predicate MergedUpTo(a: LinearTerm, b: LinearTerm, func: (int, int) -> int, j: nat, r: LinearTerm, seen: set<string>) {
    && j <= |b.keys|
    && r.keys == a.keys + NewKeys(b.keys[..j], a.coeff)
    && SeenFirst(b, j, seen)
    && MergedCoeff(a, b, func, r, seen)
  }

  /** `seen` is the set of the first `j` keys of `b`. */
  ghost predicate SeenFirst(b: LinearTerm, j: nat, seen: set<string>) {
    && seen <= b.coeff.Keys
    && (forall i | 0 <= i < j && i < |b.keys| :: b.keys[i] in seen)
    && (forall i | j <= i < |b.keys| :: b.keys[i] !in seen)
  }

  /** The keys of `b` in `seen` are merged; every other key still holds `a`'s coefficient. */
  ghost predicate MergedCoeff(a: LinearTerm, b: LinearTerm, func: (int, int) -> int, r: LinearTerm, seen: set<string>) {
    && seen <= b.coeff.Keys
    && (forall k :: k in r.coeff <==> k in a.coeff || k in seen)
    && (forall k | k in r.coeff :: r.coeff[k] == if k in seen then MergedValue(a, b, func, k) else a.coeff[k])
  }

  /** One turn of the second loop of mergeTwoTerms, for the key `k` of `b`. */
  function MergeKey(r: LinearTerm, a: LinearTerm, b: LinearTerm, func: (int, int) -> int, k: string): LinearTerm
    requires k in b.coeff
  {
    if k in a.coeff then
      (if func(a.coeff[k], b.coeff[k]) != 0 then Put(r, k, func(a.coeff[k], b.coeff[k])) else r)
    else Put(r, k, b.coeff[k])
  }

  lemma MergeStart(a: LinearTerm, b: LinearTerm, func: (int, int) -> int)
    requires Valid(a) && Valid(b)
    ensures MergedUpTo(a, b, func, 0, a, {})
  {
    assert b.keys[..0] == [];
  }

  lemma MergeKeyStep(a: LinearTerm, b: LinearTerm, func: (int, int) -> int, j: nat, r: LinearTerm, seen: set<string>)
    requires Valid(a) && Valid(b) && MergedUpTo(a, b, func, j, r, seen) && j < |b.keys|
    ensures MergedUpTo(a, b, func, j + 1, MergeKey(r, a, b, func, b.keys[j]), seen + {b.keys[j]})
  {
    assert b.keys[j] !in seen;
    MergeKeyKeys(a, b, func, j, r);
    SeenStep(b, j, seen);
    MergeKeyCoeff(a, b, func, r, seen, b.keys[j]);
  }

  lemma MergeKeyKeys(a: LinearTerm, b: LinearTerm, func: (int, int) -> int, j: nat, r: LinearTerm)
    requires j < |b.keys| && b.keys[j] in b.coeff
    requires r.keys == a.keys + NewKeys(b.keys[..j], a.coeff)
    requires b.keys[j] in r.coeff <==> b.keys[j] in a.coeff
    ensures MergeKey(r, a, b, func, b.keys[j]).keys == a.keys + NewKeys(b.keys[..j + 1], a.coeff)
  {
    NewKeysSnoc(b.keys, a.coeff, j);
  }

  lemma SeenStep(b: LinearTerm, j: nat, seen: set<string>)
    requires Valid(b) && j < |b.keys| && SeenFirst(b, j, seen)
    ensures SeenFirst(b, j + 1, seen + {b.keys[j]})
  {
    forall i | j + 1 <= i < |b.keys| ensures b.keys[i] !in seen + {b.keys[j]} {
      assert b.keys[i] != b.keys[j];
    }
  }

  lemma MergeKeyCoeff(a: LinearTerm, b: LinearTerm, func: (int, int) -> int, r: LinearTerm, seen: set<string>, k: string)
    requires k in b.coeff && k !in seen && MergedCoeff(a, b, func, r, seen)
    ensures MergedCoeff(a, b, func, MergeKey(r, a, b, func, k), seen + {k})
  {
  }

  lemma MergeEnd(a: LinearTerm, b: LinearTerm, func: (int, int) -> int, r: LinearTerm, seen: set<string>)
    requires Valid(a) && Valid(b) && MergedUpTo(a, b, func, |b.keys|, r, seen)
    ensures r == Merge(a, b, func)
  {
    assert b.keys[..|b.keys|] == b.keys;
    var m := Merge(a, b, func);
    assert seen == b.coeff.Keys;
    assert r.coeff.Keys == m.coeff.Keys;
    assert r.coeff == m.coeff;
  }

  /** The first loop of mergeTwoTerms: every own key of `a` copied, in order, into a new object. */
  method CopyTerm(a: LinearTerm) returns (result: LinearTerm)
    requires Valid(a)
    ensures result == a
  {
    result := LinearTerm([], map[]);
    var i := 0;
    while i < |a.keys|
      invariant i <= |a.keys|
      invariant result.keys == a.keys[..i]
      invariant forall k :: k in result.coeff <==> k in a.keys[..i]
      invariant forall k | k in result.coeff :: result.coeff[k] == a.coeff[k]
    {
      var k := a.keys[i];
      assert k !in a.keys[..i];
      result := Put(result, k, a.coeff[k]);
      assert a.keys[..i + 1] == a.keys[..i] + [k];
      i := i + 1;
    }
    assert a.keys[..i] == a.keys;
    assert result.coeff == a.coeff;
  }

  /**
   * The two loops of mergeTwoTerms: copy every key of `a`, then for every
   * key of `b` either combine it with `a`'s coefficient (kept when the
   * result is 0) or add it.
   */
  method MergeTwoTerms(a: LinearTerm, b: LinearTerm, func: (int, int) -> int) returns (result: LinearTerm)
    requires Valid(a) && Valid(b)
    ensures result == Merge(a, b, func)
  {
    result := CopyTerm(a);
    MergeStart(a, b, func);
    var j := 0;
    ghost var seen: set<string> := {};
    while j < |b.keys|
      invariant MergedUpTo(a, b, func, j, result, seen)
    {
      ghost var before := result;
      var k := b.keys[j];
      if k in a.coeff {
        var mapped := func(a.coeff[k], b.coeff[k]);
        if mapped != 0 {
          result := Put(result, k, mapped);
        }
      } else {
        result := Put(result, k, b.coeff[k]);
      }
      assert result == MergeKey(before, a, b, func, k);
      MergeKeyStep(a, b, func, j, before, seen);
      seen := seen + {k};
      j := j + 1;
    }
    MergeEnd(a, b, func, result, seen);
  }

  // ---------------------------------------------------------------------
  // isConstantTerm

  /** No own key other than the constant's. */
  function IsConstant(t: LinearTerm): (b: bool)
    ensures b <==> forall k | k in t.keys :: k == ""
  {
    assert forall i | 0 <= i < |t.keys| :: t.keys[i] in t.keys;
    forall i | 0 <= i < |t.keys| :: t.keys[i] == ""
  }

  /** A constant term holds the constant or nothing: `{}` and `{"": c}` alone. */
  lemma ConstantMeans(t: LinearTerm)
    requires Valid(t)
    ensures IsConstant(t) <==> t.keys == [] || t.keys == [""]
  {
    if |t.keys| >= 2 {
      assert t.keys[0] != t.keys[1];
    }
    if |t.keys| == 1 {
      assert t.keys == [t.keys[0]];
    }
  }

  /** The loop of isConstantTerm, returning at the first key other than `""`. */
  method IsConstantTerm(t: LinearTerm) returns (r: bool)
    ensures r == IsConstant(t)
  {
    var i := 0;
    while i < |t.keys|
      invariant i <= |t.keys|
      invariant forall j | 0 <= j < i :: t.keys[j] == ""
    {
      if t.keys[i] != "" {
        return false;
      }
      i := i + 1;
    }
    return true;
  }

  // ---------------------------------------------------------------------
  // termToString

  /**
   * The text termToString has built after the first `n` entries: each
   * entry appends its coefficient and key, after a `+` when the
   * coefficient is positive and the text so far is not empty.
   */
  function Rendered(t: LinearTerm, n: nat): string
    requires Listed(t) && n <= |t.keys|
  {
    if n == 0 then "" else Appended(Rendered(t, n - 1), t.coeff[t.keys[n - 1]], t.keys[n - 1])
  }

  /** One turn of the loop of termToString, for the key `key` holding `c`. */
  function Appended(text: string, c: int, key: string): string {
    (if text != "" && c > 0 then text + "+" else text) + (IntToString(c) + key)
  }

  /** termToString: the rendered entries, or `"0"` for a term without keys. */
  function TermString(t: LinearTerm): (s: string)
    requires Listed(t)
    ensures s != ""
    ensures |t.keys| == 0 ==> s == "0"
  {
    var text := Rendered(t, |t.keys|);
    if text == "" then "0" else text
  }

  /** The text of entry `n` by its position alone: a `+` before a positive coefficient unless it is the first entry. */
  function Piece(t: LinearTerm, n: nat): string
    requires Listed(t) && n < |t.keys|
  {
    var c := t.coeff[t.keys[n]];
    (if n > 0 && c > 0 then "+" else "") + (IntToString(c) + t.keys[n])
  }

  /** After the first entry the text is never empty: every rendered coefficient has a digit. */
  lemma {:induction false} RenderedEmpty(t: LinearTerm, n: nat)
    requires Listed(t) && n <= |t.keys|
    ensures Rendered(t, n) == "" <==> n == 0
  {
    if n > 0 {
      var key := t.keys[n - 1];
      assert |IntToString(t.coeff[key]) + key| > 0;
    }
  }

  /**
   * Testing the text for emptiness is testing for the first entry: the
   * text is the pieces of the entries, each signed by its position.
   */
  lemma {:induction false} RenderedPieces(t: LinearTerm, n: nat)
    requires Listed(t) && n < |t.keys|
    ensures Rendered(t, n + 1) == Rendered(t, n) + Piece(t, n)
  {
    RenderedEmpty(t, n);
    var prev, key := Rendered(t, n), t.keys[n];
    var c := t.coeff[key];
    var sign := if n > 0 && c > 0 then "+" else "";
    var digits := IntToString(c) + key;
    assert Piece(t, n) == sign + digits;
    if n > 0 && c > 0 {
      assert Rendered(t, n + 1) == (prev + "+") + digits;
      AppendAssoc(prev, "+", digits);
    } else {
      assert Rendered(t, n + 1) == prev + digits;
      assert sign == "";
      assert Piece(t, n) == digits;
    }
  }

  lemma AppendAssoc(a: string, b: string, c: string)
    ensures (a + b) + c == a + (b + c)
  {
  }

  /** The first entry is written without a sign of its own: the text starts with its coefficient and key. */
  lemma {:induction false} RenderedStartsBare(t: LinearTerm, n: nat)
    requires Listed(t) && 1 <= n <= |t.keys|
    ensures var first := IntToString(t.coeff[t.keys[0]]) + t.keys[0];
      |first| <= |Rendered(t, n)| && Rendered(t, n)[..|first|] == first
    decreases n
  {
    var first := IntToString(t.coeff[t.keys[0]]) + t.keys[0];
    var m := n - 1;
    if m > 0 {
      RenderedStartsBare(t, m);
      RenderedPieces(t, m);
      PrefixOfConcat(Rendered(t, m), Piece(t, m), |first|);
    } else {
      assert Rendered(t, 1) == "" + first;
    }
  }

  lemma PrefixOfConcat(a: string, b: string, k: nat)
    requires k <= |a|
    ensures (a + b)[..k] == a[..k]
  {
  }

  /** IntToString writes digits and a minus sign, never a `+`. */
  lemma NoPlusInNumber(i: int)
    ensures '+' !in IntToString(i)
  {
    var d := NatToString(if i < 0 then -i else i);
    assert forall j | 0 <= j < |d| :: IsDigit(d[j]);
    if i < 0 {
      assert IntToString(i) == "-" + d;
    }
  }

  /** Only a positive coefficient after the first entry gets a `+`: with none positive the text has no `+`. */
  lemma {:induction false} NoPlusWithoutPositive(t: LinearTerm, n: nat)
    requires Listed(t) && 1 <= n <= |t.keys|
    requires forall i | 0 <= i < |t.keys| :: '+' !in t.keys[i]
    requires forall k | k in t.coeff :: t.coeff[k] <= 0
    ensures '+' !in Rendered(t, n)
    decreases n
  {
    var m := n - 1;
    if m > 0 {
      NoPlusWithoutPositive(t, m);
    }
    var key := t.keys[m];
    NoPlusAppended(Rendered(t, m), t.coeff[key], key);
  }

  /** One entry of termToString with a coefficient that is not positive adds no `+`. */
  lemma NoPlusAppended(prev: string, c: int, key: string)
    requires '+' !in prev && '+' !in key && c <= 0
    ensures '+' !in Appended(prev, c, key)
  {
    NoPlusInNumber(c);
    NotInConcat('+', IntToString(c), key);
    NotInConcat('+', prev, IntToString(c) + key);
  }

  lemma NotInConcat(c: char, a: string, b: string)
    requires c !in a && c !in b
    ensures c !in a + b
  {
  }

  /** termToString gives `"0"` for a term without keys, and otherwise the rendered entries, never empty. */
  lemma TermStringCases(t: LinearTerm)
    requires Listed(t)
    ensures |t.keys| == 0 ==> TermString(t) == "0"
    ensures |t.keys| > 0 ==> TermString(t) == Rendered(t, |t.keys|) && TermString(t) != ""
  {
    if |t.keys| > 0 {
      RenderedEmpty(t, |t.keys|);
    }
  }

  /** The loop of termToString over the own keys of the term in order. */
  method TermToString(term: LinearTerm) returns (r: string)
    requires Valid(term)
    ensures r == TermString(term)
  {
    var result := "";
    var i := 0;
    while i < |term.keys|
      invariant i <= |term.keys|
      invariant result == Rendered(term, i)
    {
      var key := term.keys[i];
      if result != "" && term.coeff[key] > 0 {
        result := result + "+";
      }
      result := result + (IntToString(term.coeff[key]) + key);
      i := i + 1;
    }
    RenderedEmpty(term, i);
    r := if result == "" then "0" else result;
  }

  // ---------------------------------------------------------------------
  // makeInterval and makeIntervals

  /**
   * `bound[""]`: the constant of a bound, `undefined` when the term has no
   * constant key.
   */
  function Constant(t: LinearTerm): Option<int> {
    if "" in t.coeff then Some(t.coeff[""]) else None
  }

  /** `<` on numbers that may be `undefined`: any comparison with `undefined` is false. */
  predicate Below(a: Option<int>, b: Option<int>) {
    a.Some? && b.Some? && a.value < b.value
  }

  predicate AtMost(a: Option<int>, b: Option<int>) {
    a.Some? && b.Some? && a.value <= b.value
  }

  /**
   * makeInterval(sup, supOpen, inf, infOpen): an upper and a lower bound,
   * each a linear term or `null`, each open or closed.
   */
  datatype Interval = Interval(sup: Option<LinearTerm>, supOpen: bool, inf: Option<LinearTerm>, infOpen: bool) {

    /** Every bound present is constant. */
    function IsDetermined(): (b: bool)
      ensures sup.None? && inf.None? ==> b
      ensures b && sup.Some? ==> IsConstant(sup.value)
      ensures b && inf.Some? ==> IsConstant(inf.value)
    {
      (sup.None? || IsConstant(sup.value)) && (inf.None? || IsConstant(inf.value))
    }

    /** Both bounds present and constant, and either the upper one below the lower one or the two equal with an open end. */
    function IsContradiction(): (b: bool)
      ensures b ==> sup.Some? && inf.Some? && IsDetermined()
      ensures b && !supOpen && !infOpen ==> Below(Constant(sup.value), Constant(inf.value))
    {
      if sup.None? || inf.None? || !IsDetermined() then false
      else if Below(Constant(sup.value), Constant(inf.value)) then true
      else Constant(sup.value) == Constant(inf.value) && (supOpen || infOpen)
    }

    /** The constraint the upper bound puts on `x`; none when there is no upper bound. */
    function UnderSup(x: int): (b: bool)
      ensures sup.None? ==> b
      ensures b && sup.Some? ==> Constant(sup.value).Some? && x <= Constant(sup.value).value
    {
      sup.None? || (if supOpen then Below(Some(x), Constant(sup.value)) else AtMost(Some(x), Constant(sup.value)))
    }

    function OverInf(x: int): (b: bool)
      ensures inf.None? ==> b
      ensures b && inf.Some? ==> Constant(inf.value).Some? && Constant(inf.value).value <= x
    {
      inf.None? || (if infOpen then Below(Constant(inf.value), Some(x)) else AtMost(Constant(inf.value), Some(x)))
    }

    function Contains(x: int): (b: bool)
      ensures b ==> IsDetermined() && !IsContradiction()
      ensures b ==> UnderSup(x) && OverInf(x)
      ensures !IsDetermined() ==> !b
    {
      IsDetermined() && !IsContradiction() && UnderSup(x) && OverInf(x)
    }

    /** The `supOpen` message: a missing upper bound counts as open. */
    function SupOpenMessage(): (b: bool)
      ensures sup.None? ==> b
      ensures sup.Some? ==> (b <==> supOpen)
    {
      sup.None? || supOpen
    }

    function InfOpenMessage(): (b: bool)
      ensures inf.None? ==> b
      ensures inf.Some? ==> (b <==> infOpen)
    {
      inf.None? || infOpen
    }
  }

  /** A contradiction is what it says: no number is within both bounds. */
  lemma ContradictionIsEmpty(iv: Interval, x: int)
    requires iv.IsContradiction()
    ensures !(iv.UnderSup(x) && iv.OverInf(x))
  {
  }

  /**
   * A determined interval with both constants defined, both ends closed and
   * no contradiction contains its lower bound.
   */
  lemma ClosedIntervalHasMember(iv: Interval)
    requires iv.IsDetermined() && iv.sup.Some? && iv.inf.Some? && !iv.supOpen && !iv.infOpen
    requires Constant(iv.sup.value).Some? && Constant(iv.inf.value).Some?
    requires !iv.IsContradiction()
    ensures iv.Contains(Constant(iv.inf.value).value)
  {
  }

  /** A missing bound constrains nothing, and its message says open. */
  lemma MissingBoundIsOpen(iv: Interval, x: int)
    ensures iv.sup.None? ==> iv.UnderSup(x) && iv.SupOpenMessage()
    ensures iv.inf.None? ==> iv.OverInf(x) && iv.InfOpenMessage()
    ensures iv.sup.None? && iv.inf.None? && iv.IsDetermined() ==> iv.Contains(x)
  {
  }

  /** makeIntervals' isDetermined: the loop returns false at the first undetermined interval. */
  method IntervalsDetermined(args: seq<Interval>) returns (r: bool)
    ensures r <==> forall i | 0 <= i < |args| :: args[i].IsDetermined()
  {
    var i := 0;
    while i < |args|
      invariant i <= |args|
      invariant forall j | 0 <= j < i :: args[j].IsDetermined()
    {
      if !args[i].IsDetermined() {
        return false;
      }
      i := i + 1;
    }
    return true;
  }

  /** makeIntervals' isContradiction: the loop returns true at the first contradictory interval. */
  method IntervalsContradiction(args: seq<Interval>) returns (r: bool)
    ensures r <==> exists i | 0 <= i < |args| :: args[i].IsContradiction()
  {
    var i := 0;
    while i < |args|
      invariant i <= |args|
      invariant forall j | 0 <= j < i :: !args[j].IsContradiction()
    {
      if args[i].IsContradiction() {
        return true;
      }
      i := i + 1;
    }
    return false;
  }

  /** When some interval is a contradiction, no number lies within every one of them. */
  lemma IntervalsContradictionIsEmpty(args: seq<Interval>, x: int)
    requires exists i | 0 <= i < |args| :: args[i].IsContradiction()
    ensures exists i | 0 <= i < |args| :: !(args[i].UnderSup(x) && args[i].OverInf(x))
  {
    var i :| 0 <= i < |args| && args[i].IsContradiction();
    ContradictionIsEmpty(args[i], x);
  }
}
