/**
 * The rule store: makeRule's pairs, makeList's mutable array and the
 * snapshot streams that getStream hands out.
 */
module Rules {
  import opened Wrappers
  import opened Terms

  /** makeRule: a conclusion and a body; a fact has no body (`null`). */
  datatype Rule = Rule(conclusion: Term, body: Option<Term>)

  /**
   * A stream of getStream: a position in an array that nobody else holds,
   * so it never changes once handed out.
   */
  datatype Stream = Stream(items: seq<Rule>, index: nat) {

    predicate IsNull()
    {
      index >= |items|
    }

    /** `list[index]`, which is `undefined` past the end. */
    function Value(): (r: Option<Rule>)
      ensures r.Some? <==> !IsNull()
      ensures r.Some? ==> r.value == items[index]
    {
      if index < |items| then Some(items[index]) else None
    }

    function Rest(): (s: Stream)
      ensures s.items == items && s.index == index + 1
    {
      Stream(items, index + 1)
    }

    /** The rules the stream still yields, first to last. */
    function Remaining(): (r: seq<Rule>)
      ensures |r| == if index < |items| then |items| - index else 0
    {
      if index <= |items| then items[index..] else []
    }
  }

  /**
   * Walking a stream yields its remaining rules in order: it is null exactly
   * when none remain, its value is the first of them and its rest yields the
   * others.
   */
  lemma StreamYields(s: Stream)
    ensures s.IsNull() <==> s.Remaining() == []
    ensures !s.IsNull() ==> s.Value() == Some(s.Remaining()[0])
    ensures !s.IsNull() ==> s.Rest().Remaining() == s.Remaining()[1..]
  {
  }

  /** A stream over `rules` from the start yields exactly `rules`. */
  lemma StreamFromStart(rules: seq<Rule>)
    ensures Stream(rules, 0).Remaining() == rules
  {
  }

  /** makeList: an array that push and unshift change in place. */
  class RuleList {
    var list: seq<Rule>

    /** makeList(aList) copies the array it is given, or starts empty. */
    constructor (initial: seq<Rule>)
      ensures list == initial
    {
      list := initial;
    }

    method Unshift(element: Rule)
      modifies this
      ensures list == [element] + old(list)
    {
      list := [element] + list;
    }

    method Push(element: Rule)
      modifies this
      ensures list == old(list) + [element]
    {
      list := list + [element];
    }

    /** A stream over a copy of the array as it is now. */
    method GetStream() returns (s: Stream)
      ensures s.index == 0 && s.Remaining() == list
    {
      s := Stream(list, 0);
    }

    method ToArray() returns (a: seq<Rule>)
      ensures a == list
    {
      a := list;
    }
  }

  /**
   * A stream taken before a push keeps yielding the rules of the moment it
   * was taken, while the store and later streams see the new rule.
   */
  method SnapshotIsolation(first: Rule, second: Rule) returns (before: Stream, after: Stream)
    ensures before.Remaining() == [first]
    ensures after.Remaining() == [first, second]
  {
    var store := new RuleList([]);
    store.Push(first);
    before := store.GetStream();
    store.Push(second);
    after := store.GetStream();
  }
}
