/**
 * A forward traversal from `begin()`: repeated `++` visits every element
 * once, in key order, and reaches `end()` after exactly `size()` steps.
 */
module Traversal {
  import opened Height
  import opened Nodes
  import opened Layout
  import opened Iterators

  /** The elements at or after node `a` in key order. */
  ghost function Rest<V>(s: SkipList<V>, a: nat): set<nat>
  {
    set c | c in s.nodes && c != Head && c != Tail && (c == a || Before(s, a, c))
  }

  /** An iterator `++` produces from a usable one is usable again. */
  lemma IncrementUsable<V>(s: SkipList<V>, it: Iter)
    requires Valid(s) && Usable(s, it) && Increment(s, it).Ok?
    ensures Usable(s, Increment(s, it).value)
  {
    AllOnLevelZero(s, it.node);
    assert IsNextAt(s, it.node, 0, s.nodes[it.node].forwards[0]);
  }

  /** `m` applications of `++`, stopping at the first refused one. */
  ghost function Advance<V>(s: SkipList<V>, it: Iter, m: nat): (r: Checked<Iter>)
    requires Valid(s) && Usable(s, it)
    decreases m
  {
    if m == 0 then Ok(it)
    else match Increment(s, it)
      case AssertionFailure => AssertionFailure
      case Ok(j) => IncrementUsable(s, it); Advance(s, j, m - 1)
  }

  /** Every element after `a` is its level-0 successor `b` or comes after `b`. */
  lemma NothingSkipped<V>(s: SkipList<V>, a: nat, b: nat)
    requires Shaped(s) && KeysUnique(s) && IsNextAt(s, a, 0, b)
    ensures forall c :: IsElem(s, c) && Before(s, a, c) ==> c == b || Before(s, b, c)
  {
    forall c | IsElem(s, c) && Before(s, a, c)
      ensures c == b || Before(s, b, c)
    {
      AllOnLevelZero(s, c);
      NotBetween(s, a, 0, b, c);
      Total(s, c, b);
    }
  }

  /** One step forward leaves exactly one element behind. */
  lemma RestStep<V>(s: SkipList<V>, a: nat, b: nat)
    requires Shaped(s) && KeysUnique(s) && IsElem(s, a) && IsNextAt(s, a, 0, b)
    ensures Rest(s, a) == Rest(s, b) + {a}
    ensures a !in Rest(s, b)
  {
    NothingSkipped(s, a, b);
  }

  /** The elements from `begin()` on are all the elements. */
  lemma RestOfBegin<V>(s: SkipList<V>)
    requires Valid(s)
    ensures Rest(s, s.nodes[Head].forwards[0]) == Elems(s)
  {
    var b := s.nodes[Head].forwards[0];
    assert IsNextAt(s, Head, 0, b);
    NothingSkipped(s, Head, b);
  }

  /** `++` from an element reaches a node in range with one element fewer ahead of it. */
  lemma IncrementShrinksRest<V>(s: SkipList<V>, it: Iter)
    requires Valid(s) && InRange(s, it) && it != End(s)
    ensures Increment(s, it).Ok? && InRange(s, Increment(s, it).value)
    ensures |Rest(s, Increment(s, it).value.node)| == |Rest(s, it.node)| - 1
  {
    var b := s.nodes[it.node].forwards[0];
    AllOnLevelZero(s, it.node);
    assert IsNextAt(s, it.node, 0, b);
    RestStep(s, it.node, b);
  }

  /** `m + 1` steps are one step followed by `m` more. */
  lemma AdvanceStep<V>(s: SkipList<V>, it: Iter, j: Iter, m: nat)
    requires Valid(s) && Usable(s, it) && Increment(s, it) == Ok(j) && Usable(s, j)
    ensures Advance(s, it, m + 1) == Advance(s, j, m)
  {
  }

  /**
   * From an element or `end()`, `++` applied once per remaining element
   * reaches `end()`, passing only elements on the way.
   */
  lemma {:induction false} WalkToEnd<V>(s: SkipList<V>, it: Iter)
    requires Valid(s) && InRange(s, it)
    ensures Advance(s, it, |Rest(s, it.node)|) == Ok(End(s))
    ensures forall m :: 0 <= m < |Rest(s, it.node)| ==>
              Advance(s, it, m).Ok? && InRange(s, Advance(s, it, m).value) && Advance(s, it, m).value != End(s)
    decreases |Rest(s, it.node)|
  {
    if it.node == Tail {
      assert Rest(s, Tail) == {};
    } else {
      IncrementShrinksRest(s, it);
      var j := Increment(s, it).value;
      var n := |Rest(s, j.node)|;
      WalkToEnd(s, j);
      AdvanceStep(s, it, j, n);
      WalkPrefix(s, it, j, n);
    }
  }

  /** The steps before the last stay at elements when those after the first do. */
  lemma WalkPrefix<V>(s: SkipList<V>, it: Iter, j: Iter, n: nat)
    requires Valid(s) && InRange(s, it) && it != End(s) && Increment(s, it) == Ok(j) && InRange(s, j)
    requires forall m :: 0 <= m < n ==>
               Advance(s, j, m).Ok? && InRange(s, Advance(s, j, m).value) && Advance(s, j, m).value != End(s)
    ensures forall m :: 0 <= m < n + 1 ==>
              Advance(s, it, m).Ok? && InRange(s, Advance(s, it, m).value) && Advance(s, it, m).value != End(s)
  {
    forall m | 0 <= m < n + 1
      ensures Advance(s, it, m).Ok? && InRange(s, Advance(s, it, m).value) && Advance(s, it, m).value != End(s)
    {
      if m == 0 {
        assert Advance(s, it, 0) == Ok(it);
      } else {
        AdvanceStep(s, it, j, m - 1);
        assert 0 <= m - 1 < n;
      }
    }
  }

  /**
   * One forward traversal from `begin()` yields exactly `size()` elements
   * before it reaches `end()`.
   */
  lemma ForwardTraversal<V>(s: SkipList<V>)
    requires Valid(s)
    ensures Advance(s, Begin(s), s.size) == Ok(End(s))
    ensures forall m :: 0 <= m < s.size ==>
              Advance(s, Begin(s), m).Ok? && InRange(s, Advance(s, Begin(s), m).value)
              && Advance(s, Begin(s), m).value != End(s)
  {
    RestOfBegin(s);
    WalkToEnd(s, Begin(s));
  }
}
