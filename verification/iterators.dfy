/**
 * The bidirectional iterator of the skip list. An iterator remembers the
 * list that made it (`skiplist_`, here the list's `ident`) and the node it is
 * at (`node_`). Its steps and comparisons are guarded by assertions in the
 * source; a step whose assertion fails yields `AssertionFailure`.
 */
module Iterators {
  import opened Height
  import opened Nodes
  import opened Layout

  datatype Iter = Iter(owner: nat, node: nat)

  /** The outcome of a step the source guards with `assert`. */
  datatype Checked<T> = Ok(value: T) | AssertionFailure

  /** The default-constructed iterator: no list, no node. */
  function Detached(): (it: Iter)
    ensures it.owner == Null && it.node == Null
  {
    Iter(Null, Null)
  }

  /** `begin()`: the level-0 successor of the head. */
  function Begin<V>(s: SkipList<V>): (it: Iter)
    requires Shaped(s)
    ensures it.owner == s.ident
  {
    Iter(s.ident, Forward(s.nodes[Head], 0))
  }

  /** `end()`: the tail sentinel. */
  function End<V>(s: SkipList<V>): (it: Iter)
    ensures it.owner == s.ident && it.node == Tail
  {
    Iter(s.ident, Tail)
  }

  /** An iterator of `s` that is at an element or at `end()`. */
  ghost predicate InRange<V>(s: SkipList<V>, it: Iter)
  {
    it.owner == s.ident && (IsElem(s, it.node) || it.node == Tail)
  }

  /** What an iterator may be handed to a step with: detached, or at a live node of its own list. */
  ghost predicate Usable<V>(s: SkipList<V>, it: Iter)
  {
    it.node != Null ==> it.owner == s.ident && it.node in s.nodes
  }

  /** `operator*`: the pair stored at the node; at an element, a pair of the contents. */
  function Deref<V>(s: SkipList<V>, it: Iter): (kv: (int, V))
    requires it.node in s.nodes
    ensures KeysUnique(s) && IsElem(s, it.node) ==> kv.0 in Abs(s) && Abs(s)[kv.0] == kv.1
  {
    (s.nodes[it.node].key, s.nodes[it.node].value)
  }

  /** `operator++`: refused on a detached iterator and at `end()`, else follows the level-0 link. */
  function Increment<V>(s: SkipList<V>, it: Iter): (r: Checked<Iter>)
    requires Shaped(s) && Usable(s, it)
    ensures r.AssertionFailure? <==> it.node == Null || it == End(s)
    ensures r.Ok? ==> r.value.owner == it.owner
  {
    if it.node == Null then AssertionFailure
    else if it.node == Tail then AssertionFailure
    else Ok(Iter(it.owner, Forward(s.nodes[it.node], 0)))
  }

  /**
   * `operator--`: refused on a detached iterator and where the backward
   * link is the head (at `begin()`), else follows the backward link.
   */
  function Decrement<V>(s: SkipList<V>, it: Iter): (r: Checked<Iter>)
    requires Usable(s, it)
    ensures r.AssertionFailure? <==> it.node == Null || s.nodes[it.node].backward == Head
    ensures r.Ok? ==> r.value.owner == it.owner
  {
    if it.node == Null then AssertionFailure
    else if s.nodes[it.node].backward == Head then AssertionFailure
    else Ok(Iter(it.owner, s.nodes[it.node].backward))
  }

  /** `operator==`: only iterators of the same list may be compared. */
  function Equal(it: Iter, other: Iter): (r: Checked<bool>)
    ensures r.AssertionFailure? <==> it.owner != other.owner
    ensures r == Ok(true) <==> it == other
  {
    if it.owner != other.owner then AssertionFailure else Ok(it.node == other.node)
  }

  /** `operator!=`: the negation of `operator==`, under the same guard. */
  function NotEqual(it: Iter, other: Iter): (r: Checked<bool>)
    ensures r.AssertionFailure? <==> it.owner != other.owner
    ensures r == Ok(true) <==> it.owner == other.owner && it != other
    ensures it.owner == other.owner ==> r == Ok(!Equal(it, other).value)
  {
    if it.owner != other.owner then AssertionFailure
    else match Equal(it, other)
      case Ok(b) => Ok(!b)
      case AssertionFailure => AssertionFailure
  }

  /**
   * `++` from an element moves to the next node in key order: the element
   * with the least greater key, or `end()` when there is none.
   */
  lemma IncrementIsNext<V>(s: SkipList<V>, it: Iter)
    requires Valid(s) && InRange(s, it) && it != End(s)
    ensures Increment(s, it).Ok? && InRange(s, Increment(s, it).value)
    ensures Before(s, it.node, Increment(s, it).value.node)
    ensures forall c :: IsElem(s, c) ==> !Between(s, it.node, c, Increment(s, it).value.node)
  {
    var b := s.nodes[it.node].forwards[0];
    assert IsNextAt(s, it.node, 0, b);
    forall c | IsElem(s, c)
      ensures !Between(s, it.node, c, b)
    {
      AllOnLevelZero(s, c);
    }
  }

  /** The node a backward link leads to is the one whose level-0 link leads back. */
  lemma BackwardIsPrevious<V>(s: SkipList<V>, a: nat)
    requires Valid(s) && a in s.nodes && a != Head
    ensures var b := s.nodes[a].backward;
            b in s.nodes && b != Tail && s.nodes[b].forwards[0] == a && Before(s, b, a)
  {
    var b := s.nodes[a].backward;
    assert b in s.nodes && b != Tail && 0 < |s.nodes[b].forwards| && s.nodes[b].forwards[0] == a;
    assert IsNextAt(s, b, 0, a);
  }

  /** `--` undoes `++`. */
  lemma IncrementThenDecrement<V>(s: SkipList<V>, it: Iter)
    requires Valid(s) && InRange(s, it) && it != End(s)
    ensures Increment(s, it).Ok? && Decrement(s, Increment(s, it).value) == Ok(it)
  {
    var b := s.nodes[it.node].forwards[0];
    AllOnLevelZero(s, it.node);
    assert IsNextAt(s, it.node, 0, b);
    BackwardIsPrevious(s, b);
    UniquePredecessor(s, s.nodes[b].backward, it.node, 0);
  }

  /** `++` undoes `--`, and `--` stays within the elements. */
  lemma DecrementThenIncrement<V>(s: SkipList<V>, it: Iter)
    requires Valid(s) && InRange(s, it) && Decrement(s, it).Ok?
    ensures InRange(s, Decrement(s, it).value) && Decrement(s, it).value != End(s)
    ensures Increment(s, Decrement(s, it).value) == Ok(it)
  {
    BackwardIsPrevious(s, it.node);
  }

  /** `--` is refused at `begin()`, whatever the list holds. */
  lemma DecrementRefusedAtBegin<V>(s: SkipList<V>)
    requires Valid(s)
    ensures Decrement(s, Begin(s)).AssertionFailure?
  {
    var b := s.nodes[Head].forwards[0];
    assert IsNextAt(s, Head, 0, b);
    BackwardIsPrevious(s, b);
    UniquePredecessor(s, s.nodes[b].backward, Head, 0);
  }

  /** `a` is the element with the greatest key. */
  ghost predicate IsLast<V>(s: SkipList<V>, a: nat)
  {
    IsElem(s, a) && forall c :: IsElem(s, c) ==> c == a || Before(s, c, a)
  }

  /** The tail's backward link leads to the element with the greatest key, or to the head if there is none. */
  lemma BeforeTailIsLast<V>(s: SkipList<V>)
    requires Valid(s)
    ensures var b := s.nodes[Tail].backward;
            && (b == Head || IsLast(s, b))
            && (b == Head ==> forall c :: !IsElem(s, c))
  {
    var b := s.nodes[Tail].backward;
    BackwardIsPrevious(s, Tail);
    assert IsNextAt(s, b, 0, Tail);
    forall c | IsElem(s, c)
      ensures c == b || Before(s, c, b)
    {
      AllOnLevelZero(s, c);
      NotBetween(s, b, 0, Tail, c);
      Total(s, c, b);
    }
  }

  /** The list is empty exactly when the tail's backward link leads to the head. */
  lemma EmptyIffHeadBeforeTail<V>(s: SkipList<V>)
    requires Valid(s)
    ensures s.nodes[Tail].backward == Head <==> Abs(s) == map[]
  {
    var b := s.nodes[Tail].backward;
    BeforeTailIsLast(s);
    if b != Head {
      AbsHas(s, b);
    } else {
      AbsEmpty(s);
    }
  }

  /** `a` is the element with the least key. */
  ghost predicate IsFirst<V>(s: SkipList<V>, a: nat)
  {
    IsElem(s, a) && forall c :: IsElem(s, c) ==> c == a || Before(s, a, c)
  }

  /** Every element is the head's level-0 successor or comes after it. */
  lemma AfterHeadNext<V>(s: SkipList<V>)
    requires Valid(s)
    ensures var b := s.nodes[Head].forwards[0];
            && b in s.nodes && b != Head
            && forall c :: IsElem(s, c) ==> c == b || Before(s, b, c)
  {
    var b := s.nodes[Head].forwards[0];
    assert IsNextAt(s, Head, 0, b);
    forall c | IsElem(s, c)
      ensures c == b || Before(s, b, c)
    {
      AllOnLevelZero(s, c);
      NotBetween(s, Head, 0, b, c);
      Total(s, c, b);
    }
  }

  /**
   * `begin()` is `end()` exactly when the list is empty, and otherwise is at
   * the element with the least key.
   */
  lemma BeginIsFirst<V>(s: SkipList<V>)
    requires Valid(s)
    ensures Begin(s) == End(s) <==> Abs(s) == map[]
    ensures Begin(s) != End(s) ==> IsFirst(s, Begin(s).node)
  {
    var b := s.nodes[Head].forwards[0];
    AfterHeadNext(s);
    if b != Tail {
      AbsHas(s, b);
    } else {
      AbsEmpty(s);
    }
  }

  /**
   * `--` from `end()` is allowed exactly when the list is not empty, and
   * then reaches the element with the greatest key.
   */
  lemma DecrementFromEnd<V>(s: SkipList<V>)
    requires Valid(s)
    ensures Decrement(s, End(s)).Ok? <==> Abs(s) != map[]
    ensures Decrement(s, End(s)).Ok? ==> IsLast(s, Decrement(s, End(s)).value.node)
  {
    EmptyIffHeadBeforeTail(s);
    BeforeTailIsLast(s);
  }
}
