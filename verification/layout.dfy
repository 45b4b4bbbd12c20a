/**
 * The container state and the invariants every operation keeps.
 *
 * Nodes live in an arena, a map from ids to node records; a link is an id.
 * The two sentinels have fixed ids, and id `Null` is never allocated. The
 * ordering of nodes is the ordering of their keys, with `Head` before and
 * `Tail` after every element; the invariants say that each forward link at
 * level `i` goes to the NEXT node in that ordering whose height exceeds `i`,
 * and that the backward link is the exact inverse of the level-0 link.
 */
module Layout {
  import opened Height
  import opened Nodes

  const Null: nat := 0
  const Head: nat := 1
  const Tail: nat := 2

  /**
   * `ident` is the container's own address (what iterators remember),
   * `nextId` the next unused arena id, and `zero` the value-initialised
   * mapped value `T()` used for the sentinels and by `operator[]`.
   */
  datatype SkipList<V> = SkipList(ident: nat, nodes: map<nat, Node<V>>, size: nat, nextId: nat, zero: V)

  /** A node that holds a real key/value pair. */
  ghost predicate IsElem<V>(s: SkipList<V>, a: nat)
  {
    a in s.nodes && a != Head && a != Tail
  }

  ghost function Elems<V>(s: SkipList<V>): set<nat>
  {
    set a | a in s.nodes && a != Head && a != Tail
  }

  /** The position order: `Head`, then the elements by key, then `Tail`. */
  ghost predicate Before<V>(s: SkipList<V>, a: nat, b: nat)
  {
    && a in s.nodes && b in s.nodes && a != Tail && b != Head
    && (a == Head || b == Tail || s.nodes[a].key < s.nodes[b].key)
  }

  /** Node `a` is linked into level `i`. */
  ghost predicate OnLevel<V>(s: SkipList<V>, a: nat, i: nat)
  {
    a in s.nodes && i < s.nodes[a].height
  }

  /** `c` lies strictly between `a` and `b` in the position order. */
  ghost predicate Between<V>(s: SkipList<V>, a: nat, c: nat, b: nat)
  {
    Before(s, a, c) && Before(s, c, b)
  }

  /** `b` is the first node after `a` that takes part in level `i`. */
  ghost predicate IsNextAt<V>(s: SkipList<V>, a: nat, i: nat, b: nat)
  {
    && Before(s, a, b) && OnLevel(s, b, i)
    && forall c {:trigger Between(s, a, c, b)} :: OnLevel(s, c, i) ==> !Between(s, a, c, b)
  }

  /** Sentinels, heights, link counts and id allocation. */
  ghost predicate Shaped<V>(s: SkipList<V>)
  {
    && s.ident != Null
    && Null !in s.nodes && Head in s.nodes && Tail in s.nodes
    && (forall a :: a in s.nodes ==> a < s.nextId)
    && s.nodes[Head].height == MaxHeight && s.nodes[Tail].height == MaxHeight
    && (forall a :: IsElem(s, a) ==> 1 <= s.nodes[a].height < MaxHeight)
    && (forall a {:trigger s.nodes[a].forwards} :: a in s.nodes ==> |s.nodes[a].forwards| == s.nodes[a].height)
    && (forall i :: 0 <= i < |s.nodes[Tail].forwards| ==> s.nodes[Tail].forwards[i] == Null)
    && s.nodes[Head].backward == Null
  }

  /** No two elements share a key. */
  ghost predicate KeysUnique<V>(s: SkipList<V>)
  {
    forall a, b :: IsElem(s, a) && IsElem(s, b) && s.nodes[a].key == s.nodes[b].key ==> a == b
  }

  /** Every forward link of every non-tail node goes to the next node on its level. */
  ghost predicate LinksOrdered<V>(s: SkipList<V>)
  {
    forall a, i :: a in s.nodes && a != Tail && 0 <= i < |s.nodes[a].forwards| ==>
      IsNextAt(s, a, i, s.nodes[a].forwards[i])
  }

  /** The backward link of every node but `Head` is the node whose level-0 link leads to it. */
  ghost predicate BackLinked<V>(s: SkipList<V>)
  {
    forall b {:trigger s.nodes[b].backward} :: b in s.nodes && b != Head ==>
      var p := s.nodes[b].backward;
      p in s.nodes && p != Tail && 0 < |s.nodes[p].forwards| && s.nodes[p].forwards[0] == b
  }

  ghost predicate Valid<V>(s: SkipList<V>)
  {
    && Shaped(s) && KeysUnique(s) && LinksOrdered(s) && BackLinked(s)
    && s.size == |Elems(s)|
  }

  /** The abstract contents: an ordered map from keys to values. */
  ghost function Abs<V>(s: SkipList<V>): map<int, V>
    requires KeysUnique(s)
  {
    map a | a in s.nodes && a != Head && a != Tail :: s.nodes[a].key := s.nodes[a].value
  }

  lemma AbsHas<V>(s: SkipList<V>, a: nat)
    requires KeysUnique(s) && IsElem(s, a)
    ensures s.nodes[a].key in Abs(s) && Abs(s)[s.nodes[a].key] == s.nodes[a].value
  {
  }

  /** Without elements there are no pairs. */
  lemma AbsEmpty<V>(s: SkipList<V>)
    requires KeysUnique(s) && forall a :: !IsElem(s, a)
    ensures Abs(s) == map[]
  {
    forall k | k in Abs(s)
      ensures false
    {
      var a := IdOf(s, k);
    }
  }

  /** The keys held by a set of elements. */
  ghost function KeysOf<V>(s: SkipList<V>, e: set<nat>): set<int>
    requires forall a :: a in e ==> a in s.nodes
  {
    set a | a in e :: s.nodes[a].key
  }

  /** Distinct elements hold distinct keys, so a set of elements holds as many keys as it has members. */
  lemma {:induction false} KeysOfSize<V>(s: SkipList<V>, e: set<nat>)
    requires KeysUnique(s) && forall a :: a in e ==> IsElem(s, a)
    ensures |KeysOf(s, e)| == |e|
    decreases e
  {
    if e == {} {
      assert KeysOf(s, e) == {};
    } else {
      var a :| a in e;
      var e' := e - {a};
      KeysOfSize(s, e');
      assert KeysOf(s, e) == KeysOf(s, e') + {s.nodes[a].key};
      assert s.nodes[a].key !in KeysOf(s, e');
    }
  }

  /** The size counter is the number of pairs held. */
  lemma AbsSize<V>(s: SkipList<V>)
    requires Valid(s)
    ensures |Abs(s)| == s.size
  {
    assert Abs(s).Keys == KeysOf(s, Elems(s));
    KeysOfSize(s, Elems(s));
  }

  /** The element that holds a key of the abstract contents. */
  ghost function IdOf<V>(s: SkipList<V>, k: int): (a: nat)
    requires KeysUnique(s) && k in Abs(s)
    ensures IsElem(s, a) && s.nodes[a].key == k && Abs(s)[k] == s.nodes[a].value
  {
    var a :| a in s.nodes && a != Head && a != Tail && s.nodes[a].key == k;
    a
  }

  /**
   * `s'` holds the nodes of `s` and one more, `n`; every old node keeps its
   * key, value and height (its links may differ).
   */
  ghost predicate Extends<V>(s: SkipList<V>, s': SkipList<V>, n: nat)
  {
    && n !in s.nodes && s'.nodes.Keys == s.nodes.Keys + {n}
    && forall a {:trigger s'.nodes[a]} :: a in s.nodes ==>
         && s'.nodes[a].key == s.nodes[a].key && s'.nodes[a].value == s.nodes[a].value
         && s'.nodes[a].height == s.nodes[a].height
  }

  /** Every element of `s` is an element of `s'` holding the same pair. */
  lemma ElemsKept<V>(s: SkipList<V>, s': SkipList<V>, n: nat)
    requires Extends(s, s', n)
    ensures forall a :: IsElem(s, a) ==>
              IsElem(s', a) && s'.nodes[a].key == s.nodes[a].key && s'.nodes[a].value == s.nodes[a].value
  {
  }

  /** Nothing on level `i` lies between a node and its level-`i` successor. */
  lemma NotBetween<V>(s: SkipList<V>, a: nat, i: nat, b: nat, c: nat)
    requires IsNextAt(s, a, i, b) && OnLevel(s, c, i)
    ensures !Between(s, a, c, b)
  {
  }

  /** Any two nodes are the same or ordered one way or the other. */
  lemma Total<V>(s: SkipList<V>, a: nat, b: nat)
    requires KeysUnique(s) && a in s.nodes && b in s.nodes
    ensures a == b || Before(s, a, b) || Before(s, b, a)
  {
    if a != b && IsElem(s, a) && IsElem(s, b) {
      assert s.nodes[a].key != s.nodes[b].key;
    }
  }

  /** Every node but the sentinels takes part in level 0, and so do they. */
  lemma AllOnLevelZero<V>(s: SkipList<V>, a: nat)
    requires Shaped(s) && a in s.nodes
    ensures OnLevel(s, a, 0) && 0 < |s.nodes[a].forwards|
  {
    if a != Head && a != Tail {
      assert IsElem(s, a);
    }
  }

  /** Two nodes whose level-`i` links lead to the same node are the same node. */
  lemma UniquePredecessor<V>(s: SkipList<V>, a: nat, a': nat, i: nat)
    requires Shaped(s) && KeysUnique(s) && LinksOrdered(s)
    requires a in s.nodes && a' in s.nodes && a != Tail && a' != Tail
    requires i < |s.nodes[a].forwards| && i < |s.nodes[a'].forwards|
    ensures s.nodes[a].forwards[i] == s.nodes[a'].forwards[i] ==> a == a'
  {
    var b := s.nodes[a].forwards[i];
    var b' := s.nodes[a'].forwards[i];
    assert IsNextAt(s, a, i, b) && IsNextAt(s, a', i, b');
    Total(s, a, a');
    NotBetween(s, a, i, b, a');
    NotBetween(s, a', i, b', a);
  }
}
