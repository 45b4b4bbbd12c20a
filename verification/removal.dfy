/**
 * Why `erase` keeps the invariants: the node `p` holding key `k` is the
 * level-`l` successor of the search's `prevs[l]` on every level `l` below
 * its height, so giving `prevs[l]` the link of `p` bypasses it; its level-0
 * successor takes over its backward link, and `p` leaves the arena.
 */
module Removal {
  import opened Height
  import opened Nodes
  import opened Layout
  import opened Search

  /**
   * `nodes` is the arena once the successor's backward link is patched and
   * the unlink loop has run for levels `0 .. i-1`; `p` is still present.
   */
  ghost predicate UnlinkedUpTo<V>(s: SkipList<V>, nodes: map<nat, Node<V>>, p: nat, prevs: seq<nat>, i: nat)
  {
    && |prevs| == MaxHeight && p in s.nodes && i <= s.nodes[p].height <= MaxHeight
    && |s.nodes[p].forwards| == s.nodes[p].height && 0 < |s.nodes[p].forwards|
    && (forall l :: 0 <= l < MaxHeight ==> prevs[l] in s.nodes && l < |s.nodes[prevs[l]].forwards| && prevs[l] != p)
    && nodes.Keys == s.nodes.Keys
    && (forall a {:trigger nodes[a]} :: a in s.nodes ==>
          && nodes[a].key == s.nodes[a].key && nodes[a].value == s.nodes[a].value
          && nodes[a].height == s.nodes[a].height
          && |nodes[a].forwards| == |s.nodes[a].forwards|)
    && (forall a {:trigger nodes[a].backward} :: a in s.nodes ==>
          nodes[a].backward == if a == s.nodes[p].forwards[0] then s.nodes[p].backward else s.nodes[a].backward)
    && (forall a, l {:trigger nodes[a].forwards[l]} :: a in s.nodes && 0 <= l < |s.nodes[a].forwards| ==>
          nodes[a].forwards[l] == if l < i && prevs[l] == a then s.nodes[p].forwards[l] else s.nodes[a].forwards[l])
  }

  /** Everything the search established, plus the finished unlinking. */
  ghost predicate Unsplice<V>(s: SkipList<V>, nodes: map<nat, Node<V>>, k: int, p: nat, prevs: seq<nat>)
  {
    && Valid(s) && Searched(s, k, prevs, p) && p != Tail && s.nodes[p].key == k
    && UnlinkedUpTo(s, nodes, p, prevs, s.nodes[p].height)
  }

  /** The container after the unlinking: `p` is gone and there is one element less. */
  function Shrunk<V>(s: SkipList<V>, nodes: map<nat, Node<V>>, p: nat): (s': SkipList<V>)
    requires 0 < s.size
  {
    s.(nodes := nodes - {p}, size := s.size - 1)
  }

  /** The node found for `k` is, on each of its levels, the successor of that level's `prevs` entry. */
  lemma FoundAfterPrev<V>(s: SkipList<V>, k: int, l: nat, a: nat, p: nat)
    requires Shaped(s) && KeysUnique(s) && LinksOrdered(s)
    requires LastBelow(s, k, l, a) && IsElem(s, p) && s.nodes[p].key == k && OnLevel(s, p, l)
    ensures s.nodes[a].forwards[l] == p
  {
    var q := s.nodes[a].forwards[l];
    assert IsNextAt(s, a, l, q);
    PastLastBelow(s, k, l, a, q);
    NotBetween(s, a, l, q, p);
    Total(s, q, p);
  }

  /** Entering the unlink loop: only the successor's backward link has changed. */
  lemma UnspliceStart<V>(s: SkipList<V>, nodes: map<nat, Node<V>>, k: int, p: nat, prevs: seq<nat>, next: nat)
    requires Shaped(s) && Searched(s, k, prevs, p) && p != Tail && s.nodes[p].key == k
    requires 0 < |s.nodes[p].forwards| && next == s.nodes[p].forwards[0] && next in s.nodes
    requires nodes == s.nodes[next := SetBackward(s.nodes[next], s.nodes[p].backward)]
    ensures UnlinkedUpTo(s, nodes, p, prevs, 0)
  {
    forall l | 0 <= l < MaxHeight
      ensures prevs[l] in s.nodes && l < |s.nodes[prevs[l]].forwards| && prevs[l] != p
    {
      assert LastBelow(s, k, l, prevs[l]);
    }
  }

  /** One turn of the unlink loop at level `i`. */
  lemma UnspliceStep<V>(s: SkipList<V>, nodes: map<nat, Node<V>>, p: nat, prevs: seq<nat>, i: nat,
                        nodes': map<nat, Node<V>>)
    requires UnlinkedUpTo(s, nodes, p, prevs, i) && i < s.nodes[p].height
    requires nodes' == nodes[prevs[i] := SetForward(nodes[prevs[i]], i, Forward(nodes[p], i))]
    ensures UnlinkedUpTo(s, nodes', p, prevs, i + 1)
  {
  }

  /** The shrunk arena holds every node of the old one but `p`, unchanged but for their links. */
  lemma ShrunkExtends<V>(s: SkipList<V>, nodes: map<nat, Node<V>>, p: nat, prevs: seq<nat>, i: nat)
    requires UnlinkedUpTo(s, nodes, p, prevs, i) && 0 < s.size
    ensures Extends(Shrunk(s, nodes, p), s, p)
  {
  }

  lemma ShrunkShaped<V>(s: SkipList<V>, nodes: map<nat, Node<V>>, k: int, p: nat, prevs: seq<nat>)
    requires Shaped(s) && LinksOrdered(s) && Searched(s, k, prevs, p) && p != Tail && 0 < s.size
    requires UnlinkedUpTo(s, nodes, p, prevs, s.nodes[p].height)
    ensures Shaped(Shrunk(s, nodes, p))
  {
    var s' := Shrunk(s, nodes, p);
    assert IsNextAt(s, p, 0, s.nodes[p].forwards[0]);
    forall l | 0 <= l < |s'.nodes[Tail].forwards|
      ensures s'.nodes[Tail].forwards[l] == Null
    {
      assert LastBelow(s, k, l, prevs[l]);
    }
  }

  /** Dropping an element keeps keys unique and removes one element. */
  lemma ShrunkElems<V>(s: SkipList<V>, s': SkipList<V>, p: nat)
    requires KeysUnique(s) && Extends(s', s, p) && IsElem(s, p)
    ensures KeysUnique(s')
    ensures |Elems(s')| == |Elems(s)| - 1
  {
    assert Elems(s') == Elems(s) - {p};
  }

  /** A predecessor of `p` on level `l` now links straight to the successor of `p`. */
  lemma BypassLink<V>(s: SkipList<V>, s': SkipList<V>, p: nat, a: nat, l: nat, q: nat)
    requires KeysUnique(s) && Extends(s', s, p) && IsElem(s, p)
    requires a in s'.nodes && IsNextAt(s, a, l, p) && IsNextAt(s, p, l, q)
    ensures IsNextAt(s', a, l, q)
  {
    forall c | OnLevel(s', c, l)
      ensures !Between(s', a, c, q)
    {
      Total(s, c, p);
      NotBetween(s, a, l, p, c);
      NotBetween(s, p, l, q, c);
    }
  }

  /** A link that did not lead to `p` still goes to the next node on its level. */
  lemma KeptLink<V>(s: SkipList<V>, s': SkipList<V>, p: nat, a: nat, l: nat, q: nat)
    requires Extends(s', s, p) && a in s'.nodes && IsNextAt(s, a, l, q) && q != p
    ensures IsNextAt(s', a, l, q)
  {
    forall c | OnLevel(s', c, l)
      ensures !Between(s', a, c, q)
    {
      NotBetween(s, a, l, q, c);
    }
  }

  lemma ShrunkLinks<V>(s: SkipList<V>, nodes: map<nat, Node<V>>, k: int, p: nat, prevs: seq<nat>)
    requires Shaped(s) && KeysUnique(s) && LinksOrdered(s) && 0 < s.size
    requires Searched(s, k, prevs, p) && p != Tail && s.nodes[p].key == k
    requires UnlinkedUpTo(s, nodes, p, prevs, s.nodes[p].height) && Extends(Shrunk(s, nodes, p), s, p)
    ensures LinksOrdered(Shrunk(s, nodes, p))
  {
    var s' := Shrunk(s, nodes, p);
    var hp := s.nodes[p].height;
    forall a, l | a in s'.nodes && a != Tail && 0 <= l < |s'.nodes[a].forwards|
      ensures IsNextAt(s', a, l, s'.nodes[a].forwards[l])
    {
      var q := s.nodes[a].forwards[l];
      assert IsNextAt(s, a, l, q);
      if l < hp && prevs[l] == a {
        assert LastBelow(s, k, l, a);
        FoundAfterPrev(s, k, l, a, p);
        assert IsNextAt(s, p, l, s.nodes[p].forwards[l]);
        BypassLink(s, s', p, a, l, s.nodes[p].forwards[l]);
      } else {
        if l < hp {
          assert LastBelow(s, k, l, prevs[l]);
          FoundAfterPrev(s, k, l, prevs[l], p);
          UniquePredecessor(s, a, prevs[l], l);
        }
        KeptLink(s, s', p, a, l, q);
      }
    }
  }

  /** The found node's level-0 predecessor is the last node below `k`, and its backward link says so. */
  lemma BackOfFound<V>(s: SkipList<V>, k: int, a: nat, p: nat)
    requires Shaped(s) && KeysUnique(s) && LinksOrdered(s) && BackLinked(s)
    requires LastBelow(s, k, 0, a) && IsElem(s, p) && s.nodes[p].key == k
    ensures s.nodes[a].forwards[0] == p && s.nodes[p].backward == a
  {
    FoundAfterPrev(s, k, 0, a, p);
    var pb := s.nodes[p].backward;
    assert pb in s.nodes && pb != Tail && 0 < |s.nodes[pb].forwards| && s.nodes[pb].forwards[0] == p;
    UniquePredecessor(s, pb, a, 0);
  }

  lemma ShrunkBack<V>(s: SkipList<V>, nodes: map<nat, Node<V>>, p: nat, prevs: seq<nat>)
    requires BackLinked(s) && p in s.nodes && p != Head && 0 < s.size
    requires UnlinkedUpTo(s, nodes, p, prevs, s.nodes[p].height) && Extends(Shrunk(s, nodes, p), s, p)
    requires s.nodes[prevs[0]].forwards[0] == p && s.nodes[p].backward == prevs[0]
    ensures BackLinked(Shrunk(s, nodes, p))
  {
    var s' := Shrunk(s, nodes, p);
    var next := s.nodes[p].forwards[0];
    forall b | b in s'.nodes && b != Head
      ensures var c := s'.nodes[b].backward;
              c in s'.nodes && c != Tail && 0 < |s'.nodes[c].forwards| && s'.nodes[c].forwards[0] == b
    {
      if b != next {
        var c := s.nodes[b].backward;
        assert c in s.nodes && c != Tail && 0 < |s.nodes[c].forwards| && s.nodes[c].forwards[0] == b;
      }
    }
  }

  /** Every pair left is an old pair with a key other than `k`. */
  lemma ShrunkAbsFrom<V>(s: SkipList<V>, s': SkipList<V>, k: int, p: nat)
    requires KeysUnique(s) && KeysUnique(s') && Extends(s', s, p) && IsElem(s, p) && s.nodes[p].key == k
    ensures forall x :: x in Abs(s') ==> x in Abs(s) && x != k && Abs(s')[x] == Abs(s)[x]
  {
    forall x | x in Abs(s')
      ensures x in Abs(s) && x != k && Abs(s')[x] == Abs(s)[x]
    {
      AbsHas(s, IdOf(s', x));
    }
  }

  /** Every old pair with a key other than `k` is left. */
  lemma ShrunkAbsTo<V>(s: SkipList<V>, s': SkipList<V>, k: int, p: nat)
    requires KeysUnique(s) && KeysUnique(s') && Extends(s', s, p) && s.nodes[p].key == k
    ensures forall x :: x in Abs(s) - {k} ==> x in Abs(s')
  {
    forall x | x in Abs(s) - {k}
      ensures x in Abs(s')
    {
      AbsHas(s', IdOf(s, x));
    }
  }

  /** Every element with a key other than `k` stays, with its pair. */
  lemma OthersKept<V>(s: SkipList<V>, s': SkipList<V>, k: int, p: nat)
    requires Extends(s', s, p) && s.nodes[p].key == k
    ensures forall a :: IsElem(s, a) && s.nodes[a].key != k ==>
              IsElem(s', a) && s'.nodes[a].key == s.nodes[a].key && s'.nodes[a].value == s.nodes[a].value
  {
  }

  /** The contents lose exactly the key `k`. */
  lemma ShrunkAbs<V>(s: SkipList<V>, s': SkipList<V>, k: int, p: nat)
    requires KeysUnique(s) && KeysUnique(s') && Extends(s', s, p) && IsElem(s, p) && s.nodes[p].key == k
    ensures Abs(s') == Abs(s) - {k}
  {
    ShrunkAbsFrom(s, s', k, p);
    ShrunkAbsTo(s, s', k, p);
    WithoutKey(Abs(s), Abs(s'), k);
  }

  /** A map holding exactly the pairs of `m` with keys other than `k` is `m - {k}`. */
  lemma WithoutKey<V>(m: map<int, V>, m': map<int, V>, k: int)
    requires forall x :: x in m' ==> x in m && x != k && m'[x] == m[x]
    requires forall x :: x in m - {k} ==> x in m'
    ensures m' == m - {k}
  {
    var d := m - {k};
    forall x | x in d
      ensures x in m'
    {
      assert x in m - {k};
    }
    forall x | x in m'
      ensures x in d && m'[x] == d[x]
    {
    }
    assert m'.Keys == d.Keys;
  }

  /** The finished unlinking keeps the shape, unique keys and the size count. */
  lemma UnspliceShaped<V>(s: SkipList<V>, nodes: map<nat, Node<V>>, k: int, p: nat, prevs: seq<nat>)
    requires Unsplice(s, nodes, k, p, prevs)
    ensures 0 < s.size
    ensures Shaped(Shrunk(s, nodes, p)) && KeysUnique(Shrunk(s, nodes, p))
    ensures Shrunk(s, nodes, p).size == |Elems(Shrunk(s, nodes, p))|
  {
    assert IsElem(s, p) && p in Elems(s);
    ShrunkExtends(s, nodes, p, prevs, s.nodes[p].height);
    ShrunkShaped(s, nodes, k, p, prevs);
    ShrunkElems(s, Shrunk(s, nodes, p), p);
  }

  /** The finished unlinking keeps the forward and backward links in order. */
  lemma UnspliceLinked<V>(s: SkipList<V>, nodes: map<nat, Node<V>>, k: int, p: nat, prevs: seq<nat>)
    requires Unsplice(s, nodes, k, p, prevs) && 0 < s.size
    ensures LinksOrdered(Shrunk(s, nodes, p)) && BackLinked(Shrunk(s, nodes, p))
  {
    ShrunkExtends(s, nodes, p, prevs, s.nodes[p].height);
    ShrunkLinks(s, nodes, k, p, prevs);
    assert LastBelow(s, k, 0, prevs[0]);
    BackOfFound(s, k, prevs[0], p);
    ShrunkBack(s, nodes, p, prevs);
  }

  /** The finished unlinking is a valid skip list without the key `k`. */
  lemma UnspliceValid<V>(s: SkipList<V>, nodes: map<nat, Node<V>>, k: int, p: nat, prevs: seq<nat>)
    requires Unsplice(s, nodes, k, p, prevs)
    ensures 0 < s.size
    ensures Valid(Shrunk(s, nodes, p))
    ensures Abs(Shrunk(s, nodes, p)) == Abs(s) - {k}
  {
    UnspliceShaped(s, nodes, k, p, prevs);
    UnspliceLinked(s, nodes, k, p, prevs);
    ShrunkExtends(s, nodes, p, prevs, s.nodes[p].height);
    ShrunkAbs(s, Shrunk(s, nodes, p), k, p);
  }

  /** The unlink loop of `erase`: on every level `i` below the height of `p`, `prevs[i]` bypasses it. */
  method UnspliceLevels<V>(s: SkipList<V>, nodes: map<nat, Node<V>>, p: nat, prevs: seq<nat>)
    returns (nodes': map<nat, Node<V>>)
    requires UnlinkedUpTo(s, nodes, p, prevs, 0)
    ensures UnlinkedUpTo(s, nodes', p, prevs, s.nodes[p].height)
  {
    nodes' := nodes;
    var i := 0;
    while i < s.nodes[p].height
      invariant UnlinkedUpTo(s, nodes', p, prevs, i)
    {
      var m := nodes'[prevs[i] := SetForward(nodes'[prevs[i]], i, Forward(nodes'[p], i))];
      UnspliceStep(s, nodes', p, prevs, i, m);
      nodes' := m;
      i := i + 1;
    }
  }

  /**
   * The part of `erase` after a search for `k` that found node `p`: the
   * successor of `p` takes over its backward link, every `prevs[i]` below
   * the height of `p` takes over its link on level `i`, and `p` is released.
   */
  method Unlink<V>(s: SkipList<V>, k: int, p: nat, prevs: seq<nat>) returns (s': SkipList<V>)
    requires Valid(s) && Searched(s, k, prevs, p) && p != Tail && s.nodes[p].key == k
    ensures Valid(s') && Abs(s') == Abs(s) - {k} && s'.size == s.size - 1
    ensures s'.ident == s.ident && s'.zero == s.zero
    ensures forall a :: IsElem(s, a) && s.nodes[a].key != k ==>
              IsElem(s', a) && s'.nodes[a].key == s.nodes[a].key && s'.nodes[a].value == s.nodes[a].value
  {
    AllOnLevelZero(s, p);
    var next := Forward(s.nodes[p], 0);
    assert IsNextAt(s, p, 0, next);
    var nodes := s.nodes[next := SetBackward(s.nodes[next], s.nodes[p].backward)];
    UnspliceStart(s, nodes, k, p, prevs, next);
    nodes := UnspliceLevels(s, nodes, p, prevs);
    UnspliceValid(s, nodes, k, p, prevs);
    ShrunkExtends(s, nodes, p, prevs, s.nodes[p].height);
    s' := Shrunk(s, nodes, p);
    OthersKept(s, s', k, p);
  }
}
