/**
 * Why `insert` keeps the invariants: the new node `n` with key `k` and
 * height `h` is spliced, on every level `l < h`, between the search's
 * predecessor `prevs[l]` and that node's old successor; its backward link
 * is `prevs[0]`, and the old level-0 successor `r` points back at it.
 */
module Insertion {
  import opened Height
  import opened Nodes
  import opened Layout
  import opened Search

  /** No element holds key `k`. */
  ghost predicate Absent<V>(s: SkipList<V>, k: int)
  {
    forall a :: IsElem(s, a) ==> s.nodes[a].key != k
  }

  /**
   * `nodes` is the arena once the new node is allocated, both backward links
   * are patched and the splice loop has run for levels `0 .. i-1`.
   */
  ghost predicate SplicedUpTo<V>(s: SkipList<V>, nodes: map<nat, Node<V>>, k: int, v: V, h: nat,
                                 n: nat, r: nat, prevs: seq<nat>, i: nat)
  {
    && |prevs| == MaxHeight && i <= h <= MaxHeight
    && (forall l :: 0 <= l < MaxHeight ==> prevs[l] in s.nodes && l < |s.nodes[prevs[l]].forwards|)
    && n !in s.nodes && nodes.Keys == s.nodes.Keys + {n}
    && nodes[n].key == k && nodes[n].value == v && nodes[n].height == h
    && |nodes[n].forwards| == h && nodes[n].backward == prevs[0]
    && (forall l :: 0 <= l < h ==>
          nodes[n].forwards[l] == if l < i then s.nodes[prevs[l]].forwards[l] else Null)
    && (forall a {:trigger nodes[a]} :: a in s.nodes ==>
          && nodes[a].key == s.nodes[a].key && nodes[a].value == s.nodes[a].value
          && nodes[a].height == s.nodes[a].height
          && |nodes[a].forwards| == |s.nodes[a].forwards|)
    && (forall a {:trigger nodes[a].backward} :: a in s.nodes ==>
          nodes[a].backward == if a == r then n else s.nodes[a].backward)
    && (forall a, l {:trigger nodes[a].forwards[l]} :: a in s.nodes && 0 <= l < |s.nodes[a].forwards| ==>
          nodes[a].forwards[l] == if l < i && prevs[l] == a then n else s.nodes[a].forwards[l])
  }

  /** Everything the search established, plus the finished splice. */
  ghost predicate Splice<V>(s: SkipList<V>, nodes: map<nat, Node<V>>, k: int, v: V, h: nat,
                            n: nat, r: nat, prevs: seq<nat>)
  {
    && Valid(s) && 1 <= h < MaxHeight && n == s.nextId
    && Searched(s, k, prevs, r) && Absent(s, k)
    && SplicedUpTo(s, nodes, k, v, h, n, r, prevs, h)
  }

  /** The container after the splice: one more element, one more id used. */
  function Grown<V>(s: SkipList<V>, nodes: map<nat, Node<V>>): (s': SkipList<V>)
  {
    s.(nodes := nodes, size := s.size + 1, nextId := s.nextId + 1)
  }

  /** A search that misses `k` proves that no element holds `k`. */
  lemma AbsentWhenMissed<V>(s: SkipList<V>, k: int, r: nat)
    requires KeysUnique(s) && FirstAtLeast(s, k, r) && (r == Tail || s.nodes[r].key != k)
    ensures Absent(s, k)
    ensures k !in Abs(s)
  {
    forall a | IsElem(s, a)
      ensures s.nodes[a].key != k
    {
      Total(s, a, r);
    }
  }

  /**
   * Entering the splice loop: allocate the new node with its backward link
   * at `prevs[0]`, and point the old successor's backward link at it.
   */
  method Allocate<V>(s: SkipList<V>, k: int, v: V, h: nat, r: nat, prevs: seq<nat>)
    returns (nodes: map<nat, Node<V>>, n: nat)
    requires Shaped(s) && 1 <= h < MaxHeight && Searched(s, k, prevs, r)
    ensures n == s.nextId
    ensures SplicedUpTo(s, nodes, k, v, h, n, r, prevs, 0)
  {
    n := s.nextId;
    forall l | 0 <= l < MaxHeight
      ensures prevs[l] in s.nodes && l < |s.nodes[prevs[l]].forwards|
    {
      assert LastBelow(s, k, l, prevs[l]);
    }
    nodes := s.nodes[n := SetBackward(NewNode(k, v, h, Null), prevs[0])];
    var next := Forward(nodes[prevs[0]], 0);
    nodes := nodes[next := SetBackward(nodes[next], n)];
  }

  /** One turn of the splice loop at level `i`. */
  lemma SpliceStep<V>(s: SkipList<V>, nodes: map<nat, Node<V>>, k: int, v: V, h: nat,
                      n: nat, r: nat, prevs: seq<nat>, i: nat, nodes': map<nat, Node<V>>)
    requires SplicedUpTo(s, nodes, k, v, h, n, r, prevs, i) && i < h
    requires nodes' == (var m := nodes[n := SetForward(nodes[n], i, Forward(nodes[prevs[i]], i))];
                        m[prevs[i] := SetForward(m[prevs[i]], i, n)])
    ensures SplicedUpTo(s, nodes', k, v, h, n, r, prevs, i + 1)
  {
    SpliceStepLinks(s, nodes, k, v, h, n, r, prevs, i, nodes');
  }

  /** The turn at level `i` redirects exactly the level-`i` link of `prevs[i]` to the new node. */
  lemma SpliceStepLinks<V>(s: SkipList<V>, nodes: map<nat, Node<V>>, k: int, v: V, h: nat,
                           n: nat, r: nat, prevs: seq<nat>, i: nat, nodes': map<nat, Node<V>>)
    requires SplicedUpTo(s, nodes, k, v, h, n, r, prevs, i) && i < h
    requires nodes' == (var m := nodes[n := SetForward(nodes[n], i, Forward(nodes[prevs[i]], i))];
                        m[prevs[i] := SetForward(m[prevs[i]], i, n)])
    ensures forall a, l {:trigger nodes'[a].forwards[l]} :: a in s.nodes && 0 <= l < |s.nodes[a].forwards| ==>
              nodes'[a].forwards[l] == if l < i + 1 && prevs[l] == a then n else s.nodes[a].forwards[l]
  {
  }

  /** The grown arena holds the old nodes, unchanged but for their links, and the new one. */
  lemma GrownExtends<V>(s: SkipList<V>, nodes: map<nat, Node<V>>, k: int, v: V, h: nat,
                        n: nat, r: nat, prevs: seq<nat>, i: nat)
    requires SplicedUpTo(s, nodes, k, v, h, n, r, prevs, i)
    ensures Extends(s, Grown(s, nodes), n)
  {
  }

  lemma GrownShaped<V>(s: SkipList<V>, nodes: map<nat, Node<V>>, k: int, v: V, h: nat,
                       n: nat, r: nat, prevs: seq<nat>)
    requires Shaped(s) && 1 <= h < MaxHeight && n == s.nextId && Searched(s, k, prevs, r)
    requires SplicedUpTo(s, nodes, k, v, h, n, r, prevs, h)
    ensures Shaped(Grown(s, nodes))
  {
    var s' := Grown(s, nodes);
    forall l | 0 <= l < |s'.nodes[Tail].forwards|
      ensures s'.nodes[Tail].forwards[l] == Null
    {
      assert LastBelow(s, k, l, prevs[l]);
    }
  }

  /** A new key keeps keys unique, and the new node adds one element. */
  lemma GrownElems<V>(s: SkipList<V>, s': SkipList<V>, k: int, n: nat)
    requires Shaped(s) && KeysUnique(s) && Absent(s, k)
    requires Extends(s, s', n) && s'.nodes[n].key == k
    ensures KeysUnique(s')
    ensures |Elems(s')| == |Elems(s)| + 1
  {
    assert n != Head && n != Tail;
    assert Elems(s') == Elems(s) + {n};
  }

  /** The new node's link at level `l` goes to the old successor `q` of the predecessor `p`. */
  lemma NewNodeLink<V>(s: SkipList<V>, s': SkipList<V>, k: int, n: nat, p: nat, l: nat, q: nat)
    requires Head in s.nodes && Tail in s.nodes
    requires Extends(s, s', n) && s'.nodes[n].key == k && l < s'.nodes[n].height
    requires LastBelow(s, k, l, p) && IsNextAt(s, p, l, q) && (q == Tail || s.nodes[q].key != k)
    ensures IsNextAt(s', n, l, q)
  {
    PastLastBelow(s, k, l, p, q);
    forall c | OnLevel(s', c, l)
      ensures !Between(s', n, c, q)
    {
      if c != n {
        NotBetween(s, p, l, q, c);
      }
    }
  }

  /** The predecessor `p` on level `l` now links to the new node. */
  lemma PredecessorLink<V>(s: SkipList<V>, s': SkipList<V>, k: int, n: nat, p: nat, l: nat)
    requires Head in s.nodes && Tail in s.nodes
    requires Extends(s, s', n) && s'.nodes[n].key == k && l < s'.nodes[n].height
    requires LastBelow(s, k, l, p)
    ensures IsNextAt(s', p, l, n)
  {
    forall c | OnLevel(s', c, l)
      ensures !Between(s', p, c, n)
    {
      if c != n {
        PastLastBelow(s, k, l, p, c);
      }
    }
  }

  /**
   * A link from `a` the splice did not touch still goes to the next node on
   * its level: the new node cannot fall between, since on that level the
   * last node below `k` is `p`, not `a`.
   */
  lemma UntouchedLink<V>(s: SkipList<V>, s': SkipList<V>, k: int, n: nat, p: nat, a: nat, l: nat, q: nat)
    requires Head in s.nodes && KeysUnique(s)
    requires Extends(s, s', n) && s'.nodes[n].key == k
    requires IsNextAt(s, a, l, q) && OnLevel(s, a, l)
    requires l < s'.nodes[n].height ==> LastBelow(s, k, l, p) && p != a
    ensures IsNextAt(s', a, l, q)
  {
    forall c | OnLevel(s', c, l)
      ensures !Between(s', a, c, q)
    {
      if c == n {
        PastLastBelow(s, k, l, p, a);
        Total(s, a, p);
        NotBetween(s, a, l, q, p);
      } else {
        NotBetween(s, a, l, q, c);
      }
    }
  }

  lemma GrownLinks<V>(s: SkipList<V>, nodes: map<nat, Node<V>>, k: int, v: V, h: nat,
                      n: nat, r: nat, prevs: seq<nat>)
    requires Shaped(s) && KeysUnique(s) && LinksOrdered(s)
    requires Searched(s, k, prevs, r) && Absent(s, k)
    requires SplicedUpTo(s, nodes, k, v, h, n, r, prevs, h) && Extends(s, Grown(s, nodes), n)
    ensures LinksOrdered(Grown(s, nodes))
  {
    var s' := Grown(s, nodes);
    forall a, l | a in s'.nodes && a != Tail && 0 <= l < |s'.nodes[a].forwards|
      ensures IsNextAt(s', a, l, s'.nodes[a].forwards[l])
    {
      if a == n {
        var p := prevs[l];
        assert LastBelow(s, k, l, p);
        NewNodeLink(s, s', k, n, p, l, s.nodes[p].forwards[l]);
      } else if l < h && prevs[l] == a {
        assert LastBelow(s, k, l, a);
        PredecessorLink(s, s', k, n, a, l);
      } else {
        var p := if l < h then prevs[l] else Head;
        assert l < h ==> LastBelow(s, k, l, p);
        UntouchedLink(s, s', k, n, p, a, l, s.nodes[a].forwards[l]);
      }
    }
  }

  lemma GrownBack<V>(s: SkipList<V>, nodes: map<nat, Node<V>>, k: int, v: V, h: nat,
                     n: nat, r: nat, prevs: seq<nat>)
    requires Head in s.nodes && Tail in s.nodes && BackLinked(s) && 1 <= h
    requires Searched(s, k, prevs, r) && SplicedUpTo(s, nodes, k, v, h, n, r, prevs, h)
    ensures BackLinked(Grown(s, nodes))
  {
    var s' := Grown(s, nodes);
    forall b | b in s'.nodes && b != Head
      ensures var p := s'.nodes[b].backward;
              p in s'.nodes && p != Tail && 0 < |s'.nodes[p].forwards| && s'.nodes[p].forwards[0] == b
    {
      assert LastBelow(s, k, 0, prevs[0]);
      if b != n && b != r {
        var p := s.nodes[b].backward;
        assert p in s.nodes && p != Tail && 0 < |s.nodes[p].forwards| && s.nodes[p].forwards[0] == b;
      }
    }
  }

  /** Every pair of the grown contents is the new pair or an old one. */
  lemma GrownAbsFrom<V>(s: SkipList<V>, s': SkipList<V>, k: int, v: V, n: nat)
    requires Shaped(s) && KeysUnique(s) && KeysUnique(s')
    requires Extends(s, s', n) && s'.nodes[n].key == k && s'.nodes[n].value == v
    ensures forall x :: x in Abs(s') ==> x in Abs(s)[k := v] && Abs(s')[x] == Abs(s)[k := v][x]
  {
    forall x | x in Abs(s')
      ensures x in Abs(s)[k := v] && Abs(s')[x] == Abs(s)[k := v][x]
    {
      var a := IdOf(s', x);
      if a != n {
        AbsHas(s, a);
      }
    }
  }

  /** The new pair and every old pair are in the grown contents. */
  lemma GrownAbsTo<V>(s: SkipList<V>, s': SkipList<V>, k: int, v: V, n: nat)
    requires Shaped(s) && KeysUnique(s) && KeysUnique(s')
    requires Extends(s, s', n) && s'.nodes[n].key == k
    ensures forall x :: x in Abs(s)[k := v] ==> x in Abs(s')
  {
    assert n != Head && n != Tail;
    forall x | x in Abs(s)[k := v]
      ensures x in Abs(s')
    {
      if x == k {
        AbsHas(s', n);
      } else {
        AbsHas(s', IdOf(s, x));
      }
    }
  }

  /** The contents gain exactly the pair `(k, v)`. */
  lemma GrownAbs<V>(s: SkipList<V>, s': SkipList<V>, k: int, v: V, n: nat)
    requires Shaped(s) && KeysUnique(s) && KeysUnique(s')
    requires Extends(s, s', n) && s'.nodes[n].key == k && s'.nodes[n].value == v
    ensures Abs(s') == Abs(s)[k := v]
  {
    GrownAbsFrom(s, s', k, v, n);
    GrownAbsTo(s, s', k, v, n);
  }

  /** The finished splice keeps the shape, unique keys and the size count. */
  lemma SpliceShaped<V>(s: SkipList<V>, nodes: map<nat, Node<V>>, k: int, v: V, h: nat,
                        n: nat, r: nat, prevs: seq<nat>)
    requires Splice(s, nodes, k, v, h, n, r, prevs)
    ensures Shaped(Grown(s, nodes)) && KeysUnique(Grown(s, nodes))
    ensures Grown(s, nodes).size == |Elems(Grown(s, nodes))|
  {
    GrownExtends(s, nodes, k, v, h, n, r, prevs, h);
    GrownShaped(s, nodes, k, v, h, n, r, prevs);
    GrownElems(s, Grown(s, nodes), k, n);
  }

  /** The finished splice keeps the forward and backward links in order. */
  lemma SpliceLinked<V>(s: SkipList<V>, nodes: map<nat, Node<V>>, k: int, v: V, h: nat,
                        n: nat, r: nat, prevs: seq<nat>)
    requires Splice(s, nodes, k, v, h, n, r, prevs)
    ensures LinksOrdered(Grown(s, nodes)) && BackLinked(Grown(s, nodes))
  {
    GrownExtends(s, nodes, k, v, h, n, r, prevs, h);
    GrownLinks(s, nodes, k, v, h, n, r, prevs);
    GrownBack(s, nodes, k, v, h, n, r, prevs);
  }

  /** The finished splice is a valid skip list holding one more pair. */
  lemma SpliceValid<V>(s: SkipList<V>, nodes: map<nat, Node<V>>, k: int, v: V, h: nat,
                       n: nat, r: nat, prevs: seq<nat>)
    requires Splice(s, nodes, k, v, h, n, r, prevs)
    ensures Valid(Grown(s, nodes))
    ensures Abs(Grown(s, nodes)) == Abs(s)[k := v]
  {
    SpliceShaped(s, nodes, k, v, h, n, r, prevs);
    SpliceLinked(s, nodes, k, v, h, n, r, prevs);
    GrownExtends(s, nodes, k, v, h, n, r, prevs, h);
    GrownAbs(s, Grown(s, nodes), k, v, n);
  }

  /** The splice loop of `insert`: on every level `i < h`, `n` goes in after `prevs[i]`. */
  method SpliceLevels<V>(s: SkipList<V>, nodes: map<nat, Node<V>>, k: int, v: V, h: nat,
                         n: nat, r: nat, prevs: seq<nat>) returns (nodes': map<nat, Node<V>>)
    requires SplicedUpTo(s, nodes, k, v, h, n, r, prevs, 0)
    ensures SplicedUpTo(s, nodes', k, v, h, n, r, prevs, h)
  {
    nodes' := nodes;
    var i := 0;
    while i < h
      invariant SplicedUpTo(s, nodes', k, v, h, n, r, prevs, i)
    {
      var m := nodes'[n := SetForward(nodes'[n], i, Forward(nodes'[prevs[i]], i))];
      m := m[prevs[i] := SetForward(m[prevs[i]], i, n)];
      SpliceStep(s, nodes', k, v, h, n, r, prevs, i, m);
      nodes' := m;
      i := i + 1;
    }
  }

  /**
   * The part of `insert` after a search for `k` that missed: allocate node
   * `n` of height `h`, point its backward link at `prevs[0]` and the old
   * successor's at it, then splice it in after `prevs[i]` on every level
   * `i < h`.
   */
  method Link<V>(s: SkipList<V>, k: int, v: V, h: nat, r: nat, prevs: seq<nat>) returns (s': SkipList<V>, n: nat)
    requires Valid(s) && 1 <= h < MaxHeight && Searched(s, k, prevs, r) && Absent(s, k)
    ensures Valid(s') && Abs(s') == Abs(s)[k := v] && s'.size == s.size + 1
    ensures n !in s.nodes && n in s'.nodes && s'.nodes[n].key == k && s'.nodes[n].value == v
    ensures s'.nodes[n].height == h && s'.ident == s.ident && s'.zero == s.zero
    ensures forall a :: IsElem(s, a) ==>
              IsElem(s', a) && s'.nodes[a].key == s.nodes[a].key && s'.nodes[a].value == s.nodes[a].value
  {
    var nodes;
    nodes, n := Allocate(s, k, v, h, r, prevs);
    nodes := SpliceLevels(s, nodes, k, v, h, n, r, prevs);
    SpliceValid(s, nodes, k, v, h, n, r, prevs);
    GrownExtends(s, nodes, k, v, h, n, r, prevs, h);
    s' := Grown(s, nodes);
    ElemsKept(s, s', n);
  }
}
