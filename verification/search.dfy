/**
 * `find_greater_or_equal`, the search every query and mutation starts with.
 */
module Search {
  import opened Height
  import opened Nodes
  import opened Layout

  /** `a` is a place to stop before key `k`: the head, or an element with a smaller key. */
  ghost predicate KeyBelow<V>(s: SkipList<V>, a: nat, k: int)
  {
    a in s.nodes && a != Tail && (a == Head || s.nodes[a].key < k)
  }

  /** `p` is the last node of level `i` whose key is below `k` (`Head` if there is none). */
  ghost predicate LastBelow<V>(s: SkipList<V>, k: int, i: nat, p: nat)
  {
    && OnLevel(s, p, i) && KeyBelow(s, p, k)
    && forall c {:trigger Before(s, p, c)} :: OnLevel(s, c, i) && KeyBelow(s, c, k) ==> !Before(s, p, c)
  }

  /** `r` is the element with the least key `>= k`, or `Tail` if there is none. */
  ghost predicate FirstAtLeast<V>(s: SkipList<V>, k: int, r: nat)
  {
    && r in s.nodes && r != Head
    && (r == Tail || s.nodes[r].key >= k)
    && forall c {:trigger Before(s, c, r)} :: IsElem(s, c) && s.nodes[c].key >= k ==> !Before(s, c, r)
  }

  /** Nothing on level `i` after the last node below `k` is itself below `k`. */
  lemma PastLastBelow<V>(s: SkipList<V>, k: int, i: nat, p: nat, c: nat)
    requires LastBelow(s, k, i, p) && OnLevel(s, c, i)
    ensures Before(s, p, c) ==> !KeyBelow(s, c, k)
  {
  }

  /** What `find_greater_or_equal` hands back for key `k`. */
  ghost predicate Searched<V>(s: SkipList<V>, k: int, prevs: seq<nat>, r: nat)
  {
    && |prevs| == MaxHeight
    && (forall l :: 0 <= l < MaxHeight ==> LastBelow(s, k, l, prevs[l]))
    && FirstAtLeast(s, k, r)
    && prevs[0] in s.nodes && 0 < |s.nodes[prevs[0]].forwards| && r == s.nodes[prevs[0]].forwards[0]
  }

  /** The nodes after `p` in the position order; the forward walk shrinks it. */
  ghost function After<V>(s: SkipList<V>, p: nat): set<nat>
  {
    set c | c in s.nodes && Before(s, p, c)
  }

  lemma StepForward<V>(s: SkipList<V>, k: int, i: nat, p: nat)
    requires Valid(s) && KeyBelow(s, p, k) && OnLevel(s, p, i)
    requires s.nodes[p].forwards[i] != Tail && s.nodes[s.nodes[p].forwards[i]].key < k
    ensures KeyBelow(s, s.nodes[p].forwards[i], k) && OnLevel(s, s.nodes[p].forwards[i], i)
    ensures After(s, s.nodes[p].forwards[i]) < After(s, p)
  {
    var q := s.nodes[p].forwards[i];
    assert IsNextAt(s, p, i, q);
    assert q in After(s, p) && q !in After(s, q);
  }

  lemma StopIsLast<V>(s: SkipList<V>, k: int, i: nat, p: nat)
    requires Valid(s) && KeyBelow(s, p, k) && OnLevel(s, p, i)
    requires s.nodes[p].forwards[i] == Tail || s.nodes[s.nodes[p].forwards[i]].key >= k
    ensures LastBelow(s, k, i, p)
  {
    var q := s.nodes[p].forwards[i];
    assert IsNextAt(s, p, i, q);
    forall c | OnLevel(s, c, i) && KeyBelow(s, c, k)
      ensures !Before(s, p, c)
    {
      assert Before(s, c, q);
      assert !Between(s, p, c, q);
    }
  }

  lemma LastGivesFirst<V>(s: SkipList<V>, k: int, p: nat)
    requires Valid(s) && LastBelow(s, k, 0, p)
    ensures FirstAtLeast(s, k, s.nodes[p].forwards[0])
  {
    var r := s.nodes[p].forwards[0];
    assert IsNextAt(s, p, 0, r);
    forall c | IsElem(s, c) && s.nodes[c].key >= k
      ensures !Before(s, c, r)
    {
      assert OnLevel(s, c, 0) && Before(s, p, c);
      assert !Between(s, p, c, r);
    }
  }

  /**
   * The inner loop of the search: from `p`, move forward on level `i` while
   * the next node is not `Tail` and has a key below `k`.
   */
  method WalkLevel<V>(s: SkipList<V>, k: int, i: nat, p: nat) returns (q: nat)
    requires Valid(s) && KeyBelow(s, p, k) && OnLevel(s, p, i)
    ensures LastBelow(s, k, i, q)
    ensures q == p || Before(s, p, q)
  {
    q := p;
    while Forward(s.nodes[q], i) != Tail && s.nodes[Forward(s.nodes[q], i)].key < k
      invariant KeyBelow(s, q, k) && OnLevel(s, q, i)
      invariant q == p || Before(s, p, q)
      decreases After(s, q)
    {
      StepForward(s, k, i, q);
      q := Forward(s.nodes[q], i);
    }
    StopIsLast(s, k, i, q);
  }

  /**
   * Walks from the top level down, recording on every level the node where
   * the walk stopped, and returns the level-0 successor of the last one.
   */
  method FindGreaterOrEqual<V>(s: SkipList<V>, k: int) returns (r: nat, prevs: seq<nat>)
    requires Valid(s)
    ensures |prevs| == MaxHeight
    ensures forall i :: 0 <= i < MaxHeight ==> LastBelow(s, k, i, prevs[i])
    ensures prevs[0] in s.nodes && r == s.nodes[prevs[0]].forwards[0]
    ensures FirstAtLeast(s, k, r)
  {
    prevs := seq(MaxHeight, _ => Null);
    var p := Head;
    var i := MaxHeight;
    while i > 0
      invariant 0 <= i <= MaxHeight && |prevs| == MaxHeight
      invariant KeyBelow(s, p, k)
      invariant i == MaxHeight ==> p == Head
      invariant i < MaxHeight ==> p == prevs[i] && OnLevel(s, p, i)
      invariant forall j :: i <= j < MaxHeight ==> LastBelow(s, k, j, prevs[j])
    {
      i := i - 1;
      assert OnLevel(s, p, i);
      p := WalkLevel(s, k, i, p);
      prevs := prevs[i := p];
    }
    assert LastBelow(s, k, 0, prevs[0]);
    LastGivesFirst(s, k, prevs[0]);
    r := Forward(s.nodes[prevs[0]], 0);
  }
}
