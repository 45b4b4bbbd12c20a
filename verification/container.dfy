/**
 * The public operations of the container: construction, `insert`,
 * `operator[]`, both `erase` overloads, `find`, `lower_bound`,
 * `upper_bound` and `size`. Each is stated against the contents `Abs(s)`,
 * an ordered map from keys to values.
 */
module Container {
  import opened Height
  import opened Nodes
  import opened Layout
  import opened Search
  import opened Iterators
  import Insertion
  import Removal

  /** `x` is the least key of `m` that is `>= k`. */
  ghost predicate LeastFrom<V>(m: map<int, V>, k: int, x: int)
  {
    x in m && k <= x && forall y :: y in m && k <= y ==> x <= y
  }

  /** `x` is the least key of `m` that is `> k`. */
  ghost predicate LeastAbove<V>(m: map<int, V>, k: int, x: int)
  {
    x in m && k < x && forall y :: y in m && k < y ==> x <= y
  }

  /** Removing a key a map does not hold leaves the map as it is. */
  lemma RemoveMissing<V>(m: map<int, V>, k: int)
    requires k !in m
    ensures m - {k} == m
  {
  }

  /** What the search's result means for the contents. */
  lemma FirstAtLeastIsLowerBound<V>(s: SkipList<V>, k: int, r: nat)
    requires KeysUnique(s) && FirstAtLeast(s, k, r)
    ensures r == Tail <==> forall y :: y in Abs(s) ==> y < k
    ensures r != Tail ==> IsElem(s, r) && LeastFrom(Abs(s), k, s.nodes[r].key)
  {
    if r != Tail {
      AbsHas(s, r);
    }
    forall y | y in Abs(s) && k <= y
      ensures r != Tail && s.nodes[r].key <= y
    {
      var c := IdOf(s, y);
      Total(s, c, r);
    }
  }

  /** What a step past an exact match means for the contents. */
  lemma NextIsUpperBound<V>(s: SkipList<V>, it: Iter, j: Iter)
    requires Valid(s) && InRange(s, it) && it != End(s) && Increment(s, it) == Ok(j)
    ensures j == End(s) <==> forall y :: y in Abs(s) ==> y <= s.nodes[it.node].key
    ensures j != End(s) ==> IsElem(s, j.node) && LeastAbove(Abs(s), s.nodes[it.node].key, s.nodes[j.node].key)
  {
    IncrementIsNext(s, it);
    if j != End(s) {
      AbsHas(s, j.node);
    }
    forall y | y in Abs(s) && s.nodes[it.node].key < y
      ensures j != End(s) && s.nodes[j.node].key <= y
    {
      var c := IdOf(s, y);
      Total(s, c, j.node);
      assert !Between(s, it.node, c, j.node);
    }
  }

  /** The state the constructor builds: two sentinels of full height, linked to each other. */
  ghost predicate Fresh<V>(s: SkipList<V>)
  {
    && s.ident != Null && s.nodes.Keys == {Head, Tail} && s.size == 0 && s.nextId == Tail + 1
    && s.nodes[Head].height == MaxHeight && s.nodes[Tail].height == MaxHeight
    && |s.nodes[Head].forwards| == MaxHeight && |s.nodes[Tail].forwards| == MaxHeight
    && (forall i :: 0 <= i < MaxHeight ==> s.nodes[Head].forwards[i] == Tail)
    && (forall i :: 0 <= i < MaxHeight ==> s.nodes[Tail].forwards[i] == Null)
    && s.nodes[Head].backward == Null && s.nodes[Tail].backward == Head
  }

  lemma FreshLinked<V>(s: SkipList<V>)
    requires Fresh(s)
    ensures LinksOrdered(s) && BackLinked(s)
  {
    forall a, i | a in s.nodes && a != Tail && 0 <= i < |s.nodes[a].forwards|
      ensures IsNextAt(s, a, i, s.nodes[a].forwards[i])
    {
      assert a == Head;
    }
  }

  lemma FreshShaped<V>(s: SkipList<V>)
    requires Fresh(s)
    ensures Shaped(s) && KeysUnique(s) && s.size == |Elems(s)|
    ensures forall a :: !IsElem(s, a)
  {
    assert Elems(s) == {};
  }

  /** The state the constructor builds is a valid, empty list. */
  lemma FreshValid<V>(s: SkipList<V>)
    requires Fresh(s)
    ensures Valid(s) && Abs(s) == map[]
  {
    FreshShaped(s);
    FreshLinked(s);
    AbsEmpty(s);
  }

  /**
   * The constructor: both sentinels of full height, the head linked to the
   * tail on every level, the tail's backward link at the head.
   */
  method New<V>(ident: nat, zero: V) returns (s: SkipList<V>)
    requires ident != Null
    ensures Valid(s) && s.ident == ident && s.zero == zero
    ensures Abs(s) == map[] && s.size == 0
    ensures forall i :: 0 <= i < MaxHeight ==> s.nodes[Head].forwards[i] == Tail
    ensures s.nodes[Tail].backward == Head
    ensures Begin(s) == End(s)
  {
    var head := NewNode(0, zero, MaxHeight, Null);
    var tail := NewNode(0, zero, MaxHeight, Null);
    var i := 0;
    while i < MaxHeight
      invariant 0 <= i <= MaxHeight
      invariant head.height == MaxHeight && |head.forwards| == MaxHeight && head.backward == Null
      invariant tail.height == MaxHeight && |tail.forwards| == MaxHeight
      invariant forall j :: 0 <= j < i ==> head.forwards[j] == Tail
      invariant forall j :: 0 <= j < MaxHeight ==> tail.forwards[j] == Null
    {
      head := SetForward(head, i, Tail);
      tail := SetForward(tail, i, Null);
      i := i + 1;
    }
    head := SetBackward(head, Null);
    tail := SetBackward(tail, Head);
    s := SkipList(ident, map[Head := head, Tail := tail], 0, Tail + 1, zero);
    FreshValid(s);
  }

  /** `size()`: the number of pairs held. */
  function Size<V>(s: SkipList<V>): (n: nat)
    requires Valid(s)
    ensures n == |Abs(s)|
  {
    AbsSize(s);
    s.size
  }

  /** `lower_bound(k)`: the pair with the least key `>= k`, or `end()`. */
  method LowerBound<V>(s: SkipList<V>, k: int) returns (it: Iter)
    requires Valid(s)
    ensures InRange(s, it)
    ensures it == End(s) <==> forall y :: y in Abs(s) ==> y < k
    ensures it != End(s) ==> LeastFrom(Abs(s), k, Deref(s, it).0) && Deref(s, it).1 == Abs(s)[Deref(s, it).0]
  {
    var p, prevs := FindGreaterOrEqual(s, k);
    FirstAtLeastIsLowerBound(s, k, p);
    it := Iter(s.ident, p);
    if p != Tail {
      AbsHas(s, p);
    }
  }

  /** `find(k)`: the pair with key `k`, or `end()`. */
  method Find<V>(s: SkipList<V>, k: int) returns (it: Iter)
    requires Valid(s)
    ensures InRange(s, it)
    ensures it != End(s) <==> k in Abs(s)
    ensures it != End(s) ==> Deref(s, it) == (k, Abs(s)[k])
  {
    it := LowerBound(s, k);
    var differs := NotEqual(it, End(s));
    if differs.value && Deref(s, it).0 == k {
      return;
    }
    it := End(s);
  }

  /** `upper_bound(k)`: the pair with the least key `> k`, or `end()`; it steps past an exact match. */
  method UpperBound<V>(s: SkipList<V>, k: int) returns (it: Iter)
    requires Valid(s)
    ensures InRange(s, it)
    ensures it == End(s) <==> forall y :: y in Abs(s) ==> y <= k
    ensures it != End(s) ==> LeastAbove(Abs(s), k, Deref(s, it).0) && Deref(s, it).1 == Abs(s)[Deref(s, it).0]
  {
    it := LowerBound(s, k);
    var differs := NotEqual(it, End(s));
    if differs.value && Deref(s, it).0 == k {
      var step := Increment(s, it);
      NextIsUpperBound(s, it, step.value);
      IncrementIsNext(s, it);
      it := step.value;
      if it != End(s) {
        AbsHas(s, it.node);
      }
    }
  }

  /**
   * `insert((k, v))`: an existing key keeps its pair and nothing changes;
   * a new key gets a node whose height the corrected `random_height`
   * draws from `draws`.
   */
  method Insert<V>(s: SkipList<V>, k: int, v: V, draws: nat -> nat) returns (s': SkipList<V>, it: Iter, inserted: bool)
    requires Valid(s)
    ensures Valid(s') && s'.ident == s.ident && s'.zero == s.zero
    ensures inserted <==> k !in Abs(s)
    ensures Abs(s') == if inserted then Abs(s)[k := v] else Abs(s)
    ensures !inserted ==> s' == s
    ensures s'.size == if inserted then s.size + 1 else s.size
    ensures InRange(s', it) && it != End(s') && Deref(s', it) == (k, Abs(s')[k])
    ensures inserted ==> s'.nodes[it.node].height == RandomHeight(draws)
    ensures forall a :: IsElem(s, a) ==>
              IsElem(s', a) && s'.nodes[a].key == s.nodes[a].key && s'.nodes[a].value == s.nodes[a].value
  {
    var r, prevs := FindGreaterOrEqual(s, k);
    if r != Tail && s.nodes[r].key == k {
      AbsHas(s, r);
      return s, Iter(s.ident, r), false;
    }
    Insertion.AbsentWhenMissed(s, k, r);
    var h := RandomHeight(draws);
    var n;
    s', n := Insertion.Link(s, k, v, h, r, prevs);
    AbsHas(s', n);
    it := Iter(s.ident, n);
    inserted := true;
  }

  /** `operator[](k)`: the value at `k`, inserting the value-initialised one first if `k` is absent. */
  method Index<V>(s: SkipList<V>, k: int, draws: nat -> nat) returns (s': SkipList<V>, v: V)
    requires Valid(s)
    ensures Valid(s') && s'.ident == s.ident && s'.zero == s.zero
    ensures k in Abs(s) ==> s' == s && v == Abs(s)[k]
    ensures k !in Abs(s) ==> Abs(s') == Abs(s)[k := s.zero] && v == s.zero
    ensures forall a :: IsElem(s, a) ==>
              IsElem(s', a) && s'.nodes[a].key == s.nodes[a].key && s'.nodes[a].value == s.nodes[a].value
  {
    var it, inserted;
    s', it, inserted := Insert(s, k, s.zero, draws);
    v := Deref(s', it).1;
  }

  /** `erase(k)`: removes the pair with key `k`; a missing key changes nothing. */
  method Erase<V>(s: SkipList<V>, k: int) returns (s': SkipList<V>)
    requires Valid(s)
    ensures Valid(s') && s'.ident == s.ident && s'.zero == s.zero
    ensures Abs(s') == Abs(s) - {k}
    ensures k !in Abs(s) ==> s' == s
    ensures s'.size == if k in Abs(s) then s.size - 1 else s.size
    ensures forall a :: IsElem(s, a) && s.nodes[a].key != k ==>
              IsElem(s', a) && s'.nodes[a].key == s.nodes[a].key && s'.nodes[a].value == s.nodes[a].value
  {
    var p, prevs := FindGreaterOrEqual(s, k);
    if p == Tail || s.nodes[p].key > k {
      Insertion.AbsentWhenMissed(s, k, p);
      RemoveMissing(Abs(s), k);
      return s;
    }
    AbsHas(s, p);
    s' := Removal.Unlink(s, k, p, prevs);
  }

  /**
   * `erase(it)`: the iterator must belong to this list and not be `end()`
   * (the comparison with `end()` already refuses a foreign iterator); then
   * the pair it is at is erased by key.
   */
  method EraseAt<V>(s: SkipList<V>, it: Iter) returns (r: Checked<SkipList<V>>)
    requires Valid(s) && (it.owner == s.ident ==> InRange(s, it))
    ensures r.AssertionFailure? <==> it.owner != s.ident || it == End(s)
    ensures r.Ok? ==> var k := Deref(s, it).0;
                      && k in Abs(s) && Valid(r.value) && Abs(r.value) == Abs(s) - {k}
                      && r.value.size == s.size - 1
    ensures r.Ok? ==> r.value.ident == s.ident && r.value.zero == s.zero
    ensures r.Ok? ==> forall a :: IsElem(s, a) && a != it.node ==>
                        IsElem(r.value, a) && r.value.nodes[a].key == s.nodes[a].key
                        && r.value.nodes[a].value == s.nodes[a].value
  {
    var differs := NotEqual(it, End(s));
    if differs.AssertionFailure? || !differs.value {
      return AssertionFailure;
    }
    AbsHas(s, it.node);
    var s' := Erase(s, Deref(s, it).0);
    r := Ok(s');
  }

  /** The arena after the mapped value at element `a` becomes `w`. */
  function SetValue<V>(s: SkipList<V>, a: nat, w: V): (s': SkipList<V>)
    requires a in s.nodes
  {
    s.(nodes := s.nodes[a := s.nodes[a].(value := w)])
  }

  /** Changing a mapped value keeps every node's key, height and links. */
  lemma SetValueKeeps<V>(s: SkipList<V>, a: nat, w: V)
    requires a in s.nodes
    ensures var s' := SetValue(s, a, w);
            && s'.nodes.Keys == s.nodes.Keys
            && forall b {:trigger s'.nodes[b]} :: b in s.nodes ==>
                 && s'.nodes[b].key == s.nodes[b].key && s'.nodes[b].height == s.nodes[b].height
                 && s'.nodes[b].forwards == s.nodes[b].forwards && s'.nodes[b].backward == s.nodes[b].backward
                 && (b != a ==> s'.nodes[b].value == s.nodes[b].value)
  {
  }

  /** Changing a mapped value keeps the shape. */
  lemma SetValueShaped<V>(s: SkipList<V>, a: nat, w: V)
    requires Shaped(s) && IsElem(s, a)
    ensures Shaped(SetValue(s, a, w))
  {
    var s' := SetValue(s, a, w);
    SetValueKeeps(s, a, w);
    assert s'.nodes[Head] == s.nodes[Head] && s'.nodes[Tail] == s.nodes[Tail];
    forall b | IsElem(s', b)
      ensures 1 <= s'.nodes[b].height < MaxHeight
    {
      assert IsElem(s, b);
    }
    forall b | b in s'.nodes
      ensures |s'.nodes[b].forwards| == s'.nodes[b].height
    {
      assert |s.nodes[b].forwards| == s.nodes[b].height;
    }
  }

  /** Changing a mapped value keeps the order of the nodes and the levels they are on. */
  lemma SetValueNext<V>(s: SkipList<V>, a: nat, w: V, b: nat, i: nat, c: nat)
    requires a in s.nodes && IsNextAt(s, b, i, c)
    ensures IsNextAt(SetValue(s, a, w), b, i, c)
  {
    var s' := SetValue(s, a, w);
    forall d | OnLevel(s', d, i)
      ensures !Between(s', b, d, c)
    {
      assert OnLevel(s, d, i) && !Between(s, b, d, c);
    }
  }

  /** Changing a mapped value keeps every link ordered. */
  lemma SetValueLinks<V>(s: SkipList<V>, a: nat, w: V)
    requires LinksOrdered(s) && a in s.nodes
    ensures LinksOrdered(SetValue(s, a, w))
  {
    var s' := SetValue(s, a, w);
    SetValueKeeps(s, a, w);
    forall b, i | b in s'.nodes && b != Tail && 0 <= i < |s'.nodes[b].forwards|
      ensures IsNextAt(s', b, i, s'.nodes[b].forwards[i])
    {
      assert IsNextAt(s, b, i, s.nodes[b].forwards[i]);
      SetValueNext(s, a, w, b, i, s.nodes[b].forwards[i]);
    }
  }

  /** Changing a mapped value keeps every key distinct and the same elements. */
  lemma SetValueUnique<V>(s: SkipList<V>, a: nat, w: V)
    requires KeysUnique(s) && a in s.nodes
    ensures KeysUnique(SetValue(s, a, w)) && Elems(SetValue(s, a, w)) == Elems(s)
  {
    SetValueKeeps(s, a, w);
  }

  /** Changing a mapped value keeps every backward link. */
  lemma SetValueBack<V>(s: SkipList<V>, a: nat, w: V)
    requires BackLinked(s) && a in s.nodes
    ensures BackLinked(SetValue(s, a, w))
  {
    var s' := SetValue(s, a, w);
    SetValueKeeps(s, a, w);
    forall b | b in s'.nodes && b != Head
      ensures var p := s'.nodes[b].backward;
              p in s'.nodes && p != Tail && 0 < |s'.nodes[p].forwards| && s'.nodes[p].forwards[0] == b
    {
      assert s.nodes[b].backward == s'.nodes[b].backward;
    }
  }

  /** Changing a mapped value touches neither keys nor links, so the invariants survive. */
  lemma SetValueValid<V>(s: SkipList<V>, a: nat, w: V)
    requires Valid(s) && IsElem(s, a)
    ensures Valid(SetValue(s, a, w))
  {
    SetValueShaped(s, a, w);
    SetValueLinks(s, a, w);
    SetValueBack(s, a, w);
    SetValueUnique(s, a, w);
  }

  /** A map that agrees with `m` away from `k` and holds `w` at `k` is `m[k := w]`. */
  lemma UpdatedAt<V>(m: map<int, V>, m': map<int, V>, k: int, w: V)
    requires k in m' && m'[k] == w
    requires forall x :: x in m' ==> x in m[k := w] && (x != k ==> m'[x] == m[x])
    requires forall x :: x in m ==> x in m'
    ensures m' == m[k := w]
  {
    var d := m[k := w];
    forall x | x in d
      ensures x in m'
    {
      if x != k {
        assert x in m;
      }
    }
    forall x | x in m'
      ensures x in d && m'[x] == d[x]
    {
    }
    assert m'.Keys == d.Keys;
  }

  /** Every pair after the change is a pair before it, except at the key of `a`. */
  lemma SetValueAbsFrom<V>(s: SkipList<V>, a: nat, w: V)
    requires KeysUnique(s) && IsElem(s, a)
    requires KeysUnique(SetValue(s, a, w))
    ensures forall x :: x in Abs(SetValue(s, a, w)) ==>
              x in Abs(s)[s.nodes[a].key := w] && (x != s.nodes[a].key ==> Abs(SetValue(s, a, w))[x] == Abs(s)[x])
  {
    var s' := SetValue(s, a, w);
    forall x | x in Abs(s')
      ensures x in Abs(s)[s.nodes[a].key := w] && (x != s.nodes[a].key ==> Abs(s')[x] == Abs(s)[x])
    {
      var b := IdOf(s', x);
      AbsHas(s, b);
    }
  }

  /** Every key before the change is still held after it, and the key of `a` maps to `w`. */
  lemma SetValueAbsTo<V>(s: SkipList<V>, a: nat, w: V)
    requires KeysUnique(s) && IsElem(s, a)
    requires KeysUnique(SetValue(s, a, w))
    ensures forall x :: x in Abs(s) ==> x in Abs(SetValue(s, a, w))
    ensures s.nodes[a].key in Abs(SetValue(s, a, w)) && Abs(SetValue(s, a, w))[s.nodes[a].key] == w
  {
    var s' := SetValue(s, a, w);
    forall x | x in Abs(s)
      ensures x in Abs(s')
    {
      AbsHas(s', IdOf(s, x));
    }
    AbsHas(s', a);
  }

  /** The contents change at the key of `a` only, which now maps to `w`. */
  lemma SetValueAbs<V>(s: SkipList<V>, a: nat, w: V)
    requires KeysUnique(s) && IsElem(s, a)
    ensures KeysUnique(SetValue(s, a, w))
    ensures Abs(SetValue(s, a, w)) == Abs(s)[s.nodes[a].key := w]
  {
    SetValueUnique(s, a, w);
    SetValueAbsFrom(s, a, w);
    SetValueAbsTo(s, a, w);
    UpdatedAt(Abs(s), Abs(SetValue(s, a, w)), s.nodes[a].key, w);
  }

  /**
   * A write `it->second = w` (or through the reference `*it` or
   * `operator[]` returns): only the mapped value at the iterator changes.
   */
  method Assign<V>(s: SkipList<V>, it: Iter, w: V) returns (s': SkipList<V>)
    requires Valid(s) && InRange(s, it) && it != End(s)
    ensures Valid(s') && s'.ident == s.ident && s'.zero == s.zero && s'.size == s.size
    ensures Abs(s') == Abs(s)[Deref(s, it).0 := w]
    ensures InRange(s', it) && Deref(s', it) == (Deref(s, it).0, w)
    ensures forall a :: IsElem(s, a) ==>
              IsElem(s', a) && s'.nodes[a].key == s.nodes[a].key
              && (a != it.node ==> s'.nodes[a].value == s.nodes[a].value)
  {
    SetValueValid(s, it.node, w);
    SetValueAbs(s, it.node, w);
    SetValueKeeps(s, it.node, w);
    s' := SetValue(s, it.node, w);
    forall a | IsElem(s, a)
      ensures IsElem(s', a) && s'.nodes[a].key == s.nodes[a].key
              && (a != it.node ==> s'.nodes[a].value == s.nodes[a].value)
    {
    }
  }

  /**
   * `m[k] = w`: `operator[]` inserts `(k, T())` when `k` is missing, and the
   * write through the reference it returns stores `w` at `k`.
   */
  method IndexAssign<V>(s: SkipList<V>, k: int, w: V, draws: nat -> nat) returns (s': SkipList<V>)
    requires Valid(s)
    ensures Valid(s') && s'.ident == s.ident && s'.zero == s.zero
    ensures Abs(s') == Abs(s)[k := w]
    ensures s'.size == if k in Abs(s) then s.size else s.size + 1
  {
    var t, it, inserted := Insert(s, k, s.zero, draws);
    assert Deref(t, it).0 == k;
    s' := Assign(t, it, w);
    UpdatedTwice(Abs(s), k, s.zero, w);
  }

  /** A second update at the same key overrides the first. */
  lemma UpdatedTwice<V>(m: map<int, V>, k: int, v: V, w: V)
    ensures m[k := v][k := w] == m[k := w]
  {
  }

  /**
   * `find(k)` right after `insert((k, v))` lands on `k`: with `v` when the
   * key was new, with the value already there when it was not.
   */
  method InsertThenFind<V>(s: SkipList<V>, k: int, v: V, draws: nat -> nat) returns (s': SkipList<V>, it: Iter)
    requires Valid(s)
    ensures Valid(s') && InRange(s', it) && it != End(s')
    ensures Deref(s', it) == (k, if k in Abs(s) then Abs(s)[k] else v)
  {
    var ins, inserted;
    s', ins, inserted := Insert(s, k, v, draws);
    it := Find(s', k);
  }

  /** `find(k)` right after `erase(k)` yields `end()`, whether or not `k` was there. */
  method EraseThenFind<V>(s: SkipList<V>, k: int) returns (s': SkipList<V>, it: Iter)
    requires Valid(s)
    ensures Valid(s') && it == End(s') && s'.ident == s.ident
  {
    s' := Erase(s, k);
    it := Find(s', k);
  }
}
