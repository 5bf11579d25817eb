/** What the trie invariant buys: counts, traversal contents and order, the
    specificity order along paths, and that walking to a stored key finds it. */
module TrieShape {
  import opened Options
  import opened KeyBits
  import opened Trie

  /** The keys of a sequence of entries. */
  ghost function KeysOf<V>(s: seq<Entry<V>>): set<Key>
  {
    set e | e in s :: e.key
  }

  /** Keys strictly increasing in Python's bytes order. */
  ghost predicate StrictlySorted<V>(s: seq<Entry<V>>)
  {
    forall i, j :: 0 <= i < j < |s| ==> LexLess(s[i].key, s[j].key)
  }

  /** `count` equals the length of `traverse`. */
  lemma {:induction false} CountIsTraverseLength<V>(t: Trie<V>)
    ensures Count(t) == |Traverse(t)|
  {
    match t
    case Leaf(_) =>
    case Branch(_, _, c0, c1) =>
      CountIsTraverseLength(c0);
      CountIsTraverseLength(c1);
  }

  /** `traverse` yields exactly the stored keys. */
  lemma {:induction false} TraverseKeys<V>(t: Trie<V>)
    ensures KeysOf(Traverse(t)) == Contents(t).Keys
  {
    match t
    case Leaf(_) =>
    case Branch(_, _, c0, c1) =>
      TraverseKeys(c0);
      TraverseKeys(c1);
      var s0: seq<Entry<V>>, s1: seq<Entry<V>> := Traverse(c0), Traverse(c1);
      assert KeysOf(s0 + s1) == KeysOf(s0) + KeysOf(s1) by {
        forall k | k in KeysOf(s0 + s1) ensures k in KeysOf(s0) + KeysOf(s1) {
          var e: Entry<V> :| e in s0 + s1 && e.key == k;
        }
      }
  }

  lemma TraverseKeyIn<V>(t: Trie<V>, e: Entry<V>)
    requires e in Traverse(t)
    ensures e.key in Contents(t)
  {
    TraverseKeys(t);
  }

  /** The two children of a valid Node hold disjoint key sets. */
  lemma ChildrenDisjoint<V>(t: Trie<V>)
    requires Valid(t) && t.Branch?
    ensures Contents(t.c0).Keys !! Contents(t.c1).Keys
  {
  }

  /** Every entry yielded by `traverse` carries the value stored for its key. */
  lemma {:induction false} TraverseValues<V>(t: Trie<V>)
    requires Valid(t)
    ensures forall e :: e in Traverse(t) ==> e.key in Contents(t) && Contents(t)[e.key] == e.value
  {
    match t
    case Leaf(_) =>
    case Branch(_, _, c0, c1) =>
      TraverseValues(c0);
      TraverseValues(c1);
      forall e | e in Traverse(t)
        ensures e.key in Contents(t) && Contents(t)[e.key] == e.value
      {
        if e in Traverse(c0) {
          assert e.key in Contents(c0);
          assert e.key !in Contents(c1);
        }
      }
  }

  lemma DisjointUnionSize<K, V>(a: map<K, V>, b: map<K, V>)
    requires a.Keys !! b.Keys
    ensures |a + b| == |a| + |b|
  {
    assert (a + b).Keys == a.Keys + b.Keys;
    assert |a.Keys + b.Keys| == |a.Keys| + |b.Keys|;
  }

  /** `count` is the number of distinct stored keys. */
  lemma {:induction false} CountIsSize<V>(t: Trie<V>)
    requires Valid(t)
    ensures Count(t) == |Contents(t)|
  {
    match t
    case Leaf(_) =>
    case Branch(_, _, c0, c1) =>
      CountIsSize(c0);
      CountIsSize(c1);
      DisjointUnionSize(Contents(c0), Contents(c1));
  }

  /** Every key under child 0 of a valid Node sorts before every key under child 1. */
  lemma ChildrenOrdered<V>(t: Trie<V>, a: Key, b: Key)
    requires Valid(t) && t.Branch?
    requires a in Contents(t.c0) && b in Contents(t.c1)
    ensures LexLess(a, b)
  {
    SplitOrder(a, b, t.pos, t.mask);
  }

  /** `traverse` yields the keys in increasing bytes order. */
  lemma {:induction false} TraverseSorted<V>(t: Trie<V>)
    requires Valid(t)
    ensures StrictlySorted(Traverse(t))
  {
    match t
    case Leaf(_) =>
    case Branch(_, _, c0, c1) =>
      TraverseSorted(c0);
      TraverseSorted(c1);
      var s0: seq<Entry<V>>, s1: seq<Entry<V>> := Traverse(c0), Traverse(c1);
      forall i, j | 0 <= i < j < |s0 + s1|
        ensures LexLess((s0 + s1)[i].key, (s0 + s1)[j].key)
      {
        if i < |s0| && j >= |s0| {
          assert s0[i] in s0 && s1[j - |s0|] in s1;
          TraverseKeyIn(c0, s0[i]);
          TraverseKeyIn(c1, s1[j - |s0|]);
          ChildrenOrdered(t, s0[i].key, s1[j - |s0|].key);
        }
      }
  }

  /** Specificity strictly grows along every path of a valid trie: the order
      `Node.insert` relies on is a consequence of the invariant. */
  lemma {:induction false} ValidIsSpecific<V>(t: Trie<V>)
    requires Valid(t)
    ensures Specific(t)
  {
    match t
    case Leaf(_) =>
    case Branch(p, m, c0, c1) =>
      ValidIsSpecific(c0);
      ValidIsSpecific(c1);
      ChildBelow(t, false);
      ChildBelow(t, true);
  }

  lemma SomeKey<V>(t: Trie<V>) returns (k: Key)
    ensures k in Contents(t)
  {
    match t
    case Leaf(e) => k := e.key;
    case Branch(_, _, c0, _) =>
      k := SomeKey(c0);
  }

  lemma ChildBelow<V>(t: Trie<V>, d: bool)
    requires Valid(t) && t.Branch?
    ensures Child(t, d).Branch? ==> Less(t.pos, t.mask, Child(t, d).pos, Child(t, d).mask)
  {
    var c := Child(t, d);
    if c.Branch? && !Less(t.pos, t.mask, c.pos, c.mask) {
      var a := SomeKey(c.c0);
      var b := SomeKey(c.c1);
      assert a in Contents(t) && b in Contents(t);
      assert !Dir(c.pos, c.mask, a) && Dir(c.pos, c.mask, b);
      if c.pos != t.pos || c.mask != t.mask {
        AgreeWeaken(a, b, t.pos, t.mask, c.pos, c.mask);
      }
    }
  }

  /** Walking to a stored key lands on its Entry (the `lookup` check succeeds). */
  lemma {:induction false} WalkFinds<V>(t: Trie<V>, k: Key)
    requires Valid(t) && k in Contents(t)
    ensures Walk(t, k).key == k && Walk(t, k).value == Contents(t)[k]
  {
    match t
    case Leaf(_) =>
    case Branch(p, m, c0, c1) =>
      var d := Dir(p, m, k);
      assert k in Contents(Child(t, d));
      WalkFinds(Child(t, d), k);
  }

  /** `lookup`'s check: the walked Entry matches the key exactly when the key is stored. */
  lemma WalkMatchesIff<V>(t: Trie<V>, k: Key)
    requires Valid(t)
    ensures Walk(t, k).key == k <==> k in Contents(t)
  {
    TraverseKeyIn(t, Walk(t, k));
    if k in Contents(t) {
      WalkFinds(t, k);
    }
  }

  /** Keys equal after zero padding take the same path. */
  lemma {:induction false} WalkPaddedEqual<V>(t: Trie<V>, a: Key, b: Key)
    requires PaddedEqual(a, b)
    ensures Walk(t, a) == Walk(t, b)
  {
    match t
    case Leaf(_) =>
    case Branch(p, m, c0, c1) =>
      PaddedEqualDir(a, b, p, m);
      WalkPaddedEqual(Child(t, Dir(p, m, a)), a, b);
  }

  /** Walking the empty key always takes child 0 and so reaches the first entry
      of the traversal, which holds the least key. */
  lemma {:induction false} WalkEmptyIsFirst<V>(t: Trie<V>)
    requires Valid(t)
    ensures Walk(t, []) == Traverse(t)[0]
  {
    match t
    case Leaf(_) =>
    case Branch(p, m, c0, c1) =>
      assert !Dir(p, m, []);
      WalkEmptyIsFirst(c0);
      CountIsTraverseLength(c0);
  }
}
