/** Insert and delete keep the trie invariant and change the stored mapping by
    exactly one key. */
module TrieUpdate {
  import opened Options
  import opened KeyBits
  import opened Trie
  import opened TrieShape

  lemma AgreeVia(x: Key, y: Key, k: Key, p: nat, m: bv8)
    requires AgreeAbove(x, k, p, m) && AgreeAbove(y, k, p, m)
    ensures AgreeAbove(x, y, p, m)
  {
    AgreeSym(y, k, p, m);
    AgreeTrans(x, k, y, p, m);
  }

  lemma UnionUpdate<K, V>(a: map<K, V>, b: map<K, V>, k: K, v: V, right: bool)
    requires right || k !in b
    ensures (if right then a + b[k := v] else a[k := v] + b) == (a + b)[k := v]
  {
  }

  lemma UnionRemove<K, V>(a: map<K, V>, b: map<K, V>, k: K, right: bool)
    requires if right then k !in a else k !in b
    ensures (if right then a + (b - {k}) else (a - {k}) + b) == (a + b) - {k}
  {
  }

  /** The invariant of a Node, from facts about its two children. */
  lemma BranchValid<V>(p: nat, m: bv8, x: Trie<V>, y: Trie<V>)
    requires PowerOfTwo(m) && Valid(x) && Valid(y)
    requires forall k :: k in Contents(x) ==> !Dir(p, m, k)
    requires forall k :: k in Contents(y) ==> Dir(p, m, k)
    requires forall a, b :: a in Contents(x) + Contents(y) && b in Contents(x) + Contents(y) ==> AgreeAbove(a, b, p, m)
    ensures Valid(Branch(p, m, x, y))
  {
  }

  /** Splicing a new Node above `t` is valid when every key of `t` agrees with the
      walked key `k'` above the new bit and lies on the side opposite the new key. */
  lemma SpliceValid<V>(t: Trie<V>, key: Key, v: V, k': Key, c: Crit)
    requires Valid(t) && key !in Contents(t)
    requires SplitBy(key, k', c)
    requires forall x :: x in Contents(t) ==> AgreeAbove(x, k', c.pos, c.mask) && Dir(c.pos, c.mask, x) == Dir(c.pos, c.mask, k')
    ensures var r := Splice(t, key, c, Leaf(Entry(key, v)));
      Valid(r) && Contents(r) == Contents(t)[key := v]
  {
    var leaf := Leaf(Entry(key, v));
    var d := Dir(c.pos, c.mask, key);
    var x, y := if d then t else leaf, if d then leaf else t;
    assert Splice(t, key, c, leaf) == Branch(c.pos, c.mask, x, y);
    UnionUpdate(if d then Contents(t) else map[], if d then map[] else Contents(t), key, v, d);
    assert Contents(x) + Contents(y) == Contents(t)[key := v];
    AllAgreeVia(Contents(t)[key := v].Keys, k', c.pos, c.mask);
    BranchValid(c.pos, c.mask, x, y);
  }

  /** Keys that all agree with one key above a bit agree with each other there. */
  lemma AllAgreeVia(s: set<Key>, k': Key, p: nat, m: bv8)
    requires forall x :: x in s ==> AgreeAbove(x, k', p, m)
    ensures forall a, b :: a in s && b in s ==> AgreeAbove(a, b, p, m)
  {
    forall a, b | a in s && b in s ensures AgreeAbove(a, b, p, m) {
      AgreeVia(a, b, k', p, m);
    }
  }

  /** `Node.insert` / `Entry.insert` with the critical bit of the key and its walked
      key `Walk(t, key).key`: the key was absent, the result is valid, maps the new
      key to its value and keeps every other key, and counts one more entry. */
  lemma {:induction false} InsertNodeCorrect<V>(t: Trie<V>, key: Key, v: V, c: Crit)
    requires Valid(t)
    requires SplitBy(key, Walk(t, key).key, c)
    ensures key !in Contents(t)
    ensures var r := InsertNode(t, key, c, Leaf(Entry(key, v)));
      Valid(r) && Contents(r) == Contents(t)[key := v] && Count(r) == Count(t) + 1
  {
    WalkedKeyIsNotKey(t, key, c);
    match t
    case Leaf(e) =>
      AgreeRefl(e.key, c.pos, c.mask);
      SpliceValid(t, key, v, e.key, c);
    case Branch(p, m, c0, c1) =>
      if p > c.pos || (p == c.pos && m < c.mask) {
        SpliceAboveNode(t, key, v, c);
      } else {
        var child := Child(t, Dir(p, m, key));
        assert Walk(child, key) == Walk(t, key);
        InsertNodeCorrect(child, key, v, c);
        InsertIntoChild(t, key, v, c);
      }
  }

  lemma WalkedKeyIsNotKey<V>(t: Trie<V>, key: Key, c: Crit)
    requires Valid(t)
    requires SplitBy(key, Walk(t, key).key, c)
    ensures key !in Contents(t) && Walk(t, key).key in Contents(t)
  {
    TraverseKeyIn(t, Walk(t, key));
    if key in Contents(t) {
      WalkFinds(t, key);
    }
  }

  /** `Node.insert` when the Node's bit comes after the new one: the Node moves into
      the new Node's free slot. */
  lemma SpliceAboveNode<V>(t: Trie<V>, key: Key, v: V, c: Crit)
    requires Valid(t) && t.Branch?
    requires t.pos > c.pos || (t.pos == c.pos && t.mask < c.mask)
    requires SplitBy(key, Walk(t, key).key, c)
    requires key !in Contents(t) && Walk(t, key).key in Contents(t)
    ensures var r := Splice(t, key, c, Leaf(Entry(key, v)));
      Valid(r) && Contents(r) == Contents(t)[key := v]
  {
    var k' := Walk(t, key).key;
    forall x | x in Contents(t)
      ensures AgreeAbove(x, k', c.pos, c.mask) && Dir(c.pos, c.mask, x) == Dir(c.pos, c.mask, k')
    {
      AgreeWeaken(x, k', t.pos, t.mask, c.pos, c.mask);
    }
    SpliceValid(t, key, v, k', c);
  }

  /** `Node.insert` when the Node's bit comes before the new one: the key's child is
      replaced by the result of inserting there, and the Node keeps its invariant. */
  lemma InsertIntoChild<V>(t: Trie<V>, key: Key, v: V, c: Crit)
    requires Valid(t) && t.Branch?
    requires !(t.pos > c.pos || (t.pos == c.pos && t.mask < c.mask))
    requires SplitBy(key, Walk(t, key).key, c)
    requires key !in Contents(t) && Walk(t, key).key in Contents(t)
    requires var child := Child(t, Dir(t.pos, t.mask, key));
      var nc := InsertNode(child, key, c, Leaf(Entry(key, v)));
      Valid(nc) && Contents(nc) == Contents(child)[key := v] && Count(nc) == Count(child) + 1
    ensures var r := InsertNode(t, key, c, Leaf(Entry(key, v)));
      Valid(r) && Contents(r) == Contents(t)[key := v] && Count(r) == Count(t) + 1
  {
    var p, m, c0, c1 := t.pos, t.mask, t.c0, t.c1;
    var k' := Walk(t, key).key;
    var d := Dir(p, m, key);
    var child := Child(t, d);
    assert Walk(child, key) == Walk(t, key);
    TraverseKeyIn(child, Walk(child, key));
    assert Dir(p, m, k') == d;
    assert Less(p, m, c.pos, c.mask);
    var nc := InsertNode(child, key, c, Leaf(Entry(key, v)));
    var x, y := if d then c0 else nc, if d then nc else c1;
    assert InsertNode(t, key, c, Leaf(Entry(key, v))) == Branch(p, m, x, y);
    UnionUpdate(Contents(c0), Contents(c1), key, v, d);
    AgreeWeaken(key, k', c.pos, c.mask, p, m);
    forall a, b | a in Contents(x) + Contents(y) && b in Contents(x) + Contents(y)
      ensures AgreeAbove(a, b, p, m)
    {
      assert a == key || a in Contents(t);
      assert b == key || b in Contents(t);
      AgreeVia(a, b, k', p, m);
    }
    BranchValid(p, m, x, y);
  }

  /** `Node.delete` / `Entry.delete`: when the key is stored it is reported and exactly
      its entry goes (the emptied Node is replaced by its sibling, a lone Entry by
      nothing); when it is absent nothing changes. */
  lemma {:induction false} DeleteNodeCorrect<V>(t: Trie<V>, key: Key)
    requires Valid(t)
    ensures DeleteNode(t, key).1 == if key in Contents(t) then Some(key) else None
    ensures key !in Contents(t) ==> DeleteNode(t, key).0 == Some(t)
    ensures DeleteNode(t, key).0.None? <==> t.Leaf? && t.entry.key == key
    ensures var r := DeleteNode(t, key).0;
      r.Some? ==>
        && Valid(r.value) && Contents(r.value) == Contents(t) - {key}
        && Count(r.value) == Count(t) - (if key in Contents(t) then 1 else 0)
  {
    match t
    case Leaf(e) =>
      assert key in Contents(t) <==> key == e.key;
      if key != e.key {
        assert Contents(t) - {key} == Contents(t);
      }
    case Branch(p, m, c0, c1) =>
      DeleteNodeCorrect(Child(t, Dir(p, m, key)), key);
      DeleteFromChild(t, key);
  }

  /** `Node.delete`, one level: from what deleting in the key's child did. */
  lemma DeleteFromChild<V>(t: Trie<V>, key: Key)
    requires Valid(t) && t.Branch?
    requires var child := Child(t, Dir(t.pos, t.mask, key));
      var r := DeleteNode(child, key).0;
      && DeleteNode(child, key).1 == (if key in Contents(child) then Some(key) else None)
      && (key !in Contents(child) ==> r == Some(child))
      && (r.None? <==> child.Leaf? && child.entry.key == key)
      && (r.Some? ==>
        && Valid(r.value) && Contents(r.value) == Contents(child) - {key}
        && Count(r.value) == Count(child) - (if key in Contents(child) then 1 else 0))
    ensures DeleteNode(t, key).1 == if key in Contents(t) then Some(key) else None
    ensures key !in Contents(t) ==> DeleteNode(t, key).0 == Some(t)
    ensures DeleteNode(t, key).0.Some?
    ensures var r := DeleteNode(t, key).0.value;
      && Valid(r) && Contents(r) == Contents(t) - {key}
      && Count(r) == Count(t) - (if key in Contents(t) then 1 else 0)
  {
    var p, m, c0, c1 := t.pos, t.mask, t.c0, t.c1;
    var d := Dir(p, m, key);
    var child, other := Child(t, d), Child(t, !d);
    assert key !in Contents(other);
    assert key in Contents(t) <==> key in Contents(child);
    var (nc, found) := DeleteNode(child, key);
    if nc.None? {
      assert Contents(child) == map[key := child.entry.value];
      assert Contents(other) == Contents(t) - {key};
    } else {
      var x, y := if d then c0 else nc.value, if d then nc.value else c1;
      assert DeleteNode(t, key).0.value == Branch(p, m, x, y);
      UnionRemove(Contents(c0), Contents(c1), key, d);
      BranchValid(p, m, x, y);
    }
  }
}
