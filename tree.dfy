/** `Tree`: the owner of the root slot (empty, an Entry, or a Node) and the public
    operations, which handle the empty tree and otherwise dispatch to the root. */
module CritbitTree {
  import opened Options
  import opened KeyBits
  import opened Trie
  // The class's own members (Valid, Contents, Count, Traverse, RandomWalk) hide the
  // module functions of the same names inside the class; `N.` reaches the latter.
  import N = Trie
  import opened TrieShape
  import opened TrieUpdate
  import opened TrieQuery

  /** What `Tree.insert` gives back: the new root Entry on the first insert, the
      key otherwise, or the AssertionError of `from_smallest_prefix_of`. */
  datatype InsertResult<V> = RootEntry(entry: Entry<V>) | InsertedKey(key: Key) | NoCriticalBit

  /** What `Tree.traverse_prefix` gives back: the entries to iterate, None (the
      prefix is absent), or the failure of walking from a `None` top. */
  datatype PrefixResult<V> = Matches(entries: seq<Entry<V>>) | PrefixAbsent | NoTop

  class Tree<V> {
    var root: Option<Trie<V>>

    ghost predicate Valid()
      reads this
    {
      root.Some? ==> N.Valid(root.value)
    }

    /** The key/value mapping the tree stands for. */
    ghost function Contents(): map<Key, V>
      reads this
    {
      if root.None? then map[] else N.Contents(root.value)
    }

    constructor ()
      ensures root.None? && Valid() && Contents() == map[]
    {
      root := None;
    }

    /** `Tree.count`: 0 when empty, else the root's count; the number of stored keys. */
    function Count(): (n: nat)
      reads this
      requires Valid()
      ensures n == |Contents()|
    {
      if root.None? then 0
      else
        CountIsSize(root.value);
        N.Count(root.value)
    }

    /** `Tree.lookup`: walk to the nearest Entry and accept it only if its key is
        the query; the stored value exactly when the key is stored. */
    function Lookup(key: Key): (r: Option<V>)
      reads this
      requires Valid()
      ensures r == if key in Contents() then Some(Contents()[key]) else None
    {
      if root.None? then None
      else
        var e := Walk(root.value, key);
        WalkMatchesIff(root.value, key);
        if e.key == key then
          WalkFinds(root.value, key);
          Some(e.value)
        else None
    }

    /** `Tree.traverse`: every stored entry once, in increasing key order. */
    function Traverse(): (s: seq<Entry<V>>)
      reads this
      requires Valid()
      ensures KeysOf(s) == Contents().Keys && StrictlySorted(s) && |s| == Count()
      ensures forall e :: e in s ==> e.key in Contents() && Contents()[e.key] == e.value
    {
      if root.None? then []
      else
        TraverseKeys(root.value);
        TraverseSorted(root.value);
        TraverseValues(root.value);
        CountIsTraverseLength(root.value);
        N.Traverse(root.value)
    }

    /** `Tree.traverse_prefix`. An empty tree yields nothing and the empty prefix
        everything. Otherwise `find_top` starts from a `None` candidate, so a root
        Entry, or a root Node at or past the prefix's end, leaves no top (NoTop).
        Entries, when returned, are exactly the stored ones starting with the
        prefix, in order. Past the root, a prefix no stored key has is reported
        absent, and it is reported absent although a key starts with it only when
        the prefix ends in a zero byte. */
    function TraversePrefix(prefix: Key): (r: PrefixResult<V>)
      reads this
      requires Valid()
      ensures root.None? ==> r == Matches([])
      ensures root.Some? && prefix == [] ==> r == Matches(Traverse())
      ensures r.NoTop? <==> root.Some? && prefix != [] && (root.value.Leaf? || root.value.pos >= |prefix|)
      ensures r.Matches? ==> StrictlySorted(r.entries)
      ensures r.Matches? ==> KeysOf(r.entries) == set k | k in Contents() && StartsWith(k, prefix)
      ensures r.Matches? ==> forall e :: e in r.entries ==> e.key in Contents() && Contents()[e.key] == e.value
      ensures r.PrefixAbsent? ==>
        && prefix != []
        && ((forall k :: k in Contents() ==> !StartsWith(k, prefix)) || prefix[|prefix| - 1] == 0)
      ensures root.Some? && !r.NoTop? && (forall k :: k in Contents() ==> !StartsWith(k, prefix)) ==>
        r.PrefixAbsent?
    {
      if root.None? then Matches([])
      else if prefix == [] then
        // the empty prefix starts every key, and a stored key exists
        TraverseKeyIn(root.value, Walk(root.value, prefix));
        assert StartsWith(Walk(root.value, prefix).key, prefix);
        Matches(Traverse())
      else
        var t := root.value;
        var top := FindTop(t, prefix, None);
        // find_top leaves its None candidate exactly when it cannot descend at the root
        if t.Leaf? || t.pos >= |prefix| then
          assert top.None?;
          NoTop
        else
          FindTopDescends(t, prefix, None);
          var s := top.value;
          if StartsWith(Walk(s, prefix).key, prefix) then
            PrefixMatchesAll(s, prefix);
            Matches(N.Traverse(s))
          else
            PrefixAbsentWhy(s, prefix);
            PrefixAbsent
    }

    /** Below the top, a passing check means the top's entries are exactly the
        stored entries that start with the prefix. */
    lemma PrefixMatchesAll(s: Trie<V>, prefix: Key)
      requires Valid() && root.Some? && N.Valid(s) && (s.Leaf? || s.pos >= |prefix|)
      requires forall k :: k in N.Contents(s) ==> k in Contents() && N.Contents(s)[k] == Contents()[k]
      requires forall k :: k in Contents() && StartsWith(k, prefix) ==> k in N.Contents(s)
      requires StartsWith(Walk(s, prefix).key, prefix)
      ensures StrictlySorted(N.Traverse(s))
      ensures KeysOf(N.Traverse(s)) == set k | k in Contents() && StartsWith(k, prefix)
      ensures forall e :: e in N.Traverse(s) ==> e.key in Contents() && Contents()[e.key] == e.value
    {
      PrefixCheckSound(s, prefix);
      TraverseKeys(s);
      TraverseSorted(s);
      TraverseValues(s);
    }

    lemma PrefixAbsentWhy(s: Trie<V>, prefix: Key)
      requires Valid() && root.Some? && N.Valid(s) && (s.Leaf? || s.pos >= |prefix|) && |prefix| > 0
      requires forall k :: k in Contents() && StartsWith(k, prefix) ==> k in N.Contents(s)
      requires !StartsWith(Walk(s, prefix).key, prefix)
      ensures (forall k :: k in Contents() ==> !StartsWith(k, prefix)) || prefix[|prefix| - 1] == 0
    {
      if k :| k in Contents() && StartsWith(k, prefix) {
        PrefixCheckMissesOnlyZeroPadded(s, prefix, k);
      }
    }

    /** `Tree.first_entry_greater_than`: nothing on an empty tree; a stored entry
        with a greater key exactly when one exists; with `cyclic` and no greater key,
        the Entry reached by walking the empty key, which holds the least key. */
    function FirstEntryGreaterThan(key: Key, cyclic: bool): (r: Option<Entry<V>>)
      reads this
      requires Valid()
      ensures r.None? <==> root.None? || (!cyclic && forall k :: k in Contents() ==> !LexLess(key, k))
      ensures r.Some? ==> r.value.key in Contents() && Contents()[r.value.key] == r.value.value
      ensures r.Some? && (exists k :: k in Contents() && LexLess(key, k)) ==> LexLess(key, r.value.key)
      ensures r.Some? && (forall k :: k in Contents() ==> !LexLess(key, k)) ==>
        forall k :: k in Contents() ==> k == r.value.key || LexLess(r.value.key, k)
    {
      if root.None? then None
      else
        var t := root.value;
        var e := FirstGreater(t, key);
        FirstGreaterFindsIff(t, key);
        TraverseValues(t);
        assert NoneGreater(t, key) <==> forall k :: k in Contents() ==> !LexLess(key, k);
        if e.None? && cyclic then
          WalkEmptyIsFirst(t);
          WalkIsLeast(t);
          Some(Walk(t, []))
        else e
    }

    lemma WalkIsLeast(t: Trie<V>)
      requires N.Valid(t)
      ensures forall k :: k in N.Contents(t) ==> k == Walk(t, []).key || LexLess(Walk(t, []).key, k)
    {
      WalkEmptyIsFirst(t);
      TraverseKeys(t);
      TraverseSorted(t);
      var s := N.Traverse(t);
      forall k | k in N.Contents(t) ensures k == s[0].key || LexLess(s[0].key, k) {
        assert k in KeysOf(s);
        var i :| 0 <= i < |s| && s[i].key == k;
      }
    }

    /** `Tree.random_walk`: nothing on an empty tree, otherwise the value of a stored
        entry, chosen by the draws of `draw` as the Nodes on the way prescribe. */
    function RandomWalk(draw: nat -> nat): (r: Option<V>)
      reads this
      requires Valid()
      ensures r.None? <==> root.None?
      ensures r.Some? ==> exists k :: k in Contents() && Contents()[k] == r.value
    {
      if root.None? then None
      else
        var e := N.RandomWalk(root.value, draw, 0);
        TraverseValues(root.value);
        assert e.key in Contents() && Contents()[e.key] == e.value;
        Some(e.value)
    }

    /** `Tree.insert` (insert-if-absent). First insert: the root becomes the Entry,
        which is returned. A key already stored: nothing changes and the key is
        returned (the stored value is kept). Otherwise, unless the critical bit of the key and the walked key
        cannot be found (the AssertionError, nothing changes), the new Node and Entry
        are spliced in: the mapping gains exactly that key, the count grows by one
        and the invariant holds. */
    method Insert(key: Key, value: V) returns (r: InsertResult<V>)
      requires Valid()
      modifies this
      ensures Valid()
      ensures old(root).None? ==> r == RootEntry(Entry(key, value)) && Contents() == map[key := value]
      ensures old(root).Some? && key in old(Contents()) ==> r == InsertedKey(key) && root == old(root)
      ensures old(root).Some? && key !in old(Contents()) ==>
        && (r == NoCriticalBit <==> CritBit(key, Walk(old(root).value, key).key).None?)
        && (r == NoCriticalBit ==> root == old(root))
        && (r != NoCriticalBit ==> r == InsertedKey(key))
      ensures r == InsertedKey(key) && key !in old(Contents()) ==>
        Contents() == old(Contents())[key := value] && Count() == old(Count()) + 1
    {
      if root.None? {
        root := Some(Leaf(Entry(key, value)));
        return RootEntry(Entry(key, value));
      }
      var t := root.value;
      var entry := Walk(t, key);
      WalkMatchesIff(t, key);
      if key == entry.key {
        return InsertedKey(key);
      }
      var c := FromSmallestPrefixOf(key, entry.key);
      if c.None? {
        return NoCriticalBit;
      }
      InsertNodeCorrect(t, key, value, c.value);
      root := Some(InsertNode(t, key, c.value, Leaf(Entry(key, value))));
      CountIsSize(t);
      CountIsSize(root.value);
      return InsertedKey(key);
    }

    /** `Tree.delete`: nothing on an empty tree; otherwise the root is replaced by what
        deleting below it returns (None when the root Entry itself goes). A stored
        key is returned and its entry alone removed; an absent key changes nothing. */
    method Delete(key: Key) returns (r: Option<Key>)
      requires Valid()
      modifies this
      ensures Valid()
      ensures r == if key in old(Contents()) then Some(key) else None
      ensures Contents() == old(Contents()) - {key}
      ensures key !in old(Contents()) ==> root == old(root)
      ensures root.None? <==> old(root).None? || (old(root).value.Leaf? && old(root).value.entry.key == key)
      ensures Count() == old(Count()) - (if r.Some? then 1 else 0)
    {
      if root.None? {
        return None;
      }
      var t := root.value;
      DeleteNodeCorrect(t, key);
      CountIsSize(t);
      var (newRoot, entry) := DeleteNode(t, key);
      root := newRoot;
      if root.Some? {
        CountIsSize(root.value);
      }
      return entry;
    }
  }
}
