/** What the read-only recursions answer on a valid trie: the successor query,
    the prefix search and the weighted random walk. */
module TrieQuery {
  import opened Options
  import opened KeyBits
  import opened Trie
  import opened TrieShape

  /** No stored key is greater than `key`. */
  ghost predicate NoneGreater<V>(t: Trie<V>, key: Key)
  {
    forall k :: k in Contents(t) ==> !LexLess(key, k)
  }

  /** `first_greater_than` finds something exactly when some stored key is greater
      than the query: searching only child 1 is enough when the query goes there,
      because every key of child 1 is greater than every key of child 0. */
  lemma {:induction false} FirstGreaterFindsIff<V>(t: Trie<V>, key: Key)
    requires Valid(t)
    ensures FirstGreater(t, key).None? <==> NoneGreater(t, key)
  {
    match t
    case Leaf(e) =>
    case Branch(p, m, c0, c1) =>
      FirstGreaterFindsIff(c0, key);
      FirstGreaterFindsIff(c1, key);
      if FirstGreater(t, key).Some? {
        TraverseKeyIn(t, FirstGreater(t, key).value);
      } else if Dir(p, m, key) && !NoneGreater(c0, key) {
        var a :| a in Contents(c0) && LexLess(key, a);
        var b := SomeKey(c1);
        ChildrenOrdered(t, a, b);
        LexLessTrans(key, a, b);
      }
  }

  /** The least stored key greater than `key`: search child 0 first, then child 1. */
  function FirstGreaterLeast<V>(t: Trie<V>, key: Key): (r: Option<Entry<V>>)
    ensures r.Some? ==> r.value in Traverse(t) && LexLess(key, r.value.key)
  {
    match t
    case Leaf(e) => if LexLess(key, e.key) then Some(e) else None
    case Branch(_, _, c0, c1) =>
      var r := FirstGreaterLeast(c0, key);
      if r.Some? then r else FirstGreaterLeast(c1, key)
  }

  /** FirstGreaterLeast answers the successor query: nothing exactly when no stored
      key is greater, otherwise the least stored key greater than the query. */
  lemma {:induction false} FirstGreaterLeastIsLeast<V>(t: Trie<V>, key: Key)
    requires Valid(t)
    ensures FirstGreaterLeast(t, key).None? <==> NoneGreater(t, key)
    ensures var r := FirstGreaterLeast(t, key);
      r.Some? ==>
        && r.value.key in Contents(t)
        && forall k :: k in Contents(t) && LexLess(key, k) ==> k == r.value.key || LexLess(r.value.key, k)
  {
    var r := FirstGreaterLeast(t, key);
    if r.Some? {
      TraverseKeyIn(t, r.value);
    }
    match t
    case Leaf(e) =>
    case Branch(p, m, c0, c1) =>
      FirstGreaterLeastIsLeast(c0, key);
      FirstGreaterLeastIsLeast(c1, key);
      if FirstGreaterLeast(c0, key).Some? {
        var a := r.value.key;
        forall k | k in Contents(c1) ensures LexLess(a, k) {
          ChildrenOrdered(t, a, k);
        }
      }
  }

  /** Where the first-greater query is not least: keys "a0" and "a1" under one Node
      at byte 1, mask 1 (the tree two inserts build); the query "a\x01" goes to
      child 1 and gets "a1", though "a0" is also greater and smaller than "a1". */
  lemma FirstGreaterNotLeast()
    ensures var a0, a1, q := [0x61, 0x30], [0x61, 0x31], [0x61, 0x01];
      var t: Trie<int> := Branch(1, 1, Leaf(Entry(a0, 0)), Leaf(Entry(a1, 1)));
      && CritBit(a1, a0) == Some(Crit(1, 1))
      && InsertNode(Leaf(Entry(a0, 0)), a1, Crit(1, 1), Leaf(Entry(a1, 1))) == t
      && Valid(t)
      && FirstGreater(t, q) == Some(Entry(a1, 1))
      && LexLess(q, a0) && LexLess(a0, a1)
      && FirstGreaterLeast(t, q) == Some(Entry(a0, 0))
  {
    var a0: Key, a1: Key, q: Key := [0x61, 0x30], [0x61, 0x31], [0x61, 0x01];
    assert CommonPrefixLength(a1, a0) == 1 by {
      assert a1[1..] == [0x31] && a0[1..] == [0x30];
    }
    assert LexLess(q, a0) by {
      assert q[1..] == [0x01] && a0[1..] == [0x30];
    }
    assert LexLess(a0, a1) by {
      assert a0[1..] == [0x30] && a1[1..] == [0x31];
    }
    assert !LexLess(a1, q) by {
      assert q[1..] == [0x01] && a1[1..] == [0x31];
    }
    var t: Trie<int> := Branch(1, 1, Leaf(Entry(a0, 0)), Leaf(Entry(a1, 1)));
    forall a, b | a in Contents(t) && b in Contents(t) ensures AgreeAbove(a, b, 1, 1) {
      assert ByteAt(a, 0) == 0x61 && ByteAt(b, 0) == 0x61;
      assert ByteAt(a, 1) ^ ByteAt(b, 1) == 0 || ByteAt(a, 1) ^ ByteAt(b, 1) == 1;
    }
  }

  // ---------------------------------------------------------------------------
  // Prefix search

  /** `find_top` started below a Node whose byte lies inside the prefix returns a
      subtree of it that is an Entry or a Node at or past the prefix's end, and that
      holds every stored key starting with the prefix. */
  lemma {:induction false} FindTopDescends<V>(t: Trie<V>, prefix: Key, top: Option<Trie<V>>)
    requires Valid(t) && t.Branch? && t.pos < |prefix|
    ensures var r := FindTop(t, prefix, top);
      && r.Some? && Valid(r.value) && (r.value.Leaf? || r.value.pos >= |prefix|)
      && (forall k :: k in Contents(r.value) ==> k in Contents(t) && Contents(r.value)[k] == Contents(t)[k])
      && (forall k :: k in Contents(t) && StartsWith(k, prefix) ==> k in Contents(r.value))
  {
    var d := Dir(t.pos, t.mask, prefix);
    var c := Child(t, d);
    forall k | k in Contents(t) && StartsWith(k, prefix) ensures k in Contents(c) {
      assert ByteAt(k, t.pos) == prefix[t.pos] == ByteAt(prefix, t.pos) by {
        assert k[..|prefix|][t.pos] == prefix[t.pos];
      }
    }
    forall k | k in Contents(c) ensures k in Contents(t) && Contents(c)[k] == Contents(t)[k] {
      if !d {
        assert k !in Contents(t.c1);
      }
    }
    if c.Branch? && c.pos < |prefix| {
      FindTopDescends(c, prefix, Some(c));
    }
  }

  /** The prefix check of `traverse_prefix`: below a top that is an Entry or a Node at
      or past the prefix's end, all keys agree with the walked Entry on every byte
      of the prefix; so when that Entry starts with the prefix, every key does
      (a shorter key would equal the prefix after zero padding and be the one walked to). */
  lemma PrefixCheckSound<V>(s: Trie<V>, prefix: Key)
    requires Valid(s) && (s.Leaf? || s.pos >= |prefix|)
    requires StartsWith(Walk(s, prefix).key, prefix)
    ensures forall k :: k in Contents(s) ==> StartsWith(k, prefix)
  {
    var e := Walk(s, prefix).key;
    TraverseKeyIn(s, Walk(s, prefix));
    forall k | k in Contents(s) ensures StartsWith(k, prefix) {
      BelowTopMatches(s, prefix, k, e);
      if |k| < |prefix| {
        forall j: nat ensures ByteAt(k, j) == ByteAt(prefix, j) {
          if j < |prefix| {
            assert e[..|prefix|][j] == prefix[j];
          }
        }
        WalkPaddedEqual(s, k, prefix);
        WalkFinds(s, k);
      } else {
        assert k[..|prefix|] == prefix by {
          forall j | 0 <= j < |prefix| ensures k[j] == prefix[j] {
            assert ByteAt(k, j) == ByteAt(e, j);
            assert e[..|prefix|][j] == prefix[j];
          }
        }
      }
    }
  }

  lemma BelowTopMatches<V>(s: Trie<V>, prefix: Key, k: Key, e: Key)
    requires Valid(s) && (s.Leaf? || s.pos >= |prefix|)
    requires k in Contents(s) && e in Contents(s)
    ensures forall j: nat :: j < |prefix| ==> ByteAt(k, j) == ByteAt(e, j)
  {
    if s.Leaf? {
      assert k == e;
    } else {
      assert AgreeAbove(k, e, s.pos, s.mask);
    }
  }

  /** When the prefix check fails although some stored key starts with the prefix,
      the prefix ends in a zero byte: the walked key is a shorter key that matches
      the prefix only through zero padding. */
  lemma PrefixCheckMissesOnlyZeroPadded<V>(s: Trie<V>, prefix: Key, k: Key)
    requires Valid(s) && (s.Leaf? || s.pos >= |prefix|) && |prefix| > 0
    requires !StartsWith(Walk(s, prefix).key, prefix)
    requires k in Contents(s) && StartsWith(k, prefix)
    ensures prefix[|prefix| - 1] == 0
  {
    var e := Walk(s, prefix).key;
    TraverseKeyIn(s, Walk(s, prefix));
    BelowTopMatches(s, prefix, k, e);
    forall j: nat | j < |prefix| ensures ByteAt(e, j) == prefix[j] {
      assert ByteAt(k, j) == k[..|prefix|][j];
    }
    if |e| < |prefix| {
      assert ByteAt(e, |prefix| - 1) == 0;
    }
  }

  /** Where the prefix check misses a key: keys "a", "a\x00\x01" and "b"; the prefix
      "a\x00" leads to the Node holding the first two, whose walk lands on "a", which
      does not start with the prefix, while "a\x00\x01" does. Inserting "b", "a" and
      then "a\x00\x01" builds this trie when the last insert uses the corrected
      critical bit; with the one the code computes that insert raises instead. */
  lemma PrefixCheckMissesKey()
    ensures var a, b, ab: Key, prefix: Key := [0x61], [0x62], [0x61, 0x00, 0x01], [0x61, 0x00];
      var s: Trie<int> := Branch(2, 1, Leaf(Entry(a, 0)), Leaf(Entry(ab, 1)));
      var t: Trie<int> := Branch(0, 2, s, Leaf(Entry(b, 2)));
      && Valid(t)
      && CritBit(a, b) == Some(Crit(0, 2)) && CritBit(ab, a).None? && CritBitPadded(ab, a) == Some(Crit(2, 1))
      && t == InsertNode(InsertNode(Leaf(Entry(b, 2)), a, Crit(0, 2), Leaf(Entry(a, 0))), ab, Crit(2, 1), Leaf(Entry(ab, 1)))
      && FindTop(t, prefix, None) == Some(s)
      && !StartsWith(Walk(s, prefix).key, prefix)
      && ab in Contents(t) && StartsWith(ab, prefix)
  {
    var ab: Key, prefix: Key := [0x61, 0x00, 0x01], [0x61, 0x00];
    assert ab[..2] == prefix;
    PrefixMissValid();
    PrefixMissBuilt();
  }

  lemma PrefixMissValid()
    ensures var a, b, ab: Key := [0x61], [0x62], [0x61, 0x00, 0x01];
      Valid(Branch(0, 2, Branch(2, 1, Leaf(Entry(a, 0)), Leaf(Entry(ab, 1))), Leaf(Entry(b, 2))))
  {
    var a, b, ab: Key := [0x61], [0x62], [0x61, 0x00, 0x01];
    var s: Trie<int> := Branch(2, 1, Leaf(Entry(a, 0)), Leaf(Entry(ab, 1)));
    PrefixMissNodeValid();
    assert Contents(s).Keys == {a, ab};
    forall x, y | x in Contents(s).Keys + {b} && y in Contents(s).Keys + {b} ensures AgreeAbove(x, y, 0, 2) {
      assert ByteAt(x, 0) == 0x61 || ByteAt(x, 0) == 0x62;
      assert ByteAt(y, 0) == 0x61 || ByteAt(y, 0) == 0x62;
    }
  }

  lemma PrefixMissNodeValid()
    ensures var a, ab: Key := [0x61], [0x61, 0x00, 0x01];
      Valid(Branch(2, 1, Leaf(Entry(a, 0)), Leaf(Entry(ab, 1))))
  {
    var a, ab: Key := [0x61], [0x61, 0x00, 0x01];
    AgreeRefl(a, 2, 1);
    AgreeRefl(ab, 2, 1);
    assert AgreeAbove(a, ab, 2, 1) by {
      assert ByteAt(a, 1) == ByteAt(ab, 1) == 0;
    }
    AgreeSym(a, ab, 2, 1);
  }

  lemma PrefixMissBuilt()
    ensures var a, b, ab: Key := [0x61], [0x62], [0x61, 0x00, 0x01];
      && CritBit(a, b) == Some(Crit(0, 2)) && CritBit(ab, a).None? && CritBitPadded(ab, a) == Some(Crit(2, 1))
      && InsertNode(InsertNode(Leaf(Entry(b, 2)), a, Crit(0, 2), Leaf(Entry(a, 0))), ab, Crit(2, 1), Leaf(Entry(ab, 1)))
        == Branch(0, 2, Branch(2, 1, Leaf(Entry(a, 0)), Leaf(Entry(ab, 1))), Leaf(Entry(b, 2)))
  {
    var a, b, ab: Key := [0x61], [0x62], [0x61, 0x00, 0x01];
    assert CommonPrefixLength(a, b) == 0;
    assert CommonPrefixLength(ab, a) == 1 by {
      assert a[1..] == [];
    }
    assert FirstPaddedDiff(ab, a, 0) == Some(2) by {
      assert FirstPaddedDiff(ab, a, 2) == Some(2);
    }
  }

  /** The entries of `s` whose keys start with `prefix`, in their order. */
  function PrefixFilter<V>(s: seq<Entry<V>>, prefix: Key): (r: seq<Entry<V>>)
    ensures forall i :: 0 <= i < |r| ==> r[i] in s && StartsWith(r[i].key, prefix)
    ensures forall i :: 0 <= i < |s| && StartsWith(s[i].key, prefix) ==> s[i] in r
  {
    if s == [] then []
    else
      var rest := PrefixFilter(s[1..], prefix);
      if StartsWith(s[0].key, prefix) then
        [s[0]] + rest
      else rest
  }

  /** Filtering keeps a sorted sequence sorted. */
  lemma {:induction false} PrefixFilterSorted<V>(s: seq<Entry<V>>, prefix: Key)
    requires StrictlySorted(s)
    ensures StrictlySorted(PrefixFilter(s, prefix))
  {
    if s != [] {
      var rest := s[1..];
      assert StrictlySorted(rest);
      PrefixFilterSorted(rest, prefix);
      var r := PrefixFilter(rest, prefix);
      if StartsWith(s[0].key, prefix) {
        forall j | 0 <= j < |r| ensures LexLess(s[0].key, r[j].key) {
          var e := r[j];
          assert e in rest;
          var i :| 0 <= i < |rest| && rest[i] == e;
          assert s[i + 1] == e;
        }
        assert PrefixFilter(s, prefix) == [s[0]] + r;
      }
    }
  }

  /** A filter keeps a sequence whose every key already starts with the prefix. */
  lemma {:induction false} PrefixFilterKeepsAll<V>(s: seq<Entry<V>>, prefix: Key)
    requires forall i :: 0 <= i < |s| ==> StartsWith(s[i].key, prefix)
    ensures PrefixFilter(s, prefix) == s
  {
    if s != [] {
      var rest := s[1..];
      assert forall i :: 0 <= i < |rest| ==> rest[i] == s[i + 1];
      PrefixFilterKeepsAll(rest, prefix);
      assert PrefixFilter(s, prefix) == [s[0]] + rest;
    }
  }

  lemma FindTopKeepsSome<V>(t: Trie<V>, prefix: Key, x: Trie<V>)
    ensures FindTop(t, prefix, Some(x)).Some?
  {
  }

  /** `traverse_prefix` as evidently intended: descend as `find_top` does, starting
      from the root itself as the candidate, and yield the entries under the top
      whose keys start with the prefix, instead of trusting a single walked key. */
  function PrefixEntries<V>(t: Trie<V>, prefix: Key): seq<Entry<V>>
  {
    FindTopKeepsSome(t, prefix, t);
    PrefixFilter(Traverse(FindTop(t, prefix, Some(t)).value), prefix)
  }

  /** The corrected prefix search yields exactly the stored entries whose keys start
      with the prefix, in increasing key order, including the one the walked-key
      check misses in PrefixCheckMissesKey. */
  lemma PrefixEntriesExact<V>(t: Trie<V>, prefix: Key)
    requires Valid(t)
    ensures var r := PrefixEntries(t, prefix);
      && StrictlySorted(r)
      && KeysOf(r) == set k | k in Contents(t) && StartsWith(k, prefix)
      && forall e :: e in r ==> e.key in Contents(t) && Contents(t)[e.key] == e.value
  {
    FindTopKeepsSome(t, prefix, t);
    var top := FindTop(t, prefix, Some(t)).value;
    if t.Branch? && t.pos < |prefix| {
      FindTopDescends(t, prefix, Some(t));
    }
    assert Valid(top);
    assert forall k :: k in Contents(top) ==> k in Contents(t) && Contents(top)[k] == Contents(t)[k];
    assert forall k :: k in Contents(t) && StartsWith(k, prefix) ==> k in Contents(top);
    TraverseKeys(top);
    TraverseSorted(top);
    TraverseValues(top);
    PrefixFilterSorted(Traverse(top), prefix);
    var r := PrefixEntries(t, prefix);
    forall k | k in Contents(t) && StartsWith(k, prefix) ensures k in KeysOf(r) {
      assert k in KeysOf(Traverse(top));
      var e :| e in Traverse(top) && e.key == k;
      assert e in r;
    }
  }

  /** Wherever the walked-key check passes, the code as written yields the same
      entries as the corrected search. */
  lemma PrefixCheckAgrees<V>(t: Trie<V>, prefix: Key)
    requires Valid(t) && t.Branch? && t.pos < |prefix|
    requires FindTop(t, prefix, None).Some?
    requires StartsWith(Walk(FindTop(t, prefix, None).value, prefix).key, prefix)
    ensures Traverse(FindTop(t, prefix, None).value) == PrefixEntries(t, prefix)
  {
    FindTopDescends(t, prefix, None);
    var top := FindTop(t, prefix, None).value;
    assert FindTop(t, prefix, Some(t)).value == top;
    PrefixCheckSound(top, prefix);
    TraverseKeys(top);
    forall i | 0 <= i < |Traverse(top)| ensures StartsWith(Traverse(top)[i].key, prefix) {
      TraverseKeyIn(top, Traverse(top)[i]);
    }
    PrefixFilterKeepsAll(Traverse(top), prefix);
  }

  // ---------------------------------------------------------------------------
  // Random walk

  /** At a Node of a valid trie the walk ends under child 1 exactly when the draw
      is at least the count of child 0. */
  lemma RandomWalkSide<V>(t: Trie<V>, draw: nat -> nat, k: nat)
    requires Valid(t) && t.Branch?
    ensures RandomWalk(t, draw, k) in Traverse(t.c1) <==> draw(k) >= Count(t.c0)
    ensures RandomWalk(t, draw, k) in Traverse(t.c0) <==> draw(k) < Count(t.c0)
  {
    var e := RandomWalk(t, draw, k);
    if e in Traverse(t.c0) && e in Traverse(t.c1) {
      TraverseKeyIn(t.c0, e);
      TraverseKeyIn(t.c1, e);
    }
  }
}
