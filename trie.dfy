/** The recursive part of the critbit trie: `Tree.Entry` leaves and `Tree.Node`
    branches, with their operations as functions that return the replacement
    subtree (insert, delete) or the answer (walk, traverse, count, ...). */
module Trie {
  import opened Options
  import opened KeyBits

  /** `Tree.Entry`: one key/value pair. */
  datatype Entry<V> = Entry(key: Key, value: V)

  /** A subtree: an Entry, or a Node testing bit `mask` of byte `pos` with its
      two child slots (child 0: bit clear, child 1: bit set). */
  datatype Trie<V> =
    | Leaf(entry: Entry<V>)
    | Branch(pos: nat, mask: bv8, c0: Trie<V>, c1: Trie<V>)

  /** `Node.get` with the boolean direction used as the child index. */
  function Child<V>(t: Trie<V>, d: bool): Trie<V>
    requires t.Branch?
  {
    if d then t.c1 else t.c0
  }

  /** `Node.count` / `Entry.count`, recomputed on every call. */
  function Count<V>(t: Trie<V>): nat
  {
    match t
    case Leaf(_) => 1
    case Branch(_, _, c0, c1) => Count(c0) + Count(c1)
  }

  /** `Node.traverse` / `Entry.traverse`: child 0's entries, then child 1's. */
  function Traverse<V>(t: Trie<V>): seq<Entry<V>>
  {
    match t
    case Leaf(e) => [e]
    case Branch(_, _, c0, c1) => Traverse(c0) + Traverse(c1)
  }

  /** The key/value mapping a subtree stands for. */
  ghost function Contents<V>(t: Trie<V>): map<Key, V>
  {
    match t
    case Leaf(e) => map[e.key := e.value]
    case Branch(_, _, c0, c1) => Contents(c0) + Contents(c1)
  }

  /** The trie invariant. At every Node: the mask has one bit set; every key under
      child d has direction d; all keys under the Node agree on every bit examined
      before the Node's own bit. Keys are then distinct, and specificity grows
      along every path (lemma ValidIsSpecific). */
  ghost predicate Valid<V>(t: Trie<V>)
  {
    match t
    case Leaf(_) => true
    case Branch(p, m, c0, c1) =>
      && PowerOfTwo(m) && Valid(c0) && Valid(c1)
      && (forall k :: k in Contents(c0) ==> !Dir(p, m, k))
      && (forall k :: k in Contents(c1) ==> Dir(p, m, k))
      && (forall a, b :: a in Contents(t) && b in Contents(t) ==> AgreeAbove(a, b, p, m))
  }

  /** Every parent's bit is examined strictly before each Node child's bit
      (a smaller pos, or the same pos and a larger mask). */
  ghost predicate Specific<V>(t: Trie<V>)
  {
    match t
    case Leaf(_) => true
    case Branch(p, m, c0, c1) =>
      && Specific(c0) && Specific(c1)
      && (c0.Branch? ==> Less(p, m, c0.pos, c0.mask))
      && (c1.Branch? ==> Less(p, m, c1.pos, c1.mask))
  }

  // ---------------------------------------------------------------------------
  // Queries

  /** `walk`: follow the key's direction down to an Entry, which may not match. */
  function Walk<V>(t: Trie<V>, key: Key): (e: Entry<V>)
    ensures e in Traverse(t)
  {
    match t
    case Leaf(e) => e
    case Branch(p, m, c0, c1) => Walk(Child(t, Dir(p, m, key)), key)
  }

  /** `first_greater_than`: search the key's side; only when that is child 0 and
      it found nothing, search child 1 too. */
  function FirstGreater<V>(t: Trie<V>, key: Key): (r: Option<Entry<V>>)
    ensures r.Some? ==> r.value in Traverse(t) && LexLess(key, r.value.key)
  {
    match t
    case Leaf(e) => if LexLess(key, e.key) then Some(e) else None
    case Branch(p, m, c0, c1) =>
      var d := Dir(p, m, key);
      var r := FirstGreater(Child(t, d), key);
      if !d && r.None? then FirstGreater(c1, key) else r
  }

  /** `find_top`: while the Node's byte lies inside the prefix, descend the prefix's
      side, making that child the candidate; otherwise keep the candidate given. */
  function FindTop<V>(t: Trie<V>, prefix: Key, top: Option<Trie<V>>): Option<Trie<V>>
  {
    match t
    case Leaf(_) => top
    case Branch(p, m, _, _) =>
      if p < |prefix| then
        var c := Child(t, Dir(p, m, prefix));
        FindTop(c, prefix, Some(c))
      else top
  }

  /** `random_walk`: the random source is the stream `draw`, whose `k`-th value
      answers the `k`-th call of `randrange(count)`; at a Node the draw `r` selects
      child 1 iff `r >= count(child 0)`. */
  function RandomWalk<V>(t: Trie<V>, draw: nat -> nat, k: nat): (e: Entry<V>)
    ensures e in Traverse(t)
  {
    match t
    case Leaf(e) => e
    case Branch(_, _, c0, c1) =>
      RandomWalk(Child(t, draw(k) >= Count(c0)), draw, k + 1)
  }

  // ---------------------------------------------------------------------------
  // Updates, returning the replacement for the parent's slot

  /** The new Node `c` with the new Entry in the slot its own key selects and
      `t` in the other slot (`new_node.child[1-dir] = self`). */
  function Splice<V>(t: Trie<V>, key: Key, c: Crit, leaf: Trie<V>): Trie<V>
  {
    if Dir(c.pos, c.mask, key) then Branch(c.pos, c.mask, t, leaf)
    else Branch(c.pos, c.mask, leaf, t)
  }

  /** `Node.insert` / `Entry.insert`: splice the new Node in above the first subtree
      whose bit comes after the new one (or above an Entry); otherwise recurse into
      the key's side and replace that child. */
  function InsertNode<V>(t: Trie<V>, key: Key, c: Crit, leaf: Trie<V>): Trie<V>
  {
    match t
    case Leaf(_) => Splice(t, key, c, leaf)
    case Branch(p, m, c0, c1) =>
      if p > c.pos || (p == c.pos && m < c.mask) then Splice(t, key, c, leaf)
      else if Dir(p, m, key) then Branch(p, m, c0, InsertNode(c1, key, c, leaf))
      else Branch(p, m, InsertNode(c0, key, c, leaf), c1)
  }

  /** `Node.delete` / `Entry.delete`: the replacement subtree (None when the Entry
      itself goes) and the deleted key, if any. A Node whose child vanished is
      replaced by its other child. */
  function DeleteNode<V>(t: Trie<V>, key: Key): (Option<Trie<V>>, Option<Key>)
  {
    match t
    case Leaf(e) => if key == e.key then (None, Some(key)) else (Some(t), None)
    case Branch(p, m, c0, c1) =>
      var d := Dir(p, m, key);
      var (nc, found) := DeleteNode(Child(t, d), key);
      if nc.None? then (Some(Child(t, !d)), found)
      else if d then (Some(Branch(p, m, c0, nc.value)), found)
      else (Some(Branch(p, m, nc.value, c1)), found)
  }
}
