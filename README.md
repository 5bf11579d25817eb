# Critbit trie and worker choosers, in Dafny

This project models two Python files.

`trie.py` is a critbit trie: an ordered map from byte strings to values. It is a
binary trie with path compression. Internal `Node`s test one bit, a byte position
`pos` and a one-bit `mask`. `Entry` leaves hold key/value pairs. Keys are read
zero-padded: a position past a key's end reads as byte 0. A key goes to child 1 of
a Node exactly when `mask & byte == mask`. The `Tree` wrapper owns the root slot and
offers `insert` (insert-if-absent), `lookup`, `delete`, `traverse`,
`traverse_prefix`, `first_entry_greater_than`, `random_walk` and `count`.

`hash_test.py` holds the worker-selection helpers of a load-balancing benchmark:
- `djbhash`, Bernstein's hash modulo 2^32;
- `bsearch`, a lower-bound binary search that wraps to 0, used by consistent hashing;
- a perfect-shuffle chooser, an inside-out Fisher–Yates shuffle driven by a djb accumulator;
- a rendezvous chooser, an argmin over per-worker hashes.

Layout:
- `options.dfy` (module `Options`): the optional value, used for Python's `None` results by the trie and the choosers.
- `key_bits.dfy` (module `KeyBits`): padded bytes, the direction test, `from_smallest_prefix_of` and its critical bit, how critical bits nest, and Python's bytes order.
- `trie.dfy` (module `Trie`): the `Entry`/`Node` datatype and the recursive Node and Entry operations. Insert and delete return the replacement subtree, as the source's methods do.
- `trie_shape.dfy`, `trie_update.dfy` and `trie_query.dfy`: what the trie invariant gives. That is counting, ordered traversal, walking, and the correctness of insert and delete. It also covers the successor query, the prefix search and the random walk.
- `tree.dfy` (module `CritbitTree`): class `Tree`, whose field `root` the methods reassign.
- `choosers.dfy` (module `Choosers`): the `hash_test.py` helpers.

The invariant `Trie.Valid` holds at every Node:
- the mask has one bit set;
- every key under child d has direction d;
- all keys under the Node agree, zero-padded, on every bit examined before the Node's own.

From it the model derives the following:
- keys are distinct;
- specificity grows strictly along every path;
- traversal is sorted in bytes order;
- `walk` reaches a stored key's Entry.

## Model

| member | source | states |
|---|---|---|
| KeyBits.CritBit | trie.py:147-164 | the critical bit of two keys: position is the common-prefix length, the mask splits the two keys (they take opposite directions and agree on every earlier bit); absent exactly when the padded bytes at that position are equal (the AssertionError) |
| KeyBits.HighBit | trie.py:166-170 | the mask kept is a single set bit of the XOR with no higher bit set (a power of two, a submask of the XOR) |
| KeyBits.ClearToHighBit | trie.py:169-170 | the clear-lowest-bit loop ends with exactly the high bit of its input |
| KeyBits.FromSmallestPrefixOf | trie.py:147-172 | the method computes exactly `CritBit`, None where the source raises |
| KeyBits.CommonPrefixLength | trie.py:154-155 | longest common prefix: both keys agree before it and differ at it or one ends |
| KeyBits.SplitOrder | trie.py:21-22 | of two keys split by a Node's bit, the one going to child 0 sorts first in bytes order |
| KeyBits.AgreeWeaken | trie.py:109-110 | keys agreeing down to a bit agree on and take the same direction at every less specific bit |
| KeyBits.PaddedEqualDir | trie.py:68-70 | keys equal after zero padding take the same direction at every Node |
| KeyBits.LexLessTotal | trie.py:191 | Python's bytes order is total |
| KeyBits.LexLessTrans | trie.py:191 | Python's bytes order is transitive |
| KeyBits.CritBitPadded | trie.py:157-164 | corrected critical bit: exists exactly for keys that differ after zero padding, and then splits them |
| KeyBits.CritBitPaddedAgrees | trie.py:147-172 | wherever the source finds a critical bit, it is the corrected one |
| KeyBits.CritBitSpuriousFailure | trie.py:154-164 | "a" and "a\x00\x05" differ after padding but the source finds no critical bit |
| Trie.Walk | trie.py:75-78 | `walk` ends at an Entry of the subtree |
| Trie.FirstGreater | trie.py:80-86 | `first_greater_than` returns only Entries of the subtree whose key is greater than the query |
| Trie.RandomWalk | trie.py:142-144 | `random_walk` returns an Entry of the subtree |
| TrieShape.CountIsTraverseLength | trie.py:58-65 | `count` is child 0's count plus child 1's (1 for an Entry), the length of `traverse` |
| TrieShape.CountIsSize | trie.py:180-181 | on a valid trie `count` is the number of distinct stored keys |
| TrieShape.TraverseKeys | trie.py:61-65 | `traverse` yields exactly the stored keys |
| TrieShape.TraverseValues | trie.py:187-188 | every yielded Entry carries the value stored for its key |
| TrieShape.ChildrenDisjoint | trie.py:21-22 | the two children of a Node hold disjoint keys |
| TrieShape.ChildrenOrdered | trie.py:61-65 | every key under child 0 sorts before every key under child 1 |
| TrieShape.TraverseSorted | trie.py:61-65 | `traverse` yields keys in strictly increasing bytes order |
| TrieShape.ValidIsSpecific | trie.py:109-110 | along every path a parent has a smaller `pos`, or the same `pos` and a larger `mask`, than its Node children |
| TrieShape.WalkFinds | trie.py:224-232 | walking to a stored key reaches its Entry and value |
| TrieShape.WalkMatchesIff | trie.py:229-231 | the walked Entry's key equals the query exactly when the query is stored |
| TrieShape.WalkPaddedEqual | trie.py:68-78 | keys equal after zero padding walk to the same Entry |
| TrieShape.WalkEmptyIsFirst | trie.py:240-241 | walking `b""` always takes child 0 and reaches the first Entry of the traversal |
| TrieUpdate.SpliceValid | trie.py:115-117 | a new Node spliced above a subtree whose keys agree above its bit gives a valid trie holding one more key |
| TrieUpdate.InsertNodeCorrect | trie.py:103-124 | inserting with the critical bit of the key and its walked key: the key was absent; the result is valid, maps the key to its value, keeps every other key and counts one more |
| TrieUpdate.SpliceAboveNode | trie.py:109-117 | a Node whose bit comes after the new one moves into the new Node's free slot |
| TrieUpdate.InsertIntoChild | trie.py:118-124 | otherwise the key's child is replaced by the insert there and the Node stays valid |
| TrieUpdate.DeleteNodeCorrect | trie.py:126-137 | delete reports the key exactly when stored, removes exactly its Entry, lowers the count by one and keeps validity; an emptied Node becomes its sibling; only a lone matching Entry becomes None; an absent key changes nothing |
| TrieUpdate.DeleteFromChild | trie.py:129-137 | one level of `Node.delete`, from what deleting in the key's child did |
| TrieQuery.FirstGreaterFindsIff | trie.py:80-86 | `first_greater_than` finds an Entry exactly when some stored key is greater than the query |
| TrieQuery.FirstGreaterLeast | trie.py:80-86 | corrected successor search (child 0 first, then child 1): only greater keys of the subtree |
| TrieQuery.FirstGreaterLeastIsLeast | trie.py:80-86 | the corrected search returns nothing exactly when no key is greater, otherwise the least greater key |
| TrieQuery.FirstGreaterNotLeast | trie.py:80-86 | keys "a0", "a1" and query "a\x01": the source returns "a1" although "a0" is greater and smaller |
| TrieQuery.FindTopDescends | trie.py:88-101 | `find_top` from a Node inside the prefix returns a valid subtree, an Entry or a Node at or past the prefix end, holding every stored key that starts with the prefix |
| TrieQuery.PrefixCheckSound | trie.py:272-274 | when the walked key starts with the prefix, every key under the top does |
| TrieQuery.PrefixCheckMissesOnlyZeroPadded | trie.py:272-275 | the check can miss a stored key starting with the prefix only when the prefix ends in a zero byte |
| TrieQuery.PrefixCheckMissesKey | trie.py:255-275 | keys "a", "a\x00\x01", "b" (the trie the inserts build with the corrected critical bit) and prefix "a\x00": the check fails though "a\x00\x01" is stored |
| TrieQuery.PrefixFilter | trie.py:272-274 | keeps exactly the entries whose keys start with the prefix |
| TrieQuery.PrefixFilterSorted | trie.py:272-274 | filtering a sorted sequence leaves it sorted |
| TrieQuery.PrefixFilterKeepsAll | trie.py:272-274 | filtering entries that all start with the prefix keeps them all |
| TrieQuery.PrefixEntriesExact | trie.py:249-275 | the corrected prefix search yields exactly the stored entries starting with the prefix, sorted, with their values |
| TrieQuery.PrefixCheckAgrees | trie.py:272-274 | where the source's check passes it yields the same entries as the corrected search |
| TrieQuery.RandomWalkSide | trie.py:142-144 | at a Node the walk ends under child 1 exactly when the draw is at least child 0's count |
| CritbitTree.Tree.constructor | trie.py:40-41 | a new tree has no root and holds nothing |
| CritbitTree.Tree.Count | trie.py:43-46 | 0 for an empty tree, else the number of stored keys |
| CritbitTree.Tree.Lookup | trie.py:224-232 | the stored value exactly when the key is stored, otherwise nothing |
| CritbitTree.Tree.Traverse | trie.py:244-247 | every stored entry once with its value, in strictly increasing key order; nothing for an empty tree |
| CritbitTree.Tree.TraversePrefix | trie.py:249-275 | empty tree: nothing; empty prefix: the whole traversal; the failing `None` top exactly for a root Entry or a root Node at or past the prefix end; returned entries are exactly the stored ones starting with the prefix, sorted; otherwise a prefix no stored key has is reported "absent"; "absent" only when no key has the prefix or the prefix ends in a zero byte |
| CritbitTree.Tree.PrefixMatchesAll | trie.py:272-274 | below the top, a passing check means the top's entries are exactly the stored ones with the prefix |
| CritbitTree.Tree.PrefixAbsentWhy | trie.py:272-275 | a failing check means no stored key has the prefix, or the prefix ends in a zero byte |
| CritbitTree.Tree.FirstEntryGreaterThan | trie.py:234-242 | nothing exactly on an empty tree or (without `cyclic`) when no key is greater; a stored entry with a greater key whenever one exists; with `cyclic` and no greater key, the entry with the least key |
| CritbitTree.Tree.WalkIsLeast | trie.py:240-241 | the Entry reached by walking `b""` holds the least stored key |
| CritbitTree.Tree.RandomWalk | trie.py:319-323 | nothing exactly on an empty tree, otherwise the value of a stored entry |
| CritbitTree.Tree.Insert | trie.py:277-308 | first insert: the root becomes the Entry, which is returned; stored key: key returned, tree unchanged; otherwise, unless no critical bit exists (the AssertionError, tree unchanged), the key is returned, the mapping gains exactly that key, the count grows by one and the invariant holds |
| CritbitTree.Tree.Delete | trie.py:310-317 | returns the key exactly when stored; the mapping loses exactly that key; an absent key leaves the root unchanged; the root becomes empty exactly when it was a lone Entry with that key; the count drops by one on a hit |
| Choosers.DjbFrom | hash_test.py:36-37 | the masked accumulation is below 2^32 once a byte was taken |
| Choosers.DjbConcat | hash_test.py:35-37 | hashing a concatenation is hashing the first part and continuing with the second |
| Choosers.DjbHash | hash_test.py:33-38 | `djbhash` of several buffers is the hash of their concatenation, 5381 for no bytes, always below 2^32 |
| Choosers.UnmaskedThenMasked | hash_test.py:99-102 | masking once after the unmasked accumulation equals masking after every step |
| Choosers.ShuffleHashIsDjb | hash_test.py:99-102 | the perfect-shuffle chooser's message hash is `djbhash` of the message |
| Choosers.Bsearch | hash_test.py:47-61 | for any input, a valid index of a nonempty sequence and 0 for an empty one; on a sorted sequence, the first index whose element is at least the key, or 0 when all are below it |
| Choosers.ConsistentFind | hash_test.py:69-72 | on a sorted ring, the worker at the first position at or after the message hash, or at position 0 past the end; none on an empty ring |
| Choosers.Shuffled | hash_test.py:104-111 | the shuffle holds one worker per input worker, and its hash stays below 2^32 |
| Choosers.ShuffledPermutes | hash_test.py:104-111 | the shuffle is a permutation of the workers |
| Choosers.Shuffle | hash_test.py:103-111 | the shuffle loop computes `Shuffled`, a permutation of the workers, with the hash below 2^32 |
| Choosers.PerfectShuffleFind | hash_test.py:98-113 | none for no workers (IndexError); otherwise the first worker of the shuffle seeded by `djbhash(m)`, one of the workers |
| Choosers.MinIndex | hash_test.py:91 | `min` by key: an index whose hash is no greater than any other, and strictly smaller than every earlier one |
| Choosers.RendezvousFind | hash_test.py:89-92 | none for no workers; otherwise a worker with the smallest `hash(m, w)`, the earliest among ties |

## Left out

- UTF-8 encoding of `str` arguments: keys and prefixes are byte strings.
- The md5 helpers (`_make_hash`, `_make_bhash`, `md5`, `md5b`) are library hashes. The rendezvous and consistent-hashing choosers take the hash as a function parameter.
- Randomness. `random_walk`'s `rng.randrange` draws are the stream `draw`: the k-th call is answered by `draw(k)`. The model does not require a draw to be below `count`; nothing in the proofs needs that. The uuid virtual nodes, `random.shuffle` and the seeding of `random.Random(message)` are left out. Uniformity of the random walk is not claimed.
- The `trie_chooser` closure is a loop of `Tree.insert` followed by `Tree.RandomWalk`; it is not modelled separately.
- The construction of the consistent-hashing ring (`uuid` vnodes and `sorted`) is left out. `ConsistentFind` takes the sorted ring as given. The `ValueError` that `zip(*[])` raises for no workers appears as "no worker".
- Timing, `Counter`, `statistics`, printing, `__str__` and both `__main__` blocks are benchmark I/O.
- Node and Entry objects are modelled as values. The in-place writes to child slots become the construction of the replacement subtree, which is what the methods return. Aliasing of node objects is not modelled.
- The check that the new Node has both children (trie.py:305-306) is not modelled as an error. The splice builds the new Node with both slots filled, so that AssertionError cannot occur.
- Lazy generators (`traverse`, `traverse_prefix`) are modelled as the finished sequence.
- `Tree.lookup` and `Tree.random_walk` return Python `None` both for "not found" and for a stored `None` value. The model separates the two with an Option.
- CritbitTree.Tree.Insert follows the code as written. It uses `CritBit`, so it can fail for keys that differ only after zero padding. The corrected `CritBitPadded` stands beside it and is not used by the class.
- CritbitTree.Tree.FirstEntryGreaterThan follows the code as written. It promises a greater key, not the least one (see Findings).
- CritbitTree.Tree.TraversePrefix follows the code as written. Its contract still admits an "absent" answer while a stored key has the prefix, when the prefix ends in a zero byte. That needs a stored key `e` beside a stored key starting with `e` followed by a zero byte. Such a trie satisfies `Tree.Valid()`, but `Tree.Insert` never builds one: the critical bit as written refuses exactly that pair (row 3 of Findings). `Tree.Valid()` does not record this, so the contract keeps the zero-byte case.

## Findings

The `Tree` class keeps the behaviour of the code as written, so that it can be compared with the source line by line. Each corrected definition is proved on its own, next to the as-written member. `TrieQuery.FirstGreaterNotLeast` shows the two first-greater searches answering differently on one trie. `KeyBits.CritBitPaddedAgrees` shows that the corrected critical bit equals the as-written one wherever the latter exists. `TrieQuery.PrefixCheckAgrees` shows that the corrected prefix search gives the as-written answer wherever the as-written check passes.

| source | as written | input that shows it | evidently intended | confidence | as-written member | corrected member |
|---|---|---|---|---|---|---|
| trie.py:80-86 | `first_greater_than` searches only the query's side. It searches child 1 only after child 0 found nothing. When the query goes to child 1, the smaller greater keys in child 0 are never looked at. | keys `b"a0"`, `b"a1"` (one Node at byte 1, mask 1); `first_entry_greater_than(b"a\x01")` returns `b"a1"` | the least stored key greater than the query | not executed | TrieQuery.FirstGreaterNotLeast | TrieQuery.FirstGreaterLeastIsLeast |
| trie.py:154-164 | the critical byte is taken as the common-prefix length, and both bytes there are zero-padded. Keys that differ only after one of them has ended give XOR 0 there, and the code raises | `insert(b"a", …)` then `insert(b"a\x00\x05", …)` raises `AssertionError('what')` | the first byte where the zero-padded keys differ (here byte 2, mask 4) | not executed | KeyBits.CritBitSpuriousFailure | KeyBits.CritBitPadded |
| trie.py:272-275 | the prefix check walks the prefix below the top and tests one walked key. A shorter key that matches the prefix padded with zeros can be walked to instead of a longer key that truly starts with the prefix. | keys `b"a"`, `b"a\x00\x01"`, `b"b"`; `traverse_prefix(b"a\x00")` returns None. This trie is built by inserting `b"b"`, `b"a"`, `b"a\x00\x01"` with the corrected critical bit of row 2; with the critical bit as written the third insert raises, so this row shows once row 2 is fixed | every stored entry whose key starts with the prefix | not executed | TrieQuery.PrefixCheckMissesKey | TrieQuery.PrefixEntriesExact |
