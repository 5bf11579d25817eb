/** Byte-string keys and the critical-bit arithmetic of the critbit trie:
    the zero-padded byte read at a position, the single-bit direction test,
    the critical bit of two keys, and the order in which critical bits nest. */
module KeyBits {
  import opened Options

  /** A key is a byte string. */
  type Key = seq<bv8>

  /** The byte of `k` at `p`, or 0 past its end (keys are zero-padded). */
  function ByteAt(k: Key, p: nat): bv8
  {
    if p < |k| then k[p] else 0
  }

  /** `Node.direction`: true selects child 1, false child 0. */
  predicate Dir(p: nat, m: bv8, k: Key)
  {
    m & ByteAt(k, p) == m
  }

  /** The source's own test for "exactly one bit set". */
  predicate PowerOfTwo(m: bv8)
  {
    m != 0 && m & (m - 1) == 0
  }

  /** The bits of a byte strictly more significant than the single bit `m`. */
  function Above(m: bv8): bv8
  {
    !(m | (m - 1))
  }

  /** A critical bit: a byte position and a one-bit mask within that byte. */
  datatype Crit = Crit(pos: nat, mask: bv8)

  /** Bit (p1, m1) is examined before (is less specific than) bit (p2, m2):
      an earlier byte, or the same byte and a more significant bit. */
  predicate Less(p1: nat, m1: bv8, p2: nat, m2: bv8)
  {
    p1 < p2 || (p1 == p2 && m1 > m2)
  }

  /** Keys `a` and `b`, zero-padded, agree on every bit examined before (p, m). */
  predicate AgreeAbove(a: Key, b: Key, p: nat, m: bv8)
  {
    && (forall j: nat :: j < p ==> ByteAt(a, j) == ByteAt(b, j))
    && (ByteAt(a, p) ^ ByteAt(b, p)) & Above(m) == 0
  }

  /** Both keys agree on all bits before (p, m) and are split by (p, m) itself. */
  predicate SplitBy(a: Key, b: Key, c: Crit)
  {
    PowerOfTwo(c.mask) && AgreeAbove(a, b, c.pos, c.mask) && Dir(c.pos, c.mask, a) != Dir(c.pos, c.mask, b)
  }

  /** Python's `bytes.startswith`. */
  predicate StartsWith(k: Key, prefix: Key)
  {
    |prefix| <= |k| && k[..|prefix|] == prefix
  }

  /** Keys equal once both are padded with zero bytes. */
  ghost predicate PaddedEqual(a: Key, b: Key)
  {
    forall j: nat :: ByteAt(a, j) == ByteAt(b, j)
  }

  // ---------------------------------------------------------------------------
  // Single-byte facts, decided by bit-blasting

  lemma AboveNarrows(x: bv8, m: bv8, n: bv8)
    requires PowerOfTwo(m) && PowerOfTwo(n) && n > m
    requires x & Above(m) == 0
    ensures x & Above(n) == 0 && x & n == 0
  {
  }

  lemma AboveXor(x: bv8, y: bv8, m: bv8)
    requires x & Above(m) == 0 && y & Above(m) == 0
    ensures (x ^ y) & Above(m) == 0
  {
  }

  lemma SameBit(a: bv8, b: bv8, n: bv8)
    requires (a ^ b) & n == 0
    ensures (n & a == n) <==> (n & b == n)
  {
  }

  lemma SplitByteOrder(a: bv8, b: bv8, m: bv8)
    requires PowerOfTwo(m) && (a ^ b) & Above(m) == 0
    requires m & a != m && m & b == m
    ensures a < b
  {
  }

  /** The most significant set bit of a nonzero byte. */
  function HighBit(x: bv8): (h: bv8)
    requires x != 0
    ensures PowerOfTwo(h) && x & h == h && x & Above(h) == 0
  {
    if x & 0x80 != 0 then 0x80
    else if x & 0x40 != 0 then 0x40
    else if x & 0x20 != 0 then 0x20
    else if x & 0x10 != 0 then 0x10
    else if x & 0x08 != 0 then 0x08
    else if x & 0x04 != 0 then 0x04
    else if x & 0x02 != 0 then 0x02
    else 0x01
  }

  /** The three properties of HighBit determine it: a set bit with nothing set above it. */
  lemma HighBitUnique(x: bv8, h: bv8)
    requires x != 0 && PowerOfTwo(h) && x & h == h && x & Above(h) == 0
    ensures h == HighBit(x)
  {
  }

  lemma ClearLowestKeepsHighBit(m: bv8)
    requires m != 0 && m & (m - 1) != 0
    ensures HighBit(m & (m - 1)) == HighBit(m)
    ensures m & (m - 1) < m
  {
  }

  lemma PowerOfTwoIsOwnHighBit(m: bv8)
    requires PowerOfTwo(m)
    ensures HighBit(m) == m
  {
  }

  // ---------------------------------------------------------------------------
  // Agreement between keys

  /** Agreeing down to a bit implies agreeing at, and above, every earlier bit. */
  lemma AgreeWeaken(a: Key, b: Key, p: nat, m: bv8, q: nat, n: bv8)
    requires PowerOfTwo(m) && PowerOfTwo(n) && Less(q, n, p, m)
    requires AgreeAbove(a, b, p, m)
    ensures AgreeAbove(a, b, q, n)
    ensures Dir(q, n, a) <==> Dir(q, n, b)
  {
    if q < p {
      assert ByteAt(a, q) == ByteAt(b, q);
      SameBit(ByteAt(a, q), ByteAt(b, q), n);
    } else {
      AboveNarrows(ByteAt(a, p) ^ ByteAt(b, p), m, n);
      SameBit(ByteAt(a, q), ByteAt(b, q), n);
    }
  }

  lemma AgreeTrans(a: Key, b: Key, c: Key, p: nat, m: bv8)
    requires AgreeAbove(a, b, p, m) && AgreeAbove(b, c, p, m)
    ensures AgreeAbove(a, c, p, m)
  {
    var x, y := ByteAt(a, p) ^ ByteAt(b, p), ByteAt(b, p) ^ ByteAt(c, p);
    AboveXor(x, y, m);
    assert x ^ y == ByteAt(a, p) ^ ByteAt(c, p);
  }

  lemma AgreeSym(a: Key, b: Key, p: nat, m: bv8)
    requires AgreeAbove(a, b, p, m)
    ensures AgreeAbove(b, a, p, m)
  {
    assert ByteAt(b, p) ^ ByteAt(a, p) == ByteAt(a, p) ^ ByteAt(b, p);
  }

  lemma AgreeRefl(a: Key, p: nat, m: bv8)
    ensures AgreeAbove(a, a, p, m)
  {
    assert ByteAt(a, p) ^ ByteAt(a, p) == 0;
  }

  /** Padded-equal keys take the same direction at every bit. */
  lemma PaddedEqualDir(a: Key, b: Key, p: nat, m: bv8)
    requires PaddedEqual(a, b)
    ensures Dir(p, m, a) <==> Dir(p, m, b)
  {
    assert ByteAt(a, p) == ByteAt(b, p);
  }

  // ---------------------------------------------------------------------------
  // Lexicographic order of byte strings (Python's `<` on bytes)

  /** `a < b` bytewise, a proper prefix sorting first. */
  predicate LexLess(a: Key, b: Key)
  {
    if |a| == 0 then |b| > 0
    else |b| > 0 && (a[0] < b[0] || (a[0] == b[0] && LexLess(a[1..], b[1..])))
  }

  /** Two keys split at (p, m), `a` on the 0 side and `b` on the 1 side: `a` sorts first. */
  lemma {:induction false} SplitOrder(a: Key, b: Key, p: nat, m: bv8)
    requires PowerOfTwo(m) && AgreeAbove(a, b, p, m)
    requires !Dir(p, m, a) && Dir(p, m, b)
    ensures LexLess(a, b)
    decreases p
  {
    assert ByteAt(b, p) != 0;
    if p == 0 {
      SplitByteOrder(ByteAt(a, 0), ByteAt(b, 0), m);
    } else {
      assert ByteAt(a, 0) == ByteAt(b, 0);
      if |a| > 0 {
        var a', b' := a[1..], b[1..];
        forall j: nat | j < p - 1 ensures ByteAt(a', j) == ByteAt(b', j) {
          assert ByteAt(a', j) == ByteAt(a, j + 1) && ByteAt(b', j) == ByteAt(b, j + 1);
        }
        assert ByteAt(a', p - 1) == ByteAt(a, p) && ByteAt(b', p - 1) == ByteAt(b, p);
        SplitOrder(a', b', p - 1, m);
      }
    }
  }

  lemma {:induction false} LexLessIrreflexive(a: Key)
    ensures !LexLess(a, a)
  {
    if |a| > 0 {
      LexLessIrreflexive(a[1..]);
    }
  }

  lemma {:induction false} LexLessTrans(a: Key, b: Key, c: Key)
    requires LexLess(a, b) && LexLess(b, c)
    ensures LexLess(a, c)
  {
    if |a| > 0 && a[0] == b[0] && b[0] == c[0] {
      LexLessTrans(a[1..], b[1..], c[1..]);
    }
  }

  /** Python's bytes order is total. */
  lemma {:induction false} LexLessTotal(a: Key, b: Key)
    ensures a == b || LexLess(a, b) || LexLess(b, a)
  {
    if |a| > 0 && |b| > 0 && a[0] == b[0] {
      LexLessTotal(a[1..], b[1..]);
      if a[1..] == b[1..] {
        assert a == [a[0]] + a[1..] && b == [b[0]] + b[1..];
      }
    }
  }

  lemma {:induction false} LexLessAsym(a: Key, b: Key)
    requires LexLess(a, b)
    ensures !LexLess(b, a)
  {
    if |a| > 0 && a[0] == b[0] {
      LexLessAsym(a[1..], b[1..]);
    }
  }

  // ---------------------------------------------------------------------------
  // from_smallest_prefix_of

  /** `os.path.commonprefix` of two byte strings: the length of their longest common prefix. */
  function CommonPrefixLength(a: Key, b: Key): (n: nat)
    ensures n <= |a| && n <= |b| && a[..n] == b[..n]
    ensures n == |a| || n == |b| || a[n] != b[n]
  {
    if |a| == 0 || |b| == 0 || a[0] != b[0] then 0
    else 1 + CommonPrefixLength(a[1..], b[1..])
  }

  /** Two different bytes are split by the high bit of their XOR. */
  lemma HighBitSplits(u: bv8, w: bv8) returns (h: bv8)
    requires u != w
    ensures h == HighBit(w ^ u) && PowerOfTwo(h)
    ensures (u ^ w) & Above(h) == 0
    ensures (h & u == h) != (h & w == h)
  {
    h := HighBit(w ^ u);
    assert u ^ w == w ^ u;
  }

  /** Keys equal on every byte before `p` and different at `p` are split by the
      high bit of the XOR of their bytes at `p`. */
  lemma SplitAtByte(a: Key, b: Key, p: nat)
    requires forall j: nat :: j < p ==> ByteAt(a, j) == ByteAt(b, j)
    requires ByteAt(a, p) != ByteAt(b, p)
    ensures SplitBy(a, b, Crit(p, HighBit(ByteAt(b, p) ^ ByteAt(a, p))))
  {
    var h := HighBitSplits(ByteAt(a, p), ByteAt(b, p));
    SplitByBit(a, b, p, h);
  }

  lemma SplitByBit(a: Key, b: Key, p: nat, h: bv8)
    requires forall j: nat :: j < p ==> ByteAt(a, j) == ByteAt(b, j)
    requires PowerOfTwo(h) && (ByteAt(a, p) ^ ByteAt(b, p)) & Above(h) == 0
    requires (h & ByteAt(a, p) == h) != (h & ByteAt(b, p) == h)
    ensures SplitBy(a, b, Crit(p, h))
  {
  }

  /** The critical bit as the source computes it: the position is the common prefix
      length, the mask the high bit of the XOR of the padded bytes there; None where
      that XOR is 0 (the source raises). */
  function CritBit(a: Key, b: Key): (r: Option<Crit>)
    ensures r.Some? ==> r.value.pos == CommonPrefixLength(a, b)
    ensures r.Some? ==> SplitBy(a, b, r.value)
    ensures r.None? <==> ByteAt(a, CommonPrefixLength(a, b)) == ByteAt(b, CommonPrefixLength(a, b))
  {
    var p := CommonPrefixLength(a, b);
    var x := ByteAt(b, p) ^ ByteAt(a, p);
    if x == 0 then None
    else
      assert forall j: nat :: j < p ==> a[..p][j] == b[..p][j];
      SplitAtByte(a, b, p);
      Some(Crit(p, HighBit(x)))
  }

  /** The first position from `p` on where the zero-padded keys differ. */
  function FirstPaddedDiff(a: Key, b: Key, p: nat): (r: Option<nat>)
    ensures r.Some? ==> p <= r.value && ByteAt(a, r.value) != ByteAt(b, r.value)
    ensures r.Some? ==> forall j: nat :: p <= j < r.value ==> ByteAt(a, j) == ByteAt(b, j)
    ensures r.None? ==> forall j: nat :: p <= j ==> ByteAt(a, j) == ByteAt(b, j)
    decreases |a| + |b| - p
  {
    if p >= |a| && p >= |b| then None
    else if ByteAt(a, p) != ByteAt(b, p) then Some(p)
    else FirstPaddedDiff(a, b, p + 1)
  }

  /** The critical bit the zero-padding comment intends: the first byte where the
      padded keys differ. It exists exactly for keys that differ after padding. */
  function CritBitPadded(a: Key, b: Key): (r: Option<Crit>)
    ensures r.None? <==> PaddedEqual(a, b)
    ensures r.Some? ==> SplitBy(a, b, r.value)
  {
    match FirstPaddedDiff(a, b, 0)
    case None => None
    case Some(p) =>
      SplitAtByte(a, b, p);
      Some(Crit(p, HighBit(ByteAt(b, p) ^ ByteAt(a, p))))
  }

  /** Wherever the source finds a critical bit, it is the intended one. */
  lemma CritBitPaddedAgrees(a: Key, b: Key)
    requires CritBit(a, b).Some?
    ensures CritBitPadded(a, b) == CritBit(a, b)
  {
    var p := CommonPrefixLength(a, b);
    assert forall j: nat :: j < p ==> a[..p][j] == b[..p][j];
    var q := FirstPaddedDiff(a, b, 0);
    assert q.Some? && q.value == p;
  }

  /** Where the source raises for distinct keys: "a" and "a\x00\x05" share the
      prefix "a" and both have a zero (padded) byte after it, so the XOR there is
      0; they still differ, at byte 2. */
  lemma CritBitSpuriousFailure()
    ensures var a: Key, b: Key := [0x61], [0x61, 0x00, 0x05];
      && CritBit(a, b).None?
      && !PaddedEqual(a, b)
      && CritBitPadded(a, b) == Some(Crit(2, 4))
  {
    var a: Key, b: Key := [0x61], [0x61, 0x00, 0x05];
    assert CommonPrefixLength(a, b) == 1 by {
      assert a[1..] == [];
    }
    assert ByteAt(a, 2) != ByteAt(b, 2);
    assert FirstPaddedDiff(a, b, 0) == Some(2) by {
      assert FirstPaddedDiff(a, b, 2) == Some(2);
    }
  }

  /** Equal keys have no critical bit. */
  lemma CritBitOfEqualKeys(a: Key)
    ensures CritBit(a, a).None?
  {
  }

  /** The narrowing loop of `Node.from_smallest_prefix_of`: clear the lowest set
      bit (`x & (x - 1)`) until a single bit, the most significant one, is left. */
  method ClearToHighBit(x: bv8) returns (mask: bv8)
    requires x != 0
    ensures mask == HighBit(x)
  {
    mask := x;
    while mask & (mask - 1) != 0
      invariant mask != 0 && HighBit(mask) == HighBit(x)
      decreases mask
    {
      ClearLowestKeepsHighBit(mask);
      mask := mask & (mask - 1);
    }
    PowerOfTwoIsOwnHighBit(mask);
  }

  /** `Node.from_smallest_prefix_of`: position and mask of the critical bit of two
      keys. None models the AssertionError raised when the XOR at that position is 0. */
  method FromSmallestPrefixOf(a: Key, b: Key) returns (r: Option<Crit>)
    ensures r == CritBit(a, b)
  {
    var p := CommonPrefixLength(a, b);
    var x := ByteAt(b, p) ^ ByteAt(a, p);
    if x == 0 {
      return None;
    }
    var mask := ClearToHighBit(x);
    r := Some(Crit(p, mask));
  }
}
