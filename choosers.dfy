/** The worker-selection helpers of the benchmark: Bernstein's djb hash, the
    lower-bound binary search behind consistent hashing, the perfect-shuffle chooser
    and the rendezvous chooser. Hash functions that come from a library are
    parameters. */
module Choosers {
  import opened Options

  type Bytes = seq<bv8>

  /** Results are masked with `& 4294967295`, i.e. taken modulo 2^32. */
  const Mod32: nat := 0x1_0000_0000

  /** The djb starting value. */
  const DjbSeed: nat := 5381

  // ---------------------------------------------------------------------------
  // djbhash

  /** One masked step: `((h << 5) + h) + b`, kept to 32 bits. */
  function DjbStep(h: nat, b: bv8): nat
  {
    (h * 32 + h + b as int) % Mod32
  }

  /** The masked accumulation of the bytes of `m` in order, starting from `h`. */
  function DjbFrom(h: nat, m: Bytes): (r: nat)
    ensures m == [] ==> r == h
    ensures m != [] || h < Mod32 ==> r < Mod32
  {
    if m == [] then h else DjbStep(DjbFrom(h, m[..|m| - 1]), m[|m| - 1])
  }

  /** djb of a byte string. */
  function Djb(m: Bytes): nat
  {
    DjbFrom(DjbSeed, m)
  }

  /** All buffers one after another. */
  function Flatten(bufs: seq<Bytes>): (r: Bytes)
    ensures bufs == [] ==> r == []
  {
    if bufs == [] then [] else Flatten(bufs[..|bufs| - 1]) + bufs[|bufs| - 1]
  }

  /** Accumulating over a concatenation is accumulating over the first part and then
      continuing over the second. */
  lemma {:induction false} DjbConcat(h: nat, a: Bytes, b: Bytes)
    ensures DjbFrom(h, a + b) == DjbFrom(DjbFrom(h, a), b)
  {
    if b == [] {
      assert a + b == a;
    } else {
      assert (a + b)[..|a + b| - 1] == a + b[..|b| - 1];
      assert (a + b)[|a + b| - 1] == b[|b| - 1];
      DjbConcat(h, a, b[..|b| - 1]);
    }
  }

  /** `djbhash(*m)`: every byte of every buffer, in order, through the masked step.
      The result is the hash of the concatenated buffers: 5381 for no bytes at all,
      and always below 2^32. */
  method DjbHash(m: seq<Bytes>) returns (h: nat)
    ensures h == Djb(Flatten(m))
    ensures Flatten(m) == [] ==> h == DjbSeed
    ensures h < Mod32
  {
    h := DjbSeed;
    for i := 0 to |m|
      invariant h == Djb(Flatten(m[..i]))
    {
      var a := m[i];
      ghost var start := h;
      for j := 0 to |a|
        invariant h == DjbFrom(start, a[..j])
      {
        assert a[..j + 1][..j] == a[..j];
        h := (((h * 32) + h) + a[j] as int) % Mod32;
      }
      assert a[..|a|] == a;
      assert m[..i + 1][..i] == m[..i];
      DjbConcat(DjbSeed, Flatten(m[..i]), a);
    }
    assert m[..|m|] == m;
  }

  /** The accumulation without the mask, as the perfect-shuffle chooser does it. */
  function UnmaskedFrom(h: nat, m: Bytes): nat
  {
    if m == [] then h else UnmaskedFrom(h, m[..|m| - 1]) * 32 + UnmaskedFrom(h, m[..|m| - 1]) + m[|m| - 1] as int
  }

  lemma {:induction false} ModShift(x: nat, k: nat)
    ensures (x + k * Mod32) % Mod32 == x % Mod32
  {
    if k > 0 {
      ModShift(x, k - 1);
      assert x + k * Mod32 == (x + (k - 1) * Mod32) + Mod32;
    }
  }

  lemma MulMod(u: nat, d: nat, b: nat)
    requires u % Mod32 == d % Mod32
    ensures (u * 33 + b) % Mod32 == (d * 33 + b) % Mod32
  {
    var r := u % Mod32;
    var qu, qd := u / Mod32, d / Mod32;
    assert u == qu * Mod32 + r && d == qd * Mod32 + r;
    assert u * 33 + b == (r * 33 + b) + (qu * 33) * Mod32 by {
      assert u * 33 == (qu * Mod32) * 33 + r * 33;
    }
    assert d * 33 + b == (r * 33 + b) + (qd * 33) * Mod32 by {
      assert d * 33 == (qd * Mod32) * 33 + r * 33;
    }
    ModShift(r * 33 + b, qu * 33);
    ModShift(r * 33 + b, qd * 33);
  }

  /** Masking once at the end gives the same value as masking after every step. */
  lemma {:induction false} UnmaskedThenMasked(h: nat, m: Bytes)
    ensures UnmaskedFrom(h, m) % Mod32 == DjbFrom(h, m) % Mod32
  {
    if m != [] {
      var m' := m[..|m| - 1];
      UnmaskedThenMasked(h, m');
      var u, d := UnmaskedFrom(h, m'), DjbFrom(h, m');
      MulMod(u, d, m[|m| - 1] as int);
      assert UnmaskedFrom(h, m) == u * 33 + m[|m| - 1] as int;
    }
  }

  /** The perfect-shuffle chooser's hash of a message is `djbhash` of it. */
  lemma ShuffleHashIsDjb(m: Bytes)
    ensures UnmaskedFrom(DjbSeed, m) % Mod32 == Djb(m)
  {
    UnmaskedThenMasked(DjbSeed, m);
  }

  // ---------------------------------------------------------------------------
  // bsearch and the consistent-hashing chooser

  predicate Sorted(s: seq<int>)
  {
    forall i, j :: 0 <= i < j < |s| ==> s[i] <= s[j]
  }

  /** `bsearch`: a lower-bound binary search that wraps to 0. Whatever the input, the
      result is a valid index of a nonempty sequence and 0 for an empty one. On a
      sorted sequence it is the first index whose element is at least the key, or 0
      when every element is below the key. */
  method Bsearch(key: int, workers: seq<int>) returns (best: nat)
    ensures workers == [] ==> best == 0
    ensures workers != [] ==> best < |workers|
    ensures Sorted(workers) && (exists i :: 0 <= i < |workers| && workers[i] >= key) ==>
      && workers[best] >= key
      && forall i :: 0 <= i < best ==> workers[i] < key
    ensures Sorted(workers) && (forall i :: 0 <= i < |workers| ==> workers[i] < key) ==> best == 0
  {
    var lo, hi := 0, |workers|;
    best := 0;
    while lo < hi
      invariant 0 <= lo <= hi <= |workers|
      invariant Sorted(workers) ==> forall i :: 0 <= i < lo ==> workers[i] < key
      invariant Sorted(workers) ==> forall i :: hi <= i < |workers| ==> workers[i] >= key
      invariant hi == |workers| ==> best == 0
      invariant hi < |workers| ==> best == hi
      decreases hi - lo
    {
      var mid := (hi + lo) / 2;
      var pivot := workers[mid];
      if pivot < key {
        lo, hi := mid + 1, hi;
      } else {
        lo, hi := lo, mid;
        best := mid;
      }
    }
  }

  /** The consistent-hashing `find`: the worker at the ring position `bsearch`
      returns for the message's hash. `hashes` is the sorted ring of virtual-node
      hashes and `ring` the worker of each position. An empty ring has no worker.
      Otherwise the worker sits at the first position at or after the message's
      hash, or at position 0 when the hash is past the end of the ring. */
  method ConsistentFind<W>(hash: Bytes -> int, message: Bytes, hashes: seq<int>, ring: seq<W>)
    returns (r: Option<W>)
    requires |hashes| == |ring| && Sorted(hashes)
    ensures r.None? <==> ring == []
    ensures r.Some? ==>
      exists o :: 0 <= o < |ring| && r.value == ring[o] &&
        if hashes[o] >= hash(message) then forall i :: 0 <= i < o ==> hashes[i] < hash(message)
        else o == 0 && forall i :: 0 <= i < |hashes| ==> hashes[i] < hash(message)
  {
    var h := hash(message);
    var o := Bsearch(h, hashes);
    if o >= |ring| {
      return None;
    }
    r := Some(ring[o]);
  }

  // ---------------------------------------------------------------------------
  // The perfect-shuffle chooser

  /** The shuffle's list of workers and its hash after the inside-out shuffle has
      taken in the workers of `ws`, from hash `h`: at step `c`, position
      `pos := (h >> 13) % (c + 1)` is drawn, the hash advances by `pos`, and the new
      worker goes to `pos` while the worker there (if any) moves to the end. */
  function Shuffled<W>(h: nat, ws: seq<W>): (st: (seq<W>, nat))
    ensures |st.0| == |ws|
    ensures ws != [] || h < Mod32 ==> st.1 < Mod32
  {
    if ws == [] then ([], h)
    else
      var (choice, g) := Shuffled(h, ws[..|ws| - 1]);
      var c := |ws| - 1;
      var pos := (g / 8192) % (c + 1);
      var g' := (g * 32 + g + pos) % Mod32;
      if pos != c then ((choice + [choice[pos]])[pos := ws[c]], g') else (choice + [ws[c]], g')
  }

  /** The shuffle is a permutation: it holds each worker as often as `ws` does. */
  lemma {:induction false} ShuffledPermutes<W>(h: nat, ws: seq<W>)
    ensures multiset(Shuffled(h, ws).0) == multiset(ws)
  {
    if ws != [] {
      var ws' := ws[..|ws| - 1];
      ShuffledPermutes(h, ws');
      var (choice, g) := Shuffled(h, ws');
      var c := |ws| - 1;
      var pos := (g / 8192) % (c + 1);
      assert ws == ws' + [ws[c]];
      if pos != c {
        var grown := choice + [choice[pos]];
        assert multiset(grown[pos := ws[c]]) == multiset(grown) - multiset{choice[pos]} + multiset{ws[c]};
      }
    }
  }

  /** The shuffle loop of the perfect-shuffle `find`, from hash `h0`. */
  method Shuffle<W>(h0: nat, workers: seq<W>) returns (choice: seq<W>, h: nat)
    requires h0 < Mod32
    ensures (choice, h) == Shuffled(h0, workers)
    ensures multiset(choice) == multiset(workers) && h < Mod32
  {
    choice, h := [], h0;
    for c := 0 to |workers|
      invariant (choice, h) == Shuffled(h0, workers[..c])
      invariant |choice| == c && h < Mod32
    {
      var w := workers[c];
      var pos := (h / 8192) % (c + 1);
      assert 0 <= pos <= c;
      h := (((h * 32) + h) + pos) % Mod32;
      if pos != c {
        choice := choice + [choice[pos]];
        choice := choice[pos := w];
      } else {
        choice := choice + [w];
      }
      assert workers[..c + 1][..c] == workers[..c];
    }
    assert workers[..|workers|] == workers;
    ShuffledPermutes(h0, workers);
  }

  /** The perfect-shuffle `find`: hash the message with the unmasked djb loop, mask
      once, shuffle the workers and take the first. No worker for an empty list (the
      IndexError); otherwise the first of the shuffle seeded by `djbhash(m)`, which
      is one of the workers. */
  method PerfectShuffleFind<W>(m: Bytes, workers: seq<W>) returns (r: Option<W>)
    ensures r.None? <==> workers == []
    ensures r.Some? ==> r.value == Shuffled(Djb(m), workers).0[0]
    ensures r.Some? ==> r.value in workers
  {
    var h: nat := DjbSeed;
    for i := 0 to |m|
      invariant h == UnmaskedFrom(DjbSeed, m[..i])
    {
      assert m[..i + 1][..i] == m[..i];
      h := ((h * 32) + h) + m[i] as int;
    }
    assert m[..|m|] == m;
    h := h % Mod32;
    ShuffleHashIsDjb(m);
    var choice, _ := Shuffle(h, workers);
    if |choice| == 0 {
      return None;
    }
    assert choice[0] in multiset(workers);
    r := Some(choice[0]);
  }

  // ---------------------------------------------------------------------------
  // The rendezvous chooser

  /** Python's `min` over `ws` keyed by `hash(m, w)`: scanning left to right, a later
      worker replaces the current one only when its hash is strictly smaller. The
      index found has a hash no greater than any other, and every earlier worker's
      hash is strictly greater (ties go to the earliest). */
  function MinIndex<W>(hash: (Bytes, W) -> int, m: Bytes, ws: seq<W>): (i: nat)
    requires ws != []
    ensures i < |ws|
    ensures forall j :: 0 <= j < |ws| ==> hash(m, ws[i]) <= hash(m, ws[j])
    ensures forall j :: 0 <= j < i ==> hash(m, ws[i]) < hash(m, ws[j])
  {
    if |ws| == 1 then 0
    else
      var i := MinIndex(hash, m, ws[..|ws| - 1]);
      if hash(m, ws[|ws| - 1]) < hash(m, ws[i]) then |ws| - 1 else i
  }

  /** The rendezvous `find`: no worker for an empty list (`min` fails), otherwise the
      worker whose `hash(m, w)` is smallest, the earliest one among equals. */
  function RendezvousFind<W>(hash: (Bytes, W) -> int, m: Bytes, workers: seq<W>): (r: Option<W>)
    ensures r.None? <==> workers == []
    ensures r.Some? ==>
      exists i ::
        && 0 <= i < |workers| && r.value == workers[i]
        && (forall j :: 0 <= j < |workers| ==> hash(m, workers[i]) <= hash(m, workers[j]))
        && (forall j :: 0 <= j < i ==> hash(m, workers[i]) < hash(m, workers[j]))
  {
    if workers == [] then None else Some(workers[MinIndex(hash, m, workers)])
  }
}
