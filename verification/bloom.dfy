/** A single Bloom filter: a packed array of 64-bit words, a bit count
    `nbits`, a probe count `nhashes` and the counter `one` of 0-to-1 bit
    transitions.

    The keyed 128-bit hash of a key is a parameter of type `Hasher`: it stands
    for the SipHash call with the filter's fixed key pair, which is not part of
    this model. Every operation that probes takes the same `hash`, and every
    property below holds for every choice of it. */
module Bloom {
  import opened Words

  /** The two 64-bit halves `(a, b)` the keyed hash derives from a key. */
  datatype HashPair = HashPair(a: u64, b: u64)

  type Hasher = seq<byte> -> HashPair

  datatype Filter = Filter(bits: seq<bv64>, nbits: u64, nhashes: u64, one: u64)

  /** The shape `New` gives a filter: `nbits` is a multiple of the word
      width and there is exactly one word per 64 bits. */
  predicate Shaped(f: Filter)
  {
    f.nbits % WordBits == 0 && |f.bits| * WordBits == f.nbits
  }

  /** What probing needs: a non-zero modulus for `% nbits`, every bit index
      below `nbits` inside the word array, and a probe count whose
      `h <= nhashes` loop over a `uint64` counter exits (see `ProbeLoop`). */
  predicate Probeable(f: Filter)
  {
    0 < f.nbits <= |f.bits| * WordBits && f.nhashes < MaxU64
  }

  /** The in-word position of bit index `i` (`bloom.go`'s `i & mod`). */
  function BitPos(i: nat): (s: bv7)
    ensures s < 64
  {
    Shift(i % WordBits)
  }

  /** Whether flat bit `i` is 1: word `i >> div`, bit `i & mod`. An index
      past the word array reads as 0. */
  predicate IsSet(f: Filter, i: nat)
  {
    i / WordBits < |f.bits| && TestBit(f.bits[i / WordBits], BitPos(i))
  }

  /** Every 1 bit of the word array (its population). */
  ghost function SetBits(f: Filter): (r: set<nat>)
  {
    set i: nat | i < |f.bits| * WordBits && IsSet(f, i)
  }

  /** The counter `one` agrees with the population of the words. */
  ghost predicate Counted(f: Filter)
  {
    f.one == |SetBits(f)|
  }

  ghost function Elems(idxs: seq<nat>): (r: set<nat>)
  {
    set i | i in idxs
  }

  /** The integer part of Go's `New`: `m` (the optimal bit count,
      computed there in floating point) is rounded up to a whole number of
      words with `((m + mod) >> div) * word`, where `m + mod` is a `uint64`
      sum, and `nbits >> div` zero words are allocated. `n` is the expected
      element count, which only decides whether `New` panics. */
  function New(n: int, m: u64, nhashes: u64): (f: Filter)
    requires n >= 0
    ensures Shaped(f)
    ensures m <= U64Modulus - WordBits ==> m <= f.nbits < m + WordBits
    ensures m > U64Modulus - WordBits ==> f.nbits == 0
    ensures forall k :: 0 <= k < |f.bits| ==> f.bits[k] == 0
    ensures f.nhashes == nhashes && f.one == 0
  {
    var nbits := (m + (WordBits - 1)) % U64Modulus / WordBits * WordBits;
    Filter(seq(nbits / WordBits, _ => 0), nbits, nhashes, 0)
  }

  /** Probe `h` of a key whose hash is `p`: `(a + h*b) % nbits`, where the
      product and the sum wrap around at 2^64 before the modulus is taken. */
  function Probe(p: HashPair, h: nat, nbits: u64): (i: nat)
    requires 0 < nbits
    ensures i < nbits
  {
    ((p.a + h * p.b) % U64Modulus) % nbits
  }

  /** The probes of hash `p` from `h` up to `nhashes` inclusive, in the
      order Go's loop visits them. */
  function ProbesFrom(p: HashPair, nbits: u64, nhashes: u64, h: nat): (r: seq<nat>)
    requires 0 < nbits
    requires h <= nhashes + 1
    ensures |r| == nhashes + 1 - h
    ensures forall k :: 0 <= k < |r| ==> r[k] == Probe(p, h + k, nbits)
    decreases nhashes + 1 - h
  {
    if h > nhashes then [] else [Probe(p, h, nbits)] + ProbesFrom(p, nbits, nhashes, h + 1)
  }

  /** The probe sequence of `key`: the one both `Add` and `Has` walk. It has
      `nhashes + 1` entries, since Go's loop runs `h = 0 .. nhashes`
      inclusive, and every entry addresses a word inside the array. */
  function Probes(f: Filter, hash: Hasher, key: seq<byte>): (r: seq<nat>)
    requires Probeable(f)
    ensures |r| == f.nhashes + 1
    ensures forall h :: 0 <= h < |r| ==> r[h] == Probe(hash(key), h, f.nbits)
    ensures forall h :: 0 <= h < |r| ==> r[h] < f.nbits && r[h] / WordBits < |f.bits|
  {
    ProbesFrom(hash(key), f.nbits, f.nhashes, 0)
  }

  /** Setting bit `i` of word `i / 64` changes that bit and no other. */
  lemma SetWordBit(f: Filter, i: nat)
    requires i / WordBits < |f.bits|
    ensures var g := f.(bits := f.bits[i / WordBits := SetBit(f.bits[i / WordBits], BitPos(i))]);
            forall j :: IsSet(g, j) <==> j == i || IsSet(f, j)
  {
    var g := f.(bits := f.bits[i / WordBits := SetBit(f.bits[i / WordBits], BitPos(i))]);
    forall j: nat
      ensures IsSet(g, j) <==> j == i || IsSet(f, j)
    {
      if j / WordBits == i / WordBits {
        SetBitOther(f.bits[i / WordBits], BitPos(i), BitPos(j));
        ShiftInjective(i % WordBits, j % WordBits);
      }
    }
  }

  /** One iteration of Go's insertion loop for bit index `i`: if the
      bit is 0 it is set and `one` is incremented (a `uint64` increment);
      if it is already 1 nothing changes. */
  function SetProbe(f: Filter, i: nat): (r: Filter)
    requires i / WordBits < |f.bits|
    ensures r.nbits == f.nbits && r.nhashes == f.nhashes && |r.bits| == |f.bits|
    ensures IsSet(r, i)
    ensures IsSet(f, i) ==> r == f
    ensures !IsSet(f, i) ==> r.one == WrapAdd(f.one, 1)
  {
    var w := f.bits[i / WordBits];
    if TestBit(w, BitPos(i)) then
      f
    else
      SetWordBit(f, i);
      f.(bits := f.bits[i / WordBits := SetBit(w, BitPos(i))], one := WrapAdd(f.one, 1))
  }

  /** One loop iteration sets bit `i` and changes no other bit. */
  lemma SetProbeFrame(f: Filter, i: nat)
    requires i / WordBits < |f.bits|
    ensures forall j :: IsSet(SetProbe(f, i), j) <==> j == i || IsSet(f, j)
  {
    if !IsSet(f, i) {
      SetWordBit(f, i);
    }
  }

  /** Runs the insertion loop body over the bit indices `idxs`, in order. */
  function SetAll(f: Filter, idxs: seq<nat>): (r: Filter)
    requires forall k :: 0 <= k < |idxs| ==> idxs[k] / WordBits < |f.bits|
    ensures r.nbits == f.nbits && r.nhashes == f.nhashes && |r.bits| == |f.bits|
    decreases |idxs|
  {
    if |idxs| == 0 then f else SetAll(SetProbe(f, idxs[0]), idxs[1..])
  }

  /** The bits set after the loop are exactly those set before plus
      `idxs`. */
  lemma {:induction false} SetAllFrame(f: Filter, idxs: seq<nat>)
    requires forall k :: 0 <= k < |idxs| ==> idxs[k] / WordBits < |f.bits|
    ensures forall i :: IsSet(SetAll(f, idxs), i) <==> IsSet(f, i) || i in idxs
    decreases |idxs|
  {
    if |idxs| > 0 {
      SetProbeFrame(f, idxs[0]);
      SetAllFrame(SetProbe(f, idxs[0]), idxs[1..]);
      assert forall i :: i in idxs <==> i == idxs[0] || i in idxs[1..];
    }
  }

  /** `AddBytes`: sets every probed bit of `key`. Nothing that was set is
      cleared, every probe is set afterwards, a bit that becomes set is one of
      the probes, and the dimensions are unchanged. */
  function Add(f: Filter, hash: Hasher, key: seq<byte>): (r: Filter)
    requires Probeable(f)
    ensures r.nbits == f.nbits && r.nhashes == f.nhashes && |r.bits| == |f.bits|
    ensures Probeable(r) && (Shaped(f) ==> Shaped(r))
    ensures forall i :: IsSet(f, i) ==> IsSet(r, i)
    ensures forall h :: 0 <= h <= f.nhashes ==> IsSet(r, Probe(hash(key), h, f.nbits))
    ensures forall i :: IsSet(r, i) && !IsSet(f, i) ==>
              exists h :: 0 <= h <= f.nhashes && i == Probe(hash(key), h, f.nbits)
  {
    var idxs := Probes(f, hash, key);
    var r := SetAll(f, idxs);
    SetAllFrame(f, idxs);
    assert forall h :: 0 <= h <= f.nhashes ==> idxs[h] in idxs;
    assert forall i :: i in idxs ==> exists h :: 0 <= h < |idxs| && i == idxs[h];
    r
  }

  /** Whether every bit index in `idxs` is set, checked in order and stopping
      at the first 0 bit. */
  function AllSet(f: Filter, idxs: seq<nat>): (r: bool)
    ensures r <==> forall k :: 0 <= k < |idxs| ==> IsSet(f, idxs[k])
    decreases |idxs|
  {
    |idxs| == 0 || (IsSet(f, idxs[0]) && AllSet(f, idxs[1..]))
  }

  /** `HasBytes`: true exactly when every probed bit of `key` is set, so
      false exactly when some probed bit is 0. */
  function Has(f: Filter, hash: Hasher, key: seq<byte>): (r: bool)
    requires Probeable(f)
    ensures r <==> forall h :: 0 <= h <= f.nhashes ==> IsSet(f, Probe(hash(key), h, f.nbits))
  {
    AllSet(f, Probes(f, hash, key))
  }

  /** `Info`: the probe count, the bit count and the counter `one`, in that
      order. */
  function Info(f: Filter): (r: (u64, u64, u64))
    ensures r.0 == f.nhashes && r.1 == f.nbits && r.2 == f.one
  {
    (f.nhashes, f.nbits, f.one)
  }

  /** Every bit index reads as 0 in a filter whose words are all zero. */
  lemma ZeroWordsClear(f: Filter)
    requires forall k :: 0 <= k < |f.bits| ==> f.bits[k] == 0
    ensures forall i :: !IsSet(f, i)
  {
    forall i: nat | i / WordBits < |f.bits|
      ensures !IsSet(f, i)
    {
      ZeroWordClear(BitPos(i));
    }
  }

  /** `Clear`: zeroes every word. The dimensions and the counter `one` are
      left as they were; Go's `Clear` does not reset `one`. */
  function Clear(f: Filter): (r: Filter)
    ensures |r.bits| == |f.bits| && forall k :: 0 <= k < |r.bits| ==> r.bits[k] == 0
    ensures forall i :: !IsSet(r, i)
    ensures r.nbits == f.nbits && r.nhashes == f.nhashes && r.one == f.one
  {
    var r := f.(bits := seq(|f.bits|, _ => 0));
    ZeroWordsClear(r);
    r
  }
}
