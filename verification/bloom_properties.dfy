/** Properties of the single Bloom filter: no false negatives, monotone
    insertion, what the counter `one` counts, what `Clear` and `Info` do and
    do not change, and the word rounding of `New`. */
module BloomProperties {
  import opened Words
  import opened Bloom

  /** The distinct bit indices `key` probes. */
  ghost function ProbeSet(f: Filter, hash: Hasher, key: seq<byte>): (r: set<nat>)
    requires Probeable(f)
  {
    set h: nat | h <= f.nhashes :: Probe(hash(key), h, f.nbits)
  }

  /** A sequence of `AddBytes` calls, one per key, in order. */
  function AddAll(f: Filter, hash: Hasher, keys: seq<seq<byte>>): (r: Filter)
    requires Probeable(f)
    ensures r.nbits == f.nbits && r.nhashes == f.nhashes && |r.bits| == |f.bits|
    ensures Probeable(r) && (Shaped(f) ==> Shaped(r))
    ensures forall i :: IsSet(f, i) ==> IsSet(r, i)
    decreases |keys|
  {
    if |keys| == 0 then f else AddAll(Add(f, hash, keys[0]), hash, keys[1..])
  }

  // ---------------------------------------------------------------------
  // Queries
  // ---------------------------------------------------------------------

  /** No false negatives: a key just added is found. */
  lemma NoFalseNegatives(f: Filter, hash: Hasher, key: seq<byte>)
    requires Probeable(f)
    ensures Has(Add(f, hash, key), hash, key)
  {
  }

  /** A filter whose set bits include another's answers yes to every key the
      other answers yes to. */
  lemma HasMonotone(f: Filter, g: Filter, hash: Hasher, key: seq<byte>)
    requires Probeable(f) && Probeable(g)
    requires g.nbits == f.nbits && g.nhashes == f.nhashes
    requires forall i :: IsSet(f, i) ==> IsSet(g, i)
    ensures Has(f, hash, key) ==> Has(g, hash, key)
  {
  }

  /** A key that is found stays found through any further insertions. */
  lemma {:induction false} FoundStaysFound(f: Filter, hash: Hasher, key: seq<byte>, later: seq<seq<byte>>)
    requires Probeable(f)
    requires Has(f, hash, key)
    ensures Has(AddAll(f, hash, later), hash, key)
    decreases |later|
  {
    if |later| > 0 {
      var g := Add(f, hash, later[0]);
      HasMonotone(f, g, hash, key);
      FoundStaysFound(g, hash, key, later[1..]);
    }
  }

  /** No false negatives across a run of insertions with no `Clear` in
      between: a key added at any point is found at the end. */
  lemma NoFalseNegativesAfterMoreAdds(f: Filter, hash: Hasher, key: seq<byte>, later: seq<seq<byte>>)
    requires Probeable(f)
    ensures Has(AddAll(Add(f, hash, key), hash, later), hash, key)
  {
    NoFalseNegatives(f, hash, key);
    FoundStaysFound(Add(f, hash, key), hash, key, later);
  }

  /** Every key of a run of insertions is found after the run. */
  lemma {:induction false} EveryAddedKeyFound(f: Filter, hash: Hasher, keys: seq<seq<byte>>, key: seq<byte>)
    requires Probeable(f)
    requires key in keys
    ensures Has(AddAll(f, hash, keys), hash, key)
    decreases |keys|
  {
    if key == keys[0] {
      NoFalseNegativesAfterMoreAdds(f, hash, key, keys[1..]);
    } else {
      assert key in keys[1..];
      EveryAddedKeyFound(Add(f, hash, keys[0]), hash, keys[1..], key);
    }
  }

  // ---------------------------------------------------------------------
  // Insertion
  // ---------------------------------------------------------------------

  /** Inserting a key whose probes are all set already changes nothing. */
  lemma {:induction false} SetAllOfSetBitsIsNoop(f: Filter, idxs: seq<nat>)
    requires forall k :: 0 <= k < |idxs| ==> idxs[k] / WordBits < |f.bits|
    requires forall k :: 0 <= k < |idxs| ==> IsSet(f, idxs[k])
    ensures SetAll(f, idxs) == f
    decreases |idxs|
  {
    if |idxs| > 0 {
      assert SetProbe(f, idxs[0]) == f;
      SetAllOfSetBitsIsNoop(f, idxs[1..]);
    }
  }

  /** `AddBytes` is idempotent: adding the same key twice leaves the filter,
      counter included, as adding it once. */
  lemma AddIdempotent(f: Filter, hash: Hasher, key: seq<byte>)
    requires Probeable(f)
    ensures Add(Add(f, hash, key), hash, key) == Add(f, hash, key)
  {
    var g := Add(f, hash, key);
    SetAllOfSetBitsIsNoop(g, Probes(g, hash, key));
  }

  /** The probe sequence visits exactly the probe set. */
  lemma ProbesCoverProbeSet(f: Filter, hash: Hasher, key: seq<byte>)
    requires Probeable(f)
    ensures Elems(Probes(f, hash, key)) == ProbeSet(f, hash, key)
  {
    var idxs := Probes(f, hash, key);
    forall i | i in ProbeSet(f, hash, key)
      ensures i in Elems(idxs)
    {
      var h: nat :| h <= f.nhashes && i == Probe(hash(key), h, f.nbits);
      assert idxs[h] == i;
    }
  }

  // ---------------------------------------------------------------------
  // The counter `one`
  // ---------------------------------------------------------------------

  /** The bit indices below `n`. */
  ghost function Below(n: nat): (r: set<nat>)
    ensures forall i: nat :: i in r <==> i < n
    ensures |r| == n
  {
    if n == 0 then {} else Below(n - 1) + {n - 1}
  }

  lemma {:induction false} SubsetCard(a: set<nat>, b: set<nat>)
    requires a <= b
    ensures |a| <= |b|
    decreases |b|
  {
    if a != {} {
      var x :| x in a;
      SubsetCard(a - {x}, b - {x});
    }
  }

  /** The population never exceeds the number of bits in the words. */
  lemma PopulationBounded(f: Filter)
    ensures |SetBits(f)| <= |f.bits| * WordBits
  {
    SubsetCard(SetBits(f), Below(|f.bits| * WordBits));
  }

  /** A filter whose set bits are those of `f` plus the in-range indices
      `e` has population `SetBits(f) + e`. */
  lemma SetBitsGrow(f: Filter, g: Filter, e: set<nat>)
    requires |g.bits| == |f.bits|
    requires forall i :: i in e ==> i / WordBits < |f.bits|
    requires forall i :: IsSet(g, i) <==> IsSet(f, i) || i in e
    ensures SetBits(g) == SetBits(f) + e
  {
    assert forall i :: i in e ==> i < |f.bits| * WordBits;
  }

  /** The bit loop sets exactly the listed indices. */
  lemma SetAllBits(f: Filter, idxs: seq<nat>)
    requires forall k :: 0 <= k < |idxs| ==> idxs[k] / WordBits < |f.bits|
    ensures SetBits(SetAll(f, idxs)) == SetBits(f) + Elems(idxs)
  {
    SetAllFrame(f, idxs);
    SetBitsGrow(f, SetAll(f, idxs), Elems(idxs));
  }

  /** One loop iteration adds its index to the population and counts it
      exactly when it was 0. */
  lemma SetProbeCount(f: Filter, x: nat)
    requires x / WordBits < |f.bits|
    ensures SetBits(SetProbe(f, x)) == SetBits(f) + {x}
    ensures SetProbe(f, x).one == WrapAdd(f.one, |{x} - SetBits(f)|)
  {
    SetProbeFrame(f, x);
    SetBitsGrow(f, SetProbe(f, x), {x});
    assert x in SetBits(f) <==> IsSet(f, x) by {
      assert x < |f.bits| * WordBits;
    }
    if x in SetBits(f) {
      assert {x} - SetBits(f) == {};
      assert SetProbe(f, x) == f;
      assert WrapAdd(f.one, 0) == f.one;
    } else {
      assert {x} - SetBits(f) == {x};
      assert |{x}| == 1;
      assert SetProbe(f, x).one == WrapAdd(f.one, 1);
    }
  }

  /** Counting the new elements of `{x} + e` one step at a time. */
  lemma NewElementsSplit(s: set<nat>, x: nat, e: set<nat>)
    ensures |({x} + e) - s| == |{x} - s| + |e - (s + {x})|
  {
    assert ({x} + e) - s == ({x} - s) + (e - (s + {x}));
    assert ({x} - s) !! (e - (s + {x}));
  }

  lemma ElemsCons(idxs: seq<nat>)
    requires |idxs| > 0
    ensures Elems(idxs) == {idxs[0]} + Elems(idxs[1..])
  {
    assert forall i :: i in idxs <==> i == idxs[0] || i in idxs[1..];
  }

  /** The counter arithmetic of one step of `SetAllCount`, on plain sets:
      `x` is counted first, then the rest `e` against the grown population. */
  lemma CountStep(one: u64, one': u64, one'': u64, s: set<nat>, s': set<nat>, x: nat, e: set<nat>, all: set<nat>)
    requires s' == s + {x}
    requires one' == WrapAdd(one, |{x} - s|)
    requires one'' == WrapAdd(one', |e - s'|)
    requires all == {x} + e
    ensures one'' == WrapAdd(one, |all - s|)
  {
    NewElementsSplit(s, x, e);
    WrapAddTwice(one, |{x} - s|, |e - s'|);
  }

  /** One step of `SetAllCount`: the first loop iteration, from `f` to
      `g`, followed by the rest, from `g` to `r`. */
  lemma SetAllCountStep(f: Filter, x: nat, rest: seq<nat>, g: Filter, r: Filter)
    requires x / WordBits < |f.bits|
    requires g == SetProbe(f, x)
    requires r.one == WrapAdd(g.one, |Elems(rest) - SetBits(g)|)
    ensures r.one == WrapAdd(f.one, |({x} + Elems(rest)) - SetBits(f)|)
  {
    SetProbeCount(f, x);
    CountStep(f.one, g.one, r.one, SetBits(f), SetBits(g), x, Elems(rest), {x} + Elems(rest));
  }

  /** The bit loop increases `one`, modulo 2^64, by the number of listed
      indices that were 0: an index that repeats or was already 1 counts
      nothing. */
  lemma {:induction false} SetAllCount(f: Filter, idxs: seq<nat>)
    requires forall k :: 0 <= k < |idxs| ==> idxs[k] / WordBits < |f.bits|
    ensures SetAll(f, idxs).one == WrapAdd(f.one, |Elems(idxs) - SetBits(f)|)
    decreases |idxs|
  {
    if |idxs| == 0 {
      assert Elems(idxs) - SetBits(f) == {};
      assert WrapAdd(f.one, 0) == f.one;
    } else {
      var g := SetProbe(f, idxs[0]);
      SetAllCount(g, idxs[1..]);
      assert SetAll(f, idxs) == SetAll(g, idxs[1..]);
      ElemsCons(idxs);
      SetAllCountStep(f, idxs[0], idxs[1..], g, SetAll(f, idxs));
    }
  }

  /** `AddBytes` sets exactly the probes of `key` and increases `one`, modulo
      2^64, by the number of distinct probes that were 0 before the call. */
  lemma AddPopulation(f: Filter, hash: Hasher, key: seq<byte>)
    requires Probeable(f)
    ensures SetBits(Add(f, hash, key)) == SetBits(f) + ProbeSet(f, hash, key)
    ensures Add(f, hash, key).one == WrapAdd(f.one, |ProbeSet(f, hash, key) - SetBits(f)|)
  {
    SetAllBits(f, Probes(f, hash, key));
    SetAllCount(f, Probes(f, hash, key));
    ProbesCoverProbeSet(f, hash, key);
  }

  /** Adding the number of new elements of `p` to the size of `s`, modulo
      2^64, gives the size of `s + p` when that is below 2^64. */
  lemma WrapAddCountsUnion(one: u64, s: set<nat>, p: set<nat>)
    requires one == |s|
    requires |s + p| < U64Modulus
    ensures WrapAdd(one, |p - s|) == |s + p|
  {
    assert s + p == s + (p - s);
    assert s !! (p - s);
  }

  /** In a shaped filter whose counter agrees with the population, `AddBytes`
      keeps them in agreement: the population is at most `nbits`, which is
      below 2^64, so the increment never wraps. */
  lemma AddKeepsCounted(f: Filter, hash: Hasher, key: seq<byte>)
    requires Shaped(f) && Probeable(f) && Counted(f)
    ensures Counted(Add(f, hash, key))
  {
    var r := Add(f, hash, key);
    AddPopulation(f, hash, key);
    PopulationBounded(r);
    WrapAddCountsUnion(f.one, SetBits(f), ProbeSet(f, hash, key));
  }

  /** A new filter has no set bit, and its counter is 0. */
  lemma NewIsEmpty(n: int, m: u64, nhashes: u64)
    requires n >= 0
    ensures SetBits(New(n, m, nhashes)) == {}
    ensures Counted(New(n, m, nhashes))
  {
    ZeroWordsClear(New(n, m, nhashes));
  }

  /** Starting from a new filter, after any run of insertions `one` is the
      population count of the words. */
  lemma {:induction false} CountedAfterAdds(f: Filter, hash: Hasher, keys: seq<seq<byte>>)
    requires Shaped(f) && Probeable(f) && Counted(f)
    ensures Counted(AddAll(f, hash, keys))
    decreases |keys|
  {
    if |keys| > 0 {
      AddKeepsCounted(f, hash, keys[0]);
      CountedAfterAdds(Add(f, hash, keys[0]), hash, keys[1..]);
    }
  }

  lemma OneIsPopulation(n: int, m: u64, nhashes: u64, hash: Hasher, keys: seq<seq<byte>>)
    requires n >= 0 && 0 < m <= U64Modulus - WordBits && nhashes < MaxU64
    ensures Probeable(New(n, m, nhashes))
    ensures Info(AddAll(New(n, m, nhashes), hash, keys)).2 == |SetBits(AddAll(New(n, m, nhashes), hash, keys))|
  {
    NewIsEmpty(n, m, nhashes);
    CountedAfterAdds(New(n, m, nhashes), hash, keys);
  }

  // ---------------------------------------------------------------------
  // Clear and Info
  // ---------------------------------------------------------------------

  /** After `Clear` no bit is set, so no key is found. */
  lemma ClearForgetsEverything(f: Filter, hash: Hasher, key: seq<byte>)
    requires Probeable(f)
    ensures SetBits(Clear(f)) == {}
    ensures !Has(Clear(f), hash, key)
  {
    assert !IsSet(Clear(f), Probe(hash(key), 0, f.nbits));
  }

  /** `Clear` changes nothing `Info` reports: the counter is not reset. */
  lemma InfoUnchangedByClear(f: Filter)
    ensures Info(Clear(f)) == Info(f)
  {
  }

  /** Hence `Clear` on a filter with set bits leaves `one` out of step with
      the (now empty) population. */
  lemma ClearLeavesStaleCount(f: Filter)
    requires Counted(f) && SetBits(f) != {}
    ensures !Counted(Clear(f))
  {
    ZeroWordsClear(Clear(f));
    assert SetBits(Clear(f)) == {};
  }

  lemma ClearIdempotent(f: Filter)
    ensures Clear(Clear(f)) == Clear(f)
  {
  }

  /** `AddBytes` never changes the dimensions `Info` reports. */
  lemma InfoAfterAdd(f: Filter, hash: Hasher, key: seq<byte>)
    requires Probeable(f)
    ensures Info(Add(f, hash, key)).0 == Info(f).0
    ensures Info(Add(f, hash, key)).1 == Info(f).1
  {
  }

  /** What `Info` reports for a new filter. */
  lemma InfoOfNew(n: int, m: u64, nhashes: u64)
    requires n >= 0 && m <= U64Modulus - WordBits
    ensures Info(New(n, m, nhashes)).0 == nhashes
    ensures Info(New(n, m, nhashes)).1 % WordBits == 0
    ensures m <= Info(New(n, m, nhashes)).1 < m + WordBits
    ensures Info(New(n, m, nhashes)).2 == 0
  {
  }

  // ---------------------------------------------------------------------
  // Sizing
  // ---------------------------------------------------------------------

  /** `New` allocates the smallest multiple of 64 bits that holds `m`. */
  lemma NewRoundsUpToWord(n: int, m: u64, nhashes: u64, c: nat)
    requires n >= 0 && m <= U64Modulus - WordBits
    requires c % WordBits == 0 && m <= c
    ensures m <= New(n, m, nhashes).nbits <= c
    ensures |New(n, m, nhashes).bits| == New(n, m, nhashes).nbits / WordBits
  {
  }

  /** A positive bit count gives a filter that can be probed. */
  lemma NewIsProbeable(n: int, m: u64, nhashes: u64)
    requires n >= 0 && 0 < m <= U64Modulus - WordBits && nhashes < MaxU64
    ensures Probeable(New(n, m, nhashes))
  {
  }

  /** With `m = 311514` the filter has 311552 bits in 4868 words. The
      probe count 3 that goes with `n = 65000, p = 0.1` comes from the
      floating-point formula this model leaves out, so it is passed in. */
  lemma NewSizingExample()
    ensures New(65000, 311514, 3).nbits == 311552
    ensures |New(65000, 311514, 3).bits| == 4868
  {
  }
}
