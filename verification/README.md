# Bloom filter core, modelled in Dafny

This project models the single Bloom filter of the `bloom` Go package
(`standard/bloom.go`). A `Filter` is a packed array of 64-bit words. It has a
bit count `nbits` that is a whole number of words and a probe count
`nhashes`. It also keeps a counter `one` of 0-to-1 bit transitions.

- `AddBytes` hashes a key to two 64-bit values `(a, b)`. For
  `h = 0 .. nhashes` inclusive it then sets bit `(a + h*b) mod nbits`. The
  product and the sum are `uint64` arithmetic that wraps at 2^64. `one` is
  incremented only when a bit goes from 0 to 1.
- `HasBytes` walks the same probes and answers false at the first 0 bit.
- `Clear` zeroes the words.
- `Info` reports `(nhashes, nbits, one)`.
- `New` rounds the bit count `m` up to a multiple of 64 with
  `((m + 63) >> 6) * 64`, then allocates `nbits >> 6` zero words.

The model is functional. A filter is an immutable `Filter` value holding a
`seq<bv64>`, and every operation returns a new value. The keyed SipHash call
is a parameter `hash: seq<byte> -> HashPair`. Its fixed keys `k0`/`k1` live
inside that function. Every property is proved for every such function.

Files:

- `words.dfy` (module `Words`): the `uint64` and byte types, wrapping
  addition, and the bit operations on one word. An in-word position is a
  `bv7` shift amount.
- `bloom.dfy` (module `Bloom`): the filter, `New`, the probe sequence, `Add`,
  `Has`, `Clear` and `Info`.
- `bloom_properties.dfy` (module `BloomProperties`): no false negatives,
  monotone insertion, what `one` counts, `Clear` and `Info`, and sizing.
- `probe_loop.dfy` (module `ProbeLoop`): the header of the probe loop, with
  its wrapping `uint64` counter. The loop of `AddBytes` has no other exit: it
  runs `nhashes + 1` times when `nhashes < 2^64 - 1` and never stops
  otherwise.

`Add` and `Has` both walk one shared sequence, `Bloom.Probes`, which has
`nhashes + 1` entries, so `Add` and `Has` probe the same indices by
construction.

`Clear` zeroes the words but does not reset `one`
(`standard/bloom.go:93-97`), so `Info` still reports the old count after a
`Clear`.

## Model

| member | source | states |
|---|---|---|
| `Bloom.New` | standard/bloom.go:44-50 | `nbits` is a multiple of 64 and there are exactly `nbits / 64` words, all zero. If `m <= 2^64 - 64`, `nbits` lies in `[m, m + 64)`. Otherwise the `uint64` sum `m + 63` wraps and `nbits` is 0. `nhashes` is kept and `one` is 0. |
| `BloomProperties.NewRoundsUpToWord` | standard/bloom.go:44-47 | `nbits` is at least `m` and at most any multiple of 64 that is at least `m`, so it is the smallest such multiple. The word count is `nbits / 64`. |
| `BloomProperties.NewSizingExample` | standard/bloom_test.go:18-26 | `m = 311514` gives 311552 bits in 4868 words. |
| `BloomProperties.NewIsProbeable` | standard/bloom.go:44-47 | A positive `m` (at most `2^64 - 64`) gives a filter whose bit indices below `nbits` all address a word of the array. This also needs `nhashes < 2^64 - 1`. |
| `BloomProperties.NewIsEmpty` | standard/bloom.go:46-50 | A new filter has no 1 bit, and its counter agrees with that. |
| `BloomProperties.InfoOfNew` | standard/bloom.go:88-90 | For a new filter `Info` reports the given `nhashes`, a word-multiple `nbits` in `[m, m + 64)`, and `one = 0`. |
| `Bloom.Probe` | standard/bloom.go:61 | Every probe index `((a + h*b) mod 2^64) mod nbits` is below `nbits`. |
| `Bloom.ProbesFrom` | standard/bloom.go:60-61 | The probes from `h` through `nhashes` are `nhashes + 1 - h` indices, and entry `k` is probe `h + k`. |
| `Bloom.Probes` | standard/bloom.go:59-61 | A key has exactly `nhashes + 1` probes, entry `h` is probe `h`, and each one addresses a word inside the array. |
| `Words.SetBitOther` | standard/bloom.go:62-65 | OR-ing in the mask `1 << s` sets bit `s` of the word and leaves every other bit unchanged. |
| `Bloom.SetProbe` | standard/bloom.go:62-67 | One loop iteration sets its bit. If the bit was already 1 the filter is unchanged. Otherwise `one` goes up by one, wrapping at 2^64. Dimensions are kept. |
| `Bloom.SetProbeFrame` | standard/bloom.go:62-65 | One loop iteration sets exactly its own bit, with no other bit changed. |
| `Bloom.SetAll` | standard/bloom.go:60-68 | Running the loop body over the probed indices keeps `nbits`, `nhashes` and the word count. |
| `Bloom.SetAllFrame` | standard/bloom.go:60-68 | After the loop, the 1 bits are exactly the earlier 1 bits plus the probed indices. |
| `Bloom.Add` | standard/bloom.go:58-69 | Every bit set before is still set, and every probe of the key is set. Any bit that becomes set is a probe of the key. `nbits`, `nhashes` and the word count are unchanged. |
| `Bloom.AllSet` | standard/bloom.go:77-84 | The in-order, short-circuit walk is true iff every listed bit is set. |
| `Bloom.Has` | standard/bloom.go:75-85 | The result is true iff every probe `h = 0 .. nhashes` of the key is set, and false iff some probed bit is 0. |
| `Bloom.Info` | standard/bloom.go:88-90 | `Info` returns `(nhashes, nbits, one)`, in that order. |
| `Bloom.Clear` | standard/bloom.go:93-97 | Every word is 0 and no bit is set. The word count, `nbits`, `nhashes` and `one` are unchanged. |
| `BloomProperties.NoFalseNegatives` | standard/bloom.go:58-85 | After `Add(k)`, `Has(k)` is true. |
| `BloomProperties.HasMonotone` | standard/bloom.go:75-85 | A filter whose 1 bits include another's answers true to every key the other answers true to. |
| `BloomProperties.FoundStaysFound` | standard/bloom.go:58-69 | A key that is found is still found after any further run of insertions. |
| `BloomProperties.NoFalseNegativesAfterMoreAdds` | standard/bloom_test.go:36-67 | A key added once is found after any later insertions, provided no `Clear` intervenes. |
| `BloomProperties.EveryAddedKeyFound` | standard/bloom.go:58-85 | Every key of a run of insertions is found after the run. |
| `BloomProperties.AddIdempotent` | standard/bloom.go:63-67 | Adding the same key twice gives the same filter, counter included, as adding it once. |
| `BloomProperties.ProbesCoverProbeSet` | standard/bloom.go:60-61 | The probe sequence visits exactly the set `{probe h : 0 <= h <= nhashes}`. |
| `BloomProperties.SetAllCount` | standard/bloom.go:63-67 | The bit loop raises `one` (mod 2^64) by the number of distinct listed indices that were 0. Repeats and bits already 1 add nothing. |
| `BloomProperties.AddPopulation` | standard/bloom.go:63-67 | The 1 bits after `Add` are the old ones plus the key's probe set. `one` rises (mod 2^64) by the number of distinct probes that were 0. |
| `BloomProperties.AddKeepsCounted` | standard/bloom.go:63-67 | In a shaped filter whose `one` equals the number of 1 bits, `Add` keeps that equality. |
| `BloomProperties.CountedAfterAdds` | standard/bloom.go:58-69 | The equality `one == number of 1 bits` survives any run of insertions. |
| `BloomProperties.OneIsPopulation` | standard/bloom.go:88-90 | Start from `New` and insert any keys: `Info` then reports as `one` the population count of the words. |
| `BloomProperties.ClearForgetsEverything` | standard/bloom_test.go:70-80 | After `Clear` no bit is set and no key is found. |
| `BloomProperties.InfoUnchangedByClear` | standard/bloom.go:88-97 | `Clear` changes nothing `Info` reports, the counter `one` included. |
| `BloomProperties.ClearLeavesStaleCount` | standard/bloom.go:93-97 | If the counter matched a non-empty population, it no longer matches after `Clear`, because `one` is not reset. |
| `BloomProperties.ClearIdempotent` | standard/bloom.go:93-97 | Clearing twice is the same as clearing once. |
| `BloomProperties.InfoAfterAdd` | standard/bloom.go:88-90 | `Add` never changes the `nhashes` and `nbits` that `Info` reports. |
| `ProbeLoop.RunFrom` | standard/bloom.go:60 | The loop header `h <= nhashes; h++` with its wrapping `uint64` counter, run under an iteration budget of guard checks. When it reports an exit, the number of bodies run is below that budget. What it computes is stated by `ProbeLoop.ExitsBelowMax` and `ProbeLoop.NeverExitsAtMax`. |
| `ProbeLoop.ExitsBelowMax` | standard/bloom.go:60 | With `nhashes < 2^64 - 1`, the `uint64` loop from `h` exits after `nhashes + 1 - h` iterations. |
| `ProbeLoop.NeverExitsAtMax` | standard/bloom.go:60 | With `nhashes = 2^64 - 1`, the `uint64` loop never exits, whatever the iteration budget. |
| `ProbeLoop.LoopRunsOncePerProbe` | standard/bloom.go:60 | When the loop runs until its guard fails, as the `AddBytes` loop does, it iterates once per entry of `Bloom.Probes`. |

## Left out

- Floating-point sizing in `New` is not modelled: the optimal bit count `m`,
  the `lnsq` constant, `math.Log`/`math.Ceil`, and the `nhashes` formula
  (`standard/bloom.go:39-45`). `m` and `nhashes` are natural-number
  parameters of `Bloom.New`. The `n < 0` panic becomes the precondition
  `n >= 0`.
- `siphash.Hash128` with the fixed keys `k0`/`k1` is a foreign library call.
  It is the `hash` parameter, so every result holds for any hash function.
- The string wrappers `Add` and `Has` only convert a string to bytes. Keys
  are modelled as byte sequences.
- Go panics and the non-terminating loop are preconditions
  (`Bloom.Probeable`). These are the division by zero when `nbits` is 0, and
  an index out of range when the word array is shorter than `nbits` needs.
  They also include `nhashes = 2^64 - 1`, for which the loop of `AddBytes`
  never exits (`ProbeLoop.NeverExitsAtMax`). `New` computes that `nhashes`
  only for a false-positive probability in (1, 2], where its float bit count
  `m` is negative. Go leaves `uint64` of a negative float
  implementation-dependent. On the usual targets it gives either `nbits = 0`,
  so the first `%` divides by zero, or a huge `nbits` whose `make` panics.
  That conversion is not modelled.
- `Bloom.Has`: the `nhashes < 2^64 - 1` part of `Probeable` is stronger than
  `HasBytes` needs. Its loop returns false at the first probed bit that is 0
  (`standard/bloom.go:80-82`), so it loops forever only when every probed bit
  is set. The precondition is kept because of the sizing just described:
  such a filter is not usable anyway.
- `i >> 6` and `i & 63` on the unsigned index are written as `i / 64` and
  `i % 64`, which are equal for non-negative integers.
- `Clear` and `AddBytes` mutate a `*Filter` in place
  (`standard/bloom.go:58-69`, `standard/bloom.go:93-97`). Here they return a
  new `Filter`. `HasBytes` only reads the filter, and `Has` returns its
  boolean.
- `attenuated/attenuated.go` is not part of this model. It holds only a
  constructor that records `depth` and allocates a slice of `depth` nil filters.
  No layer operation exists in it to model.
- The false-positive rate is probabilistic and float-based, so it is not
  modelled. The code has no concurrency.
