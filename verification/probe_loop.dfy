/** The header of the probe loop of `AddBytes` and `HasBytes`,
    `for h := uint64(0); h <= f.nhashes; h++`, with its counter wrapping at
    2^64.

    `AddBytes` has no other way out of the loop. When `nhashes` is below
    2^64 - 1 the loop runs `nhashes + 1` times, once per entry of
    `Bloom.Probes`. When `nhashes` is 2^64 - 1, every `uint64` counter
    satisfies the guard and `h++` wraps to 0, so the loop never exits. This
    is why `Bloom.Probeable`, the precondition of `Add`, asks for
    `nhashes < 2^64 - 1`. `HasBytes` can also leave its loop early by
    returning false, which `RunFrom` does not model. */
module ProbeLoop {
  import opened Words
  import opened Bloom

  datatype Outcome = Exited(iterations: nat) | StillRunning

  /** Runs the loop from counter value `h`, checking the guard at most `fuel`
      times; `Exited(c)` when the guard failed after `c` bodies ran. */
  function RunFrom(h: u64, nhashes: u64, fuel: nat): (o: Outcome)
    ensures o.Exited? ==> o.iterations < fuel
    decreases fuel
  {
    if fuel == 0 then
      StillRunning
    else if h > nhashes then
      Exited(0)
    else
      match RunFrom(WrapAdd(h, 1), nhashes, fuel - 1)
      case Exited(c) => Exited(c + 1)
      case StillRunning => StillRunning
  }

  /** Below the maximum, the loop from `h` exits after `nhashes + 1 - h`
      bodies, given enough guard checks. */
  lemma {:induction false} ExitsBelowMax(h: u64, nhashes: u64, fuel: nat)
    requires nhashes < MaxU64
    requires h <= nhashes + 1
    requires fuel >= nhashes + 2 - h
    ensures RunFrom(h, nhashes, fuel) == Exited(nhashes + 1 - h)
    decreases nhashes + 1 - h
  {
    if h <= nhashes {
      assert WrapAdd(h, 1) == h + 1;
      ExitsBelowMax(h + 1, nhashes, fuel - 1);
    }
  }

  /** At the maximum, the loop never exits, however many guard checks are
      allowed. */
  lemma {:induction false} NeverExitsAtMax(h: u64, fuel: nat)
    ensures RunFrom(h, MaxU64, fuel) == StillRunning
    decreases fuel
  {
    if fuel > 0 {
      NeverExitsAtMax(WrapAdd(h, 1), fuel - 1);
    }
  }

  /** When the loop runs until its guard fails, it runs once per entry of
      the probe sequence the model uses. */
  lemma LoopRunsOncePerProbe(f: Filter, hash: Hasher, key: seq<byte>)
    requires Probeable(f)
    ensures RunFrom(0, f.nhashes, f.nhashes + 2) == Exited(|Probes(f, hash, key)|)
  {
    ExitsBelowMax(0, f.nhashes, f.nhashes + 2);
  }
}
