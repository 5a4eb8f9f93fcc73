/** `FindModulesBase`: scan in 256 KB steps for the first two
    consecutively probed executable addresses, skipping the addresses
    just above the kernel base, and report a 1 MB aligned address 8 MB
    below the second of them. */
module ModulesBase {
  import opened Words

  const MODULES_LO: u64 := 0xfffff80000000000
  const MODULES_HI: u64 := 0xfffff81000000000
  const STRIDE_256K: nat := 0x40000
  /** (MODULES_HI - MODULES_LO) / STRIDE_256K candidate slots. */
  const MODULES_SLOTS: nat := 0x40000
  /** Width of the band above the kernel base that is not probed. */
  const KERNEL_BAND: u64 := 0xc00000
  /** How far the result backs up from the detected executable pair. */
  const BACKUP: nat := 0x800000
  const ALIGN_1M: nat := 0x100000

  function Slot(k: nat): (a: u64)
    requires k < MODULES_SLOTS
    ensures MODULES_LO <= a < MODULES_HI
  {
    MODULES_LO + k * STRIDE_256K
  }

  /** Candidate `a` is skipped: `aKernel < a < aKernel + 0xc00000`, the
      sum taken modulo 2^64 as in C. The kernel base itself is probed. */
  predicate Skipped(aKernel: u64, a: u64)
  {
    a > aKernel && a < Add64(aKernel, KERNEL_BAND)
  }

  /** The addresses probed among slots `0 .. k-1`, in order, if the scan
      never stopped early. */
  function Probed(aKernel: u64, k: nat): (ps: seq<u64>)
    requires k <= MODULES_SLOTS
    ensures |ps| <= k
  {
    if k == 0 then []
    else if Skipped(aKernel, Slot(k - 1)) then Probed(aKernel, k - 1)
    else Probed(aKernel, k - 1) + [Slot(k - 1)]
  }

  /** The probes at `i - 1` and `i` form the first kind of hit the scan
      looks for: two consecutive probed addresses, both executable. */
  predicate PairAt(exec: ExecOracle, ps: seq<u64>, i: int)
  {
    1 <= i < |ps| && exec(ps[i - 1]) && exec(ps[i])
  }

  /** `x & 0xfffffffffff00000`: clear the low 20 bits. */
  function AlignDown1M(x: u64): (r: u64)
    ensures r % ALIGN_1M == 0
    ensures r <= x < r + ALIGN_1M
  {
    x - x % ALIGN_1M
  }

  /** The whole sequence of addresses the scan would probe. */
  function AllProbed(aKernel: u64): (ps: seq<u64>)
  {
    Probed(aKernel, MODULES_SLOTS)
  }

  /** Reference result of the scan over the probe sequence `P` from
      index `i` on: at the first pair, its second address minus 8 MB
      (modulo 2^64, as `a -= 0x00800000`) rounded down to 1 MB; 0 when
      there is no pair. */
  function PairBase(exec: ExecOracle, P: seq<u64>, i: nat): (r: u64)
    decreases |P| - i
  {
    if i >= |P| then 0
    else if PairAt(exec, P, i) then AlignDown1M(Sub64(P[i], BACKUP))
    else PairBase(exec, P, i + 1)
  }

  /** The reference result of `FindModulesBase` for kernel base `aKernel`. */
  function ModulesBaseOf(exec: ExecOracle, aKernel: u64): (r: u64)
  {
    PairBase(exec, AllProbed(aKernel), 0)
  }

  /** Indices that are not pairs do not change the reference result. */
  lemma {:induction false} PairBaseSkips(exec: ExecOracle, P: seq<u64>, i: nat, m: nat)
    requires i <= m <= |P|
    requires forall j :: i <= j < m ==> !PairAt(exec, P, j)
    ensures PairBase(exec, P, i) == PairBase(exec, P, m)
    decreases m - i
  {
    if i < m {
      PairBaseSkips(exec, P, i + 1, m);
    }
  }

  /** Without a pair the reference result is 0, as the scan returns. */
  lemma PairBaseNone(exec: ExecOracle, P: seq<u64>)
    requires NoPair(exec, P)
    ensures PairBase(exec, P, 0) == 0
  {
    PairBaseSkips(exec, P, 0, |P|);
  }

  /** When the scan stops at the first pair with result `r`, the
      reference result is `r` too. */
  lemma PairBaseFirst(exec: ExecOracle, P: seq<u64>, r: u64, probes: seq<u64>)
    requires StoppedAtFirstPair(exec, P, r, probes)
    ensures PairBase(exec, P, 0) == r
  {
    var i :| 0 <= i < |P| && PairAt(exec, P, i)
             && (forall j :: 0 <= j < i ==> !PairAt(exec, P, j))
             && P[i] >= BACKUP && r == AlignDown1M(P[i] - BACKUP)
             && probes == P[..i + 1];
    PairBaseSkips(exec, P, 0, i);
    assert PairBase(exec, P, i) == AlignDown1M(Sub64(P[i], BACKUP));
    assert Sub64(P[i], BACKUP) == P[i] - BACKUP;
  }

  /** The scan as the C code performs it; `probes` lists the addresses
      handed to the oracle. It returns 0 exactly when no two consecutive
      probed addresses are executable. Otherwise it stops at the first
      such pair and returns the second address minus 8 MB, rounded down
      to 1 MB. No address in the band above the kernel is probed. */
  method FindModulesBase(exec: ExecOracle, aKernel: u64) returns (r: u64, probes: seq<u64>)
    ensures forall i :: 0 <= i < |probes| ==> MODULES_LO <= probes[i] < MODULES_HI
    ensures forall i :: 0 <= i < |probes| ==> !Skipped(aKernel, probes[i])
    ensures probes <= AllProbed(aKernel)
    ensures r == 0 <==> NoPair(exec, AllProbed(aKernel))
    ensures r == 0 ==> probes == AllProbed(aKernel)
    ensures r != 0 ==> r % ALIGN_1M == 0
    ensures r != 0 ==> StoppedAtFirstPair(exec, AllProbed(aKernel), r, probes)
  {
    var x := false;
    probes := [];
    var a: u64 := MODULES_LO;
    ghost var k: nat := 0;
    while a < MODULES_HI
      invariant k <= MODULES_SLOTS && a == MODULES_LO + k * STRIDE_256K
      invariant ScanState(exec, aKernel, k, probes, x)
      decreases MODULES_HI - a
    {
      assert a == Slot(k);
      if a > aKernel && a < Add64(aKernel, KERNEL_BAND) {
        a := a + STRIDE_256K;
        k := k + 1;
        continue;
      }
      var v := exec(a);
      ProbeStep(exec, aKernel, k, probes, x);
      if x && v {
        FirstPairIsFirst(exec, aKernel, k + 1, probes, a);
        ProbedValid(aKernel, k + 1);
        probes := probes + [a];
        r := AlignDown1M(a - BACKUP);
        return;
      }
      probes := probes + [a];
      x := v;
      a := a + STRIDE_256K;
      k := k + 1;
    }
    assert k == MODULES_SLOTS;
    ProbedValid(aKernel, k);
    r := 0;
  }

  /** What the scan holds after slots `0 .. k-1`: it probed `Probed`,
      found no pair there, and `x` is the verdict of the last probe
      (false before the first). */
  predicate ScanState(exec: ExecOracle, aKernel: u64, k: nat, probes: seq<u64>, x: bool)
    requires k <= MODULES_SLOTS
  {
    && probes == Probed(aKernel, k)
    && NoPair(exec, probes)
    && (x <==> probes != [] && exec(probes[|probes| - 1]))
  }

  /** One slot of the scan: a skipped slot leaves the state as it is, a
      probed one appends its address, and unless it completes a pair the
      state holds for the next slot. */
  lemma ProbeStep(exec: ExecOracle, aKernel: u64, k: nat, probes: seq<u64>, x: bool)
    requires k < MODULES_SLOTS && ScanState(exec, aKernel, k, probes, x)
    ensures Skipped(aKernel, Slot(k)) ==> ScanState(exec, aKernel, k + 1, probes, x)
    ensures !Skipped(aKernel, Slot(k)) ==> Probed(aKernel, k + 1) == probes + [Slot(k)]
    ensures !Skipped(aKernel, Slot(k)) && !(x && exec(Slot(k)))
            ==> ScanState(exec, aKernel, k + 1, probes + [Slot(k)], exec(Slot(k)))
  {
    if !Skipped(aKernel, Slot(k)) && !(x && exec(Slot(k))) {
      NoPairSnoc(exec, probes, Slot(k));
    }
  }

  /** The scan stopped at the first pair of `P`, at index `i`, after
      probing `P[..i + 1]`, and `r` is derived from its second address. */
  predicate StoppedAtFirstPair(exec: ExecOracle, P: seq<u64>, r: u64, probes: seq<u64>)
  {
    exists i :: 0 <= i < |P| && PairAt(exec, P, i)
                && (forall j :: 0 <= j < i ==> !PairAt(exec, P, j))
                && P[i] >= BACKUP
                && r == AlignDown1M(P[i] - BACKUP)
                && probes == P[..i + 1]
  }

  /** No two consecutive entries of `ps` are both executable. */
  predicate NoPair(exec: ExecOracle, ps: seq<u64>)
  {
    forall i :: 0 <= i < |ps| ==> !PairAt(exec, ps, i)
  }

  /** Appending a probe that does not complete a pair keeps `NoPair`. */
  lemma NoPairSnoc(exec: ExecOracle, ps: seq<u64>, a: u64)
    requires NoPair(exec, ps)
    requires !(ps != [] && exec(ps[|ps| - 1]) && exec(a))
    ensures NoPair(exec, ps + [a])
  {
    var qs := ps + [a];
    forall i | 0 <= i < |qs|
      ensures !PairAt(exec, qs, i)
    {
      if i < |ps| {
        assert !PairAt(exec, ps, i);
      }
    }
  }

  /** When the probes of slots `0 .. k-1` end in their first pair, that
      pair is the first pair of the whole probed sequence. */
  lemma FirstPairIsFirst(exec: ExecOracle, aKernel: u64, k: nat, before: seq<u64>, a: u64)
    requires 1 <= k <= MODULES_SLOTS
    requires Probed(aKernel, k) == before + [a]
    requires NoPair(exec, before)
    requires before != [] && exec(before[|before| - 1]) && exec(a)
    ensures a >= MODULES_LO + STRIDE_256K
    ensures before + [a] <= AllProbed(aKernel)
    ensures StoppedAtFirstPair(exec, AllProbed(aKernel), AlignDown1M(a - BACKUP), before + [a])
    ensures !NoPair(exec, AllProbed(aKernel))
  {
    ProbedPrefix(aKernel, k, MODULES_SLOTS);
    var P := AllProbed(aKernel);
    var i := |before|;
    assert P[..i + 1] == before + [a];
    assert P[i - 1] == before[i - 1];
    forall j | 0 <= j < i
      ensures !PairAt(exec, P, j)
    {
      assert !PairAt(exec, before, j);
      if 1 <= j {
        assert P[j - 1] == before[j - 1] && P[j] == before[j];
      }
    }
    assert PairAt(exec, P, i);
    ProbedAbove(aKernel, k);
  }

  /** Every probed address is a slot, and a probe preceded by another one
      lies at slot 1 or above. */
  lemma {:induction false} ProbedAbove(aKernel: u64, k: nat)
    requires k <= MODULES_SLOTS
    ensures forall i :: 1 <= i < |Probed(aKernel, k)| ==> Probed(aKernel, k)[i] >= MODULES_LO + STRIDE_256K
  {
    if k > 0 {
      ProbedAbove(aKernel, k - 1);
    }
  }

  /** Every probed address lies in the window and outside the band
      above the kernel. */
  lemma {:induction false} ProbedValid(aKernel: u64, k: nat)
    requires k <= MODULES_SLOTS
    ensures forall i :: 0 <= i < |Probed(aKernel, k)| ==> MODULES_LO <= Probed(aKernel, k)[i] < MODULES_HI
    ensures forall i :: 0 <= i < |Probed(aKernel, k)| ==> !Skipped(aKernel, Probed(aKernel, k)[i])
  {
    if k > 0 {
      ProbedValid(aKernel, k - 1);
    }
  }

  /** Probing more slots only extends the probed sequence. */
  lemma {:induction false} ProbedPrefix(aKernel: u64, k: nat, m: nat)
    requires k <= m <= MODULES_SLOTS
    ensures Probed(aKernel, k) <= Probed(aKernel, m)
    decreases m - k
  {
    if k < m {
      ProbedPrefix(aKernel, k, m - 1);
    }
  }

  /** The skip test is strict: when the kernel base is itself a slot of
      the window, it is probed. */
  lemma KernelBaseProbed(aKernel: u64, k: nat)
    requires k < MODULES_SLOTS && Slot(k) == aKernel
    ensures aKernel in AllProbed(aKernel)
  {
    ProbedPrefix(aKernel, k + 1, MODULES_SLOTS);
    assert Probed(aKernel, k + 1) == Probed(aKernel, k) + [aKernel];
    assert AllProbed(aKernel)[|Probed(aKernel, k)|] == aKernel;
  }
}
