/** `FindKernel_2M`: locate the kernel by scanning its randomization
    window in 2 MB steps and accepting the first slot whose first three
    2 MB pages are all executable. */
module KernelScan {
  import opened Words

  /** The window the kernel is randomized in, and its 2 MB stride. */
  const KERNEL_LO: u64 := 0xfffff80000000000
  const KERNEL_HI: u64 := 0xfffff80400000000
  const STRIDE_2M: nat := 0x200000
  /** (KERNEL_HI - KERNEL_LO) / STRIDE_2M candidate slots. */
  const KERNEL_SLOTS: nat := 0x2000

  /** The base address of candidate slot `k`. */
  function Slot(k: nat): (a: u64)
    requires k < KERNEL_SLOTS
    ensures KERNEL_LO <= a < KERNEL_HI
    ensures (a - KERNEL_LO) % STRIDE_2M == 0
  {
    KERNEL_LO + k * STRIDE_2M
  }

  /** The `i`-th inner probe of slot `k`: `a + i * 2M`. */
  function Probe(k: nat, i: nat): (p: u64)
    requires k < KERNEL_SLOTS && i < 3
  {
    Slot(k) + i * STRIDE_2M
  }

  /** Slot `k` holds the kernel: all three inner probes are executable. */
  predicate KernelAt(exec: ExecOracle, k: nat)
    requires k < KERNEL_SLOTS
  {
    exec(Probe(k, 0)) && exec(Probe(k, 1)) && exec(Probe(k, 2))
  }

  /** The probes spent on slot `k`: the inner probes up to and including
      the first non-executable one. */
  function SlotProbes(exec: ExecOracle, k: nat): (ps: seq<u64>)
    requires k < KERNEL_SLOTS
  {
    if !exec(Probe(k, 0)) then [Probe(k, 0)]
    else if !exec(Probe(k, 1)) then [Probe(k, 0), Probe(k, 1)]
    else [Probe(k, 0), Probe(k, 1), Probe(k, 2)]
  }

  /** All probes spent on slots `0 .. k-1`, in order. */
  function ProbesBefore(exec: ExecOracle, k: nat): (ps: seq<u64>)
    requires k <= KERNEL_SLOTS
  {
    if k == 0 then [] else ProbesBefore(exec, k - 1) + SlotProbes(exec, k - 1)
  }

  /** No slot below `k` holds the kernel. */
  predicate NoKernelBelow(exec: ExecOracle, k: nat)
    requires k <= KERNEL_SLOTS
  {
    forall j :: 0 <= j < k ==> !KernelAt(exec, j)
  }

  /** Reference result of the scan from slot `k` on: the base of the
      lowest slot holding the kernel, 0 when there is none. */
  function FirstKernel(exec: ExecOracle, k: nat): (r: u64)
    requires k <= KERNEL_SLOTS
    decreases KERNEL_SLOTS - k
  {
    if k == KERNEL_SLOTS then 0
    else if KernelAt(exec, k) then Slot(k)
    else FirstKernel(exec, k + 1)
  }

  /** Slots without the kernel do not change the reference result. */
  lemma {:induction false} FirstKernelSkips(exec: ExecOracle, j: nat, k: nat)
    requires j <= k <= KERNEL_SLOTS
    requires forall i :: j <= i < k ==> !KernelAt(exec, i)
    ensures FirstKernel(exec, j) == FirstKernel(exec, k)
    decreases k - j
  {
    if j < k {
      FirstKernelSkips(exec, j + 1, k);
    }
  }

  /** Slot `k` is the lowest slot holding the kernel, `r` is its base, and
      `probes` are exactly the probes spent up to and including it. */
  predicate FoundAt(exec: ExecOracle, k: nat, r: u64, probes: seq<u64>)
    requires k < KERNEL_SLOTS
  {
    r == Slot(k) && KernelAt(exec, k) && NoKernelBelow(exec, k)
    && probes == ProbesBefore(exec, k + 1)
  }

  /** The scan as the C code performs it. `probes` lists the addresses
      handed to the oracle, in order. The result is 0 exactly when no
      slot holds the kernel; otherwise it is the lowest such slot, and
      the scan stopped right after its third inner probe. */
  method FindKernel2M(exec: ExecOracle) returns (r: u64, probes: seq<u64>)
    ensures r == 0 <==> NoKernelBelow(exec, KERNEL_SLOTS)
    ensures r == 0 ==> probes == ProbesBefore(exec, KERNEL_SLOTS)
    ensures r != 0 ==> exists k :: 0 <= k < KERNEL_SLOTS && FoundAt(exec, k, r, probes)
    ensures r == FirstKernel(exec, 0)
  {
    probes := [];
    var a: u64 := KERNEL_LO;
    ghost var k: nat := 0;
    while a < KERNEL_HI
      invariant k <= KERNEL_SLOTS && a == KERNEL_LO + k * STRIDE_2M
      invariant NoKernelBelow(exec, k)
      invariant probes == ProbesBefore(exec, k)
      decreases KERNEL_HI - a
    {
      var hit, slotProbes := ProbeSlot(exec, a, k);
      probes := probes + slotProbes;
      if hit {
        assert FoundAt(exec, k, a, probes);
        FirstKernelSkips(exec, 0, k);
        return a, probes;
      }
      a := a + STRIDE_2M;
      k := k + 1;
    }
    assert k == KERNEL_SLOTS;
    FirstKernelSkips(exec, 0, k);
    return 0, probes;
  }

  /** The inner loop of the scan at slot `k`, whose base is `a`: probe
      `a`, `a + 2M`, `a + 4M` in turn, giving up at the first
      non-executable one. */
  method ProbeSlot(exec: ExecOracle, a: u64, ghost k: nat) returns (hit: bool, probes: seq<u64>)
    requires k < KERNEL_SLOTS && a == Slot(k)
    ensures hit == KernelAt(exec, k)
    ensures probes == SlotProbes(exec, k)
  {
    probes := [];
    var i := 0;
    while i < 3
      invariant 0 <= i <= 3
      invariant forall m :: 0 <= m < i ==> exec(Probe(k, m))
      invariant probes == [Probe(k, 0), Probe(k, 1), Probe(k, 2)][..i]
    {
      var p := a + i * STRIDE_2M;
      probes := probes + [p];
      if !exec(p) {
        return false, probes;
      } else if i == 2 {
        return true, probes;
      }
      i := i + 1;
    }
    return false, probes;
  }
}
