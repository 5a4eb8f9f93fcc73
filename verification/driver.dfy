/** `main_c`: which of the scans run, in what order, on which inputs. */
module Driver {
  import opened Words
  import opened Signature
  import opened TextFormat
  import opened KernelScan
  import opened ModulesBase
  import opened ModuleScan

  /** What one run of the program determines: nothing without TSX;
      otherwise the kernel base, the signature created when `-sigbase`
      and `-size` are both given, and the modules base and module address
      found when a signature was loaded. */
  datatype Outcome =
    | NoTsx
    | Ran(kernel: u64, created: Option<seq<u16>>, search: Option<Search>)

  datatype Search = Search(modulesBase: u64, found: u64)

  /** The encoder is called on `sBase, sSize` in a run that gets past the
      TSX check: directly when `-sigbase` and `-size` are both given, and
      from `FindModule` when a loaded signature fails at `sBase`. */
  predicate EncoderCalled(exec: ExecOracle, sigText: string, sBase: u64, sSize: u64)
  {
    || (sBase != 0 && sSize != 0)
    || (DecodeSignature(sigText) != []
        && FailsAtReference(exec, ModulesBaseOf(exec, FirstKernel(exec, 0)),
                            DecodeSignature(sigText), sBase))
  }

  /** `main_c` after argument parsing: `sigText` is the `-sig` argument
      (empty when absent), `sBase` and `sSize` those of `-sigbase` and
      `-size` (0 when absent). The encoder's page walk must end whenever
      the run calls it. */
  method MainC(exec: ExecOracle, tsx: bool, sigText: string, sBase: u64, sSize: u64)
    returns (o: Outcome)
    requires tsx && EncoderCalled(exec, sigText, sBase, sSize) ==> Terminates(sBase, sSize)
    ensures o.NoTsx? <==> !tsx
    ensures o.Ran? ==> o.kernel == FirstKernel(exec, 0)
    ensures o.Ran? ==> (o.kernel == 0 <==> NoKernelBelow(exec, KERNEL_SLOTS))
    ensures o.Ran? ==> (o.created.Some? <==> sBase != 0 && sSize != 0)
    ensures o.Ran? && o.created.Some? ==> o.created.value == SignatureOf(exec, sBase, sSize)
    ensures o.Ran? ==> (o.search.Some? <==> DecodeSignature(sigText) != [])
    ensures o.Ran? && o.search.Some? ==> o.search.value.modulesBase == ModulesBaseOf(exec, o.kernel)
    ensures o.Ran? && o.search.Some? ==>
              (o.search.value.modulesBase == 0 <==> NoPair(exec, AllProbed(o.kernel)))
  {
    var sig := DecodeSignature(sigText);
    if !tsx {
      return NoTsx;
    }
    var aKernel, _ := FindKernel2M(exec);
    var created := None;
    if sBase != 0 && sSize != 0 {
      var s := CreateModuleSignature(exec, sBase, sSize);
      created := Some(s);
    }
    var search := None;
    if |sig| != 0 {
      var aModules, probes := FindModulesBase(exec, aKernel);
      if aModules == 0 {
        PairBaseNone(exec, AllProbed(aKernel));
      } else {
        PairBaseFirst(exec, AllProbed(aKernel), aModules, probes);
      }
      var aModule, _, _ := FindModule(exec, aModules, sig, sBase, sSize);
      search := Some(Search(aModules, aModule));
    }
    return Ran(aKernel, created, search);
  }
}
