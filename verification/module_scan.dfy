/** `FindModule`: scan forward in 64 KB steps for the first candidate
    whose page at offset 0x1000 is executable and whose pages match a
    signature, reporting a bad signature when the match fails at the
    region the signature was taken from. */
module ModuleScan {
  import opened Words
  import opened Signature

  const SCAN_STRIDE: nat := 0x10000
  const SCAN_SPAN: nat := 0x200000000
  /** SCAN_SPAN / SCAN_STRIDE candidates. */
  const SCAN_SLOTS: nat := 0x20000
  /** Offset of the page probed by the cheap filter. */
  const FILTER_OFFSET: u64 := 0x1000

  /** Number of candidates scanned from `start`: none when
      `start + 0x200000000` wraps past 2^64, since the loop bound is then
      below `start`. */
  function SlotCount(start: u64): (n: nat)
  {
    if start + SCAN_SPAN < TWO64 then SCAN_SLOTS else 0
  }

  function Candidate(start: u64, k: nat): (a: u64)
    requires k < SlotCount(start)
  {
    start + k * SCAN_STRIDE
  }

  /** The cheap filter: the page after the expected header is executable. */
  predicate PassesFilter(exec: ExecOracle, a: u64)
  {
    exec(Add64(a, FILTER_OFFSET))
  }

  /** Every page described by the signature, counted from `a`, has the
      executability the signature gives it. */
  predicate Matches(exec: ExecOracle, a: u64, sig: seq<u16>)
  {
    forall k :: 0 <= k < |Expand(sig)| ==> exec(PageAddr(a, k)) == Expand(sig)[k]
  }

  /** The scan accepts candidate `a`. */
  predicate Accepts(exec: ExecOracle, a: u64, sig: seq<u16>)
  {
    PassesFilter(exec, a) && Matches(exec, a, sig)
  }

  /** Candidate `k` is the first one the scan accepts. */
  predicate FirstAccepted(exec: ExecOracle, start: u64, sig: seq<u16>, k: nat)
  {
    && k < SlotCount(start)
    && Accepts(exec, Candidate(start, k), sig)
    && (forall j :: 0 <= j < k ==> !Accepts(exec, Candidate(start, j), sig))
  }

  /** The scan reaches `sBase` as a candidate, the filter passes there,
      and verification fails there. */
  predicate FailsAtReference(exec: ExecOracle, start: u64, sig: seq<u16>, sBase: u64)
  {
    exists k :: 0 <= k < SlotCount(start) && Candidate(start, k) == sBase
                && PassesFilter(exec, sBase) && !Matches(exec, sBase, sig)
                && (forall j :: 0 <= j < k ==> !Accepts(exec, Candidate(start, j), sig))
  }

  /** The candidates among the first `k` that pass the filter, in order:
      the ones that reach full verification. */
  function Filtered(exec: ExecOracle, start: u64, k: nat): (fs: seq<u64>)
    requires k <= SlotCount(start)
  {
    if k == 0 then []
    else Filtered(exec, start, k - 1)
         + (if PassesFilter(exec, Candidate(start, k - 1)) then [Candidate(start, k - 1)] else [])
  }

  /** The diagnostic `FindModule` prints on a mismatch at the reference
      region: "signature bad", followed by a regenerated signature. */
  datatype Report = BadSignature(regenerated: seq<u16>)

  /** The verification loop of `FindModule` at candidate `a`: walk the
      entries in order and compare each of their pages with the oracle,
      stopping at the first mismatch. */
  method VerifyAt(exec: ExecOracle, a: u64, sig: seq<u16>) returns (ok: bool)
    requires |sig| <= MAX_ENTRIES
    ensures ok <==> Matches(exec, a, sig)
  {
    ExpandBound(sig);
    var offset: u64 := 0;
    ghost var m: nat := 0;
    var i := 0;
    while i < |sig|
      invariant 0 <= i <= |sig|
      invariant m == |Expand(sig[..i])| && offset == m * PAGE
      invariant m <= |Expand(sig)|
      invariant forall q :: 0 <= q < m ==> exec(PageAddr(a, q)) == Expand(sig)[q]
    {
      var c := Count(sig[i]);
      var x := IsExec(sig[i]);
      ExpandPrefix(sig, i + 1);
      assert sig[..i + 1][..i] == sig[..i];
      assert Expand(sig[..i + 1]) == Expand(sig[..i]) + Repeat(x, c);
      var runOk;
      runOk, offset := VerifyRun(exec, a, offset, m, x, c);
      if !runOk {
        RunMismatch(exec, a, sig, i, m, x, c);
        return false;
      }
      RunMatch(exec, a, sig, i, m, x, c);
      m := m + c;
      i := i + 1;
    }
    assert sig[..i] == sig;
    return true;
  }

  /** The innermost loop of the verification: compare the `c` pages
      from page `m` of candidate `a` with polarity `x`, advancing
      `offset` by a page per match and stopping at the first mismatch. */
  method VerifyRun(exec: ExecOracle, a: u64, offset: u64, ghost m: nat, x: bool, c: nat)
    returns (ok: bool, next: u64)
    requires offset == m * PAGE && (m + c) * PAGE < TWO64
    ensures ok <==> forall j :: m <= j < m + c ==> exec(PageAddr(a, j)) == x
    ensures ok ==> next == (m + c) * PAGE
  {
    next := offset;
    var j := 0;
    while j < c
      invariant 0 <= j <= c && next == (m + j) * PAGE
      invariant forall q :: m <= q < m + j ==> exec(PageAddr(a, q)) == x
    {
      var v := exec(Add64(a, next));
      assert Add64(a, next) == PageAddr(a, m + j);
      if x != v {
        return false, next;
      }
      next := next + PAGE;
      j := j + 1;
    }
    return true, next;
  }

  /** A run of entry `i` whose pages all match extends the matched
      prefix over its pages. */
  lemma RunMatch(exec: ExecOracle, a: u64, sig: seq<u16>, i: nat, m: nat, x: bool, c: nat)
    requires i < |sig| && x == IsExec(sig[i]) && c == Count(sig[i])
    requires m == |Expand(sig[..i])|
    requires Expand(sig[..i + 1]) == Expand(sig[..i]) + Repeat(x, c)
    requires Expand(sig[..i + 1]) <= Expand(sig)
    requires forall q :: 0 <= q < m ==> exec(PageAddr(a, q)) == Expand(sig)[q]
    requires forall j :: m <= j < m + c ==> exec(PageAddr(a, j)) == x
    ensures m + c <= |Expand(sig)|
    ensures forall q :: 0 <= q < m + c ==> exec(PageAddr(a, q)) == Expand(sig)[q]
  {
    forall q | m <= q < m + c
      ensures exec(PageAddr(a, q)) == Expand(sig)[q]
    {
      assert Expand(sig)[q] == Expand(sig[..i + 1])[q];
    }
  }

  /** A mismatching page in the run of entry `i` is a page where the
      candidate differs from the signature. */
  lemma RunMismatch(exec: ExecOracle, a: u64, sig: seq<u16>, i: nat, m: nat, x: bool, c: nat)
    requires i < |sig| && x == IsExec(sig[i]) && c == Count(sig[i])
    requires m == |Expand(sig[..i])|
    requires Expand(sig[..i + 1]) == Expand(sig[..i]) + Repeat(x, c)
    requires Expand(sig[..i + 1]) <= Expand(sig)
    requires !forall j :: m <= j < m + c ==> exec(PageAddr(a, j)) == x
    ensures !Matches(exec, a, sig)
  {
    var j :| m <= j < m + c && exec(PageAddr(a, j)) != x;
    assert Expand(sig)[j] == Expand(sig[..i + 1])[j];
  }

  /** `FindModule` as the C code performs it. `verified` lists the
      candidates that reached full verification and `reports` the
      diagnostics printed. It returns the first accepted candidate, or 0
      when there is none; only candidates passing the filter are
      verified; a bad-signature report, carrying the regenerated
      signature of the reference region, is made exactly when
      verification fails at the reference region before the scan ends. */
  method FindModule(exec: ExecOracle, start: u64, sig: seq<u16>, sBase: u64, sSize: u64)
    returns (r: u64, verified: seq<u64>, reports: seq<Report>)
    requires |sig| <= MAX_ENTRIES
    requires FailsAtReference(exec, start, sig, sBase) ==> Terminates(sBase, sSize)
    ensures reports != [] <==> FailsAtReference(exec, start, sig, sBase)
    ensures reports != [] ==> reports == [BadSignature(SignatureOf(exec, sBase, sSize))]
    ensures RejectedBefore(exec, start, sig, SlotCount(start))
            ==> r == 0 && verified == Filtered(exec, start, SlotCount(start))
    ensures forall k: nat :: FirstAccepted(exec, start, sig, k)
              ==> (r == Candidate(start, k) && verified == Filtered(exec, start, k + 1))
  {
    verified := [];
    reports := [];
    ghost var n := SlotCount(start);
    var max := Add64(start, SCAN_SPAN);
    var a := start;
    ghost var k: nat := 0;
    while a < max
      invariant k <= n && a == start + k * SCAN_STRIDE
      invariant a < max <==> k < n
      invariant RejectedBefore(exec, start, sig, k)
      invariant verified == Filtered(exec, start, k)
      invariant reports == [] || reports == [BadSignature(SignatureOf(exec, sBase, sSize))]
      invariant reports != [] <==> FailedBefore(exec, start, sig, sBase, k)
      decreases max - a
    {
      assert a == Candidate(start, k);
      FailedStep(exec, start, sig, sBase, k);
      if !exec(Add64(a, FILTER_OFFSET)) {
        RejectStep(exec, start, sig, k);
        a := a + SCAN_STRIDE;
        k := k + 1;
        continue;
      }
      verified := verified + [a];
      var ok := VerifyAt(exec, a, sig);
      if ok {
        AcceptedStop(exec, start, sig, sBase, k, reports != []);
        return a, verified, reports;
      }
      RejectStep(exec, start, sig, k);
      if a == sBase {
        assert FailsAtReference(exec, start, sig, sBase);
        var regenerated := CreateModuleSignature(exec, sBase, sSize);
        reports := reports + [BadSignature(regenerated)];
      }
      a := a + SCAN_STRIDE;
      k := k + 1;
    }
    ExhaustedStop(exec, start, sig, sBase, k, reports != []);
    return 0, verified, reports;
  }

  /** No candidate among the first `k` is accepted. */
  predicate RejectedBefore(exec: ExecOracle, start: u64, sig: seq<u16>, k: nat)
    requires k <= SlotCount(start)
  {
    forall j :: 0 <= j < k ==> !Accepts(exec, Candidate(start, j), sig)
  }

  /** Verification failed at `sBase` among the first `k` candidates. */
  predicate FailedBefore(exec: ExecOracle, start: u64, sig: seq<u16>, sBase: u64, k: nat)
    requires k <= SlotCount(start)
  {
    exists j :: 0 <= j < k && Candidate(start, j) == sBase
                && PassesFilter(exec, sBase) && !Matches(exec, sBase, sig)
  }

  /** Rejecting candidate `k` extends `RejectedBefore`. */
  lemma RejectStep(exec: ExecOracle, start: u64, sig: seq<u16>, k: nat)
    requires k < SlotCount(start)
    requires RejectedBefore(exec, start, sig, k)
    requires !Accepts(exec, Candidate(start, k), sig)
    ensures RejectedBefore(exec, start, sig, k + 1)
  {
  }

  /** Candidate `k` adds a failure at `sBase` exactly when it is `sBase`,
      and then no earlier candidate was. */
  lemma FailedStep(exec: ExecOracle, start: u64, sig: seq<u16>, sBase: u64, k: nat)
    requires k < SlotCount(start)
    ensures FailedBefore(exec, start, sig, sBase, k + 1)
            <==> FailedBefore(exec, start, sig, sBase, k)
                 || (Candidate(start, k) == sBase && PassesFilter(exec, sBase) && !Matches(exec, sBase, sig))
    ensures Candidate(start, k) == sBase ==> !FailedBefore(exec, start, sig, sBase, k)
  {
    if FailedBefore(exec, start, sig, sBase, k + 1) {
      var j :| 0 <= j < k + 1 && Candidate(start, j) == sBase
               && PassesFilter(exec, sBase) && !Matches(exec, sBase, sig);
      if j < k {
        assert FailedBefore(exec, start, sig, sBase, k);
      }
    }
    if Candidate(start, k) == sBase && PassesFilter(exec, sBase) && !Matches(exec, sBase, sig) {
      assert FailedBefore(exec, start, sig, sBase, k + 1);
    }
  }

  /** The filter comes first: every candidate that reaches verification
      has an executable page at offset 0x1000, and every candidate that
      has one reaches it. */
  lemma {:induction false} FilteredPass(exec: ExecOracle, start: u64, k: nat)
    requires k <= SlotCount(start)
    ensures forall i :: 0 <= i < |Filtered(exec, start, k)| ==> PassesFilter(exec, Filtered(exec, start, k)[i])
    ensures forall j :: 0 <= j < k && PassesFilter(exec, Candidate(start, j)) ==> Candidate(start, j) in Filtered(exec, start, k)
  {
    if k > 0 {
      FilteredPass(exec, start, k - 1);
    }
  }

  /** Stopping at an accepted candidate `k`: it is the first accepted,
      and a failure at `sBase` before it is one for the whole scan. */
  lemma AcceptedStop(exec: ExecOracle, start: u64, sig: seq<u16>, sBase: u64, k: nat, failed: bool)
    requires k < SlotCount(start)
    requires RejectedBefore(exec, start, sig, k)
    requires Accepts(exec, Candidate(start, k), sig)
    requires failed <==> FailedBefore(exec, start, sig, sBase, k)
    ensures FirstAccepted(exec, start, sig, k)
    ensures forall j: nat :: FirstAccepted(exec, start, sig, j) ==> j == k
    ensures !RejectedBefore(exec, start, sig, SlotCount(start))
    ensures failed <==> FailsAtReference(exec, start, sig, sBase)
  {
    if FailsAtReference(exec, start, sig, sBase) {
      var j :| 0 <= j < SlotCount(start) && Candidate(start, j) == sBase
               && PassesFilter(exec, sBase) && !Matches(exec, sBase, sig)
               && (forall i :: 0 <= i < j ==> !Accepts(exec, Candidate(start, i), sig));
      assert j < k;
    }
    if failed {
      var j :| 0 <= j < k && Candidate(start, j) == sBase
               && PassesFilter(exec, sBase) && !Matches(exec, sBase, sig);
      assert FailsAtReference(exec, start, sig, sBase);
    }
  }

  /** Exhausting the scan: no candidate is accepted, and the failures at
      `sBase` seen are those of the whole scan. */
  lemma ExhaustedStop(exec: ExecOracle, start: u64, sig: seq<u16>, sBase: u64, k: nat, failed: bool)
    requires k == SlotCount(start)
    requires RejectedBefore(exec, start, sig, k)
    requires failed <==> FailedBefore(exec, start, sig, sBase, k)
    ensures forall j: nat :: !FirstAccepted(exec, start, sig, j)
    ensures failed <==> FailsAtReference(exec, start, sig, sBase)
  {
    if failed {
      var j :| 0 <= j < k && Candidate(start, j) == sBase
               && PassesFilter(exec, sBase) && !Matches(exec, sBase, sig);
      assert FailsAtReference(exec, start, sig, sBase);
    }
  }

  /** An expansion of a prefix is a prefix of the expansion. */
  lemma {:induction false} ExpandPrefix(sig: seq<u16>, i: nat)
    requires i <= |sig|
    ensures Expand(sig[..i]) <= Expand(sig)
    decreases |sig| - i
  {
    if i < |sig| {
      var last := |sig| - 1;
      assert sig[..last][..i] == sig[..i];
      ExpandPrefix(sig[..last], i);
    } else {
      assert sig[..i] == sig;
    }
  }

  /** Each entry describes at most `MAX_RUN` pages, so a signature
      describes at most `|sig| * MAX_RUN` pages. */
  lemma {:induction false} ExpandBound(sig: seq<u16>)
    ensures |Expand(sig)| <= |sig| * MAX_RUN
  {
    if sig != [] {
      ExpandBound(sig[..|sig| - 1]);
    }
  }

  /** A region's own signature matches the region: when the region has
      at least one page and all its runs fit 15 bits, verification at
      `sBase` against `SignatureOf` succeeds. */
  lemma SignatureMatchesRegion(exec: ExecOracle, base: u64, size: u64)
    requires PageCount(base, size) > 0
    requires RunsFit(RegionFlags(exec, base, PageCount(base, size)))
    ensures Matches(exec, base, SignatureOf(exec, base, size))
  {
    SignatureRoundTrip(RegionFlags(exec, base, PageCount(base, size)));
  }

  /** Verification against a region's signature detects every change of
      a page: another oracle matches it exactly when it agrees with the
      original on every page of the region. */
  lemma MatchesIffAgree(exec: ExecOracle, other: ExecOracle, base: u64, size: u64)
    requires PageCount(base, size) > 0
    requires RunsFit(RegionFlags(exec, base, PageCount(base, size)))
    ensures Matches(other, base, SignatureOf(exec, base, size))
            <==> forall k :: 0 <= k < PageCount(base, size) ==> other(PageAddr(base, k)) == exec(PageAddr(base, k))
  {
    var flags := RegionFlags(exec, base, PageCount(base, size));
    SignatureExpands(exec, base, size);
    MatchesFlags(other, base, SignatureOf(exec, base, size), flags);
  }

  /** A region's signature expands to the region's page flags, when the
      region has at least one page and its runs fit. */
  lemma SignatureExpands(exec: ExecOracle, base: u64, size: u64)
    requires PageCount(base, size) > 0
    requires RunsFit(RegionFlags(exec, base, PageCount(base, size)))
    ensures Expand(SignatureOf(exec, base, size)) == RegionFlags(exec, base, PageCount(base, size))
  {
    SignatureRoundTrip(RegionFlags(exec, base, PageCount(base, size)));
  }

  /** Matching a signature is matching the flags it expands to. */
  lemma MatchesFlags(exec: ExecOracle, a: u64, sig: seq<u16>, flags: seq<bool>)
    requires Expand(sig) == flags
    ensures Matches(exec, a, sig) <==> forall k :: 0 <= k < |flags| ==> exec(PageAddr(a, k)) == flags[k]
  {
  }

  /** Searching with the signature of the reference region never reports
      it as bad: the scan cannot fail verification at `sBase`. */
  lemma NoReportForOwnSignature(exec: ExecOracle, start: u64, sBase: u64, sSize: u64)
    requires PageCount(sBase, sSize) > 0
    requires RunsFit(RegionFlags(exec, sBase, PageCount(sBase, sSize)))
    ensures !FailsAtReference(exec, start, SignatureOf(exec, sBase, sSize), sBase)
  {
    SignatureMatchesRegion(exec, sBase, sSize);
  }

  /** The filter loses nothing for signatures whose second page is
      executable, such as those of modules laid out as a one-page header
      followed by code: every candidate that matches passes the filter. */
  lemma FilterKeepsMatches(exec: ExecOracle, a: u64, sig: seq<u16>)
    requires |Expand(sig)| >= 2 && Expand(sig)[1]
    requires Matches(exec, a, sig)
    ensures PassesFilter(exec, a)
  {
    assert exec(PageAddr(a, 1)) == Expand(sig)[1];
  }

  /** Entries with a zero count are matched trivially: inserting one
      anywhere in a signature changes nothing the verification checks. */
  lemma ZeroCountIgnored(exec: ExecOracle, a: u64, s1: seq<u16>, e: u16, s2: seq<u16>)
    requires Count(e) == 0
    ensures Matches(exec, a, s1 + [e] + s2) <==> Matches(exec, a, s1 + s2)
  {
    ExpandAppend(s1 + [e], s2);
    ExpandAppend(s1, s2);
    ExpandSnoc(s1, e);
    assert Repeat(IsExec(e), 0) == [];
    assert Expand(s1 + [e] + s2) == Expand(s1 + s2);
  }
}
