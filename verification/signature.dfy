/** Module signatures: the run-length encoding of a region's per-page
    executable flags built by `CreateModuleSignature`, and the reading
    of the entries that `FindModule` uses to verify a candidate.

    An entry is a 16-bit value: the low 15 bits count pages and the bit
    0x8000 marks a run of non-executable pages. */
module Signature {
  import opened Words

  /** `SIGNATURE_NX`. */
  const NX: u16 := 0x8000
  /** The largest page count an entry can hold. */
  const MAX_RUN: nat := 0x7fff

  /** The page count of an entry, `e & ~SIGNATURE_NX`: clearing bit 15
      of a 16-bit value subtracts 0x8000 when that bit is set. */
  function Count(e: u16): (c: nat)
    ensures c <= MAX_RUN
  {
    if e < 0x8000 then e else e - 0x8000
  }

  /** The polarity of an entry, `(e & SIGNATURE_NX) == 0`. */
  predicate IsExec(e: u16)
  {
    e < 0x8000
  }

  /** An entry is determined by its polarity and its count. */
  lemma EntryFields(e: u16)
    ensures e == (if IsExec(e) then 0 else NX) + Count(e)
  {
  }

  /** The page flags a signature describes: each entry stands for
      `Count(e)` pages of its polarity; zero-count entries stand for none. */
  function Expand(sig: seq<u16>): (flags: seq<bool>)
  {
    if sig == [] then []
    else Expand(sig[..|sig| - 1]) + Repeat(IsExec(sig[|sig| - 1]), Count(sig[|sig| - 1]))
  }

  /** Sum of the page counts of a signature. */
  function SumCounts(sig: seq<u16>): (n: nat)
  {
    if sig == [] then 0 else SumCounts(sig[..|sig| - 1]) + Count(sig[|sig| - 1])
  }

  /** A signature in canonical form: no empty runs, and adjacent entries
      of opposite polarity (equal neighbours would have been one run). */
  predicate Canonical(sig: seq<u16>)
  {
    && (forall i :: 0 <= i < |sig| ==> Count(sig[i]) > 0)
    && (forall i :: 1 <= i < |sig| ==> IsExec(sig[i - 1]) != IsExec(sig[i]))
  }

  /** A maximal run of pages with the same executability. */
  datatype Run = Run(executable: bool, pages: nat)

  /** Add one page of polarity `b` after the runs `rs`: it lengthens the
      last run when that has polarity `b`, and opens a new run otherwise. */
  function Extend(rs: seq<Run>, b: bool): (rs': seq<Run>)
  {
    if rs != [] && rs[|rs| - 1].executable == b
    then rs[..|rs| - 1] + [Run(b, rs[|rs| - 1].pages + 1)]
    else rs + [Run(b, 1)]
  }

  /** Reference decomposition of a flag sequence into its maximal runs,
      built by adding the pages one at a time. */
  function Runs(flags: seq<bool>): (rs: seq<Run>)
  {
    if flags == [] then [] else Extend(Runs(flags[..|flags| - 1]), flags[|flags| - 1])
  }

  /** Every run fits the 15-bit count field. */
  predicate AllFit(rs: seq<Run>)
  {
    forall i :: 0 <= i < |rs| ==> rs[i].pages <= MAX_RUN
  }

  /** Every maximal run of `flags` fits the 15-bit count field. */
  predicate RunsFit(flags: seq<bool>)
  {
    AllFit(Runs(flags))
  }

  /** The entry the encoder emits for a run: the polarity bit plus the
      page count, in a `uint16_t` that wraps past 0xffff. */
  function EntryOf(r: Run): (e: u16)
  {
    Wrap16((if r.executable then 0 else NX) + r.pages)
  }

  /** A value truncated to `uint16_t`. */
  function Wrap16(v: nat): (w: u16)
  {
    if v < 0x1_0000 then v else v % 0x1_0000
  }

  /** `c++` on a `uint16_t`. */
  function Inc16(c: u16): (r: u16)
    ensures r == Wrap16(c + 1)
  {
    if c == 0xffff then 0 else c + 1
  }

  /** The entries for a sequence of runs, in order. */
  function Entries(rs: seq<Run>): (sig: seq<u16>)
    ensures |sig| == |rs|
    ensures forall i :: 0 <= i < |rs| ==> sig[i] == EntryOf(rs[i])
  {
    seq(|rs|, i requires 0 <= i < |rs| => EntryOf(rs[i]))
  }

  /** Number of pages `s_base, s_base + 0x1000, ... < s_base + s_size`
      the encoder walks; none when `s_base + s_size` wraps past 2^64. */
  function PageCount(base: u64, size: u64): (n: nat)
  {
    if base + size >= TWO64 then 0 else (size + PAGE - 1) / PAGE
  }

  /** The page walk of the encoder ends: the address after the last page
      does not wrap past 2^64 (otherwise the C loop never exits). */
  predicate Terminates(base: u64, size: u64)
  {
    base + size >= TWO64 || base + PageCount(base, size) * PAGE < TWO64
  }

  /** The per-page executable flags of `n` pages from `base`. */
  function RegionFlags(exec: ExecOracle, base: u64, n: nat): (flags: seq<bool>)
    ensures |flags| == n
    ensures forall k :: 0 <= k < n ==> flags[k] == exec(PageAddr(base, k))
  {
    seq(n, k requires 0 <= k < n => exec(PageAddr(base, k)))
  }

  /** The entries the encoder prints for a region: one entry per maximal
      run of its pages; a region of no pages yields a single zero-count
      entry of the polarity of `s_base`. */
  function SignatureOf(exec: ExecOracle, base: u64, size: u64): (sig: seq<u16>)
  {
    var n := PageCount(base, size);
    if n == 0 then [if exec(base) then 0 else NX]
    else Entries(Runs(RegionFlags(exec, base, n)))
  }

  /** `CreateModuleSignature` as the C loop performs it, returning the
      entries it prints. For a region of at least one page whose runs all
      fit 15 bits, the signature is canonical, its counts sum to the
      number of pages, and it expands back to the region's flags. */
  method CreateModuleSignature(exec: ExecOracle, base: u64, size: u64) returns (sig: seq<u16>)
    requires Terminates(base, size)
    ensures sig == SignatureOf(exec, base, size)
    ensures PageCount(base, size) == 0 ==> sig == [if exec(base) then 0 else NX]
    ensures var n := PageCount(base, size);
            var flags := RegionFlags(exec, base, n);
            n > 0 && RunsFit(flags) ==>
              && Canonical(sig)
              && SumCounts(sig) == n
              && Expand(sig) == flags
  {
    ghost var n := PageCount(base, size);
    ghost var flags := RegionFlags(exec, base, n);
    var x := exec(base);
    var c: u16 := if x then 0 else NX;
    sig := [];
    var end := Add64(base, size);
    var a := base;
    ghost var k: nat := 0;
    PageWalk(base, size, 0);
    while a < end
      invariant k <= n && a == base + k * PAGE
      invariant a < end <==> k < n
      invariant k == 0 ==> x == exec(base)
      invariant EncoderState(flags, k, sig, c, x)
      decreases end - a
    {
      var v := exec(a);
      assert v == flags[k];
      EncoderAdvance(flags, k, sig, c, x);
      if x == v {
        c := Inc16(c);
      } else {
        sig := sig + [c];
        x := v;
        c := 1 + (if x then 0 else NX);
      }
      a := a + PAGE;
      k := k + 1;
      PageWalk(base, size, k);
    }
    assert k == n;
    sig := sig + [c];
    if n > 0 {
      assert flags[..k] == flags;
      if RunsFit(flags) {
        SignatureRoundTrip(flags);
      }
    }
  }

  /** What the encoder holds after walking `k` pages of `flags`: before
      the first page, no entry and a zero count of the first page's
      polarity; afterwards, the emitted entries followed by the pending
      one are the entries of the runs seen so far, and `x` is the
      polarity of the last page. */
  predicate EncoderState(flags: seq<bool>, k: nat, sig: seq<u16>, c: u16, x: bool)
    requires k <= |flags|
  {
    if k == 0 then sig == [] && c == (if x then 0 else NX)
    else sig + [c] == Entries(Runs(flags[..k])) && x == flags[k - 1]
  }

  /** One page of the encoder loop keeps `EncoderState`: a page of the
      current polarity increments the pending count, any other page
      emits it and opens a one-page entry. */
  lemma EncoderAdvance(flags: seq<bool>, k: nat, sig: seq<u16>, c: u16, x: bool)
    requires k < |flags| && EncoderState(flags, k, sig, c, x)
    requires k == 0 ==> x == flags[0]
    ensures x == flags[k] ==> EncoderState(flags, k + 1, sig, Inc16(c), x)
    ensures x != flags[k] ==> EncoderState(flags, k + 1, sig + [c], 1 + (if flags[k] then 0 else NX), flags[k])
  {
    if k == 0 {
      EncoderFirst(flags);
    } else {
      EncoderStep(flags, k, sig, c);
    }
  }

  /** The last run has the polarity of the last page. */
  lemma RunsLast(flags: seq<bool>)
    requires flags != []
    ensures Runs(flags) != []
    ensures Runs(flags)[|Runs(flags)| - 1].executable == flags[|flags| - 1]
  {
  }

  /** The first page opens a one-page run. */
  lemma EncoderFirst(flags: seq<bool>)
    requires flags != []
    ensures [Inc16(if flags[0] then 0 else NX)] == Entries(Runs(flags[..1]))
  {
    assert flags[..1][..0] == [];
    assert Runs(flags[..1]) == [Run(flags[0], 1)];
  }

  /** One step of the encoder loop: a page of the current polarity
      increments the pending entry; a page of the other polarity emits it
      and opens a one-page run. */
  lemma EncoderStep(flags: seq<bool>, k: nat, sig: seq<u16>, c: u16)
    requires 0 < k < |flags|
    requires sig + [c] == Entries(Runs(flags[..k]))
    ensures flags[k] == flags[k - 1] ==> sig + [Inc16(c)] == Entries(Runs(flags[..k + 1]))
    ensures flags[k] != flags[k - 1] ==>
              (sig + [c]) + [1 + (if flags[k] then 0 else NX)] == Entries(Runs(flags[..k + 1]))
  {
    assert flags[..k + 1][..k] == flags[..k];
    assert flags[..k][k - 1] == flags[k - 1];
    RunsLast(flags[..k]);
    EntriesExtend(Runs(flags[..k]), flags[k], sig, c);
  }

  /** The encoder's update of its pending entry follows `Extend`. */
  lemma EntriesExtend(rs: seq<Run>, b: bool, sig: seq<u16>, c: u16)
    requires rs != [] && sig + [c] == Entries(rs)
    ensures rs[|rs| - 1].executable == b ==> sig + [Inc16(c)] == Entries(Extend(rs, b))
    ensures rs[|rs| - 1].executable != b ==> (sig + [c]) + [1 + (if b then 0 else NX)] == Entries(Extend(rs, b))
  {
    var m := |rs| - 1;
    if rs[m].executable == b {
      var r := Run(b, rs[m].pages + 1);
      assert rs == rs[..m] + [rs[m]];
      EntriesSnoc(rs[..m], rs[m]);
      SnocInjective(sig, c, Entries(rs[..m]), EntryOf(rs[m]));
      EntriesSnoc(rs[..m], r);
      EntryOfNext(rs[m]);
    } else {
      EntriesSnoc(rs, Run(b, 1));
    }
  }

  /** Entries distribute over appending one run. */
  lemma EntriesSnoc(rs: seq<Run>, r: Run)
    ensures Entries(rs + [r]) == Entries(rs) + [EntryOf(r)]
  {
  }

  /** A non-empty sequence is its front followed by its last element. */
  lemma SplitLast<T>(s: seq<T>)
    requires s != []
    ensures s == s[..|s| - 1] + [s[|s| - 1]]
  {
  }

  /** Two sequences that end alike after one append are equal before it. */
  lemma SnocInjective<T>(s: seq<T>, x: T, t: seq<T>, y: T)
    requires s + [x] == t + [y]
    ensures s == t && x == y
  {
    assert s == (s + [x])[..|s|];
    assert t == (t + [y])[..|t|];
  }

  /** Incrementing an entry in 16 bits adds one page to its run. */
  lemma EntryOfNext(r: Run)
    ensures Inc16(EntryOf(r)) == EntryOf(Run(r.executable, r.pages + 1))
  {
    var v := (if r.executable then 0 else NX) + r.pages;
    if v >= 0x1_0000 {
      assert v % 0x1_0000 + 1 == 0x1_0000 ==> (v + 1) % 0x1_0000 == 0;
      assert v % 0x1_0000 + 1 < 0x1_0000 ==> (v + 1) % 0x1_0000 == v % 0x1_0000 + 1;
    }
  }

  /** The walk's address `base + k * 0x1000` is below the end of the
      region exactly while `k` is below the page count, and it does not
      wrap before the walk ends. */
  lemma PageWalk(base: u64, size: u64, k: nat)
    requires Terminates(base, size)
    requires k <= PageCount(base, size)
    ensures base + k * PAGE < TWO64
    ensures base + k * PAGE < Add64(base, size) <==> k < PageCount(base, size)
  {
  }

  /** A run that fits 15 bits is encoded without loss. */
  lemma EntryOfFits(r: Run)
    requires r.pages <= MAX_RUN
    ensures Count(EntryOf(r)) == r.pages
    ensures IsExec(EntryOf(r)) == r.executable
  {
  }

  /** `Extend` keeps all runs but the last, which it may lengthen. */
  lemma ExtendKeeps(rs: seq<Run>, b: bool)
    ensures |rs| <= |Extend(rs, b)| <= |rs| + 1
    ensures forall i :: 0 <= i < |rs| - 1 ==> Extend(rs, b)[i] == rs[i]
    ensures rs != [] ==> Extend(rs, b)[|rs| - 1].executable == rs[|rs| - 1].executable
    ensures rs != [] ==> Extend(rs, b)[|rs| - 1].pages >= rs[|rs| - 1].pages
    ensures |Extend(rs, b)| == |rs| + 1 ==> Extend(rs, b)[|rs|] == Run(b, 1)
    ensures Extend(rs, b)[|Extend(rs, b)| - 1].executable == b
  {
  }

  /** Maximal runs are never empty. */
  lemma {:induction false} RunsNonEmpty(flags: seq<bool>)
    ensures forall i :: 0 <= i < |Runs(flags)| ==> Runs(flags)[i].pages >= 1
  {
    if flags != [] {
      var prev := Runs(flags[..|flags| - 1]);
      RunsNonEmpty(flags[..|flags| - 1]);
      ExtendKeeps(prev, flags[|flags| - 1]);
    }
  }

  /** Adjacent maximal runs have opposite polarity. */
  lemma {:induction false} RunsAlternate(flags: seq<bool>)
    ensures forall i :: 1 <= i < |Runs(flags)| ==> Runs(flags)[i - 1].executable != Runs(flags)[i].executable
  {
    if flags != [] {
      var g := flags[..|flags| - 1];
      var b := flags[|flags| - 1];
      RunsAlternate(g);
      ExtendKeeps(Runs(g), b);
      ExtendAlternates(Runs(g), b);
    }
  }

  /** `Extend` keeps neighbouring runs of opposite polarity. */
  lemma ExtendAlternates(rs: seq<Run>, b: bool)
    requires forall i :: 1 <= i < |rs| ==> rs[i - 1].executable != rs[i].executable
    ensures forall i :: 1 <= i < |Extend(rs, b)| ==> Extend(rs, b)[i - 1].executable != Extend(rs, b)[i].executable
  {
    var es := Extend(rs, b);
    ExtendKeeps(rs, b);
    forall i | 1 <= i < |es|
      ensures es[i - 1].executable != es[i].executable
    {
      if i < |rs| - 1 {
        assert es[i - 1] == rs[i - 1] && es[i] == rs[i];
      } else if i == |rs| - 1 {
        assert es[i - 1] == rs[i - 1];
      }
    }
  }

  /** The runs of a prefix fit whenever those of the whole sequence do. */
  lemma ExtendFitPrefix(rs: seq<Run>, b: bool)
    requires AllFit(Extend(rs, b))
    ensures AllFit(rs)
  {
    ExtendKeeps(rs, b);
    forall i | 0 <= i < |rs|
      ensures rs[i].pages <= MAX_RUN
    {
      if i < |rs| - 1 {
        assert Extend(rs, b)[i] == rs[i];
      } else {
        assert Extend(rs, b)[i].pages >= rs[i].pages;
      }
    }
  }

  /** Adding a page to runs that fit adds it to the expansion. */
  lemma ExpandExtend(rs: seq<Run>, b: bool)
    requires AllFit(Extend(rs, b))
    ensures Expand(Entries(Extend(rs, b))) == Expand(Entries(rs)) + [b]
  {
    ExtendKeeps(rs, b);
    if rs != [] && rs[|rs| - 1].executable == b {
      ExpandLongerRun(rs, b);
    } else {
      ExpandNewRun(rs, b);
    }
  }

  /** Expanding the entries of the maximal runs gives back the flags,
      when every run fits 15 bits. */
  lemma {:induction false} EntriesExpand(flags: seq<bool>)
    requires RunsFit(flags)
    ensures Expand(Entries(Runs(flags))) == flags
  {
    if flags != [] {
      var g := flags[..|flags| - 1];
      var b := flags[|flags| - 1];
      var rs := Runs(g);
      assert Runs(flags) == Extend(rs, b);
      ExtendFitPrefix(rs, b);
      EntriesExpand(g);
      ExpandExtend(rs, b);
      SplitLast(flags);
    }
  }

  /** Lengthening the last run by one page adds one page to the expansion. */
  lemma ExpandLongerRun(rs: seq<Run>, b: bool)
    requires rs != [] && rs[|rs| - 1].executable == b && rs[|rs| - 1].pages < MAX_RUN
    ensures var m := |rs| - 1;
            Expand(Entries(rs[..m] + [Run(b, rs[m].pages + 1)])) == Expand(Entries(rs)) + [b]
  {
    var m := |rs| - 1;
    var p := rs[m].pages;
    EntryOfFits(rs[m]);
    EntryOfFits(Run(b, p + 1));
    assert rs == rs[..m] + [rs[m]];
    EntriesSnoc(rs[..m], rs[m]);
    EntriesSnoc(rs[..m], Run(b, p + 1));
    var rest := Expand(Entries(rs[..m]));
    ExpandSnoc(Entries(rs[..m]), EntryOf(rs[m]));
    ExpandSnoc(Entries(rs[..m]), EntryOf(Run(b, p + 1)));
    assert Repeat(b, p + 1) == Repeat(b, p) + [b];
    assert rest + (Repeat(b, p) + [b]) == (rest + Repeat(b, p)) + [b];
  }

  /** Starting a new one-page run adds that page to the expansion. */
  lemma ExpandNewRun(rs: seq<Run>, b: bool)
    ensures Expand(Entries(rs + [Run(b, 1)])) == Expand(Entries(rs)) + [b]
  {
    EntryOfFits(Run(b, 1));
    EntriesSnoc(rs, Run(b, 1));
    ExpandSnoc(Entries(rs), EntryOf(Run(b, 1)));
    assert Repeat(b, 1) == [b];
  }

  /** Appending an entry appends its pages. */
  lemma ExpandSnoc(sig: seq<u16>, e: u16)
    ensures Expand(sig + [e]) == Expand(sig) + Repeat(IsExec(e), Count(e))
  {
    assert (sig + [e])[..|sig|] == sig;
  }

  /** The length of an expansion is the sum of the counts. */
  lemma {:induction false} ExpandLength(sig: seq<u16>)
    ensures |Expand(sig)| == SumCounts(sig)
  {
    if sig != [] {
      ExpandLength(sig[..|sig| - 1]);
    }
  }

  /** What the encoder produces for a region whose runs fit: canonical,
      counting every page once, and expanding back to the flags. */
  lemma SignatureRoundTrip(flags: seq<bool>)
    requires flags != [] && RunsFit(flags)
    ensures Canonical(Entries(Runs(flags)))
    ensures Expand(Entries(Runs(flags))) == flags
    ensures SumCounts(Entries(Runs(flags))) == |flags|
  {
    RunsNonEmpty(flags);
    RunsAlternate(flags);
    EntriesExpand(flags);
    var rs := Runs(flags);
    var sig := Entries(rs);
    forall i | 0 <= i < |rs|
      ensures Count(sig[i]) == rs[i].pages && IsExec(sig[i]) == rs[i].executable
    {
      EntryOfFits(rs[i]);
    }
    ExpandLength(sig);
  }

  /** The other direction of the round trip: re-encoding the pages a
      canonical signature describes gives back that signature. So a
      canonical signature is the only one the encoder can emit for its
      pages. */
  lemma {:induction false} EncodeExpand(sig: seq<u16>)
    requires Canonical(sig)
    ensures Entries(Runs(Expand(sig))) == sig
  {
    if sig != [] {
      var m := |sig| - 1;
      var init := sig[..m];
      var e := sig[m];
      CanonicalPrefix(sig);
      EncodeExpand(init);
      if init != [] {
        ExpandLast(init);
      }
      var x := Expand(init);
      RunsAppendRepeat(x, IsExec(e), Count(e));
      EncodeExpandStep(sig, x);
    }
  }

  /** The front of a canonical signature is canonical, and its last entry
      has pages of the polarity opposite to the one before. */
  lemma CanonicalPrefix(sig: seq<u16>)
    requires sig != [] && Canonical(sig)
    ensures Canonical(sig[..|sig| - 1])
    ensures Count(sig[|sig| - 1]) > 0
    ensures |sig| >= 2 ==> IsExec(sig[|sig| - 2]) != IsExec(sig[|sig| - 1])
  {
  }

  /** The last step of `EncodeExpand`: one more entry adds one more run. */
  lemma EncodeExpandStep(sig: seq<u16>, x: seq<bool>)
    requires sig != []
    requires x == Expand(sig[..|sig| - 1])
    requires Entries(Runs(x)) == sig[..|sig| - 1]
    requires Runs(x + Repeat(IsExec(sig[|sig| - 1]), Count(sig[|sig| - 1])))
             == Runs(x) + [Run(IsExec(sig[|sig| - 1]), Count(sig[|sig| - 1]))]
    ensures Entries(Runs(Expand(sig))) == sig
  {
    var m := |sig| - 1;
    var e := sig[m];
    var r := Run(IsExec(e), Count(e));
    assert Expand(sig) == x + Repeat(r.executable, r.pages);
    EntriesSnoc(Runs(x), r);
    EntryOfEntry(e);
    SplitLast(sig);
  }

  /** The run an entry describes is encoded as that entry. */
  lemma EntryOfEntry(e: u16)
    ensures EntryOf(Run(IsExec(e), Count(e))) == e
  {
    EntryFields(e);
  }

  /** A canonical signature's pages end with a page of its last entry's
      polarity. */
  lemma ExpandLast(sig: seq<u16>)
    requires sig != [] && Canonical(sig)
    ensures Expand(sig) != []
    ensures Expand(sig)[|Expand(sig)| - 1] == IsExec(sig[|sig| - 1])
  {
    var m := |sig| - 1;
    ExpandSnoc(sig[..m], sig[m]);
    SplitLast(sig);
  }

  /** Appending `c` pages of polarity `b` after flags that do not end in
      `b` appends one run of `c` pages. */
  lemma {:induction false} RunsAppendRepeat(x: seq<bool>, b: bool, c: nat)
    requires c > 0 && (x == [] || x[|x| - 1] != b)
    ensures Runs(x + Repeat(b, c)) == Runs(x) + [Run(b, c)]
  {
    if c == 1 {
      RunsNewRun(x, b);
    } else {
      RunsAppendRepeat(x, b, c - 1);
      AppendRepeatSnoc(x, b, c);
      RunsLongerRun(x + Repeat(b, c - 1), Runs(x), b, c);
    }
  }

  /** A page of polarity `b` after flags not ending in `b` opens a run. */
  lemma RunsNewRun(x: seq<bool>, b: bool)
    requires x == [] || x[|x| - 1] != b
    ensures Runs(x + Repeat(b, 1)) == Runs(x) + [Run(b, 1)]
  {
    assert Repeat(b, 1) == [b];
    RunsSnoc(x, b);
    if x != [] {
      RunsLast(x);
    }
  }

  /** A page of polarity `b` after a last run of polarity `b` lengthens
      that run. */
  lemma RunsLongerRun(y: seq<bool>, rs: seq<Run>, b: bool, c: nat)
    requires c > 1 && Runs(y) == rs + [Run(b, c - 1)]
    ensures Runs(y + [b]) == rs + [Run(b, c)]
  {
    RunsSnoc(y, b);
    assert (rs + [Run(b, c - 1)])[..|rs|] == rs;
  }

  /** One more copy of `b` is one more element at the end. */
  lemma AppendRepeatSnoc(x: seq<bool>, b: bool, c: nat)
    requires c > 0
    ensures x + Repeat(b, c) == (x + Repeat(b, c - 1)) + [b]
  {
    assert Repeat(b, c) == Repeat(b, c - 1) + [b];
  }

  /** `Runs` adds the last flag with `Extend`. */
  lemma RunsSnoc(x: seq<bool>, b: bool)
    ensures Runs(x + [b]) == Extend(Runs(x), b)
  {
    assert (x + [b])[..|x|] == x;
  }

  /** Expanding is compositional: the pages of two signatures one after
      the other are the pages of the first followed by those of the
      second. */
  lemma {:induction false} ExpandAppend(a: seq<u16>, b: seq<u16>)
    ensures Expand(a + b) == Expand(a) + Expand(b)
    decreases |b|
  {
    if b == [] {
      assert a + b == a;
    } else {
      var m := |b| - 1;
      ExpandAppend(a, b[..m]);
      assert (a + b)[..|a + b| - 1] == a + b[..m];
      assert (a + b)[|a + b| - 1] == b[m];
    }
  }

  /** The 16-bit counter of a run of 0x8000 executable pages carries
      into the NX bit: the encoder emits 0x8000, which reads back as an
      empty non-executable run. Hence `RunsFit` in the round trip. */
  lemma LongRunWraps()
    ensures Entries(Runs(Repeat(true, 0x8000))) == [0x8000]
    ensures Expand([0x8000]) == []
  {
    RunsAppendRepeat([], true, 0x8000);
    assert [] + Repeat(true, 0x8000) == Repeat(true, 0x8000);
    assert Expand([0x8000][..0]) == [];
  }
}
