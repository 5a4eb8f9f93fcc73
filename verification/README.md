# kaslrfinder in Dafny

A model of the search logic of kaslrfinder (`kaslrfinder/kaslrfinder_c.c`),
which recovers Windows 10 KASLR addresses from a timing side channel. A
TSX-based probe tells whether the page at an address is executable. On
that oracle the program runs three searches and one encoder:

- **`MeasureX_3`**: a 2-of-3 majority vote over the raw probe. It stops
  after two samples when they agree (`Oracle`).
- **`FindKernel_2M`**: finds the kernel base. It scans
  `[0xfffff80000000000, 0xfffff80400000000)` in 2 MB steps for three
  executable 2 MB pages in a row (`KernelScan`).
- **`FindModulesBase`**: scans `[0xfffff80000000000, 0xfffff81000000000)`
  in 256 KB steps for two consecutively probed executable addresses.
  It skips a 12 MB band just above the kernel base. It then backs up
  8 MB and rounds down to 1 MB (`ModulesBase`).
- **`CreateModuleSignature`**: a run-length encoder. It records the
  per-page executability of a region as 16-bit entries: the low 15 bits
  hold a page count, and bit `0x8000` (`SIGNATURE_NX`) marks
  non-executable runs (`Signature`).
- **`FindModule`**: scans 0x200000000 bytes in 64 KB steps. A cheap
  filter on the page at offset 0x1000 comes first. A candidate that
  passes is verified page by page against a signature. A failure at the
  region the signature was taken from is reported as a bad signature,
  with a regenerated signature (`ModuleScan`).
- **Signature text format**: entries are printed little-endian as hex
  and read back by `-sig` into a 16-entry buffer (`TextFormat`). The
  tcpip.sys signature from the usage text is proved to be in this format
  (`UsageSignature`).
- **`main_c`**: decides which of the above run (`Driver`).

Modelling choices:
- Addresses are `uint64_t` values, modelled as bounded integers. Every C
  addition or subtraction that can wrap is written with its mod-2^64
  wrap, with one exception: the encoder's page step `a += 0x1000` (:87).
  When that address would wrap, the C loop never exits, so the model
  requires the walk to end in every run that calls the encoder
  (`Signature.Terminates`).
- The signature counter `uint16_t c` wraps modulo 2^16, as in C.
- The scans consult a deterministic oracle `exec: u64 -> bool`. It
  stands for one `MeasureX_3` verdict under the calibrated threshold.
- `MeasureX_3` itself works on an explicit sequence of raw samples.

Where the comments and the code differ, the model follows the code:
- `FindModulesBase` steps by 0x40000 (:108), although its comment says
  64k.
- `FindModule` steps by 0x10000 (:136), although its comment says 16k.
- The kernel skip uses strict `>` (:109), so the kernel base itself is
  probed (`ModulesBase.KernelBaseProbed`).
- The encoder starts its counter at 0 and probes `s_base` a second time
  in the first iteration (:84-89). With a deterministic oracle this
  gives a first run of the right length.
- A region with no pages still yields one zero-count entry (:96).
- A run of 0x8000 or more pages carries into the NX bit
  (`Signature.LongRunWraps`). For this reason the encoder's structural
  properties are proved for regions whose runs all fit 15 bits.

## Model

| member | source | states |
|---|---|---|
| Oracle.Majority | kaslrfinder/kaslrfinder_c.c:35-46 | the vote is true iff at least two of the first three samples are true; it draws 2 samples when the first two agree and 3 otherwise; the verdict is the majority of the samples drawn |
| Oracle.MeasureX3 | kaslrfinder/kaslrfinder_c.c:35-46 | the C loop with its early return after the second sample gives the 2-of-3 majority verdict, consumes exactly 2 samples iff the first two agree, and equals the reference `Majority` |
| Oracle.MajorityMasksOneError | kaslrfinder/kaslrfinder_c.c:35-46 | if at most one of the three samples is wrong, the vote returns the true executability |
| Oracle.MajorityUsesOnlyConsumed | kaslrfinder/kaslrfinder_c.c:38-43 | the early return is sound: two sample streams that agree on the samples drawn give the same vote |
| KernelScan.FindKernel2M | kaslrfinder/kaslrfinder_c.c:58-71 | returns 0 iff no 2 MB slot of the window has three executable 2 MB pages; otherwise returns the lowest such slot; the probes made are exactly the per-slot probes of all slots up to the result, or of all slots; the result is the reference `FirstKernel` |
| KernelScan.ProbeSlot | kaslrfinder/kaslrfinder_c.c:62-68 | the inner loop reports a hit iff `a`, `a+2M`, `a+4M` are all executable, and stops probing at the first non-executable one |
| ModulesBase.AlignDown1M | kaslrfinder/kaslrfinder_c.c:115 | `& 0xfffffffffff00000` yields a 1 MB aligned value no greater than its input and less than 1 MB below it |
| ModulesBase.FindModulesBase | kaslrfinder/kaslrfinder_c.c:104-121 | no probe lies in `aKernel < a < aKernel + 0xc00000` (sum mod 2^64) and all lie in the window; the probes are a prefix of the skip-filtered slot sequence; the result is 0 iff no two consecutive probes are both executable, and then every slot was probed; otherwise the scan stopped at the first such pair and returned its second address minus 8 MB rounded down to 1 MB |
| ModulesBase.PairBaseNone | kaslrfinder/kaslrfinder_c.c:108-120 | without two consecutive executable probes, the reference result `PairBase` is 0, the value the scan returns after the loop |
| ModulesBase.PairBaseFirst | kaslrfinder/kaslrfinder_c.c:112-116 | when the scan stops at the first pair, its result is the reference result: the second address minus 8 MB (mod 2^64) rounded down to 1 MB |
| ModulesBase.ProbeStep | kaslrfinder/kaslrfinder_c.c:108-118 | a skipped slot leaves the previous-probe flag and the probes as they are, so skips do not reset the pair detection; a probed slot appends its address |
| ModulesBase.FirstPairIsFirst | kaslrfinder/kaslrfinder_c.c:112-117 | the first pair met during the scan is the first pair of the whole probe sequence, and its second address is at least one stride above the window start, so subtracting 8 MB does not wrap |
| ModulesBase.ProbedValid | kaslrfinder/kaslrfinder_c.c:108-111 | every address the scan probes lies in the window and outside the skipped band |
| ModulesBase.KernelBaseProbed | kaslrfinder/kaslrfinder_c.c:109 | with the strict comparison, a kernel base that is a slot of the window is itself probed |
| Signature.CreateModuleSignature | kaslrfinder/kaslrfinder_c.c:79-97 | the emitted entries are one entry per maximal run of equal executability, with the 16-bit wrap of the counter; an empty region gives one zero-count entry of the polarity of `s_base`; when every run fits 15 bits, the entries are canonical (no zero counts, alternating NX bits), their counts sum to the number of pages, and expanding them gives back the per-page flags |
| Signature.SignatureRoundTrip | kaslrfinder/kaslrfinder_c.c:79-97 | for page flags whose runs all fit 15 bits, the encoding is canonical, counts every page once, and expands back to the flags |
| Signature.EncodeExpand | kaslrfinder/kaslrfinder_c.c:87-96 | the other direction: re-encoding the pages of any canonical signature yields that signature, so it is the only one the encoder can print for those pages |
| Signature.ExpandAppend | kaslrfinder/kaslrfinder_c.c:141-155 | the pages a signature stands for are those of its entries in order, so concatenating signatures concatenates their pages |
| Signature.LongRunWraps | kaslrfinder/kaslrfinder_c.c:82-89 | a run of 0x8000 executable pages is encoded as 0x8000, which reads back as an empty non-executable run |
| Signature.EntryOfNext | kaslrfinder/kaslrfinder_c.c:89 | `c++` on the 16-bit pending entry adds one page to its run, with the same wrap |
| Signature.PageWalk | kaslrfinder/kaslrfinder_c.c:87 | under the termination condition the page address does not wrap, and it is below `s_base + s_size` exactly while pages remain |
| TextFormat.HexByte | kaslrfinder/kaslrfinder_c.c:92 | `%02x` prints two lower-case hex digits whose values are the high and low nibble |
| TextFormat.DecodeSignature | kaslrfinder/kaslrfinder_c.c:200-206 | `-sig` loads at most 16 entries, the capacity of `sig[16]` |
| TextFormat.DecodeRejectsMalformed | kaslrfinder/kaslrfinder_c.c:201-205 | text of odd length, or holding a character that is not a hex digit, loads no entries (`*csig = 0`) |
| TextFormat.DecodeWellFormed | kaslrfinder/kaslrfinder_c.c:200-203 | hex text of more than 32 bytes loads no entries; otherwise it loads `bytes / 2` entries, entry `j` having its low byte from digits `4j, 4j+1` and its high byte from digits `4j+2, 4j+3` |
| TextFormat.ParseHexAccepts | kaslrfinder/kaslrfinder_c.c:202 | hex text of even length decodes to one byte per two digits, the first digit the high nibble |
| TextFormat.ParseHexText | kaslrfinder/kaslrfinder_c.c:92-96 | reading printed hex gives back the bytes printed |
| TextFormat.HexTextOfParse | kaslrfinder/kaslrfinder_c.c:202 | lower-case hex text that parses is exactly the printed form of its bytes |
| TextFormat.PairsOfEntryBytes | kaslrfinder/kaslrfinder_c.c:92-96 | splitting the little-endian bytes of the entries into pairs gives back the entries |
| TextFormat.SignatureTextRoundTrip | kaslrfinder/kaslrfinder_c.c:92-96 | a signature of at most 16 entries, printed and then passed to `-sig`, is loaded unchanged |
| TextFormat.OverlongTextRejected | kaslrfinder/kaslrfinder_c.c:201-205 | the printed form of more than 16 entries loads no signature |
| ModuleScan.VerifyAt | kaslrfinder/kaslrfinder_c.c:140-155 | the verification loop accepts candidate `a` iff every page the signature describes, counted from `a`, has the signature's executability |
| ModuleScan.VerifyRun | kaslrfinder/kaslrfinder_c.c:144-154 | the innermost loop succeeds iff all `c` pages of one entry have its polarity, advancing the offset by one page per page |
| ModuleScan.FindModule | kaslrfinder/kaslrfinder_c.c:131-161 | returns the first candidate `start + k*0x10000` whose page at `+0x1000` is executable and that matches the signature, or 0 when none does; exactly the candidates passing the filter up to the result are verified; a bad-signature report carrying the regenerated signature of the reference region is made exactly when verification fails at `s_base` before the scan stops; the encoder's walk is required to end only in that case |
| ModuleScan.FilteredPass | kaslrfinder/kaslrfinder_c.c:137-139 | a candidate reaches verification iff its page at offset 0x1000 is executable |
| ModuleScan.SignatureMatchesRegion | kaslrfinder/kaslrfinder_c.c:79-97 | a region's own signature matches the region, for a region of at least one page whose runs fit 15 bits |
| ModuleScan.MatchesIffAgree | kaslrfinder/kaslrfinder_c.c:140-155 | for a region of at least one page whose runs fit 15 bits, verification against the region's signature succeeds for another oracle exactly when it agrees with the original on every page of the region (a longer run wraps into the NX bit, `Signature.LongRunWraps`, and then this fails) |
| ModuleScan.NoReportForOwnSignature | kaslrfinder/kaslrfinder_c.c:146-151 | for a reference region of at least one page whose runs fit 15 bits, searching with that region's own signature never reports it as bad (with a longer run the wrapped signature can be reported) |
| ModuleScan.FilterKeepsMatches | kaslrfinder/kaslrfinder_c.c:123-128 | for signatures whose second page is executable, every matching candidate passes the filter |
| ModuleScan.ZeroCountIgnored | kaslrfinder/kaslrfinder_c.c:142-144 | an entry with a zero count is matched trivially: inserting one anywhere does not change which candidates match |
| UsageSignature.TcpipExample | kaslrfinder/kaslrfinder_c.c:239 | the tcpip.sys text `01809a0155800100` is what the encoder prints for the entries `0x8001 0x019a 0x8055 0x0001`, and `-sig` loads those entries from it |
| UsageSignature.TcpipLayout | kaslrfinder/kaslrfinder_c.c:239 | those entries are canonical and describe 0x1f1 pages, a non-executable header page followed by executable code |
| UsageSignature.TcpipFilterSound | kaslrfinder/kaslrfinder_c.c:123-139 | a candidate matching the tcpip.sys signature always passes the filter |
| Driver.MainC | kaslrfinder/kaslrfinder_c.c:224-266 | nothing runs without TSX; the kernel base is the reference `FirstKernel`, 0 iff no slot holds the kernel; a signature is created iff both `-sigbase` and `-size` are nonzero, and it is the region's signature; the module search runs iff `-sig` loaded at least one entry, and its modules base is the reference `ModulesBaseOf`; the encoder's walk is required to end only in runs that call the encoder |

## Left out

- The hardware primitives `measure_x`, `measure_threshold_16`, `is_tsx_support`, `loop_eternal` and `speedup` (:13-17) are assembly timing code. `measure_x` becomes the injected samples of `Oracle.MeasureX3` and, once voted, the `exec` oracle of the scans. The threshold is absorbed into the oracle. TSX support is a boolean parameter of `Driver.MainC`.
- The oracle is taken to be deterministic in the scans: repeated probes of one address agree. The model does not relate the separate `MeasureX_3` calls of one scan to one sample stream.
- `Dummy` (:25-31) only makes console calls.
- The background thread (:249) only keeps the CPU out of power-saving states.
- `printf` output is not modelled as text, except the signature entries (`TextFormat`) and the bad-signature report (`ModuleScan.Report`).
- The argument tokenising of `SetupGetArguments` (:166-212) is left out: `CommandLineToArgvW`, `wcscmp` and `_wcstoui64` are foreign calls. Only the hex decoding of `-sig` is modelled. `Driver.MainC` takes the parsed values.
- TextFormat.DecodeSignature: `CryptStringToBinaryW` with flag 8 (hex, any formatting) also skips whitespace between digits. The model accepts only plain hex digits and rejects anything else.
- Signature.CreateModuleSignature: the canonical-form and round-trip properties are stated only when every run fits 15 bits. Longer runs wrap into the NX bit, and the model states that wrap (`Signature.LongRunWraps`) instead of a property.
- Signature.CreateModuleSignature: requires its page walk to end (`Signature.Terminates`). When `s_base + s_size` does not wrap but the address after the last page does, the C loop never exits, which a terminating model cannot express. `ModuleScan.FindModule` requires this only when verification fails at `s_base`, and `Driver.MainC` only in runs that reach the encoder (`Driver.EncoderCalled`).
- Driver.MainC: the module address is not related to the first accepted candidate in its contract. That relation is `ModuleScan.FindModule`'s contract, with the modules base as start.
