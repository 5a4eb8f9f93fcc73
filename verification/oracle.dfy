/** The timing oracle `MeasureX_3`: a 2-of-3 majority vote over the
    outcomes of the raw hardware probe, stopping after two samples when
    those already agree. The raw probe is a sequence of injected
    samples; `samples[i]` is what the `i`-th call would report. */
module Oracle {

  /** Number of `true` samples in `s`. */
  function CountTrue(s: seq<bool>): (n: nat)
    ensures n <= |s|
  {
    if s == [] then 0 else (if s[0] then 1 else 0) + CountTrue(s[1..])
  }

  /** The outcome of one vote: the classification and how many raw
      samples were drawn to reach it. */
  datatype Vote = Vote(executable: bool, consumed: nat)

  /** Reference vote: the classification is the majority of the first
      three samples, and the third one is needed only when the first two
      disagree. */
  function Majority(samples: seq<bool>): (v: Vote)
    requires |samples| >= 3
    ensures v.executable <==> CountTrue(samples[..3]) >= 2
    ensures v.consumed == 2 <==> samples[0] == samples[1]
    ensures (v.consumed == 2 || v.consumed == 3)
            && (v.executable <==> CountTrue(samples[..v.consumed]) >= 2)
  {
    CountFirstThree(samples);
    if samples[0] == samples[1] then Vote(samples[0], 2) else Vote(samples[2], 3)
  }

  /** `MeasureX_3` as the C loop performs it: count executable samples,
      and after the second one return early unless exactly one of the
      two was executable. */
  method MeasureX3(samples: seq<bool>) returns (executable: bool, consumed: nat)
    requires |samples| >= 3
    ensures executable <==> CountTrue(samples[..3]) >= 2
    ensures consumed == (if samples[0] == samples[1] then 2 else 3)
    ensures executable <==> CountTrue(samples[..consumed]) >= 2
    ensures Vote(executable, consumed) == Majority(samples)
  {
    var i := 0;
    var c := 0;
    while i < 3
      invariant 0 <= i <= 3
      invariant c == CountTrue(samples[..i])
      invariant i >= 2 ==> samples[0] != samples[1]
    {
      CountTrueSnoc(samples[..i + 1]);
      assert samples[..i + 1][..i] == samples[..i];
      c := c + if samples[i] then 1 else 0;
      CountFirstThree(samples);
      if i == 1 && c != 1 {
        return c > 1, 2;
      }
      i := i + 1;
    }
    return c > 1, 3;
  }

  /** The counts of the first two and the first three samples. */
  lemma CountFirstThree(s: seq<bool>)
    requires |s| >= 3
    ensures CountTrue(s[..2]) == (if s[0] then 1 else 0) + (if s[1] then 1 else 0)
    ensures CountTrue(s[..3]) == CountTrue(s[..2]) + (if s[2] then 1 else 0)
  {
    assert s[..2][1..][1..] == [];
    var t := s[..3][1..];
    assert t[1..][1..] == [];
    assert CountTrue(t[1..]) == (if s[2] then 1 else 0);
    assert CountTrue(t) == (if s[1] then 1 else 0) + (if s[2] then 1 else 0);
  }

  /** Counting extends at the end of a sequence. */
  lemma {:induction false} CountTrueSnoc(s: seq<bool>)
    requires s != []
    ensures CountTrue(s) == CountTrue(s[..|s| - 1]) + (if s[|s| - 1] then 1 else 0)
  {
    if |s| > 1 {
      assert s[1..][..|s| - 2] == s[..|s| - 1][1..];
      CountTrueSnoc(s[1..]);
    }
  }

  /** The vote tolerates one wrong sample: if at most one of the first
      three samples differs from the truth, the vote returns the truth. */
  lemma MajorityMasksOneError(samples: seq<bool>, truth: bool)
    requires |samples| >= 3
    requires (if samples[0] != truth then 1 else 0) + (if samples[1] != truth then 1 else 0)
             + (if samples[2] != truth then 1 else 0) <= 1
    ensures Majority(samples).executable == truth
  {
    CountFirstThree(samples);
  }

  /** Short-circuit soundness: the vote depends only on the samples it
      drew, so any later samples can be anything. */
  lemma MajorityUsesOnlyConsumed(s: seq<bool>, t: seq<bool>)
    requires |s| >= 3 && |t| >= 3
    requires s[..Majority(s).consumed] == t[..Majority(s).consumed]
    ensures Majority(t) == Majority(s)
  {
    assert s[0] == s[..2][0] == t[..2][0] == t[0];
    assert s[1] == s[..2][1] == t[..2][1] == t[1];
    if s[0] != s[1] {
      assert s[2] == s[..3][2] == t[..3][2] == t[2];
    }
  }
}
