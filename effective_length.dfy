/** Expected effective lengths (calcExpectedEffectiveLengths). A fragment of
    length L can start at max(0, min(fullLen, totLen - L + 1)) positions of a
    transcript; a transcript's expected effective length is that count
    averaged over the fragment-length distribution. The source computes it in
    closed form from the distribution's prefix sums `cdf` and the prefix sums
    `clen` of pdf[j] * (lb + j), and forces values below MINEEL to zero. */
module EffectiveLength {
  import opened RealSeq
  import opened Constants

  // ---------------------------------------------------------------------------
  // Scaling a probability by an integer

  /** p * n, written as repeated addition so that the specifications below
      stay linear; TimesProduct connects it to the product the source
      computes. */
  function Times(p: real, n: int): (t: real)
    decreases if n < 0 then -n else n
  {
    if n == 0 then 0.0 else if n > 0 then Times(p, n - 1) + p else Times(p, n + 1) - p
  }

  lemma {:induction false} TimesProduct(p: real, n: int)
    ensures Times(p, n) == p * n as real
    decreases if n < 0 then -n else n
  {
    if n > 0 {
      TimesProduct(p, n - 1);
    } else if n < 0 {
      TimesProduct(p, n + 1);
    }
  }

  lemma TimesAddLeft(p: real, q: real, n: int)
    ensures Times(p + q, n) == Times(p, n) + Times(q, n)
  {
    TimesProduct(p + q, n);
    TimesProduct(p, n);
    TimesProduct(q, n);
  }

  lemma TimesSubRight(p: real, a: int, b: int)
    ensures Times(p, a - b) == Times(p, a) - Times(p, b)
  {
    TimesProduct(p, a - b);
    TimesProduct(p, a);
    TimesProduct(p, b);
    assert (a - b) as real == a as real - b as real;
    assert p * (a as real - b as real) == p * a as real - p * b as real;
  }

  lemma TimesNonNeg(p: real, n: int)
    requires p >= 0.0 && n >= 0
    ensures Times(p, n) >= 0.0
  {
    TimesProduct(p, n);
  }

  // ---------------------------------------------------------------------------
  // The fragment-length distribution and the expected number of start positions

  /** The fragment-length distribution on lengths lb+1 .. ub: pdf[j] is the
      probability of length lb + j, and cdf holds its prefix sums. Entry 0 is
      the empty prefix. */
  predicate LengthDist(pdf: seq<real>, cdf: seq<real>)
  {
    && |pdf| == |cdf| > 0
    && NonNeg(pdf)
    && forall k :: 0 <= k < |cdf| ==> cdf[k] == Mass(pdf, k)
  }

  /** The probability of the lengths lb+1 .. lb+k. */
  function Mass(pdf: seq<real>, k: nat): (m: real)
    requires k < |pdf|
  {
    if k == 0 then 0.0 else Mass(pdf, k - 1) + pdf[k]
  }

  function Max(a: int, b: int): (m: int) { if a < b then b else a }
  function Min(a: int, b: int): (m: int) { if a < b then a else b }

  /** Number of start positions for a fragment of length L. */
  function Positions(L: int, totLen: int, fullLen: int): (n: int)
    ensures n >= 0
  {
    Max(0, Min(fullLen, totLen - L + 1))
  }

  /** Expected number of start positions over the lengths lb+1 .. lb+k. */
  function ExpectedStartsUpTo(pdf: seq<real>, lb: int, totLen: int, fullLen: int, k: nat): (e: real)
    requires k < |pdf|
  {
    if k == 0 then 0.0
    else ExpectedStartsUpTo(pdf, lb, totLen, fullLen, k - 1) + Times(pdf[k], Positions(lb + k, totLen, fullLen))
  }

  /** Expected number of start positions over the whole distribution. */
  function ExpectedStarts(pdf: seq<real>, lb: int, totLen: int, fullLen: int): (e: real)
    requires |pdf| > 0
  {
    ExpectedStartsUpTo(pdf, lb, totLen, fullLen, |pdf| - 1)
  }

  lemma {:induction false} ExpectedStartsNonNeg(pdf: seq<real>, lb: int, totLen: int, fullLen: int, k: nat)
    requires k < |pdf| && NonNeg(pdf)
    ensures ExpectedStartsUpTo(pdf, lb, totLen, fullLen, k) >= 0.0
  {
    if k > 0 {
      ExpectedStartsNonNeg(pdf, lb, totLen, fullLen, k - 1);
      TimesNonNeg(pdf[k], Positions(lb + k, totLen, fullLen));
    }
  }

  // ---------------------------------------------------------------------------
  // The source's closed form

  /** `clen[k]`: the sum of pdf[j] * (lb + j) for j = 1..k. */
  function LenSum(pdf: seq<real>, lb: int, k: nat): (s: real)
    requires k < |pdf|
  {
    if k == 0 then 0.0 else LenSum(pdf, lb, k - 1) + Times(pdf[k], lb + k)
  }

  /** The last index of lengths that fit a full-length start window. */
  function Pos1(lb: int, ub: int, totLen: int, fullLen: int): (p: int)
  {
    Max(Min(totLen - fullLen + 1, ub) - lb, 0)
  }

  /** The last index of lengths that fit in the transcript at all. */
  function Pos2(lb: int, ub: int, totLen: int): (p: int)
  {
    Max(Min(totLen, ub) - lb, 0)
  }

  /** Both cut points index the distribution, and a transcript of positive
      length has pos1 <= pos2. */
  lemma PosBounds(lb: int, ub: int, totLen: int, fullLen: int)
    requires lb <= ub
    ensures 0 <= Pos1(lb, ub, totLen, fullLen) <= ub - lb
    ensures 0 <= Pos2(lb, ub, totLen) <= ub - lb
    ensures fullLen >= 1 ==> Pos1(lb, ub, totLen, fullLen) <= Pos2(lb, ub, totLen)
  {
  }

  /** fullLen * cdf[p1] + (cdf[p2] - cdf[p1]) * (totLen + 1) - (clen[p2] - clen[p1]). */
  function Formula(pdf: seq<real>, cdf: seq<real>, lb: int, totLen: int, fullLen: int, p1: nat, p2: nat): (f: real)
    requires p1 < |pdf| && p2 < |pdf| && |cdf| == |pdf|
  {
    Times(cdf[p1], fullLen) + (Times(cdf[p2] - cdf[p1], totLen + 1) - (LenSum(pdf, lb, p2) - LenSum(pdf, lb, p1)))
  }

  /** Values below MINEEL are forced to zero. */
  function Floor(v: real): (r: real)
    ensures r == 0.0 || r >= MINEEL
  {
    if v < MINEEL then 0.0 else v
  }

  // ---------------------------------------------------------------------------
  // The closed form is the expected number of start positions

  /** A length at or before pos1 has the whole fullLen window. */
  lemma FullWindowAt(lb: int, ub: int, totLen: int, fullLen: int, k: int)
    requires fullLen >= 0 && 1 <= k <= Pos1(lb, ub, totLen, fullLen)
    ensures Positions(lb + k, totLen, fullLen) == fullLen
  {
  }

  /** A length after pos1 and up to pos2 has totLen - L + 1 start positions. */
  lemma PartialWindowAt(lb: int, ub: int, totLen: int, fullLen: int, k: int)
    requires Pos1(lb, ub, totLen, fullLen) < k <= Pos2(lb, ub, totLen) && k <= ub - lb
    ensures Positions(lb + k, totLen, fullLen) == totLen + 1 - (lb + k)
  {
  }

  /** A length after pos2 has no start position. */
  lemma NoWindowAt(lb: int, ub: int, totLen: int, fullLen: int, k: int)
    requires Pos2(lb, ub, totLen) < k <= ub - lb
    ensures Positions(lb + k, totLen, fullLen) == 0
  {
  }

  /** Up to pos1 every length has fullLen start positions. */
  lemma {:induction false} FullWindow(pdf: seq<real>, lb: int, ub: int, totLen: int, fullLen: int, k: nat)
    requires lb <= ub && |pdf| == ub - lb + 1 && fullLen >= 0
    requires k <= Pos1(lb, ub, totLen, fullLen)
    ensures ExpectedStartsUpTo(pdf, lb, totLen, fullLen, k) == Times(Mass(pdf, k), fullLen)
  {
    PosBounds(lb, ub, totLen, fullLen);
    if k == 0 {
      TimesProduct(0.0, fullLen);
    } else {
      FullWindow(pdf, lb, ub, totLen, fullLen, k - 1);
      FullWindowAt(lb, ub, totLen, fullLen, k);
      TimesAddLeft(Mass(pdf, k - 1), pdf[k], fullLen);
    }
  }

  /** The sum of pdf[j] * (t - (lb + j)) for j = from+1 .. k. */
  function TailSum(pdf: seq<real>, lb: int, t: int, from: nat, k: nat): (s: real)
    requires from <= k < |pdf|
    decreases k - from
  {
    if k == from then 0.0 else TailSum(pdf, lb, t, from, k - 1) + Times(pdf[k], t - (lb + k))
  }

  /** Between pos1 and pos2 a length L has totLen - L + 1 start positions. */
  lemma {:induction false} PartialWindow(pdf: seq<real>, lb: int, ub: int, totLen: int, fullLen: int, k: nat)
    requires lb <= ub && |pdf| == ub - lb + 1
    requires Pos1(lb, ub, totLen, fullLen) <= k <= Pos2(lb, ub, totLen)
    ensures ExpectedStartsUpTo(pdf, lb, totLen, fullLen, k) ==
            ExpectedStartsUpTo(pdf, lb, totLen, fullLen, Pos1(lb, ub, totLen, fullLen)) +
            TailSum(pdf, lb, totLen + 1, Pos1(lb, ub, totLen, fullLen), k)
  {
    PosBounds(lb, ub, totLen, fullLen);
    if k > Pos1(lb, ub, totLen, fullLen) {
      PartialWindow(pdf, lb, ub, totLen, fullLen, k - 1);
      PartialWindowAt(lb, ub, totLen, fullLen, k);
    }
  }

  /** The tail sum in terms of the prefix sums Mass and LenSum. */
  lemma {:induction false} TailSumClosed(pdf: seq<real>, lb: int, t: int, from: nat, k: nat)
    requires from <= k < |pdf|
    ensures TailSum(pdf, lb, t, from, k) ==
            Times(Mass(pdf, k) - Mass(pdf, from), t) - (LenSum(pdf, lb, k) - LenSum(pdf, lb, from))
  {
    if k == from {
      TimesProduct(0.0, t);
    } else {
      TailSumClosed(pdf, lb, t, from, k - 1);
      TimesSubRight(pdf[k], t, lb + k);
      assert Mass(pdf, k) - Mass(pdf, from) == (Mass(pdf, k - 1) - Mass(pdf, from)) + pdf[k];
      TimesAddLeft(Mass(pdf, k - 1) - Mass(pdf, from), pdf[k], t);
    }
  }

  /** Beyond pos2 no length fits. */
  lemma {:induction false} NoWindow(pdf: seq<real>, lb: int, ub: int, totLen: int, fullLen: int, k: nat)
    requires |pdf| == ub - lb + 1
    requires Pos2(lb, ub, totLen) <= k < |pdf|
    ensures ExpectedStartsUpTo(pdf, lb, totLen, fullLen, k) ==
            ExpectedStartsUpTo(pdf, lb, totLen, fullLen, Pos2(lb, ub, totLen))
  {
    if k > Pos2(lb, ub, totLen) {
      NoWindow(pdf, lb, ub, totLen, fullLen, k - 1);
      NoWindowAt(lb, ub, totLen, fullLen, k);
    }
  }

  /** The source's value for a transcript: zero when no length fits,
      otherwise the closed form, which is the expected number of start
      positions (and so the source's assertion that it is non-negative
      holds). */
  lemma ClosedForm(pdf: seq<real>, cdf: seq<real>, lb: int, ub: int, totLen: int, fullLen: int)
    requires LengthDist(pdf, cdf) && |pdf| == ub - lb + 1 && fullLen >= 1
    ensures Pos2(lb, ub, totLen) == 0 ==> ExpectedStarts(pdf, lb, totLen, fullLen) == 0.0
    ensures Pos2(lb, ub, totLen) != 0 ==>
              Formula(pdf, cdf, lb, totLen, fullLen, Pos1(lb, ub, totLen, fullLen), Pos2(lb, ub, totLen))
              == ExpectedStarts(pdf, lb, totLen, fullLen)
    ensures ExpectedStarts(pdf, lb, totLen, fullLen) >= 0.0
  {
    PosBounds(lb, ub, totLen, fullLen);
    var p2 := Pos2(lb, ub, totLen);
    NoWindow(pdf, lb, ub, totLen, fullLen, |pdf| - 1);
    if p2 != 0 {
      var p1 := Pos1(lb, ub, totLen, fullLen);
      PartialWindow(pdf, lb, ub, totLen, fullLen, p2);
      FullWindow(pdf, lb, ub, totLen, fullLen, p1);
      TailSumClosed(pdf, lb, totLen + 1, p1, p2);
      assert cdf[p1] == Mass(pdf, p1) && cdf[p2] == Mass(pdf, p2);
    }
    ExpectedStartsNonNeg(pdf, lb, totLen, fullLen, |pdf| - 1);
  }

  // ---------------------------------------------------------------------------
  // The imperative computation

  /** The expected effective length of every transcript: the floored
      expected number of start positions, and 0 for the noise entry. */
  function ExpectedLengths(pdf: seq<real>, lb: int, totLen: seq<int>, fullLen: seq<int>): (eel: seq<real>)
    requires |pdf| > 0 && |totLen| == |fullLen|
    ensures |eel| == |totLen|
  {
    seq(|totLen|, i requires 0 <= i < |totLen| =>
      if i == 0 then 0.0 else Floor(ExpectedStarts(pdf, lb, totLen[i], fullLen[i])))
  }

  /** calcExpectedEffectiveLengths: `pdf`/`cdf` come from the model's
      length distribution on lb+1 .. ub, and totLen[i]/fullLen[i] from
      transcript i's reference (entry 0 is the noise slot and unused). */
  method CalcExpectedEffectiveLengths(pdf: array<real>, cdf: array<real>, lb: int, ub: int,
                                     totLen: seq<int>, fullLen: seq<int>) returns (eel: array<real>)
    requires lb <= ub && pdf.Length == ub - lb + 1 && LengthDist(pdf[..], cdf[..])
    requires |totLen| == |fullLen| > 0
    requires forall i :: 1 <= i < |fullLen| ==> fullLen[i] >= 1
    ensures fresh(eel) && eel.Length == |totLen|
    ensures eel[0] == 0.0
    ensures forall i :: 1 <= i < eel.Length ==>
              eel[i] == Floor(ExpectedStarts(pdf[..], lb, totLen[i], fullLen[i]))
    ensures eel[..] == ExpectedLengths(pdf[..], lb, totLen, fullLen)
  {
    ghost var ps := pdf[..];
    var clen := LengthMass(pdf, lb);
    eel := new real[|totLen|](_ => 0.0);
    for i := 1 to |totLen|
      modifies eel
      invariant pdf[..] == ps
      invariant eel[0] == 0.0
      invariant forall t :: 1 <= t < i ==> eel[t] == Floor(ExpectedStarts(ps, lb, totLen[t], fullLen[t]))
    {
      eel[i] := TranscriptEel(pdf, cdf, clen, lb, ub, totLen[i], fullLen[i]);
    }
  }

  /** The prefix sums clen[k] of pdf[j] * (lb + j). */
  method LengthMass(pdf: array<real>, lb: int) returns (clen: array<real>)
    requires pdf.Length > 0
    ensures fresh(clen) && clen.Length == pdf.Length
    ensures forall t :: 0 <= t < clen.Length ==> clen[t] == LenSum(pdf[..], lb, t)
  {
    ghost var ps := pdf[..];
    clen := new real[pdf.Length];
    clen[0] := 0.0;
    for i := 1 to pdf.Length
      invariant pdf[..] == ps
      invariant forall t :: 0 <= t < i ==> clen[t] == LenSum(ps, lb, t)
    {
      LenSumStep(ps, lb, i);
      clen[i] := clen[i - 1] + pdf[i] * (lb + i) as real;
    }
  }

  lemma LenSumStep(pdf: seq<real>, lb: int, i: nat)
    requires 0 < i < |pdf|
    ensures LenSum(pdf, lb, i) == LenSum(pdf, lb, i - 1) + pdf[i] * (lb + i) as real
  {
    var a, n := pdf[i], lb + i;
    assert LenSum(pdf, lb, i) == LenSum(pdf, lb, i - 1) + Times(a, n);
    TimesProduct(a, n);
  }

  /** The closed form's two products as the source writes them. */
  lemma ProductForm(c1: real, d: real, m: real, fullLen: int, t: int)
    ensures fullLen as real * c1 + (d * t as real - m) == Times(c1, fullLen) + (Times(d, t) - m)
  {
    TimesProduct(c1, fullLen);
    TimesProduct(d, t);
  }

  /** The value the source computes for a transcript that some length fits
      is its expected number of start positions. */
  lemma EelValue(pdf: seq<real>, cdf: seq<real>, lb: int, ub: int, totLen: int, fullLen: int,
                 c1: real, c2: real, e: real)
    requires LengthDist(pdf, cdf) && lb <= ub && |pdf| == ub - lb + 1 && fullLen >= 1
    requires Pos2(lb, ub, totLen) != 0
    requires c1 == LenSum(pdf, lb, Pos1(lb, ub, totLen, fullLen))
    requires c2 == LenSum(pdf, lb, Pos2(lb, ub, totLen))
    requires e == Times(cdf[Pos1(lb, ub, totLen, fullLen)], fullLen) +
                  (Times(cdf[Pos2(lb, ub, totLen)] - cdf[Pos1(lb, ub, totLen, fullLen)], totLen + 1) - (c2 - c1))
    ensures e == ExpectedStarts(pdf, lb, totLen, fullLen)
  {
    PosBounds(lb, ub, totLen, fullLen);
    ClosedForm(pdf, cdf, lb, ub, totLen, fullLen);
  }

  /** The loop body for one transcript. */
  method TranscriptEel(pdf: array<real>, cdf: array<real>, clen: array<real>, lb: int, ub: int,
                       totLen: int, fullLen: int) returns (e: real)
    requires lb <= ub && pdf.Length == ub - lb + 1 && LengthDist(pdf[..], cdf[..]) && fullLen >= 1
    requires clen.Length == pdf.Length
    requires forall t :: 0 <= t < clen.Length ==> clen[t] == LenSum(pdf[..], lb, t)
    ensures e == Floor(ExpectedStarts(pdf[..], lb, totLen, fullLen))
  {
    PosBounds(lb, ub, totLen, fullLen);
    var pos1 := Max(Min(totLen - fullLen + 1, ub) - lb, 0);
    var pos2 := Max(Min(totLen, ub) - lb, 0);
    if pos2 == 0 {
      ClosedForm(pdf[..], cdf[..], lb, ub, totLen, fullLen);
      return 0.0;
    }
    e := fullLen as real * cdf[pos1] + ((cdf[pos2] - cdf[pos1]) * (totLen + 1) as real - (clen[pos2] - clen[pos1]));
    ProductForm(cdf[pos1], cdf[pos2] - cdf[pos1], clen[pos2] - clen[pos1], fullLen, totLen + 1);
    EelValue(pdf[..], cdf[..], lb, ub, totLen, fullLen, clen[pos1], clen[pos2], e);
    if e < MINEEL { e := 0.0; }
  }
}
