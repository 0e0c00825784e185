/** The corrections applied after the EM rounds have converged: theta is
    restricted to transcripts with a usable expected effective length, then
    converted by the mappability weights; the results writer derives the
    tau values and the per-gene totals from the final vectors. */
module Corrections {
  import opened RealSeq
  import opened Constants
  import opened Outcome
  import opened Vectors

  // ---------------------------------------------------------------------------
  // Effective-length correction

  /** theta with every transcript whose expected effective length is below
      EPSILON zeroed; the noise entry 0 is kept as it is. */
  function Effective(theta: seq<real>, eel: seq<real>): (r: seq<real>)
    requires |theta| == |eel|
    ensures |r| == |theta|
  {
    seq(|theta|, i requires 0 <= i < |theta| => if i >= 1 && eel[i] < EPSILON then 0.0 else theta[i])
  }

  /** The correction only removes mass: what is left is non-negative, zero
      exactly at the dropped transcripts, and sums to no more than before. */
  lemma EffectiveMass(theta: seq<real>, eel: seq<real>)
    requires |theta| == |eel| && NonNeg(theta)
    ensures NonNeg(Effective(theta, eel))
    ensures forall i :: 1 <= i < |theta| && eel[i] < EPSILON ==> Effective(theta, eel)[i] == 0.0
    ensures forall i :: 0 <= i < |theta| && (i == 0 || eel[i] >= EPSILON) ==> Effective(theta, eel)[i] == theta[i]
    ensures Sum(Effective(theta, eel)) <= Sum(theta)
  {
    SumMonotone(Effective(theta, eel), theta);
  }

  /** The theta correction after calcExpectedEffectiveLengths: zero the
      transcripts without effective length while summing the rest with the
      noise entry, stop if that sum is below EPSILON, otherwise rescale. */
  method CorrectTheta(theta: array<real>, eel: array<real>) returns (r: Result<real>)
    requires theta != eel && theta.Length == eel.Length > 0
    modifies theta
    ensures r.Err? <==> Sum(Effective(old(theta[..]), eel[..])) < EPSILON
    ensures r.Err? ==> r.error == NoEffectiveLength && theta[..] == Effective(old(theta[..]), eel[..])
    ensures r.Ok? ==> r.value == Sum(Effective(old(theta[..]), eel[..])) &&
                      theta[..] == Divide(Effective(old(theta[..]), eel[..]), r.value)
    ensures r.Ok? && NonNeg(old(theta[..])) ==> Simplex(theta[..])
  {
    ghost var e := Effective(theta[..], eel[..]);
    var sum := theta[0];
    assert e[..1] == [e[0]];
    for i := 1 to theta.Length
      invariant forall t :: 0 <= t < i ==> theta[t] == e[t]
      invariant forall t :: i <= t < theta.Length ==> theta[t] == old(theta[t])
      invariant sum == Sum(e[..i])
    {
      assert e[..i + 1][..i] == e[..i];
      if eel[i] < EPSILON {
        theta[i] := 0.0;
      } else {
        sum := sum + theta[i];
      }
    }
    assert theta[..] == e;
    assert e[..theta.Length] == e;
    if sum < EPSILON {
      return Err(NoEffectiveLength);
    }
    DivideInPlace(theta, sum);
    if NonNeg(old(theta[..])) {
      EffectiveMass(old(theta[..]), eel[..]);
      Normalized(e);
    }
    r := Ok(sum);
  }

  // ---------------------------------------------------------------------------
  // Mappability conversion

  /** theta' divided by the mappability weights; an entry whose weight is
      below EPSILON becomes zero instead. */
  function Mappable(theta: seq<real>, mw: seq<real>): (r: seq<real>)
    requires |theta| == |mw|
    ensures |r| == |theta|
  {
    seq(|theta|, i requires 0 <= i < |theta| => if mw[i] < EPSILON then 0.0 else theta[i] / mw[i])
  }

  /** The conversion is undone by the weights: a weighted entry times its
      weight is the fragment-origin proportion again, and it keeps its sign. */
  lemma MappableInverse(theta: seq<real>, mw: seq<real>)
    requires |theta| == |mw|
    ensures forall i :: 0 <= i < |theta| && mw[i] >= EPSILON ==> Mappable(theta, mw)[i] * mw[i] == theta[i]
    ensures forall i :: 0 <= i < |theta| && mw[i] < EPSILON ==> Mappable(theta, mw)[i] == 0.0
    ensures NonNeg(theta) ==> NonNeg(Mappable(theta, mw))
  {
    forall i | 0 <= i < |theta| && mw[i] >= EPSILON
      ensures Mappable(theta, mw)[i] * mw[i] == theta[i]
      ensures theta[i] >= 0.0 ==> Mappable(theta, mw)[i] >= 0.0
    {
      QuotientFacts(theta[i], mw[i]);
    }
  }

  lemma QuotientFacts(x: real, y: real)
    requires y > 0.0
    ensures (x / y) * y == x
    ensures x >= 0.0 ==> x / y >= 0.0
  {
  }

  /** The mappability conversion: divide by the weights while summing, stop
      if the sum is below EPSILON (an assertion in the source), otherwise
      rescale to a distribution. */
  method ApplyMappability(theta: array<real>, mw: array<real>) returns (r: Result<real>)
    requires theta != mw && theta.Length == mw.Length
    modifies theta
    ensures r.Err? <==> Sum(Mappable(old(theta[..]), mw[..])) < EPSILON
    ensures r.Err? ==> r.error == NoMappableMass && theta[..] == Mappable(old(theta[..]), mw[..])
    ensures r.Ok? ==> r.value == Sum(Mappable(old(theta[..]), mw[..])) &&
                      theta[..] == Divide(Mappable(old(theta[..]), mw[..]), r.value)
    ensures r.Ok? && NonNeg(old(theta[..])) ==> Simplex(theta[..])
  {
    ghost var m := Mappable(theta[..], mw[..]);
    var sum := 0.0;
    for i := 0 to theta.Length
      invariant forall t :: 0 <= t < i ==> theta[t] == m[t]
      invariant forall t :: i <= t < theta.Length ==> theta[t] == old(theta[t])
      invariant sum == Sum(m[..i])
    {
      assert m[..i + 1][..i] == m[..i];
      theta[i] := if mw[i] < EPSILON then 0.0 else theta[i] / mw[i];
      sum := sum + theta[i];
    }
    assert theta[..] == m;
    assert m[..theta.Length] == m;
    if sum < EPSILON {
      return Err(NoMappableMass);
    }
    DivideInPlace(theta, sum);
    if NonNeg(old(theta[..])) {
      MappableInverse(old(theta[..]), mw[..]);
      Normalized(m);
    }
    r := Ok(sum);
  }

  // ---------------------------------------------------------------------------
  // tau values

  /** tau before normalisation: theta over the expected effective length for
      transcripts that have one, zero for the rest and for the noise entry. */
  function RawTau(theta: seq<real>, eel: seq<real>): (r: seq<real>)
    requires |theta| == |eel|
    ensures |r| == |theta|
  {
    seq(|theta|, i requires 0 <= i < |theta| => if i >= 1 && eel[i] >= EPSILON then theta[i] / eel[i] else 0.0)
  }

  /** The tau values of writeResults: raw values summed into a denominator,
      no alignable reads if it is not positive, otherwise tau is rescaled. */
  method CalcTau(theta: array<real>, eel: array<real>) returns (r: Result<array<real>>)
    requires theta.Length == eel.Length > 0
    ensures r.Err? <==> Sum(RawTau(theta[..], eel[..])) <= 0.0
    ensures r.Err? ==> r.error == NoAlignableReads
    ensures r.Ok? ==> fresh(r.value) &&
                      r.value[..] == Divide(RawTau(theta[..], eel[..]), Sum(RawTau(theta[..], eel[..])))
  {
    ghost var raw := RawTau(theta[..], eel[..]);
    var tau := new real[theta.Length](_ => 0.0);
    var denom := 0.0;
    assert raw[..1] == [raw[0]];
    for i := 1 to theta.Length
      invariant forall t :: 0 <= t < i ==> tau[t] == raw[t]
      invariant forall t :: i <= t < tau.Length ==> tau[t] == 0.0
      invariant denom == Sum(raw[..i])
    {
      assert raw[..i + 1] == raw[..i] + [raw[i]];
      SumSnoc(raw[..i], raw[i]);
      assert raw[i] == if eel[i] >= EPSILON then theta[i] / eel[i] else 0.0;
      if eel[i] >= EPSILON {
        tau[i] := theta[i] / eel[i];
        denom := denom + tau[i];
      }
    }
    assert raw[..tau.Length] == raw;
    assert tau[..] == raw;
    if denom <= 0.0 {
      return Err(NoAlignableReads);
    }
    // the source divides entries 1..M only; entry 0 is zero and stays so
    DivideInPlace(tau, denom);
    r := Ok(tau);
  }

  /** The normalised tau values form a distribution over the transcripts
      1..M: the noise entry and the transcripts without effective length get
      nothing. */
  lemma TauDistribution(theta: seq<real>, eel: seq<real>)
    requires |theta| == |eel| > 0 && NonNeg(theta) && Sum(RawTau(theta, eel)) > 0.0
    ensures Simplex(Divide(RawTau(theta, eel), Sum(RawTau(theta, eel))))
    ensures Divide(RawTau(theta, eel), Sum(RawTau(theta, eel)))[0] == 0.0
    ensures forall i :: 1 <= i < |theta| && eel[i] < EPSILON ==>
              Divide(RawTau(theta, eel), Sum(RawTau(theta, eel)))[i] == 0.0
    ensures Sum(Divide(RawTau(theta, eel), Sum(RawTau(theta, eel)))[1..]) == 1.0
  {
    var raw := RawTau(theta, eel);
    forall i | 0 <= i < |raw|
      ensures raw[i] >= 0.0
    {
      if i >= 1 && eel[i] >= EPSILON {
        QuotientFacts(theta[i], eel[i]);
      }
    }
    Normalized(raw);
    var tau := Divide(raw, Sum(raw));
    SumSplit(tau, 0, 1, |tau|);
    assert tau[0..1] == [tau[0]];
    assert tau[0..|tau|] == tau;
    assert tau[1..|tau|] == tau[1..];
  }

  // ---------------------------------------------------------------------------
  // From theta' to theta

  /** What the steps after the rounds make of the learned theta': the
      effective-length correction, then the mappability conversion, each
      rescaled to sum to one, and the check that tau has a positive
      denominator; or the first of these that is fatal. */
  function FinalTheta(theta: seq<real>, eel: seq<real>, mw: seq<real>): (r: Result<seq<real>>)
    requires |theta| == |eel| == |mw|
    ensures r.Ok? ==> |r.value| == |theta| && Sum(RawTau(r.value, eel)) > 0.0
    ensures r.Err? ==> r.error == NoEffectiveLength || r.error == NoMappableMass || r.error == NoAlignableReads
  {
    var e := Effective(theta, eel);
    if Sum(e) < EPSILON then Err(NoEffectiveLength)
    else
      var m := Mappable(Divide(e, Sum(e)), mw);
      if Sum(m) < EPSILON then Err(NoMappableMass)
      else if Sum(RawTau(Divide(m, Sum(m)), eel)) <= 0.0 then Err(NoAlignableReads)
      else Ok(Divide(m, Sum(m)))
  }

  /** Each fatal error of the corrections, and the final theta, in terms
      of the two corrections' sums. */
  lemma FinalThetaCases(theta: seq<real>, eel: seq<real>, mw: seq<real>)
    requires |theta| == |eel| == |mw|
    ensures FinalTheta(theta, eel, mw) == Err(NoEffectiveLength) <==> Sum(Effective(theta, eel)) < EPSILON
    ensures FinalTheta(theta, eel, mw) == Err(NoMappableMass) <==>
              Sum(Effective(theta, eel)) >= EPSILON &&
              Sum(Mappable(Divide(Effective(theta, eel), Sum(Effective(theta, eel))), mw)) < EPSILON
    ensures FinalTheta(theta, eel, mw) == Err(NoAlignableReads) <==>
              Sum(Effective(theta, eel)) >= EPSILON &&
              var m := Mappable(Divide(Effective(theta, eel), Sum(Effective(theta, eel))), mw);
              Sum(m) >= EPSILON && Sum(RawTau(Divide(m, Sum(m)), eel)) <= 0.0
    ensures FinalTheta(theta, eel, mw).Ok? ==>
              var m := Mappable(Divide(Effective(theta, eel), Sum(Effective(theta, eel))), mw);
              FinalTheta(theta, eel, mw).value == Divide(m, Sum(m))
  {
  }

  /** theta is zero at every entry whose mappability weight is below
      EPSILON and at every transcript without effective length. */
  predicate ZeroWhereDropped(theta: seq<real>, mw: seq<real>, eel: seq<real>)
    requires |theta| == |mw| == |eel|
  {
    forall i :: 0 <= i < |theta| && (mw[i] < EPSILON || (i >= 1 && eel[i] < EPSILON)) ==> theta[i] == 0.0
  }

  /** From a distribution theta', the final theta is a distribution again,
      and a transcript dropped by either correction stays at zero. */
  lemma FinalThetaDistribution(theta: seq<real>, eel: seq<real>, mw: seq<real>)
    requires |theta| == |eel| == |mw| && NonNeg(theta)
    ensures FinalTheta(theta, eel, mw).Ok? ==>
              Simplex(FinalTheta(theta, eel, mw).value) &&
              ZeroWhereDropped(FinalTheta(theta, eel, mw).value, mw, eel)
  {
    var e := Effective(theta, eel);
    if Sum(e) >= EPSILON {
      var c := Divide(e, Sum(e));
      var m := Mappable(c, mw);
      if Sum(m) >= EPSILON {
        var t := Divide(m, Sum(m));
        assert FinalTheta(theta, eel, mw).Ok? ==> FinalTheta(theta, eel, mw).value == t;
        EffectiveMass(theta, eel);
        Normalized(e);
        MappableInverse(c, mw);
        Normalized(m);
        DroppedStayZero(theta, eel, mw, Sum(e), Sum(m));
      }
    }
  }

  /** Whatever the two rescaling factors, an entry either correction zeroes
      stays zero through the other. */
  lemma DroppedStayZero(theta: seq<real>, eel: seq<real>, mw: seq<real>, s1: real, s2: real)
    requires |theta| == |eel| == |mw| && s1 != 0.0 && s2 != 0.0
    ensures ZeroWhereDropped(Divide(Mappable(Divide(Effective(theta, eel), s1), mw), s2), mw, eel)
  {
    var e := Effective(theta, eel);
    var c := Divide(e, s1);
    var m := Mappable(c, mw);
    var t := Divide(m, s2);
    forall i | 0 <= i < |t| && (mw[i] < EPSILON || (i >= 1 && eel[i] < EPSILON))
      ensures t[i] == 0.0
    {
      if mw[i] >= EPSILON {
        assert e[i] == 0.0;
        assert c[i] == 0.0 / s1 == 0.0;
        assert m[i] == 0.0 / mw[i] == 0.0;
      }
      assert t[i] == 0.0 / s2;
    }
  }

  // ---------------------------------------------------------------------------
  // Gene totals

  /** Gene g holds the transcripts sp[g] .. sp[g+1]-1 of a vector of length
      n: the start positions are ordered and within the vector. */
  predicate GeneRanges(sp: seq<int>, n: int)
  {
    && |sp| >= 1
    && (forall g :: 0 <= g < |sp| ==> 0 <= sp[g] <= n)
    && (forall g, h :: 0 <= g <= h < |sp| ==> sp[g] <= sp[h])
  }

  /** The total of each gene's range. */
  function GeneSums(v: seq<real>, sp: seq<int>): (r: seq<real>)
    requires GeneRanges(sp, |v|)
    ensures |r| == |sp| - 1
  {
    seq(|sp| - 1, g requires 0 <= g < |sp| - 1 => Sum(v[sp[g]..sp[g + 1]]))
  }

  /** The sumC / sumT loops of writeResults, for every gene. */
  method GeneTotals(v: array<real>, sp: seq<int>) returns (totals: array<real>)
    requires GeneRanges(sp, v.Length)
    ensures fresh(totals) && totals[..] == GeneSums(v[..], sp)
  {
    totals := new real[|sp| - 1];
    for g := 0 to |sp| - 1
      invariant forall t :: 0 <= t < g ==> totals[t] == Sum(v[sp[t]..sp[t + 1]])
    {
      var b, e := sp[g], sp[g + 1];
      var total := 0.0;
      for j := b to e
        invariant total == Sum(v[b..j])
      {
        assert v[b..j + 1][..j - b] == v[b..j];
        total := total + v[j];
      }
      totals[g] := total;
    }
  }

  /** The gene totals add up to the total of the range the genes cover. */
  lemma {:induction false} GeneSumsTotal(v: seq<real>, sp: seq<int>)
    requires GeneRanges(sp, |v|)
    ensures Sum(GeneSums(v, sp)) == Sum(v[sp[0]..sp[|sp| - 1]])
  {
    var n := |sp|;
    if n == 1 {
      assert v[sp[0]..sp[0]] == [];
    } else {
      var sp' := sp[..n - 1];
      var g, g' := GeneSums(v, sp), GeneSums(v, sp');
      GeneSumsTotal(v, sp');
      assert g[..n - 2] == g' by {
        forall k | 0 <= k < n - 2
          ensures g[k] == g'[k]
        {
          assert sp'[k] == sp[k] && sp'[k + 1] == sp[k + 1];
        }
      }
      assert Sum(g) == Sum(g') + Sum(v[sp[n - 2]..sp[n - 1]]);
      SumSplit(v, sp[0], sp[n - 2], sp[n - 1]);
    }
  }

  /** When the genes cover the transcripts 1..M, the gene tau totals sum to
      one, like the transcript tau values. */
  lemma GeneTauTotals(theta: seq<real>, eel: seq<real>, sp: seq<int>)
    requires |theta| == |eel| > 0 && NonNeg(theta) && Sum(RawTau(theta, eel)) > 0.0
    requires GeneRanges(sp, |theta|) && sp[0] == 1 && sp[|sp| - 1] == |theta|
    ensures Sum(GeneSums(Divide(RawTau(theta, eel), Sum(RawTau(theta, eel))), sp)) == 1.0
  {
    var tau := Divide(RawTau(theta, eel), Sum(RawTau(theta, eel)));
    TauDistribution(theta, eel);
    GeneSumsTotal(tau, sp);
    assert tau[sp[0]..sp[|sp| - 1]] == tau[1..];
  }

  // ---------------------------------------------------------------------------
  // What the run reports

  /** What the engine hands to the results writer besides theta. */
  datatype Outputs = Outputs(eel: seq<real>, counts: seq<real>, tau: seq<real>,
                             geneCounts: seq<real>, geneTau: seq<real>)

  /** What a successful run produces. */
  datatype Estimates = Estimates(rounds: nat, relearns: nat, theta: seq<real>, out: Outputs)

  /** The values writeResults writes for final proportions theta: tau is
      theta over the effective lengths, normalised, and the gene totals are
      the sums of the counts and of tau over each gene's transcripts. */
  predicate Written(out: Outputs, theta: seq<real>, sp: seq<int>)
  {
    && |out.counts| == |out.tau| == |out.eel| == |theta|
    && GeneRanges(sp, |theta|)
    && Sum(RawTau(theta, out.eel)) > 0.0
    && out.tau == Divide(RawTau(theta, out.eel), Sum(RawTau(theta, out.eel)))
    && out.geneCounts == GeneSums(out.counts, sp)
    && out.geneTau == GeneSums(out.tau, sp)
  }

  /** What a successful run reports when the rounds leave theta': theta is
      theta' corrected (FinalTheta), eel the expected effective lengths, and
      tau and the gene totals are those writeResults writes. */
  predicate Reports(e: Estimates, thetaPrime: seq<real>, eel: seq<real>, mw: seq<real>, sp: seq<int>)
  {
    && |thetaPrime| == |eel| == |mw|
    && FinalTheta(thetaPrime, eel, mw).Ok?
    && e.theta == FinalTheta(thetaPrime, eel, mw).value
    && e.out.eel == eel
    && Written(e.out, e.theta, sp)
  }
}
