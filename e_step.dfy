/** The E-step over one shard (E_STEP): every fragment's weights, its
    responsibilities, their accumulation into the shard's count vector and,
    in expected-weight mode, the overwriting of the stored scores. */
module EStep {
  import opened RealSeq
  import opened Constants
  import opened CompatStore

  /** A weight below the floor is set to exactly zero. */
  function Clamp(w: real): (r: real)
    ensures r >= 0.0
  {
    if w < EPSILON then 0.0 else w
  }

  /** A clamped weight is either exactly zero or the weight itself, at or
      above the floor. */
  lemma ClampCases(w: real)
    ensures Clamp(w) == 0.0 <==> w < EPSILON
    ensures Clamp(w) != 0.0 ==> Clamp(w) == w >= EPSILON
  {
  }

  /** Fragment i's k-th weight under the proportions `probv`: k = 0 is the
      noise weight, k >= 1 the weight of the fragment's (k-1)-th hit. */
  function WeightAt(probv: seq<real>, h: Hits, i: nat, k: nat): (w: real)
    requires |probv| > 0 && WellFormed(h, |probv| - 1) && i < |h.ncpv|
    requires k <= h.offsets[i + 1] - h.offsets[i]
    ensures w >= 0.0
  {
    if k == 0 then Clamp(probv[0] * h.ncpv[i])
    else
      var j := h.offsets[i] + k - 1;
      Clamp(probv[h.sid[j]] * h.conPrb[j])
  }

  /** Fragment i's first n weights: the noise weight, then one weight per
      hit in store order. */
  function WeightsUpTo(probv: seq<real>, h: Hits, i: nat, n: nat): (w: seq<real>)
    requires |probv| > 0 && WellFormed(h, |probv| - 1) && i < |h.ncpv|
    requires n <= h.offsets[i + 1] - h.offsets[i] + 1
    ensures |w| == n
    decreases n
  {
    if n == 0 then [] else WeightsUpTo(probv, h, i, n - 1) + [WeightAt(probv, h, i, n - 1)]
  }

  /** All of fragment i's weights. */
  function Weights(probv: seq<real>, h: Hits, i: nat): (w: seq<real>)
    requires |probv| > 0 && WellFormed(h, |probv| - 1) && i < |h.ncpv|
    ensures |w| == h.offsets[i + 1] - h.offsets[i] + 1
    ensures NonNeg(w)
  {
    var n := h.offsets[i + 1] - h.offsets[i] + 1;
    WeightsUpToNonNeg(probv, h, i, n);
    WeightsUpTo(probv, h, i, n)
  }

  lemma WeightsUpToSnoc(probv: seq<real>, h: Hits, i: nat, n: nat)
    requires |probv| > 0 && WellFormed(h, |probv| - 1) && i < |h.ncpv|
    requires n < h.offsets[i + 1] - h.offsets[i] + 1
    ensures WeightsUpTo(probv, h, i, n + 1) == WeightsUpTo(probv, h, i, n) + [WeightAt(probv, h, i, n)]
  {
  }

  lemma {:induction false} WeightsUpToAt(probv: seq<real>, h: Hits, i: nat, n: nat, k: nat)
    requires |probv| > 0 && WellFormed(h, |probv| - 1) && i < |h.ncpv|
    requires k < n <= h.offsets[i + 1] - h.offsets[i] + 1
    ensures WeightsUpTo(probv, h, i, n)[k] == WeightAt(probv, h, i, k)
    decreases n
  {
    if k < n - 1 {
      WeightsUpToAt(probv, h, i, n - 1, k);
    }
  }

  lemma {:induction false} WeightsUpToNonNeg(probv: seq<real>, h: Hits, i: nat, n: nat)
    requires |probv| > 0 && WellFormed(h, |probv| - 1) && i < |h.ncpv|
    requires n <= h.offsets[i + 1] - h.offsets[i] + 1
    ensures NonNeg(WeightsUpTo(probv, h, i, n))
    decreases n
  {
    if n > 0 {
      WeightsUpToNonNeg(probv, h, i, n - 1);
    }
  }

  lemma NoiseWeightAt(probv: seq<real>, h: Hits, i: nat, p: real, c: real)
    requires |probv| > 0 && WellFormed(h, |probv| - 1) && i < |h.ncpv|
    requires p == probv[0] && c == h.ncpv[i]
    ensures WeightAt(probv, h, i, 0) == Clamp(p * c)
  {
  }

  lemma HitWeightAt(probv: seq<real>, h: Hits, i: nat, k: nat, j: nat, p: real, c: real)
    requires |probv| > 0 && WellFormed(h, |probv| - 1) && i < |h.ncpv|
    requires 0 < k <= h.offsets[i + 1] - h.offsets[i] && j == h.offsets[i] + k - 1
    requires p == probv[h.sid[j]] && c == h.conPrb[j]
    ensures WeightAt(probv, h, i, k) == Clamp(p * c)
  {
  }

  /** The noise weight, read off the noise score. */
  lemma NoiseWeight(probv: seq<real>, h: Hits, i: nat, p: real, c: real)
    requires |probv| > 0 && WellFormed(h, |probv| - 1) && i < |h.ncpv|
    requires p == probv[0] && c == h.ncpv[i]
    ensures Weights(probv, h, i)[0] == Clamp(p * c)
  {
    WeightsUpToAt(probv, h, i, h.offsets[i + 1] - h.offsets[i] + 1, 0);
  }

  /** The weight of a hit, read off its position in the store. */
  lemma HitWeight(probv: seq<real>, h: Hits, i: nat, k: nat, j: nat, p: real, c: real)
    requires |probv| > 0 && WellFormed(h, |probv| - 1) && i < |h.ncpv|
    requires 0 < k <= h.offsets[i + 1] - h.offsets[i] && j == h.offsets[i] + k - 1
    requires p == probv[h.sid[j]] && c == h.conPrb[j]
    ensures Weights(probv, h, i)[k] == Clamp(p * c)
  {
    WeightsUpToAt(probv, h, i, h.offsets[i + 1] - h.offsets[i] + 1, k);
  }

  /** A fragment is degenerate this round when its weights sum below the floor. */
  predicate Live(probv: seq<real>, h: Hits, i: nat)
    requires |probv| > 0 && WellFormed(h, |probv| - 1) && i < |h.ncpv|
  {
    Sum(Weights(probv, h, i)) >= EPSILON
  }

  /** Where fragment i's responsibilities are counted: noise slot 0, then the
      transcript of each hit. */
  function Targets(h: Hits, i: nat): (idx: seq<nat>)
    requires Shaped(h) && i < |h.ncpv|
    ensures |idx| == h.offsets[i + 1] - h.offsets[i] + 1
    ensures idx[0] == 0
  {
    [0] + h.sid[h.offsets[i]..h.offsets[i + 1]]
  }

  /** The weights of a live fragment normalised by their sum. */
  function Responsibilities(probv: seq<real>, h: Hits, i: nat): (r: seq<real>)
    requires |probv| > 0 && WellFormed(h, |probv| - 1) && i < |h.ncpv|
    requires Live(probv, h, i)
    ensures |r| == h.offsets[i + 1] - h.offsets[i] + 1
    ensures Simplex(r)
    ensures forall k :: 0 <= k < |r| ==> 0.0 <= r[k] <= 1.0
  {
    var w := Weights(probv, h, i);
    Normalized(w);
    Divide(w, Sum(w))
  }

  /** The scores an expected-weight pass stores for fragment i: its
      responsibilities, or all zeros when it is degenerate. */
  function NewScores(probv: seq<real>, h: Hits, i: nat): (sc: seq<real>)
    requires |probv| > 0 && WellFormed(h, |probv| - 1) && i < |h.ncpv|
    ensures |sc| == h.offsets[i + 1] - h.offsets[i] + 1
    ensures Live(probv, h, i) ==> Simplex(sc)
    ensures !Live(probv, h, i) ==> sc == Zeros(|sc|)
  {
    if Live(probv, h, i) then Responsibilities(probv, h, i)
    else Zeros(h.offsets[i + 1] - h.offsets[i] + 1)
  }

  /** The count vector `v` after fragment i: a live fragment adds its
      responsibilities at its targets, a degenerate one adds nothing. */
  function Deposit(v: seq<real>, probv: seq<real>, h: Hits, i: nat): (r: seq<real>)
    requires |probv| > 0 && WellFormed(h, |probv| - 1) && i < |h.ncpv|
    requires |v| == |probv|
    ensures |r| == |v|
  {
    if Live(probv, h, i) then Accumulate(v, Targets(h, i), Responsibilities(probv, h, i))
    else v
  }

  /** The shard's count vector after fragments lo..hi-1, starting from zero. */
  function ShardCounts(probv: seq<real>, h: Hits, lo: nat, hi: nat): (r: seq<real>)
    requires |probv| > 0 && WellFormed(h, |probv| - 1)
    requires lo <= hi <= |h.ncpv|
    ensures |r| == |probv|
    decreases hi - lo
  {
    if hi == lo then Zeros(|probv|)
    else Deposit(ShardCounts(probv, h, lo, hi - 1), probv, h, hi - 1)
  }

  /** Number of live fragments among lo..hi-1. */
  function LiveCount(probv: seq<real>, h: Hits, lo: nat, hi: nat): (n: nat)
    requires |probv| > 0 && WellFormed(h, |probv| - 1)
    requires lo <= hi <= |h.ncpv|
    ensures n <= hi - lo
    decreases hi - lo
  {
    if hi == lo then 0
    else LiveCount(probv, h, lo, hi - 1) + (if Live(probv, h, hi - 1) then 1 else 0)
  }

  /** The new scores of every fragment of the store. */
  function AllNewScores(probv: seq<real>, h: Hits): (ns: seq<seq<real>>)
    requires |probv| > 0 && WellFormed(h, |probv| - 1)
    ensures ScoresFit(h, ns)
  {
    seq(|h.ncpv|, i requires 0 <= i < |h.ncpv| => NewScores(probv, h, i))
  }

  /** The store after an expected-weight pass over fragments lo..hi-1. */
  function Rewritten(probv: seq<real>, h: Hits, lo: nat, hi: nat): (r: Hits)
    requires |probv| > 0 && WellFormed(h, |probv| - 1)
    requires lo <= hi <= |h.ncpv|
    ensures WellFormed(r, |probv| - 1) && r.offsets == h.offsets && r.sid == h.sid
    ensures |r.ncpv| == |h.ncpv| && |r.conPrb| == |h.conPrb|
  {
    Overwrite(h, AllNewScores(probv, h), lo, hi)
  }

  // ---------------------------------------------------------------------------
  // Properties of one fragment and of a shard

  /** One fragment raises the total count by exactly one if it is live and by
      nothing if it is degenerate, and keeps the count vector non-negative. */
  lemma DepositTotal(v: seq<real>, probv: seq<real>, h: Hits, i: nat)
    requires |probv| > 0 && WellFormed(h, |probv| - 1) && i < |h.ncpv|
    requires |v| == |probv|
    ensures Sum(Deposit(v, probv, h, i)) == Sum(v) + (if Live(probv, h, i) then 1.0 else 0.0)
    ensures NonNeg(v) ==> NonNeg(Deposit(v, probv, h, i))
  {
    if Live(probv, h, i) {
      var idx, r := Targets(h, i), Responsibilities(probv, h, i);
      assert IndicesBelow(idx, |v|);
      AccumulateSum(v, idx, r);
      if NonNeg(v) {
        AccumulateNonNeg(v, idx, r);
      }
    }
  }

  /** The shard's counts are non-negative and sum to its number of live
      fragments. */
  lemma {:induction false} ShardCountsTotal(probv: seq<real>, h: Hits, lo: nat, hi: nat)
    requires |probv| > 0 && WellFormed(h, |probv| - 1)
    requires lo <= hi <= |h.ncpv|
    ensures NonNeg(ShardCounts(probv, h, lo, hi))
    ensures Sum(ShardCounts(probv, h, lo, hi)) == LiveCount(probv, h, lo, hi) as real
    decreases hi - lo
  {
    if hi == lo {
      SumZeros(|probv|);
    } else {
      ShardCountsTotal(probv, h, lo, hi - 1);
      DepositTotal(ShardCounts(probv, h, lo, hi - 1), probv, h, hi - 1);
    }
  }

  /** A weight counted towards an origin whose proportion is zero is zero. */
  lemma ZeroTargetWeight(probv: seq<real>, h: Hits, i: nat, k: nat)
    requires |probv| > 0 && WellFormed(h, |probv| - 1) && i < |h.ncpv|
    requires k < |Targets(h, i)| && probv[Targets(h, i)[k]] == 0.0
    ensures Weights(probv, h, i)[k] == 0.0
  {
    if k == 0 {
      NoiseWeight(probv, h, i, 0.0, h.ncpv[i]);
    } else {
      var j := h.offsets[i] + k - 1;
      assert Targets(h, i)[k] == h.sid[j];
      HitWeight(probv, h, i, k, j, 0.0, h.conPrb[j]);
    }
  }

  /** One fragment adds nothing to an origin whose proportion is zero. */
  lemma ZeroFragmentNoCount(v: seq<real>, probv: seq<real>, h: Hits, i: nat, t: nat)
    requires |probv| > 0 && WellFormed(h, |probv| - 1) && i < |h.ncpv|
    requires |v| == |probv| && t < |probv| && probv[t] == 0.0
    ensures Deposit(v, probv, h, i)[t] == v[t]
  {
    if Live(probv, h, i) {
      var w := Weights(probv, h, i);
      var idx, r := Targets(h, i), Responsibilities(probv, h, i);
      forall k | 0 <= k < |idx| && idx[k] == t
        ensures r[k] == 0.0
      {
        ZeroTargetWeight(probv, h, i, k);
        assert r[k] == w[k] / Sum(w);
      }
      AccumulateUntouched(v, idx, r, t);
    }
  }

  /** An origin whose proportion is zero receives no count in the shard. */
  lemma {:induction false} ZeroProportionNoCount(probv: seq<real>, h: Hits, lo: nat, hi: nat, t: nat)
    requires |probv| > 0 && WellFormed(h, |probv| - 1)
    requires lo <= hi <= |h.ncpv|
    requires t < |probv| && probv[t] == 0.0
    ensures ShardCounts(probv, h, lo, hi)[t] == 0.0
    decreases hi - lo
  {
    if hi > lo {
      ZeroProportionNoCount(probv, h, lo, hi - 1, t);
      ZeroFragmentNoCount(ShardCounts(probv, h, lo, hi - 1), probv, h, hi - 1, t);
    }
  }

  /** What an expected-weight pass leaves in the store: fragments lo..hi-1
      carry their new scores, every other noise score and every hit outside
      [offsets[lo], offsets[hi]) is untouched. */
  lemma RewrittenScores(probv: seq<real>, h: Hits, lo: nat, hi: nat)
    requires |probv| > 0 && WellFormed(h, |probv| - 1)
    requires lo <= hi <= |h.ncpv|
    ensures forall i :: lo <= i < hi ==> Rewritten(probv, h, lo, hi).ncpv[i] == NewScores(probv, h, i)[0]
    ensures forall i, j :: lo <= i < hi && h.offsets[i] <= j < h.offsets[i + 1] ==>
              Rewritten(probv, h, lo, hi).conPrb[j] == NewScores(probv, h, i)[j - h.offsets[i] + 1]
    ensures forall i :: 0 <= i < |h.ncpv| && !(lo <= i < hi) ==>
              Rewritten(probv, h, lo, hi).ncpv[i] == h.ncpv[i]
    ensures forall j :: 0 <= j < |h.conPrb| && !(h.offsets[lo] <= j < h.offsets[hi]) ==>
              Rewritten(probv, h, lo, hi).conPrb[j] == h.conPrb[j]
  {
    OverwriteNoise(h, AllNewScores(probv, h), lo, hi);
    OverwriteHits(h, AllNewScores(probv, h), lo, hi);
  }

  /** Fragment i's weights depend only on its own noise score and hit scores. */
  lemma WeightsFrame(probv: seq<real>, h: Hits, h': Hits, i: nat)
    requires |probv| > 0 && WellFormed(h, |probv| - 1) && WellFormed(h', |probv| - 1)
    requires i < |h.ncpv| == |h'.ncpv|
    requires h'.offsets == h.offsets && h'.sid == h.sid && h'.ncpv[i] == h.ncpv[i]
    requires forall j :: h.offsets[i] <= j < h.offsets[i + 1] ==> h'.conPrb[j] == h.conPrb[j]
    ensures Weights(probv, h', i) == Weights(probv, h, i)
  {
    WeightsUpToFrame(probv, h, h', i, h.offsets[i + 1] - h.offsets[i] + 1);
  }

  lemma {:induction false} WeightsUpToFrame(probv: seq<real>, h: Hits, h': Hits, i: nat, n: nat)
    requires |probv| > 0 && WellFormed(h, |probv| - 1) && WellFormed(h', |probv| - 1)
    requires i < |h.ncpv| == |h'.ncpv|
    requires h'.offsets == h.offsets && h'.sid == h.sid && h'.ncpv[i] == h.ncpv[i]
    requires forall j :: h.offsets[i] <= j < h.offsets[i + 1] ==> h'.conPrb[j] == h.conPrb[j]
    requires n <= h.offsets[i + 1] - h.offsets[i] + 1
    ensures WeightsUpTo(probv, h', i, n) == WeightsUpTo(probv, h, i, n)
    decreases n
  {
    if n > 0 {
      WeightsUpToFrame(probv, h, h', i, n - 1);
      assert WeightAt(probv, h', i, n - 1) == WeightAt(probv, h, i, n - 1);
    }
  }

  /** A pass over a..b leaves the scores of every later fragment i as they
      were. */
  lemma RewrittenKeepsLater(probv: seq<real>, h: Hits, a: nat, b: nat, i: nat)
    requires |probv| > 0 && WellFormed(h, |probv| - 1)
    requires a <= b <= i < |h.ncpv|
    ensures Weights(probv, Rewritten(probv, h, a, b), i) == Weights(probv, h, i)
  {
    OverwriteNoise(h, AllNewScores(probv, h), a, b);
    OverwriteHits(h, AllNewScores(probv, h), a, b);
    WeightsFrame(probv, h, Rewritten(probv, h, a, b), i);
  }

  /** A shard's counts do not see an earlier expected-weight pass over the
      fragments a..lo-1 before it. */
  lemma {:induction false} ShardCountsAfterPass(probv: seq<real>, h: Hits, a: nat, lo: nat, hi: nat)
    requires |probv| > 0 && WellFormed(h, |probv| - 1)
    requires a <= lo <= hi <= |h.ncpv|
    ensures ShardCounts(probv, Rewritten(probv, h, a, lo), lo, hi) == ShardCounts(probv, h, lo, hi)
    ensures LiveCount(probv, Rewritten(probv, h, a, lo), lo, hi) == LiveCount(probv, h, lo, hi)
    decreases hi - lo
  {
    if hi > lo {
      ShardCountsAfterPass(probv, h, a, lo, hi - 1);
      RewrittenKeepsLater(probv, h, a, lo, hi - 1);
    }
  }

  /** Expected-weight passes over consecutive ranges make one pass. */
  lemma PassesCompose(probv: seq<real>, h: Hits, a: nat, lo: nat, hi: nat)
    requires |probv| > 0 && WellFormed(h, |probv| - 1)
    requires a <= lo <= hi <= |h.ncpv|
    ensures Rewritten(probv, Rewritten(probv, h, a, lo), lo, hi) == Rewritten(probv, h, a, hi)
  {
    var h' := Rewritten(probv, h, a, lo);
    forall i | lo <= i < hi
      ensures AllNewScores(probv, h')[i] == AllNewScores(probv, h)[i]
    {
      RewrittenKeepsLater(probv, h, a, lo, i);
    }
    OverwriteCompose(h, AllNewScores(probv, h), AllNewScores(probv, h'), a, lo, hi);
  }

  /** A fragment whose weights sum to at least the floor is live, and then
      its deposit and its new scores are its normalised weights. */
  lemma LiveFragment(v: seq<real>, probv: seq<real>, h: Hits, i: nat)
    requires |probv| > 0 && WellFormed(h, |probv| - 1) && i < |h.ncpv| && |v| == |probv|
    requires Sum(Weights(probv, h, i)) >= EPSILON
    ensures Live(probv, h, i)
    ensures Deposit(v, probv, h, i) ==
            Accumulate(v, Targets(h, i), Divide(Weights(probv, h, i), Sum(Weights(probv, h, i))))
    ensures NewScores(probv, h, i) == Divide(Weights(probv, h, i), Sum(Weights(probv, h, i)))
  {
  }

  /** One more fragment of the pass: with the scores of the earlier fragments
      already rewritten, fragment i deposits what it would have deposited in
      the original store, and rewriting its scores extends the pass by one. */
  lemma PassStep(v: seq<real>, probv: seq<real>, h: Hits, lo: nat, i: nat, cur: Hits, expectedWeights: bool)
    requires |probv| > 0 && WellFormed(h, |probv| - 1) && lo <= i < |h.ncpv| && |v| == |probv|
    requires cur == if expectedWeights then Rewritten(probv, h, lo, i) else h
    ensures WellFormed(cur, |probv| - 1) && i < |cur.ncpv|
    ensures Deposit(v, probv, cur, i) == Deposit(v, probv, h, i)
    ensures expectedWeights ==> SetScores(cur, i, NewScores(probv, cur, i)) == Rewritten(probv, h, lo, i + 1)
  {
    if expectedWeights {
      RewrittenKeepsLater(probv, h, lo, i, i);
    }
    assert Weights(probv, cur, i) == Weights(probv, h, i);
  }

  // ---------------------------------------------------------------------------
  // The imperative E-step

  /** The first half of E_STEP's fragment loop: fragment i's clamped weights
      in a fresh buffer (the source's `fracs`) and their sum. */
  method ComputeWeights(store: HitStore, i: nat, probv: array<real>) returns (fracs: array<real>, sum: real)
    requires probv.Length > 0 && store.Valid(probv.Length - 1) && i < store.ncpv.Length
    ensures fresh(fracs)
    ensures fracs[..] == Weights(probv[..], store.View(), i)
    ensures sum == Sum(fracs[..])
  {
    ghost var h := store.View();
    ghost var pv := probv[..];
    var fr := store.offsets[i];
    var to := store.offsets[i + 1];
    assert fr <= to <= store.conPrb.Length;
    fracs := new real[to - fr + 1];
    sum := 0.0;
    assert Weights(pv, h, i) == WeightsUpTo(pv, h, i, fracs.Length);
    FillWeight(store, probv, fracs, i, 0, pv, h);
    sum := sum + fracs[0];
    var j := fr;
    ghost var n := 1;
    while j < to
      invariant fr <= j <= to && n == j - fr + 1
      invariant probv[..] == pv && store.View() == h
      invariant fracs[..n] == WeightsUpTo(pv, h, i, n)
      invariant sum == Sum(WeightsUpTo(pv, h, i, n))
    {
      var id := j - fr + 1;
      FillWeight(store, probv, fracs, i, id, pv, h);
      sum := sum + fracs[id];
      j, n := j + 1, n + 1;
    }
    assert fracs[..] == fracs[..n];
  }

  /** One step of `ComputeWeights`: slot id of the buffer receives the
      clamped product of a proportion and a score (the noise weight for slot
      0, the weight of hit offsets[i] + id - 1 otherwise), extending the
      filled prefix by one weight. */
  method FillWeight(store: HitStore, probv: array<real>, fracs: array<real>, i: nat, id: nat,
                    ghost pv: seq<real>, ghost h: Hits)
    requires |pv| > 0 && WellFormed(h, |pv| - 1) && i < |h.ncpv|
    requires probv[..] == pv && store.View() == h && store.offsets == h.offsets && store.sid == h.sid
    requires fracs != probv && fracs != store.conPrb && fracs != store.ncpv
    requires id < fracs.Length == h.offsets[i + 1] - h.offsets[i] + 1
    requires fracs[..id] == WeightsUpTo(pv, h, i, id)
    modifies fracs
    ensures fracs[..id + 1] == WeightsUpTo(pv, h, i, id + 1)
    ensures Sum(WeightsUpTo(pv, h, i, id + 1)) == Sum(WeightsUpTo(pv, h, i, id)) + fracs[id]
  {
    var p, c;
    if id == 0 {
      p, c := probv[0], store.ncpv[i];
      NoiseWeightAt(pv, h, i, p, c);
    } else {
      var j := store.offsets[i] + id - 1;
      p, c := probv[store.sid[j]], store.conPrb[j];
      HitWeightAt(pv, h, i, id, j, p, c);
    }
    var x := Clamp(p * c);
    ghost var prefix := fracs[..id];
    WeightsUpToSnoc(pv, h, i, id);
    assert prefix == WeightsUpTo(pv, h, i, id);
    assert WeightAt(pv, h, i, id) == x;
    assert WeightsUpTo(pv, h, i, id + 1) == prefix + [x];
    fracs[id] := x;
    assert fracs[..id + 1] == prefix + [x];
    SumSnoc(prefix, x);
  }

  /** The live branch of E_STEP's fragment loop: each entry of the buffer is
      divided by `sum` and added into the shard's count vector at its target
      (noise slot 0, then each hit's transcript), and in expected-weight mode
      also stored as the fragment's new score. */
  method Distribute(store: HitStore, i: nat, fracs: array<real>, sum: real,
                    countv: array<real>, expectedWeights: bool, ghost M: nat)
    requires store.Valid(M) && i < store.ncpv.Length
    requires fracs != store.conPrb && fracs != store.ncpv
    requires countv != store.conPrb && countv != store.ncpv && countv != fracs
    requires fracs.Length == store.offsets[i + 1] - store.offsets[i] + 1
    requires sum != 0.0 && countv.Length == M + 1
    modifies fracs, countv, store.conPrb, store.ncpv
    ensures countv[..] == Accumulate(old(countv[..]), Targets(old(store.View()), i), Divide(old(fracs[..]), sum))
    ensures store.View() == if expectedWeights then SetScores(old(store.View()), i, Divide(old(fracs[..]), sum))
                            else old(store.View())
  {
    ghost var h := store.View();
    ghost var v0 := countv[..];
    ghost var resp := Divide(fracs[..], sum);
    ghost var idx := Targets(h, i);
    assert IndicesBelow(idx, |v0|);
    AccumulateSnoc(v0, idx, resp, 0);
    fracs[0] := fracs[0] / sum;
    countv[0] := countv[0] + fracs[0];
    if expectedWeights { store.ncpv[i] := fracs[0]; }
    DistributeHits(store, i, fracs, sum, countv, expectedWeights, h, v0, resp, idx);
    if expectedWeights {
      SetScoresExt(h, i, resp, store.View());
    }
  }

  /** The hit scores c after the hit loop has reached position j of the
      fragment whose hits start at fr: in expected-weight mode, entries
      fr..j-1 hold the responsibilities resp[1..], the rest are unchanged. */
  function Scored(c: seq<real>, fr: nat, j: nat, resp: seq<real>, expectedWeights: bool): (r: seq<real>)
    requires fr <= j <= |c| && j - fr < |resp|
    ensures |r| == |c|
    ensures forall t :: 0 <= t < |c| ==>
              r[t] == if expectedWeights && fr <= t < j then resp[t - fr + 1] else c[t]
  {
    if expectedWeights then c[..fr] + resp[1..j - fr + 1] + c[j..] else c
  }

  /** One more hit scored. */
  lemma ScoredStep(c: seq<real>, fr: nat, j: nat, resp: seq<real>, expectedWeights: bool)
    requires fr <= j < |c| && j - fr + 1 < |resp|
    ensures Scored(c, fr, j + 1, resp, expectedWeights) ==
            if expectedWeights then Scored(c, fr, j, resp, expectedWeights)[j := resp[j - fr + 1]]
            else Scored(c, fr, j, resp, expectedWeights)
  {
  }

  /** One iteration of the hit loop: `fracs[id] /= sum`, then the result is
      added to the hit's transcript and, in expected-weight mode, stored as
      the hit's score. The hit is entry j of the store and entry id of the
      fragment's buffer, whose hits start at fr; resp and idx are the
      buffer's responsibilities and transcripts. */
  method DistributeHit(store: HitStore, j: nat, id: nat, fracs: array<real>, sum: real,
                       countv: array<real>, expectedWeights: bool,
                       ghost fr: nat, ghost c0: seq<real>, ghost v0: seq<real>, ghost resp: seq<real>, ghost idx: seq<nat>)
    requires fr <= j < store.conPrb.Length == |c0| && j < |store.sid| && id == j - fr + 1 < fracs.Length
    requires fracs != store.conPrb && countv != store.conPrb && countv != fracs
    requires |resp| == |idx| > id && countv.Length == |v0| && IndicesBelow(idx, |v0|)
    requires sum != 0.0 && resp[id] == fracs[id] / sum && idx[id] == store.sid[j]
    requires countv[..] == Accumulate(v0, idx[..id], resp[..id])
    requires store.conPrb[..] == Scored(c0, fr, j, resp, expectedWeights)
    modifies fracs, countv, store.conPrb
    ensures fracs[..] == old(fracs[..])[id := resp[id]]
    ensures countv[..] == Accumulate(v0, idx[..id + 1], resp[..id + 1])
    ensures store.conPrb[..] == Scored(c0, fr, j + 1, resp, expectedWeights)
  {
    AccumulateSnoc(v0, idx, resp, id);
    ScoredStep(c0, fr, j, resp, expectedWeights);
    fracs[id] := fracs[id] / sum;
    countv[store.sid[j]] := countv[store.sid[j]] + fracs[id];
    if expectedWeights { store.conPrb[j] := fracs[id]; }
  }

  /** The hit loop of `Distribute`, from the buffer's second entry on. */
  method DistributeHits(store: HitStore, i: nat, fracs: array<real>, sum: real,
                        countv: array<real>, expectedWeights: bool,
                        ghost h: Hits, ghost v0: seq<real>, ghost resp: seq<real>, ghost idx: seq<nat>)
    requires i + 1 < |h.offsets| && h.offsets[i] <= h.offsets[i + 1] <= |h.conPrb| == |h.sid|
    requires store.offsets == h.offsets && store.sid == h.sid && store.conPrb[..] == h.conPrb
    requires fracs != store.conPrb && countv != store.conPrb && countv != fracs
    requires fracs.Length == h.offsets[i + 1] - h.offsets[i] + 1 == |resp| == |idx|
    requires sum != 0.0 && forall t :: 1 <= t < |resp| ==> resp[t] == fracs[t] / sum
    requires forall t :: 1 <= t < |idx| ==> idx[t] == h.sid[h.offsets[i] + t - 1]
    requires countv.Length == |v0| && IndicesBelow(idx, |v0|)
    requires countv[..] == Accumulate(v0, idx[..1], resp[..1])
    modifies fracs, countv, store.conPrb
    ensures countv[..] == Accumulate(v0, idx, resp)
    ensures forall t :: 0 <= t < store.conPrb.Length ==>
              store.conPrb[t] == if expectedWeights && h.offsets[i] <= t < h.offsets[i + 1]
                                 then resp[t - h.offsets[i] + 1] else h.conPrb[t]
  {
    var fr := store.offsets[i];
    var to := store.offsets[i + 1];
    assert fr <= to <= store.conPrb.Length;
    var j := fr;
    ghost var n := 1;
    while j < to
      invariant fr <= j <= to && n == j - fr + 1
      invariant forall t :: n <= t < fracs.Length ==> fracs[t] == old(fracs[t])
      invariant countv[..] == Accumulate(v0, idx[..n], resp[..n])
      invariant store.conPrb[..] == Scored(h.conPrb, fr, j, resp, expectedWeights)
    {
      var id := j - fr + 1;
      DistributeHit(store, j, id, fracs, sum, countv, expectedWeights, fr, h.conPrb, v0, resp, idx);
      j, n := j + 1, n + 1;
    }
    assert idx[..n] == idx && resp[..n] == resp;
  }

  /** The degenerate branch of E_STEP's fragment loop in expected-weight
      mode: the fragment's noise score and hit scores become zero. */
  method ZeroScores(store: HitStore, i: nat, ghost probv: seq<real>)
    requires |probv| > 0 && store.Valid(|probv| - 1) && i < store.ncpv.Length
    requires !Live(probv, store.View(), i)
    modifies store.conPrb, store.ncpv
    ensures store.View() == SetScores(old(store.View()), i, NewScores(probv, old(store.View()), i))
  {
    ghost var h := store.View();
    var fr := store.offsets[i];
    var to := store.offsets[i + 1];
    assert fr <= to <= store.conPrb.Length;
    store.ncpv[i] := 0.0;
    var j := fr;
    while j < to
      invariant fr <= j <= to
      invariant store.ncpv[..] == h.ncpv[i := 0.0]
      invariant forall t :: 0 <= t < store.conPrb.Length ==>
                  store.conPrb[t] == if fr <= t < j then 0.0 else h.conPrb[t]
    {
      store.conPrb[j] := 0.0;
      j := j + 1;
    }
    assert store.View() == SetScores(h, i, NewScores(probv, h, i));
  }

  /** The body of E_STEP's fragment loop for fragment i. */
  method ProcessFragment(store: HitStore, i: nat, probv: array<real>, countv: array<real>,
                         expectedWeights: bool)
    requires probv.Length > 0 && store.Valid(probv.Length - 1) && i < store.ncpv.Length
    requires probv != store.conPrb && probv != store.ncpv
    requires countv != store.conPrb && countv != store.ncpv && countv != probv
    requires countv.Length == probv.Length
    modifies countv, store.conPrb, store.ncpv
    ensures countv[..] == Deposit(old(countv[..]), probv[..], old(store.View()), i)
    ensures store.View() == if expectedWeights
                            then SetScores(old(store.View()), i, NewScores(probv[..], old(store.View()), i))
                            else old(store.View())
  {
    ghost var h, pv, v := store.View(), probv[..], countv[..];
    var fracs, sum := ComputeWeights(store, i, probv);
    if sum >= EPSILON {
      LiveFragment(v, pv, h, i);
      ghost var resp := Divide(fracs[..], sum);
      assert resp == NewScores(pv, h, i);
      Distribute(store, i, fracs, sum, countv, expectedWeights, probv.Length - 1);
      assert countv[..] == Deposit(v, pv, h, i);
      assert store.View() == if expectedWeights then SetScores(h, i, resp) else h;
    } else if expectedWeights {
      ZeroScores(store, i, pv);
      assert store.View() == SetScores(h, i, NewScores(pv, h, i));
    } else {
      assert store.View() == h;
    }
    assert probv[..] == pv;
  }

  /** The count vector is cleared before the fragment loop. */
  method ZeroCounts(countv: array<real>)
    modifies countv
    ensures countv[..] == Zeros(countv.Length)
  {
    for c := 0 to countv.Length
      invariant forall t :: 0 <= t < c ==> countv[t] == 0.0
    {
      countv[c] := 0.0;
    }
  }

  /** E_STEP over the shard owning fragments lo..hi-1, accumulating into the
      shard's count vector. The vector is zeroed first, so afterwards it holds
      exactly the shard's counts; in expected-weight mode the shard's scores
      are replaced by their responsibilities. */
  method EStep(store: HitStore, lo: nat, hi: nat, probv: array<real>, countv: array<real>,
               expectedWeights: bool)
    requires probv.Length > 0 && store.Valid(probv.Length - 1)
    requires lo <= hi <= store.ncpv.Length
    requires probv != store.conPrb && probv != store.ncpv
    requires countv != store.conPrb && countv != store.ncpv && countv != probv
    requires countv.Length == probv.Length
    modifies countv, store.conPrb, store.ncpv
    ensures store.Valid(probv.Length - 1)
    ensures countv[..] == ShardCounts(probv[..], old(store.View()), lo, hi)
    ensures NonNeg(countv[..])
    ensures Sum(countv[..]) == LiveCount(probv[..], old(store.View()), lo, hi) as real
    ensures store.View() == if expectedWeights then Rewritten(probv[..], old(store.View()), lo, hi)
                            else old(store.View())
  {
    ghost var h := store.View();
    ghost var p := probv[..];
    ZeroCounts(countv);
    assert countv[..] == ShardCounts(p, h, lo, lo);
    for i := lo to hi
      invariant probv[..] == p
      invariant countv[..] == ShardCounts(p, h, lo, i)
      invariant store.View() == if expectedWeights then Rewritten(p, h, lo, i) else h
      invariant store.Valid(probv.Length - 1)
    {
      PassStep(countv[..], p, h, lo, i, store.View(), expectedWeights);
      ProcessFragment(store, i, probv, countv, expectedWeights);
    }
    ShardCountsTotal(p, h, lo, hi);
  }
}
