/** One EM round after the E-step, and what drives the rounds: the initial
    proportions, the reduction of the shard count vectors (plus the N0
    unaligned reads in the noise slot), the M-step, the relative-change test
    and the model-relearning schedule. */
module Rounds {
  import opened RealSeq
  import opened Constants
  import opened Outcome
  import opened Vectors

  // ---------------------------------------------------------------------------
  // Initial proportions

  /** The initial noise proportion: the share of unaligned reads among the
      reads that are not filtered, but never below NOISE_FLOOR. */
  function NoiseShare(n0: nat, n2: int, nTot: int): (t: real)
    requires nTot > n2
    ensures t >= NOISE_FLOOR && t >= n0 as real / (nTot - n2) as real
    ensures t == NOISE_FLOOR || t == n0 as real / (nTot - n2) as real
  {
    var share := n0 as real / (nTot - n2) as real;
    if share < NOISE_FLOOR then NOISE_FLOOR else share
  }

  /** With at most as many unaligned reads as unfiltered ones, the noise
      share is a proportion. */
  lemma NoiseShareAtMostOne(n0: nat, n2: int, nTot: int)
    requires nTot > n2 && n0 <= nTot - n2
    ensures NoiseShare(n0, n2, nTot) <= 1.0
  {
    FractionBounds(n0 as real, (nTot - n2) as real);
  }

  lemma SpreadRest(t0: real, m: nat)
    requires m > 0
    ensures Sum([t0] + Constant(m, (1.0 - t0) / m as real)) == 1.0
  {
    var c := Constant(m, (1.0 - t0) / m as real);
    SumAppend([t0], c);
    SumSingle(t0);
    SumConstant(m, (1.0 - t0) / m as real);
  }

  /** The n proportions the rounds start from: the noise share, then the
      rest spread evenly over the n - 1 transcripts. */
  function StartTheta(n0: nat, n2: int, nTot: int, n: nat): (t: seq<real>)
    requires nTot > n2 && n >= 2
    ensures |t| == n && Sum(t) == 1.0 && t[0] == NoiseShare(n0, n2, nTot)
  {
    SpreadRest(NoiseShare(n0, n2, nTot), n - 1);
    [NoiseShare(n0, n2, nTot)] + Constant(n - 1, (1.0 - NoiseShare(n0, n2, nTot)) / (n - 1) as real)
  }

  /** The initial theta: the noise share in slot 0 and the rest split evenly
      among the M transcripts. The source asserts N_tot > N2 first. */
  method InitTheta(theta: array<real>, n0: nat, n2: int, nTot: int) returns (r: Result<()>)
    requires theta.Length >= 2
    modifies theta
    ensures r.Err? <==> nTot <= n2
    ensures r.Err? ==> r.error == NoNoiseDenominator && theta[..] == old(theta[..])
    ensures r.Ok? ==> theta[..] == [NoiseShare(n0, n2, nTot)] +
                      Constant(theta.Length - 1, (1.0 - NoiseShare(n0, n2, nTot)) / (theta.Length - 1) as real)
    ensures r.Ok? ==> Sum(theta[..]) == 1.0
    ensures r.Ok? ==> theta[..] == StartTheta(n0, n2, nTot, theta.Length)
    ensures r.Ok? && n0 <= nTot - n2 ==> Simplex(theta[..])
  {
    if nTot <= n2 { return Err(NoNoiseDenominator); }
    var m := theta.Length - 1;
    theta[0] := NoiseShare(n0, n2, nTot);
    var val := (1.0 - theta[0]) / m as real;
    for i := 1 to m + 1
      invariant theta[0] == NoiseShare(n0, n2, nTot)
      invariant forall t :: 1 <= t < i ==> theta[t] == val
    {
      theta[i] := val;
    }
    assert theta[..] == [theta[0]] + Constant(m, val);
    SpreadRest(theta[0], m);
    if n0 <= nTot - n2 {
      NoiseShareAtMostOne(n0, n2, nTot);
      assert val >= 0.0;
    }
    r := Ok(());
  }

  // ---------------------------------------------------------------------------
  // Reduction

  predicate Rectangular(rows: seq<seq<real>>, n: nat)
  {
    forall k :: 0 <= k < |rows| ==> |rows[k]| == n
  }

  /** The shard count vectors added entry-wise, the first one first, as the
      source adds every other vector into the first. */
  function ColumnSums(rows: seq<seq<real>>, n: nat): (r: seq<real>)
    requires |rows| > 0 && Rectangular(rows, n)
    ensures |r| == n
    decreases |rows|
  {
    if |rows| == 1 then rows[0]
    else Plus(ColumnSums(rows[..|rows| - 1], n), rows[|rows| - 1])
  }

  /** The reduced count vector: the column sums plus the N0 unaligned reads
      in the noise slot. */
  function Reduced(rows: seq<seq<real>>, n: nat, n0: nat): (r: seq<real>)
    requires |rows| > 0 && Rectangular(rows, n) && n > 0
    ensures |r| == n
  {
    AddAt(ColumnSums(rows, n), 0, n0 as real)
  }

  /** Total of the totals of every row. */
  function TotalOfRows(rows: seq<seq<real>>): (t: real)
    decreases |rows|
  {
    if |rows| == 0 then 0.0 else TotalOfRows(rows[..|rows| - 1]) + Sum(rows[|rows| - 1])
  }

  predicate AllNonNeg(rows: seq<seq<real>>)
  {
    forall k :: 0 <= k < |rows| ==> NonNeg(rows[k])
  }

  lemma {:induction false} ColumnSumsTotal(rows: seq<seq<real>>, n: nat)
    requires |rows| > 0 && Rectangular(rows, n)
    ensures Sum(ColumnSums(rows, n)) == TotalOfRows(rows)
    ensures AllNonNeg(rows) ==> NonNeg(ColumnSums(rows, n))
    decreases |rows|
  {
    var last := |rows| - 1;
    if last == 0 {
      assert rows[..0] == [];
    } else {
      ColumnSumsTotal(rows[..last], n);
      SumPlus(ColumnSums(rows[..last], n), rows[last]);
    }
  }

  /** The reduced vector holds every counted fragment of every shard and the
      unaligned reads: its total is the total of the shard totals plus N0,
      and it is non-negative when the shard vectors are. */
  lemma ReducedTotal(rows: seq<seq<real>>, n: nat, n0: nat)
    requires |rows| > 0 && Rectangular(rows, n) && n > 0
    ensures Sum(Reduced(rows, n, n0)) == TotalOfRows(rows) + n0 as real
    ensures AllNonNeg(rows) ==> NonNeg(Reduced(rows, n, n0))
  {
    ColumnSumsTotal(rows, n);
    SumAddAt(ColumnSums(rows, n), 0, n0 as real);
  }

  /** `countvs[0][j] += countvs[i][j]` over every other shard, then
      `countvs[0][0] += N0`. `rows` are the shard vectors before. */
  method Reduce(countvs: seq<array<real>>, n0: nat, ghost rows: seq<seq<real>>)
    requires |countvs| > 0 && |rows| == |countvs| && countvs[0].Length > 0
    requires forall k :: 0 <= k < |countvs| ==> countvs[k][..] == rows[k]
    requires Rectangular(rows, countvs[0].Length)
    requires forall k :: 0 < k < |countvs| ==> countvs[k] != countvs[0]
    modifies countvs[0]
    ensures countvs[0][..] == Reduced(rows, countvs[0].Length, n0)
  {
    var acc := countvs[0];
    var n := acc.Length;
    for i := 1 to |countvs|
      invariant acc[..] == ColumnSums(rows[..i], n)
    {
      assert rows[..i + 1][..i] == rows[..i];
      AddInto(acc, countvs[i]);
    }
    assert rows[..|countvs|] == rows;
    acc[0] := acc[0] + n0 as real;
  }

  // ---------------------------------------------------------------------------
  // M-step

  /** theta is the reduced counts divided by their total; a total below
      EPSILON fails the source's assertion. */
  method MStep(counts: array<real>, theta: array<real>) returns (r: Result<real>)
    requires counts != theta && counts.Length == theta.Length
    modifies theta
    ensures r.Err? <==> Sum(counts[..]) < EPSILON
    ensures r.Err? ==> r.error == NoCountMass && theta[..] == old(theta[..])
    ensures r.Ok? ==> r.value == Sum(counts[..]) && theta[..] == Divide(counts[..], r.value)
    ensures r.Ok? && NonNeg(counts[..]) ==> Simplex(theta[..])
  {
    var sum := SumArray(counts);
    if sum < EPSILON { return Err(NoCountMass); }
    DivideInto(theta, counts, sum);
    if NonNeg(counts[..]) {
      Normalized(counts[..]);
    }
    r := Ok(sum);
  }

  // ---------------------------------------------------------------------------
  // Convergence

  function Abs(x: real): (a: real)
    ensures a >= 0.0 && (a == x || a == -x)
  {
    if x < 0.0 then -x else x
  }

  /** Entries whose prior proportion is below PRIOR_FLOOR are not tested. */
  predicate Eligible(p: real)
  {
    p >= PRIOR_FLOOR
  }

  /** Relative change of an entry from its prior value p to t. */
  function Change(t: real, p: real): (c: real)
    requires p > 0.0
    ensures c >= 0.0
  {
    Abs(t - p) / p
  }

  predicate Unsettled(theta: seq<real>, probv: seq<real>, i: nat)
    requires i < |theta| == |probv|
  {
    Eligible(probv[i]) && Change(theta[i], probv[i]) >= STOP_CRITERIA
  }

  /** Number of tested entries among the first n that changed by at least
      STOP_CRITERIA. */
  function UnsettledCount(theta: seq<real>, probv: seq<real>, n: nat): (c: nat)
    requires n <= |theta| == |probv|
    ensures c <= n
  {
    if n == 0 then 0
    else UnsettledCount(theta, probv, n - 1) + (if Unsettled(theta, probv, n - 1) then 1 else 0)
  }

  /** Largest relative change among the tested entries of the first n,
      starting from zero. */
  function BiggestChange(theta: seq<real>, probv: seq<real>, n: nat): (c: real)
    requires n <= |theta| == |probv|
  {
    if n == 0 then 0.0
    else
      var b := BiggestChange(theta, probv, n - 1);
      if Eligible(probv[n - 1]) && b < Change(theta[n - 1], probv[n - 1])
      then Change(theta[n - 1], probv[n - 1]) else b
  }

  /** No entry is unsettled exactly when every tested entry changed by less
      than STOP_CRITERIA. */
  lemma {:induction false} SettledMeans(theta: seq<real>, probv: seq<real>, n: nat)
    requires n <= |theta| == |probv|
    ensures UnsettledCount(theta, probv, n) == 0 <==>
            forall i :: 0 <= i < n && Eligible(probv[i]) ==> Change(theta[i], probv[i]) < STOP_CRITERIA
  {
    if n > 0 {
      SettledMeans(theta, probv, n - 1);
    }
  }

  /** The biggest change is the maximum of the tested changes (or zero when
      none is tested). */
  lemma {:induction false} BiggestChangeIsMax(theta: seq<real>, probv: seq<real>, n: nat)
    requires n <= |theta| == |probv|
    ensures BiggestChange(theta, probv, n) >= 0.0
    ensures forall i :: 0 <= i < n && Eligible(probv[i]) ==>
              Change(theta[i], probv[i]) <= BiggestChange(theta, probv, n)
    ensures BiggestChange(theta, probv, n) == 0.0 ||
            exists i :: 0 <= i < n && Eligible(probv[i]) &&
              BiggestChange(theta, probv, n) == Change(theta[i], probv[i])
  {
    if n > 0 {
      BiggestChangeIsMax(theta, probv, n - 1);
    }
  }

  /** A biggest change below STOP_CRITERIA leaves nothing unsettled, and
      nothing unsettled means it is below STOP_CRITERIA. */
  lemma ConvergedByBiggestChange(theta: seq<real>, probv: seq<real>, n: nat)
    requires n <= |theta| == |probv|
    ensures UnsettledCount(theta, probv, n) == 0 <==> BiggestChange(theta, probv, n) < STOP_CRITERIA
  {
    SettledMeans(theta, probv, n);
    BiggestChangeIsMax(theta, probv, n);
  }

  /** The relative-change loop: the number of unsettled entries and the
      biggest change. */
  method RelativeChange(theta: array<real>, probv: array<real>) returns (totNum: nat, bChange: real)
    requires theta.Length == probv.Length
    ensures totNum == UnsettledCount(theta[..], probv[..], theta.Length)
    ensures bChange == BiggestChange(theta[..], probv[..], theta.Length)
  {
    totNum, bChange := 0, 0.0;
    for i := 0 to theta.Length
      invariant totNum == UnsettledCount(theta[..], probv[..], i)
      invariant bChange == BiggestChange(theta[..], probv[..], i)
    {
      if probv[i] >= PRIOR_FLOOR {
        var change := Abs(theta[i] - probv[i]) / probv[i];
        if change >= STOP_CRITERIA { totNum := totNum + 1; }
        if bChange < change { bChange := change; }
      }
    }
  }

  /** Another round runs while fewer than MIN_ROUND rounds ran, or while
      something is unsettled and fewer than MAX_ROUND rounds ran. */
  predicate KeepGoing(round: nat, totNum: nat)
  {
    round < MIN_ROUND || (totNum > 0 && round < MAX_ROUND)
  }

  // ---------------------------------------------------------------------------
  // Model relearning

  /** The model is relearned in each of the first 20 rounds and in every
      100th round. */
  function DoesUpdateModel(round: nat): (b: bool)
    ensures round <= MIN_ROUND ==> b
  {
    round <= 20 || round % 100 == 0
  }

  /** Number of rounds among 1..r in which the model is relearned. */
  function RelearnRounds(r: nat): (n: nat)
  {
    if r == 0 then 0 else RelearnRounds(r - 1) + (if DoesUpdateModel(r) then 1 else 0)
  }

  /** Over r rounds the model is relearned min(r, 20) + r / 100 times. */
  lemma {:induction false} RelearnCount(r: nat)
    ensures RelearnRounds(r) == (if r < 20 then r else 20) + r / 100
  {
    if r > 0 {
      RelearnCount(r - 1);
      if r > 20 {
        HundredStep(r);
      }
    }
  }

  lemma HundredStep(r: nat)
    requires r > 0
    ensures r / 100 == (r - 1) / 100 + (if r % 100 == 0 then 1 else 0)
  {
  }
}
