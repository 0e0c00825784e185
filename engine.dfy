/** The EM driver: shards the fragments, runs EM rounds (an E-step on every
    shard, the reduction of the shards' counts, the M-step and the
    convergence test) until convergence or the round limit, then applies the
    post-convergence corrections and computes the values the results writer
    prints. The source runs the shards' E-steps on one thread each; here
    they run one after another, which gives the same result because shards
    own disjoint fragments, disjoint count vectors and disjoint scores. */
module Engine {
  import opened RealSeq
  import opened Constants
  import opened Outcome
  import opened Vectors
  import opened CompatStore
  import opened EStep
  import opened Sharding
  import opened Rounds
  import opened EffectiveLength
  import opened Corrections

  // ---------------------------------------------------------------------------
  // Shards and the counts of one round

  /** Shard k owns fragments cuts[k] .. cuts[k+1]-1 of a store of n fragments. */
  predicate Cuts(cuts: seq<nat>, n: nat)
  {
    && |cuts| >= 2
    && (forall k :: 0 <= k < |cuts| ==> cuts[k] <= n)
    && (forall k, l :: 0 <= k <= l < |cuts| ==> cuts[k] <= cuts[l])
  }

  /** The partition of `init` cuts the first n1 fragments into shards. */
  lemma PartitionCuts(starts: seq<nat>, counts: seq<nat>, n1: nat, nThreads: nat, nhT: int, n: nat)
    requires 1 <= nThreads <= n1 <= n && Greedy(starts, counts, n1, nThreads, nhT)
    ensures Cuts(starts, n) && starts[0] == 0 && starts[|starts| - 1] == n1
  {
    GreedyContiguous(starts, counts, n1, nThreads, nhT);
    forall k, l | 0 <= k <= l < |starts|
      ensures starts[k] <= starts[l]
    {
      Monotone(starts, n1, k, l);
    }
  }

  /** Every shard's count vector after an E-step pass with proportions probv. */
  function ShardRows(probv: seq<real>, h: Hits, cuts: seq<nat>): (rows: seq<seq<real>>)
    requires |probv| > 0 && WellFormed(h, |probv| - 1) && Cuts(cuts, |h.ncpv|)
    ensures |rows| == |cuts| - 1 && Rectangular(rows, |probv|)
  {
    seq(|cuts| - 1, k requires 0 <= k < |cuts| - 1 => ShardCounts(probv, h, cuts[k], cuts[k + 1]))
  }

  /** The reduced count vector of a round with proportions probv. */
  function RoundCounts(probv: seq<real>, h: Hits, cuts: seq<nat>, n0: nat): (c: seq<real>)
    requires |probv| > 0 && WellFormed(h, |probv| - 1) && Cuts(cuts, |h.ncpv|)
    ensures |c| == |probv|
  {
    Reduced(ShardRows(probv, h, cuts), |probv|, n0)
  }

  /** Live counts over adjacent ranges add up. */
  lemma {:induction false} LiveCountSplit(probv: seq<real>, h: Hits, a: nat, b: nat, c: nat)
    requires |probv| > 0 && WellFormed(h, |probv| - 1) && a <= b <= c <= |h.ncpv|
    ensures LiveCount(probv, h, a, c) == LiveCount(probv, h, a, b) + LiveCount(probv, h, b, c)
    decreases c - b
  {
    if c > b {
      LiveCountSplit(probv, h, a, b, c - 1);
    }
  }

  /** Dropping the last cut drops the last shard and keeps the others. */
  lemma ShardRowsPrefix(probv: seq<real>, h: Hits, cuts: seq<nat>)
    requires |probv| > 0 && WellFormed(h, |probv| - 1) && Cuts(cuts, |h.ncpv|) && |cuts| > 2
    ensures Cuts(cuts[..|cuts| - 1], |h.ncpv|)
    ensures ShardRows(probv, h, cuts)[..|cuts| - 2] == ShardRows(probv, h, cuts[..|cuts| - 1])
  {
    var cuts' := cuts[..|cuts| - 1];
    assert Cuts(cuts', |h.ncpv|);
    var rows, rows' := ShardRows(probv, h, cuts), ShardRows(probv, h, cuts');
    assert |rows[..|cuts| - 2]| == |rows'|;
    forall k | 0 <= k < |rows'|
      ensures rows[k] == rows'[k]
    {
      assert cuts'[k] == cuts[k] && cuts'[k + 1] == cuts[k + 1];
    }
  }

  /** Over all shards, each live fragment is counted once. */
  lemma {:induction false} ShardRowsTotal(probv: seq<real>, h: Hits, cuts: seq<nat>)
    requires |probv| > 0 && WellFormed(h, |probv| - 1) && Cuts(cuts, |h.ncpv|)
    ensures TotalOfRows(ShardRows(probv, h, cuts)) ==
            LiveCount(probv, h, cuts[0], cuts[|cuts| - 1]) as real
    decreases |cuts|
  {
    var rows := ShardRows(probv, h, cuts);
    var n := |cuts|;
    var last := n - 2;
    var a, b, c := cuts[0], cuts[last], cuts[last + 1];
    assert Sum(rows[last]) == LiveCount(probv, h, b, c) as real by {
      ShardCountsTotal(probv, h, b, c);
      assert rows[last] == ShardCounts(probv, h, b, c);
    }
    assert TotalOfRows(rows) == TotalOfRows(rows[..last]) + Sum(rows[last]);
    if n == 2 {
      assert rows[..0] == [];
    } else {
      assert TotalOfRows(rows[..last]) == LiveCount(probv, h, a, b) as real by {
        ShardRowsPrefix(probv, h, cuts);
        var cuts' := cuts[..n - 1];
        ShardRowsTotal(probv, h, cuts');
        assert cuts'[0] == a && cuts'[|cuts'| - 1] == b;
      }
      LiveCountSplit(probv, h, a, b, c);
    }
  }

  /** No shard counts a negative amount for any transcript. */
  lemma ShardRowsNonNeg(probv: seq<real>, h: Hits, cuts: seq<nat>)
    requires |probv| > 0 && WellFormed(h, |probv| - 1) && Cuts(cuts, |h.ncpv|)
    ensures AllNonNeg(ShardRows(probv, h, cuts))
  {
    var rows := ShardRows(probv, h, cuts);
    forall k | 0 <= k < |rows|
      ensures NonNeg(rows[k])
    {
      ShardCountsTotal(probv, h, cuts[k], cuts[k + 1]);
    }
  }

  /** The reduced counts of a round hold one unit of mass per live fragment
      and one per unaligned read, and are non-negative. */
  lemma RoundCountsTotal(probv: seq<real>, h: Hits, cuts: seq<nat>, n0: nat)
    requires |probv| > 0 && WellFormed(h, |probv| - 1) && Cuts(cuts, |h.ncpv|)
    ensures Sum(RoundCounts(probv, h, cuts, n0)) ==
            LiveCount(probv, h, cuts[0], cuts[|cuts| - 1]) as real + n0 as real
    ensures NonNeg(RoundCounts(probv, h, cuts, n0))
  {
    ShardRowsTotal(probv, h, cuts);
    ShardRowsNonNeg(probv, h, cuts);
    ReducedTotal(ShardRows(probv, h, cuts), |probv|, n0);
  }

  // ---------------------------------------------------------------------------
  // One E-step pass over all shards

  predicate Distinct(vs: seq<array<real>>)
  {
    forall k, l :: 0 <= k < l < |vs| ==> vs[k] != vs[l]
  }

  /** The arrays a shard writes are none of the others the engine uses. */
  predicate Separate(store: HitStore, probv: array<real>, countvs: seq<array<real>>)
  {
    && Distinct(countvs)
    && probv != store.conPrb && probv != store.ncpv
    && forall k :: 0 <= k < |countvs| ==>
         countvs[k] != probv && countvs[k] != store.conPrb && countvs[k] != store.ncpv
  }

  /** The threads of one E-step, run shard by shard: shard k's count vector
      holds its counts under probv, and in expected-weight mode the pass
      leaves every fragment's scores replaced by its responsibilities. */
  method EStepPass(store: HitStore, cuts: seq<nat>, probv: array<real>, countvs: seq<array<real>>,
                   expectedWeights: bool)
    requires probv.Length > 0 && store.Valid(probv.Length - 1) && Cuts(cuts, store.ncpv.Length)
    requires |countvs| == |cuts| - 1 && Separate(store, probv, countvs)
    requires forall k :: 0 <= k < |countvs| ==> countvs[k].Length == probv.Length
    modifies (set k | 0 <= k < |countvs| :: countvs[k]), store.conPrb, store.ncpv
    ensures store.Valid(probv.Length - 1)
    ensures forall k :: 0 <= k < |countvs| ==> countvs[k][..] == ShardRows(probv[..], old(store.View()), cuts)[k]
    ensures store.View() == if expectedWeights then Rewritten(probv[..], old(store.View()), cuts[0], cuts[|cuts| - 1])
                            else old(store.View())
  {
    ghost var h := store.View();
    ghost var p := probv[..];
    for k := 0 to |countvs|
      invariant store.Valid(probv.Length - 1)
      invariant store.View() == if expectedWeights then Rewritten(p, h, cuts[0], cuts[k]) else h
      invariant forall t :: 0 <= t < k ==> countvs[t][..] == ShardCounts(p, h, cuts[t], cuts[t + 1])
    {
      EStep.EStep(store, cuts[k], cuts[k + 1], probv, countvs[k], expectedWeights);
      if expectedWeights {
        ShardCountsAfterPass(p, h, cuts[0], cuts[k], cuts[k + 1]);
        PassesCompose(p, h, cuts[0], cuts[k], cuts[k + 1]);
      }
    }
  }

  // ---------------------------------------------------------------------------
  // The EM rounds

  /** What the engine's arrays must be for a run over a store of M
      transcripts: theta, probv and one count vector per shard, all of
      length M + 1 and all distinct. */
  predicate Arrays(store: HitStore, cuts: seq<nat>, theta: array<real>, probv: array<real>,
                   countvs: seq<array<real>>)
  {
    && theta.Length == probv.Length > 0
    && |countvs| == |cuts| - 1 && Separate(store, probv, countvs)
    && theta != probv && theta != store.conPrb && theta != store.ncpv
    && forall k :: 0 <= k < |countvs| ==> countvs[k].Length == theta.Length && countvs[k] != theta
  }

  /** One round of `EM`: probv becomes theta, every shard's E-step counts
      under it, the counts are reduced with the N0 unaligned reads, theta
      becomes the reduced counts over their total (a total below EPSILON
      fails the source's assertion), and the relative changes are
      tallied. */
  method Round(store: HitStore, cuts: seq<nat>, theta: array<real>, probv: array<real>,
               countvs: seq<array<real>>, n0: nat) returns (m: Result<real>, totNum: nat)
    requires Arrays(store, cuts, theta, probv, countvs)
    requires store.Valid(probv.Length - 1) && Cuts(cuts, store.ncpv.Length)
    modifies theta, probv, (set k | 0 <= k < |countvs| :: countvs[k]), store.conPrb, store.ncpv
    ensures store.Valid(probv.Length - 1) && store.View() == old(store.View())
    ensures probv[..] == old(theta[..])
    ensures m.Err? <==> Sum(RoundCounts(probv[..], store.View(), cuts, n0)) < EPSILON
    ensures m.Err? ==> m.error == NoCountMass
    ensures m.Ok? ==> theta[..] == Divide(RoundCounts(probv[..], store.View(), cuts, n0),
                                          Sum(RoundCounts(probv[..], store.View(), cuts, n0)))
    ensures m.Ok? ==> Simplex(theta[..])
    ensures m.Ok? ==> totNum == UnsettledCount(theta[..], probv[..], theta.Length)
    ensures m.Err? <==> Step(probv[..], store.View(), cuts, n0).Err?
    ensures m.Ok? ==> Step(probv[..], store.View(), cuts, n0) == Ok(theta[..])
  {
    ghost var h := store.View();
    CopyInto(probv, theta);
    EStepPass(store, cuts, probv, countvs, false);
    ghost var rows := ShardRows(probv[..], h, cuts);
    Reduce(countvs, n0, rows);
    RoundCountsTotal(probv[..], h, cuts, n0);
    m := MStep(countvs[0], theta);
    if m.Err? {
      return m, 0;
    }
    var bChange;
    totNum, bChange := RelativeChange(theta, probv);
  }

  /** One round on values: the reduced counts under proportions theta over
      their total, or NoCountMass when that total is below EPSILON. */
  function Step(theta: seq<real>, h: Hits, cuts: seq<nat>, n0: nat): (r: Result<seq<real>>)
    requires |theta| > 0 && WellFormed(h, |theta| - 1) && Cuts(cuts, |h.ncpv|)
    ensures r.Err? ==> r.error == NoCountMass
    ensures r.Ok? ==> |r.value| == |theta| && Simplex(r.value)
  {
    var c := RoundCounts(theta, h, cuts, n0);
    if Sum(c) < EPSILON then Err(NoCountMass)
    else
      RoundCountsTotal(theta, h, cuts, n0);
      Normalized(c);
      Ok(Divide(c, Sum(c)))
  }

  /** The proportions after t rounds from theta0, or the error of the first
      round that fails. */
  function Iterate(theta0: seq<real>, h: Hits, cuts: seq<nat>, n0: nat, t: nat): (r: Result<seq<real>>)
    requires |theta0| > 0 && WellFormed(h, |theta0| - 1) && Cuts(cuts, |h.ncpv|)
    ensures r.Ok? ==> |r.value| == |theta0|
    ensures r.Err? ==> r.error == NoCountMass
  {
    if t == 0 then Ok(theta0)
    else
      var p := Iterate(theta0, h, cuts, n0, t - 1);
      if p.Err? then p else Step(p.value, h, cuts, n0)
  }

  /** Round s succeeds and does not meet the stop rule. */
  predicate Continues(theta0: seq<real>, h: Hits, cuts: seq<nat>, n0: nat, s: nat)
    requires |theta0| > 0 && WellFormed(h, |theta0| - 1) && Cuts(cuts, |h.ncpv|)
  {
    && 1 <= s
    && Iterate(theta0, h, cuts, n0, s - 1).Ok?
    && Iterate(theta0, h, cuts, n0, s).Ok?
    && KeepGoing(s, UnsettledCount(Iterate(theta0, h, cuts, n0, s).value,
                                   Iterate(theta0, h, cuts, n0, s - 1).value, |theta0|))
  }

  /** Round t starts from the proportions of round t - 1. */
  lemma IterateStep(theta0: seq<real>, h: Hits, cuts: seq<nat>, n0: nat, t: nat)
    requires |theta0| > 0 && WellFormed(h, |theta0| - 1) && Cuts(cuts, |h.ncpv|)
    requires 1 <= t && Iterate(theta0, h, cuts, n0, t - 1).Ok?
    ensures Iterate(theta0, h, cuts, n0, t) == Step(Iterate(theta0, h, cuts, n0, t - 1).value, h, cuts, n0)
  {
  }

  /** Rounds 1 .. t-1 all succeeded and none of them met the stop rule. */
  predicate Continued(theta0: seq<real>, h: Hits, cuts: seq<nat>, n0: nat, t: nat)
    requires |theta0| > 0 && WellFormed(h, |theta0| - 1) && Cuts(cuts, |h.ncpv|)
  {
    forall s :: 1 <= s < t ==> Continues(theta0, h, cuts, n0, s)
  }

  /** The loop of `EM` from theta0 ends after round t: no earlier round
      stopped it, and round t succeeds and meets the stop rule. */
  predicate StopsAt(theta0: seq<real>, h: Hits, cuts: seq<nat>, n0: nat, t: nat)
    requires |theta0| > 0 && WellFormed(h, |theta0| - 1) && Cuts(cuts, |h.ncpv|)
  {
    && 1 <= t
    && Continued(theta0, h, cuts, n0, t)
    && Iterate(theta0, h, cuts, n0, t - 1).Ok?
    && Iterate(theta0, h, cuts, n0, t).Ok?
    && !KeepGoing(t, UnsettledCount(Iterate(theta0, h, cuts, n0, t).value,
                                    Iterate(theta0, h, cuts, n0, t - 1).value, |theta0|))
  }

  /** The loop of `EM` from theta0 ends after round t with proportions last. */
  predicate StopsWith(theta0: seq<real>, h: Hits, cuts: seq<nat>, n0: nat, t: nat, last: seq<real>)
    requires |theta0| > 0 && WellFormed(h, |theta0| - 1) && Cuts(cuts, |h.ncpv|)
  {
    StopsAt(theta0, h, cuts, n0, t) && Iterate(theta0, h, cuts, n0, t) == Ok(last)
  }

  /** As StopsWith, and round t starts from proportions prev. */
  predicate EndsWith(theta0: seq<real>, h: Hits, cuts: seq<nat>, n0: nat, t: nat, prev: seq<real>, last: seq<real>)
    requires |theta0| > 0 && WellFormed(h, |theta0| - 1) && Cuts(cuts, |h.ncpv|)
  {
    StopsWith(theta0, h, cuts, n0, t, last) && Iterate(theta0, h, cuts, n0, t - 1) == Ok(prev)
  }

  /** The counts of the pass after the loop stops in round t: the reduced
      counts of one more E-step under the proportions round t started from. */
  function FinalCounts(theta0: seq<real>, h: Hits, cuts: seq<nat>, n0: nat, t: nat): (c: seq<real>)
    requires |theta0| > 0 && WellFormed(h, |theta0| - 1) && Cuts(cuts, |h.ncpv|)
    ensures 1 <= t && Iterate(theta0, h, cuts, n0, t - 1).Ok? ==>
              |c| == |theta0| && NonNeg(c) &&
              n0 as real <= Sum(c) <= (n0 + cuts[|cuts| - 1] - cuts[0]) as real
  {
    if 1 <= t && Iterate(theta0, h, cuts, n0, t - 1).Ok?
    then RoundCountsTotal(Iterate(theta0, h, cuts, n0, t - 1).value, h, cuts, n0);
         RoundCounts(Iterate(theta0, h, cuts, n0, t - 1).value, h, cuts, n0)
    else []
  }

  /** How the loop of `EM` from theta0 ends for a run with outcome r and
      learnt proportions thetaPrime: NoCountMass comes from a failing round,
      a non-empty theta' is what a stopping round leaves, and a successful
      run's counts are those of the final pass after that round. */
  ghost predicate RoundsEnd(theta0: seq<real>, h: Hits, cuts: seq<nat>, n0: nat,
                            r: Result<Estimates>, thetaPrime: seq<real>)
    requires |theta0| > 0 && WellFormed(h, |theta0| - 1) && Cuts(cuts, |h.ncpv|)
  {
    && (r == Err(NoCountMass) ==> exists t :: FailsAt(theta0, h, cuts, n0, t))
    && (thetaPrime != [] ==> exists t :: StopsWith(theta0, h, cuts, n0, t, thetaPrime))
    && (r.Ok? ==> StopsWith(theta0, h, cuts, n0, r.value.rounds, thetaPrime) &&
                  r.value.out.counts == FinalCounts(theta0, h, cuts, n0, r.value.rounds))
  }

  /** The loop of `EM` from theta0 fails in round t: no earlier round stopped
      it, and round t has a count total below EPSILON. */
  predicate FailsAt(theta0: seq<real>, h: Hits, cuts: seq<nat>, n0: nat, t: nat)
    requires |theta0| > 0 && WellFormed(h, |theta0| - 1) && Cuts(cuts, |h.ncpv|)
  {
    1 <= t && Continued(theta0, h, cuts, n0, t) && Iterate(theta0, h, cuts, n0, t).Err?
  }

  /** A round that keeps going extends the rounds that did. */
  lemma ContinuedStep(theta0: seq<real>, h: Hits, cuts: seq<nat>, n0: nat, t: nat)
    requires |theta0| > 0 && WellFormed(h, |theta0| - 1) && Cuts(cuts, |h.ncpv|)
    requires Continued(theta0, h, cuts, n0, t) && Continues(theta0, h, cuts, n0, t)
    ensures Continued(theta0, h, cuts, n0, t + 1)
  {
  }

  /** The loop ends after between MIN_ROUND and MAX_ROUND rounds, and fails
      within MAX_ROUND rounds. */
  lemma EndBounds(theta0: seq<real>, h: Hits, cuts: seq<nat>, n0: nat, t: nat)
    requires |theta0| > 0 && WellFormed(h, |theta0| - 1) && Cuts(cuts, |h.ncpv|)
    ensures StopsAt(theta0, h, cuts, n0, t) ==> MIN_ROUND <= t <= MAX_ROUND
    ensures FailsAt(theta0, h, cuts, n0, t) ==> t <= MAX_ROUND
  {
    if t > MAX_ROUND {
      assert !Continues(theta0, h, cuts, n0, MAX_ROUND);
    }
  }

  /** The stop rule decides the loop: it ends in at most one way, after at
      most one number of rounds. */
  lemma EndUnique(theta0: seq<real>, h: Hits, cuts: seq<nat>, n0: nat, t: nat, u: nat)
    requires |theta0| > 0 && WellFormed(h, |theta0| - 1) && Cuts(cuts, |h.ncpv|)
    requires StopsAt(theta0, h, cuts, n0, t) || FailsAt(theta0, h, cuts, n0, t)
    requires StopsAt(theta0, h, cuts, n0, u) || FailsAt(theta0, h, cuts, n0, u)
    ensures t == u
    ensures !(StopsAt(theta0, h, cuts, n0, t) && FailsAt(theta0, h, cuts, n0, t))
  {
    assert !Continues(theta0, h, cuts, n0, t) && !Continues(theta0, h, cuts, n0, u);
  }

  /** The do-while loop of `EM`: rounds run until, after at least MIN_ROUND
      of them, no tested entry changed by STOP_CRITERIA or more, and stop
      after MAX_ROUND rounds in any case. The model is relearned in the
      rounds DoesUpdateModel picks. Returns the number of rounds run and the
      number of relearnings. */
  method LearnTheta(store: HitStore, cuts: seq<nat>, theta: array<real>, probv: array<real>,
                    countvs: seq<array<real>>, n0: nat) returns (r: Result<nat>, relearns: nat)
    requires Arrays(store, cuts, theta, probv, countvs)
    requires store.Valid(probv.Length - 1) && Cuts(cuts, store.ncpv.Length)
    modifies theta, probv, (set k | 0 <= k < |countvs| :: countvs[k]), store.conPrb, store.ncpv
    ensures store.Valid(probv.Length - 1) && store.View() == old(store.View())
    ensures r.Err? ==> r.error == NoCountMass && Sum(RoundCounts(probv[..], store.View(), cuts, n0)) < EPSILON
    ensures r.Ok? ==> MIN_ROUND <= r.value <= MAX_ROUND && relearns == RelearnRounds(r.value)
    ensures r.Ok? && r.value < MAX_ROUND ==> UnsettledCount(theta[..], probv[..], theta.Length) == 0
    ensures r.Ok? ==> Sum(RoundCounts(probv[..], store.View(), cuts, n0)) >= EPSILON
    ensures r.Ok? ==> theta[..] == Divide(RoundCounts(probv[..], store.View(), cuts, n0),
                                          Sum(RoundCounts(probv[..], store.View(), cuts, n0)))
    ensures r.Ok? ==> Simplex(theta[..])
    ensures r.Ok? ==> EndsWith(old(theta[..]), store.View(), cuts, n0, r.value, probv[..], theta[..])
    ensures r.Err? ==> exists t :: FailsAt(old(theta[..]), store.View(), cuts, n0, t)
  {
    ghost var h := store.View();
    ghost var theta0 := theta[..];
    var round := 0;
    relearns := 0;
    while true
      invariant round < MAX_ROUND && relearns == RelearnRounds(round)
      invariant store.Valid(probv.Length - 1) && store.View() == h
      invariant Continued(theta0, h, cuts, n0, round + 1)
      invariant Iterate(theta0, h, cuts, n0, round) == Ok(theta[..])
      decreases MAX_ROUND - round
    {
      round := round + 1;
      var updateModel := DoesUpdateModel(round);
      assert RelearnRounds(round) == relearns + (if updateModel then 1 else 0);
      var m, totNum := NextRound(store, cuts, theta, probv, countvs, n0, theta0, round);
      if m.Err? {
        return Err(m.error), relearns;
      }
      if updateModel {
        relearns := relearns + 1;
      }
      if !KeepGoing(round, totNum) {
        return Ok(round), relearns;
      }
    }
  }

  /** Round `round` of the loop, stated against the rounds from theta0: it
      fails exactly where the loop on values fails, and otherwise leaves
      theta at that loop's proportions after `round` rounds. */
  method NextRound(store: HitStore, cuts: seq<nat>, theta: array<real>, probv: array<real>,
                   countvs: seq<array<real>>, n0: nat, ghost theta0: seq<real>, ghost round: nat)
      returns (m: Result<real>, totNum: nat)
    requires Arrays(store, cuts, theta, probv, countvs)
    requires store.Valid(probv.Length - 1) && Cuts(cuts, store.ncpv.Length) && |theta0| == theta.Length
    requires 1 <= round && Continued(theta0, store.View(), cuts, n0, round)
    requires Iterate(theta0, store.View(), cuts, n0, round - 1) == Ok(theta[..])
    modifies theta, probv, (set k | 0 <= k < |countvs| :: countvs[k]), store.conPrb, store.ncpv
    ensures store.Valid(probv.Length - 1) && store.View() == old(store.View())
    ensures m.Err? ==> m.error == NoCountMass && Sum(RoundCounts(probv[..], store.View(), cuts, n0)) < EPSILON
    ensures m.Err? ==> FailsAt(theta0, store.View(), cuts, n0, round)
    ensures m.Ok? ==> Sum(RoundCounts(probv[..], store.View(), cuts, n0)) >= EPSILON
    ensures m.Ok? ==> theta[..] == Divide(RoundCounts(probv[..], store.View(), cuts, n0),
                                          Sum(RoundCounts(probv[..], store.View(), cuts, n0)))
    ensures m.Ok? ==> Simplex(theta[..]) && totNum == UnsettledCount(theta[..], probv[..], theta.Length)
    ensures m.Ok? ==> Iterate(theta0, store.View(), cuts, n0, round) == Ok(theta[..]) &&
                      Iterate(theta0, store.View(), cuts, n0, round - 1) == Ok(probv[..])
    ensures m.Ok? && KeepGoing(round, totNum) ==> Continued(theta0, store.View(), cuts, n0, round + 1)
    ensures m.Ok? && !KeepGoing(round, totNum) ==> EndsWith(theta0, store.View(), cuts, n0, round, probv[..], theta[..])
  {
    m, totNum := Round(store, cuts, theta, probv, countvs, n0);
    IterateStep(theta0, store.View(), cuts, n0, round);
    if m.Ok? && KeepGoing(round, totNum) {
      ContinuedStep(theta0, store.View(), cuts, n0, round);
    }
  }

  // ---------------------------------------------------------------------------
  // After convergence

  /** The E-step pass after the theta correction: expected-weight mode, with
      the proportions of the last round, then the reduction. The counts are
      those of one more round under probv, and every fragment's scores are
      replaced by its responsibilities. */
  method FinalPass(store: HitStore, cuts: seq<nat>, probv: array<real>, countvs: seq<array<real>>, n0: nat)
    requires probv.Length > 0 && store.Valid(probv.Length - 1) && Cuts(cuts, store.ncpv.Length)
    requires |countvs| == |cuts| - 1 && Separate(store, probv, countvs)
    requires forall k :: 0 <= k < |countvs| ==> countvs[k].Length == probv.Length
    modifies (set k | 0 <= k < |countvs| :: countvs[k]), store.conPrb, store.ncpv
    ensures store.Valid(probv.Length - 1)
    ensures store.View() == Rewritten(probv[..], old(store.View()), cuts[0], cuts[|cuts| - 1])
    ensures countvs[0][..] == RoundCounts(probv[..], old(store.View()), cuts, n0)
    ensures Sum(countvs[0][..]) == LiveCount(probv[..], old(store.View()), cuts[0], cuts[|cuts| - 1]) as real + n0 as real
    ensures n0 as real <= Sum(countvs[0][..]) <= (n0 + cuts[|cuts| - 1] - cuts[0]) as real
  {
    ghost var h := store.View();
    EStepPass(store, cuts, probv, countvs, true);
    Reduce(countvs, n0, ShardRows(probv[..], h, cuts));
    RoundCountsTotal(probv[..], h, cuts, n0);
  }

  /** The values writeResults derives: tau (fatal if its denominator is not
      positive) and the per-gene totals of the counts and of tau. */
  method WriteResults(theta: array<real>, eel: array<real>, counts: array<real>, sp: seq<int>)
    returns (r: Result<Outputs>)
    requires theta.Length == eel.Length == counts.Length > 0 && NonNeg(theta[..])
    requires GeneRanges(sp, theta.Length)
    ensures r.Err? <==> Sum(RawTau(theta[..], eel[..])) <= 0.0
    ensures r.Err? ==> r.error == NoAlignableReads
    ensures r.Ok? ==> r.value.eel == eel[..] && r.value.counts == counts[..]
    ensures r.Ok? ==> r.value.tau == Divide(RawTau(theta[..], eel[..]), Sum(RawTau(theta[..], eel[..])))
    ensures r.Ok? ==> Simplex(r.value.tau) && r.value.tau[0] == 0.0
    ensures r.Ok? ==> forall i :: 1 <= i < theta.Length && eel[i] < EPSILON ==> r.value.tau[i] == 0.0
    ensures r.Ok? ==> r.value.geneCounts == GeneSums(counts[..], sp) && r.value.geneTau == GeneSums(r.value.tau, sp)
    ensures r.Ok? ==> Written(r.value, theta[..], sp)
    ensures r.Ok? && sp[0] == 1 && sp[|sp| - 1] == theta.Length ==> Sum(r.value.geneTau) == 1.0
  {
    var t := CalcTau(theta, eel);
    if t.Err? {
      return Err(t.error);
    }
    var tau := t.value;
    TauDistribution(theta[..], eel[..]);
    var geneCounts := GeneTotals(counts, sp);
    var geneTau := GeneTotals(tau, sp);
    if sp[0] == 1 && sp[|sp| - 1] == theta.Length {
      GeneTauTotals(theta[..], eel[..], sp);
    }
    r := Ok(Outputs(eel[..], counts[..], tau[..], geneCounts[..], geneTau[..]));
  }

  /** The steps of `EM` after the expected effective lengths, and the values
      of writeResults: the theta correction, the final pass, the mappability
      conversion, tau and the gene totals. */
  method Adjust(store: HitStore, cuts: seq<nat>, theta: array<real>, probv: array<real>,
                countvs: seq<array<real>>, n0: nat, eel: array<real>, mw: array<real>, sp: seq<int>)
    returns (r: Result<Outputs>)
    requires Arrays(store, cuts, theta, probv, countvs)
    requires store.Valid(probv.Length - 1) && Cuts(cuts, store.ncpv.Length)
    requires NonNeg(theta[..])
    requires eel.Length == mw.Length == theta.Length
    requires eel != theta && eel != store.conPrb && eel != store.ncpv
    requires mw != theta && mw != store.conPrb && mw != store.ncpv
    requires forall k :: 0 <= k < |countvs| ==> countvs[k] != mw && countvs[k] != eel
    requires GeneRanges(sp, theta.Length)
    modifies theta, (set k | 0 <= k < |countvs| :: countvs[k]), store.conPrb, store.ncpv
    ensures store.Valid(probv.Length - 1)
    ensures r.Err? <==> FinalTheta(old(theta[..]), eel[..], mw[..]).Err?
    ensures r.Err? ==> r.error == FinalTheta(old(theta[..]), eel[..], mw[..]).error
    ensures r.Ok? ==> theta[..] == FinalTheta(old(theta[..]), eel[..], mw[..]).value
    ensures r.Ok? ==> store.View() == Rewritten(probv[..], old(store.View()), cuts[0], cuts[|cuts| - 1])
    ensures r.Ok? ==> r.value.eel == eel[..]
    ensures r.Ok? ==> r.value.counts == RoundCounts(probv[..], old(store.View()), cuts, n0)
    ensures r.Ok? ==> n0 as real <= Sum(r.value.counts) <= (n0 + cuts[|cuts| - 1] - cuts[0]) as real
    ensures r.Ok? ==> Simplex(theta[..])
    ensures r.Ok? ==> ZeroWhereDropped(theta[..], mw[..], eel[..])
    ensures r.Ok? ==> Simplex(r.value.tau) && r.value.tau[0] == 0.0
    ensures r.Ok? ==> Sum(RawTau(theta[..], eel[..])) > 0.0 &&
                      r.value.tau == Divide(RawTau(theta[..], eel[..]), Sum(RawTau(theta[..], eel[..])))
    ensures r.Ok? ==> r.value.geneCounts == GeneSums(r.value.counts, sp) && r.value.geneTau == GeneSums(r.value.tau, sp)
    ensures r.Ok? ==> Written(r.value, theta[..], sp)
    ensures r.Ok? && sp[0] == 1 && sp[|sp| - 1] == theta.Length ==> Sum(r.value.geneTau) == 1.0
  {
    ghost var learned := theta[..];
    FinalThetaDistribution(learned, eel[..], mw[..]);
    var c := CorrectTheta(theta, eel);
    if c.Err? {
      return Err(c.error);
    }
    FinalPass(store, cuts, probv, countvs, n0);
    var mp := ApplyMappability(theta, mw);
    if mp.Err? {
      return Err(mp.error);
    }
    r := WriteResults(theta, eel, countvs[0], sp);
  }

  /** Everything `EM` does after the rounds: the expected effective lengths
      of the transcripts under the model's length distribution, then
      Adjust. */
  method Finish(store: HitStore, cuts: seq<nat>, theta: array<real>, probv: array<real>,
                countvs: seq<array<real>>, n0: nat,
                pdf: array<real>, cdf: array<real>, lb: int, ub: int, totLen: seq<int>, fullLen: seq<int>,
                mw: array<real>, sp: seq<int>) returns (r: Result<Outputs>)
    requires Arrays(store, cuts, theta, probv, countvs)
    requires store.Valid(probv.Length - 1) && Cuts(cuts, store.ncpv.Length)
    requires NonNeg(theta[..])
    requires lb <= ub && pdf.Length == ub - lb + 1 && LengthDist(pdf[..], cdf[..])
    requires |totLen| == |fullLen| == theta.Length && forall i :: 1 <= i < |fullLen| ==> fullLen[i] >= 1
    requires mw.Length == theta.Length && mw != theta && mw != store.conPrb && mw != store.ncpv
    requires forall k :: 0 <= k < |countvs| ==> countvs[k] != mw
    requires GeneRanges(sp, theta.Length)
    modifies theta, (set k | 0 <= k < |countvs| :: countvs[k]), store.conPrb, store.ncpv
    ensures store.Valid(probv.Length - 1)
    ensures r.Err? <==> FinalTheta(old(theta[..]), ExpectedLengths(old(pdf[..]), lb, totLen, fullLen), mw[..]).Err?
    ensures r.Err? ==> r.error == FinalTheta(old(theta[..]), ExpectedLengths(old(pdf[..]), lb, totLen, fullLen), mw[..]).error
    ensures r.Ok? ==> theta[..] == FinalTheta(old(theta[..]), ExpectedLengths(old(pdf[..]), lb, totLen, fullLen), mw[..]).value
    ensures r.Ok? ==> store.View() == Rewritten(probv[..], old(store.View()), cuts[0], cuts[|cuts| - 1])
    ensures r.Ok? ==> r.value.eel == ExpectedLengths(old(pdf[..]), lb, totLen, fullLen)
    ensures r.Ok? ==> r.value.counts == RoundCounts(probv[..], old(store.View()), cuts, n0)
    ensures r.Ok? ==> n0 as real <= Sum(r.value.counts) <= (n0 + cuts[|cuts| - 1] - cuts[0]) as real
    ensures r.Ok? ==> Simplex(theta[..])
    ensures r.Ok? ==> ZeroWhereDropped(theta[..], mw[..], r.value.eel)
    ensures r.Ok? ==> Simplex(r.value.tau) && r.value.tau[0] == 0.0
    ensures r.Ok? ==> Sum(RawTau(theta[..], r.value.eel)) > 0.0 &&
                      r.value.tau == Divide(RawTau(theta[..], r.value.eel), Sum(RawTau(theta[..], r.value.eel)))
    ensures r.Ok? ==> r.value.geneCounts == GeneSums(r.value.counts, sp) && r.value.geneTau == GeneSums(r.value.tau, sp)
    ensures r.Ok? ==> Written(r.value, theta[..], sp)
    ensures r.Ok? && sp[0] == 1 && sp[|sp| - 1] == theta.Length ==> Sum(r.value.geneTau) == 1.0
  {
    var eel := CalcExpectedEffectiveLengths(pdf, cdf, lb, ub, totLen, fullLen);
    r := Adjust(store, cuts, theta, probv, countvs, n0, eel, mw, sp);
  }

  // ---------------------------------------------------------------------------
  // The whole run

  /** The number of alignments of each fragment: the counts the partition
      reads from the alignment file. */
  function HitCounts(offsets: seq<nat>): (counts: seq<nat>)
    requires |offsets| > 0 && forall i, j :: 0 <= i <= j < |offsets| ==> offsets[i] <= offsets[j]
    ensures |counts| == |offsets| - 1
  {
    seq(|offsets| - 1, f requires 0 <= f < |offsets| - 1 => offsets[f + 1] - offsets[f])
  }

  /** The hits the partition counts for fragments s..e-1 are exactly the
      alignments the store holds for them. */
  lemma {:induction false} HitsInOffsets(offsets: seq<nat>, s: nat, e: nat)
    requires |offsets| > 0 && forall i, j :: 0 <= i <= j < |offsets| ==> offsets[i] <= offsets[j]
    requires s <= e < |offsets|
    ensures HitsIn(HitCounts(offsets), s, e) == offsets[e] - offsets[s]
    decreases e - s
  {
    if e > s {
      HitsInOffsets(offsets, s, e - 1);
    }
  }

  /** The shards and the arrays `init` sets up. */
  datatype Shards = Shards(starts: seq<nat>, probv: array<real>, countvs: seq<array<real>>)

  /** The part of `init` after the alignment file's header is read: the
      partition, then probv and one count vector per thread, each of length
      M + 1. */
  method Init(nReads: int, nHits: int, rt: int, readType: int, n1: nat, nThreads: nat,
              store: HitStore, M: nat) returns (r: Result<Shards>)
    requires 1 <= nThreads <= n1 && WellFormed(store.View(), M)
    ensures r.Err? <==> nReads != n1 || rt != readType || store.ncpv.Length < n1
    ensures r.Err? ==> r.error == if nReads != n1 then ReadCountMismatch
                                  else if rt != readType then ReadTypeMismatch
                                  else TruncatedAlignments
    ensures r.Ok? ==> Greedy(r.value.starts, HitCounts(store.offsets), n1, nThreads, TruncDiv(nHits, nThreads))
    ensures r.Ok? ==> forall k :: 0 <= k < nThreads ==>
              HitsIn(HitCounts(store.offsets), r.value.starts[k], r.value.starts[k + 1]) ==
              store.offsets[r.value.starts[k + 1]] - store.offsets[r.value.starts[k]]
    ensures r.Ok? ==> Cuts(r.value.starts, store.ncpv.Length) && r.value.starts[0] == 0 &&
                      r.value.starts[|r.value.starts| - 1] == n1
    ensures r.Ok? ==> fresh(r.value.probv) && r.value.probv.Length == M + 1
    ensures r.Ok? ==> |r.value.countvs| == nThreads && Distinct(r.value.countvs)
    ensures r.Ok? ==> forall k :: 0 <= k < nThreads ==>
              fresh(r.value.countvs[k]) && r.value.countvs[k].Length == M + 1 && r.value.countvs[k] != r.value.probv
  {
    var part := Partition(nReads, nHits, rt, readType, n1, nThreads, HitCounts(store.offsets));
    if part.Err? {
      return Err(part.error);
    }
    var starts := part.value;
    PartitionCuts(starts, HitCounts(store.offsets), n1, nThreads, TruncDiv(nHits, nThreads), store.ncpv.Length);
    forall k | 0 <= k < nThreads
      ensures HitsIn(HitCounts(store.offsets), starts[k], starts[k + 1]) ==
              store.offsets[starts[k + 1]] - store.offsets[starts[k]]
    {
      HitsInOffsets(store.offsets, starts[k], starts[k + 1]);
    }
    var probv := new real[M + 1];
    var countvs: seq<array<real>> := [];
    for k := 0 to nThreads
      invariant |countvs| == k && Distinct(countvs)
      invariant forall t :: 0 <= t < k ==> fresh(countvs[t]) && countvs[t].Length == M + 1 && countvs[t] != probv
    {
      var countv := new real[M + 1];
      countvs := countvs + [countv];
    }
    r := Ok(Shards(starts, probv, countvs));
  }

  /** `init` and the initial theta of `EM`: the header checks and the
      partition, the engine's arrays, then theta as StartTheta, or the
      first of the source's errors. */
  method Start(nReads: int, nHits: int, rt: int, readType: int, n1: nat, nThreads: nat,
               store: HitStore, n0: nat, n2: int, nTot: int, len: nat) returns (r: Result<Shards>, theta: array<real>)
    requires 1 <= nThreads <= n1 && len >= 2 && store.Valid(len - 1)
    ensures fresh(theta) && theta.Length == len
    ensures r.Err? <==> nReads != n1 || rt != readType || store.ncpv.Length < n1 || nTot <= n2
    ensures r.Err? ==> r.error == if nReads != n1 then ReadCountMismatch
                                  else if rt != readType then ReadTypeMismatch
                                  else if store.ncpv.Length < n1 then TruncatedAlignments
                                  else NoNoiseDenominator
    ensures r.Ok? ==> Greedy(r.value.starts, HitCounts(store.offsets), n1, nThreads, TruncDiv(nHits, nThreads))
    ensures r.Ok? ==> Cuts(r.value.starts, store.ncpv.Length) && r.value.starts[0] == 0 &&
                      r.value.starts[|r.value.starts| - 1] == n1
    ensures r.Ok? ==> theta[..] == StartTheta(n0, n2, nTot, len)
    ensures r.Ok? ==> fresh(r.value.probv) && r.value.probv.Length == len && r.value.probv != theta
    ensures r.Ok? ==> |r.value.countvs| == nThreads && Distinct(r.value.countvs)
    ensures r.Ok? ==> forall k :: 0 <= k < nThreads ==>
              fresh(r.value.countvs[k]) && r.value.countvs[k].Length == len &&
              r.value.countvs[k] != r.value.probv && r.value.countvs[k] != theta
    ensures r.Ok? ==> Arrays(store, r.value.starts, theta, r.value.probv, r.value.countvs)
  {
    theta := new real[len];
    r := Init(nReads, nHits, rt, readType, n1, nThreads, store, len - 1);
    if r.Err? {
      return;
    }
    var init := InitTheta(theta, n0, n2, nTot);
    if init.Err? {
      r := Err(init.error);
    }
  }

  /** The rounds of `EM` and everything after them. theta' is theta as the
      rounds leave it, the first line of the .theta file; it is empty when
      the rounds fail. */
  method Complete(store: HitStore, cuts: seq<nat>, theta: array<real>, probv: array<real>,
                  countvs: seq<array<real>>, n0: nat,
                  pdf: array<real>, cdf: array<real>, lb: int, ub: int, totLen: seq<int>, fullLen: seq<int>,
                  mw: array<real>, sp: seq<int>, ghost theta0: seq<real>, ghost h: Hits)
      returns (r: Result<Estimates>, thetaPrime: seq<real>)
    requires Arrays(store, cuts, theta, probv, countvs) && theta[..] == theta0 && store.View() == h
    requires store.Valid(probv.Length - 1) && Cuts(cuts, store.ncpv.Length)
    requires lb <= ub && pdf.Length == ub - lb + 1 && LengthDist(pdf[..], cdf[..])
    requires |totLen| == |fullLen| == theta.Length && forall i :: 1 <= i < |fullLen| ==> fullLen[i] >= 1
    requires pdf != theta && pdf != probv && pdf != store.conPrb && pdf != store.ncpv
    requires cdf != theta && cdf != probv
    requires mw.Length == theta.Length && mw != theta && mw != probv && mw != store.conPrb && mw != store.ncpv
    requires forall k :: 0 <= k < |countvs| ==> countvs[k] != mw && countvs[k] != pdf && countvs[k] != cdf
    requires GeneRanges(sp, theta.Length)
    modifies theta, probv, (set k | 0 <= k < |countvs| :: countvs[k]), store.conPrb, store.ncpv
    ensures r == Err(NoCountMass) <==> thetaPrime == []
    ensures r.Err? ==> r.error in {NoCountMass, NoEffectiveLength, NoMappableMass, NoAlignableReads}
    ensures thetaPrime != [] ==> |thetaPrime| == theta.Length && Simplex(thetaPrime)
    ensures thetaPrime != [] ==> (r.Err? <==> FinalTheta(thetaPrime, ExpectedLengths(pdf[..], lb, totLen, fullLen), mw[..]).Err?)
    ensures thetaPrime != [] && r.Err? ==>
              r.error == FinalTheta(thetaPrime, ExpectedLengths(pdf[..], lb, totLen, fullLen), mw[..]).error
    ensures r == Err(NoCountMass) ==> (n0 as real) < EPSILON
    ensures r.Ok? ==> Reports(r.value, thetaPrime, ExpectedLengths(pdf[..], lb, totLen, fullLen), mw[..], sp)
    ensures r.Ok? ==> MIN_ROUND <= r.value.rounds <= MAX_ROUND && r.value.relearns == RelearnRounds(r.value.rounds)
    ensures r.Ok? ==> |r.value.theta| == |r.value.out.eel| == theta.Length && Simplex(r.value.theta)
    ensures r.Ok? ==> ZeroWhereDropped(r.value.theta, mw[..], r.value.out.eel)
    ensures r.Ok? ==> n0 as real <= Sum(r.value.out.counts) <= (n0 + cuts[|cuts| - 1] - cuts[0]) as real
    ensures r.Ok? ==> Simplex(r.value.out.tau) && r.value.out.tau[0] == 0.0
    ensures r.Ok? && sp[0] == 1 && sp[|sp| - 1] == theta.Length ==> Sum(r.value.out.geneTau) == 1.0
    ensures RoundsEnd(theta0, h, cuts, n0, r, thetaPrime)
  {
    thetaPrime := [];
    var learnt, relearns := LearnTheta(store, cuts, theta, probv, countvs, n0);
    if learnt.Err? {
      RoundCountsTotal(probv[..], store.View(), cuts, n0);
      r := Err(learnt.error);
      return;
    }
    thetaPrime := theta[..];
    ghost var prev := probv[..];
    assert EndsWith(theta0, h, cuts, n0, learnt.value, prev, thetaPrime);
    ghost var pdfv, mwv := pdf[..], mw[..];
    var out := Finish(store, cuts, theta, probv, countvs, n0, pdf, cdf, lb, ub, totLen, fullLen, mw, sp);
    assert pdf[..] == pdfv && mw[..] == mwv;
    if out.Err? {
      r := Err(out.error);
      return;
    }
    r := Ok(Estimates(learnt.value, relearns, theta[..], out.value));
  }

  /** `EM` with the tau and gene totals of writeResults. The store holds the
      fragments of the alignment file, whose header reports nReads reads,
      nHits alignments and read type rt; N1 fragments are expected, N0 reads
      are unaligned and N2 filtered, of N_tot reads in all. The model
      supplies the length distribution (pdf and cdf over lb+1..ub) and the
      mappability weights mw; totLen, fullLen and the gene start positions
      sp describe the M transcripts. */
  method RunEM(nReads: int, nHits: int, rt: int, readType: int, n1: nat, nThreads: nat,
               store: HitStore, n0: nat, n2: int, nTot: int,
               pdf: array<real>, cdf: array<real>, lb: int, ub: int, totLen: seq<int>, fullLen: seq<int>,
               mw: array<real>, sp: seq<int>) returns (r: Result<Estimates>, thetaPrime: seq<real>, ghost shards: seq<nat>)
    requires 1 <= nThreads <= n1
    requires |totLen| == |fullLen| >= 2 && forall i :: 1 <= i < |fullLen| ==> fullLen[i] >= 1
    requires store.Valid(|totLen| - 1)
    requires lb <= ub && pdf.Length == ub - lb + 1 && LengthDist(pdf[..], cdf[..])
    requires pdf != store.conPrb && pdf != store.ncpv
    requires mw.Length == |totLen| && mw != store.conPrb && mw != store.ncpv
    requires GeneRanges(sp, |totLen|)
    modifies store.conPrb, store.ncpv
    ensures nReads != n1 ==> r == Err(ReadCountMismatch)
    ensures nReads == n1 && rt != readType ==> r == Err(ReadTypeMismatch)
    ensures nReads == n1 && rt == readType && store.ncpv.Length < n1 ==> r == Err(TruncatedAlignments)
    ensures nReads == n1 && rt == readType && store.ncpv.Length >= n1 && nTot <= n2 ==> r == Err(NoNoiseDenominator)
    ensures r == Err(NoCountMass) ==> (n0 as real) < EPSILON
    ensures thetaPrime == [] ==> r.Err? && r.error in {ReadCountMismatch, ReadTypeMismatch, TruncatedAlignments,
                                                      NoNoiseDenominator, NoCountMass}
    ensures thetaPrime != [] ==> |thetaPrime| == |totLen| && Simplex(thetaPrime)
    ensures thetaPrime != [] ==> (r.Err? <==> FinalTheta(thetaPrime, ExpectedLengths(pdf[..], lb, totLen, fullLen), mw[..]).Err?)
    ensures thetaPrime != [] && r.Err? ==>
              r.error == FinalTheta(thetaPrime, ExpectedLengths(pdf[..], lb, totLen, fullLen), mw[..]).error
    ensures r.Ok? ==> thetaPrime != [] && Reports(r.value, thetaPrime, ExpectedLengths(pdf[..], lb, totLen, fullLen), mw[..], sp)
    ensures r.Ok? ==> MIN_ROUND <= r.value.rounds <= MAX_ROUND && r.value.relearns == RelearnRounds(r.value.rounds)
    ensures r.Ok? ==> |r.value.theta| == |r.value.out.eel| == |totLen| && Simplex(r.value.theta)
    ensures r.Ok? ==> ZeroWhereDropped(r.value.theta, mw[..], r.value.out.eel)
    ensures r.Ok? ==> forall i :: 1 <= i < |totLen| ==>
              r.value.out.eel[i] == Floor(ExpectedStarts(pdf[..], lb, totLen[i], fullLen[i]))
    ensures r.Ok? ==> n0 as real <= Sum(r.value.out.counts) <= (n1 + n0) as real
    ensures r.Ok? ==> Simplex(r.value.out.tau) && r.value.out.tau[0] == 0.0
    ensures r.Ok? && sp[0] == 1 && sp[|sp| - 1] == |totLen| ==> Sum(r.value.out.geneTau) == 1.0
    ensures r.Err? && r.error in {ReadCountMismatch, ReadTypeMismatch, TruncatedAlignments} ==>
              nReads != n1 || rt != readType || store.ncpv.Length < n1
    ensures r == Err(NoNoiseDenominator) ==> nTot <= n2
    ensures r.Ok? || r == Err(NoCountMass) || thetaPrime != [] ==>
              nReads == n1 && rt == readType && store.ncpv.Length >= n1 && nTot > n2
    ensures r.Ok? || r == Err(NoCountMass) || thetaPrime != [] ==>
              Greedy(shards, HitCounts(store.offsets), n1, nThreads, TruncDiv(nHits, nThreads)) &&
              Cuts(shards, store.ncpv.Length)
    ensures r.Ok? || r == Err(NoCountMass) || thetaPrime != [] ==>
              RoundsEnd(StartTheta(n0, n2, nTot, |totLen|), old(store.View()), shards, n0, r, thetaPrime)
  {
    thetaPrime, shards := [], [];
    var start, theta := Start(nReads, nHits, rt, readType, n1, nThreads, store, n0, n2, nTot, |totLen|);
    if start.Err? {
      r := Err(start.error);
      return;
    }
    var starts, probv, countvs := start.value.starts, start.value.probv, start.value.countvs;
    ghost var pdfv, mwv := pdf[..], mw[..];
    r, thetaPrime := Complete(store, starts, theta, probv, countvs, n0, pdf, cdf, lb, ub, totLen, fullLen, mw, sp,
                              StartTheta(n0, n2, nTot, |totLen|), old(store.View()));
    assert pdf[..] == pdfv && mw[..] == mwv;
    shards := starts;
    ghost var eel := ExpectedLengths(pdf[..], lb, totLen, fullLen);
    assert forall i :: 1 <= i < |totLen| ==> eel[i] == Floor(ExpectedStarts(pdf[..], lb, totLen[i], fullLen[i]));
  }
}
