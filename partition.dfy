/** The shard partition of `init`: the fragment stream of the alignment file
    is cut, greedily and in order, into one contiguous range per thread. A
    thread keeps taking fragments until its hit count reaches the threshold
    nHits / nThreads or only one fragment per later thread is left; the last
    thread takes everything that remains. */
module Sharding {
  import opened Outcome

  /** Integer division truncating toward zero, as C++ `int / int`. */
  function TruncDiv(a: int, b: int): (q: int)
    requires b > 0
    ensures a >= 0 ==> q >= 0 && q * b <= a < q * b + b
    ensures a < 0 ==> q <= 0 && q * b - b < a <= q * b
  {
    if a >= 0 then a / b else -((-a) / b)
  }

  /** Number of hits of fragments s..e-1; `counts[f]` is fragment f's
      number of alignments in the stream. */
  function HitsIn(counts: seq<nat>, s: nat, e: nat): (n: nat)
    requires s <= e <= |counts|
    decreases e - s
  {
    if e == s then 0 else HitsIn(counts, s, e - 1) + counts[e - 1]
  }

  /** Thread k, having taken fragments s..e-1, takes fragment e next: more
      fragments are left than later threads, and (unless k is the last
      thread) its hit count is still below the threshold. */
  predicate Continues(counts: seq<nat>, n1: nat, nThreads: nat, nhT: int, k: nat, s: nat, e: nat)
    requires s <= e <= |counts|
  {
    n1 - e > nThreads - k - 1 && (k == nThreads - 1 || HitsIn(counts, s, e) < nhT)
  }

  /** Thread k's range [s, e) is what the greedy rule takes: it continues at
      every position before e and stops at e. */
  predicate ShardRule(counts: seq<nat>, n1: nat, nThreads: nat, nhT: int, k: nat, s: nat, e: nat)
    requires s <= e <= |counts|
  {
    && (forall x :: s <= x < e ==> Continues(counts, n1, nThreads, nhT, k, s, x))
    && !Continues(counts, n1, nThreads, nhT, k, s, e)
  }

  /** The first |starts| - 1 ranges follow the greedy rule, each from where
      the previous one ended. */
  predicate GreedyPrefix(starts: seq<nat>, counts: seq<nat>, n1: nat, nThreads: nat, nhT: int)
  {
    && 0 < |starts| <= nThreads + 1
    && starts[0] == 0
    && (forall k :: 1 <= k < |starts| ==> starts[k - 1] <= starts[k] <= |counts|)
    && (forall k: nat :: k + 1 < |starts| ==>
          ShardRule(counts, n1, nThreads, nhT, k, starts[k], starts[k + 1]))
  }

  /** `starts[k]` is where thread k's range begins, for every thread, and
      every range follows the greedy rule. */
  predicate Greedy(starts: seq<nat>, counts: seq<nat>, n1: nat, nThreads: nat, nhT: int)
  {
    GreedyPrefix(starts, counts, n1, nThreads, nhT) && |starts| == nThreads + 1
  }

  /** A range following the rule from the end of a greedy prefix extends it. */
  lemma GreedyExtend(starts: seq<nat>, counts: seq<nat>, n1: nat, nThreads: nat, nhT: int, e: nat)
    requires GreedyPrefix(starts, counts, n1, nThreads, nhT) && |starts| <= nThreads
    requires starts[|starts| - 1] <= e <= |counts|
    requires ShardRule(counts, n1, nThreads, nhT, |starts| - 1, starts[|starts| - 1], e)
    ensures GreedyPrefix(starts + [e], counts, n1, nThreads, nhT)
  {
    var t := starts + [e];
    forall k: nat | k + 1 < |t|
      ensures ShardRule(counts, n1, nThreads, nhT, k, t[k], t[k + 1])
    {
      if k + 1 < |starts| {
        assert t[k] == starts[k] && t[k + 1] == starts[k + 1];
      }
    }
  }

  /** Consecutive, non-overlapping ranges covering fragments 0..n1-1. */
  predicate Contiguous(starts: seq<nat>, n1: nat)
  {
    && |starts| > 0
    && starts[0] == 0
    && starts[|starts| - 1] == n1
    && forall k :: 1 <= k < |starts| ==> starts[k - 1] <= starts[k]
  }

  /** The partition loop of `init`, after the alignment file's header
      (nReads, nHits, rt) has been read. `stream[f]` is the number of
      alignments of the f-th fragment in the file; the file may end early. */
  method Partition(nReads: int, nHits: int, rt: int, readType: int, n1: nat, nThreads: nat,
                   stream: seq<nat>) returns (r: Result<seq<nat>>)
    requires 1 <= nThreads <= n1
    ensures r.Err? <==> nReads != n1 || rt != readType || |stream| < n1
    ensures r.Err? ==> r.error == if nReads != n1 then ReadCountMismatch
                                  else if rt != readType then ReadTypeMismatch
                                  else TruncatedAlignments
    ensures r.Ok? ==> Greedy(r.value, stream, n1, nThreads, TruncDiv(nHits, nThreads))
  {
    if nReads != n1 { return Err(ReadCountMismatch); }
    if rt != readType { return Err(ReadTypeMismatch); }
    var nhT := TruncDiv(nHits, nThreads);
    var nrLeft := n1;
    var starts: seq<nat> := [0];
    for i := 0 to nThreads
      invariant |starts| == i + 1 && GreedyPrefix(starts, stream, n1, nThreads, nhT)
      invariant nThreads - i <= nrLeft <= n1 && starts[i] == n1 - nrLeft <= |stream|
      invariant i == nThreads ==> nrLeft == 0
    {
      var taken := TakeShard(stream, n1, nThreads, nhT, i, nrLeft);
      if taken.Err? { return Err(TruncatedAlignments); }
      GreedyExtend(starts, stream, n1, nThreads, nhT, n1 - taken.value);
      nrLeft := taken.value;
      starts := starts + [n1 - nrLeft];
    }
    r := Ok(starts);
  }

  /** One thread's share of the partition loop: starting with nrLeft
      fragments left, thread i reads fragments from the stream while the
      greedy rule says so. Returns the number of fragments left afterwards,
      or an error when the stream ends before the thread is done. */
  method TakeShard(stream: seq<nat>, n1: nat, nThreads: nat, nhT: int, i: nat, nrLeft0: nat)
    returns (r: Result<nat>)
    requires i < nThreads && nThreads - i <= nrLeft0 <= n1 && n1 - nrLeft0 <= |stream|
    ensures r.Err? ==> r.error == TruncatedAlignments && |stream| < n1
    ensures r.Ok? ==> nThreads - i - 1 <= r.value <= nrLeft0 && n1 - r.value <= |stream|
    ensures r.Ok? && i == nThreads - 1 ==> r.value == 0
    ensures r.Ok? ==> ShardRule(stream, n1, nThreads, nhT, i, n1 - nrLeft0, n1 - r.value)
  {
    var ntLeft := nThreads - i - 1;
    var nrLeft := nrLeft0;
    var nh := 0;
    ghost var s := n1 - nrLeft0;
    while nrLeft > ntLeft && (i == nThreads - 1 || nh < nhT)
      invariant ntLeft <= nrLeft <= nrLeft0 && n1 - nrLeft <= |stream|
      invariant nh == HitsIn(stream, s, n1 - nrLeft)
      invariant forall x :: s <= x < n1 - nrLeft ==> Continues(stream, n1, nThreads, nhT, i, s, x)
    {
      var pos := n1 - nrLeft;
      if pos >= |stream| { return Err(TruncatedAlignments); }
      nh := nh + stream[pos];
      nrLeft := nrLeft - 1;
    }
    r := Ok(nrLeft);
  }

  // ---------------------------------------------------------------------------
  // What the greedy rule implies

  /** Before thread k starts, at least one fragment per remaining thread is
      left, and the ranges so far end at or before n1. */
  lemma {:induction false} GreedyRoom(starts: seq<nat>, counts: seq<nat>, n1: nat, nThreads: nat, nhT: int, k: nat)
    requires nThreads <= n1 && Greedy(starts, counts, n1, nThreads, nhT) && k <= nThreads
    ensures starts[k] <= n1 && n1 - starts[k] >= nThreads - k
  {
    if k > 0 {
      GreedyRoom(starts, counts, n1, nThreads, nhT, k - 1);
      var s, e := starts[k - 1], starts[k];
      if s < e {
        assert Continues(counts, n1, nThreads, nhT, k - 1, s, e - 1);
      }
    }
  }

  /** The greedy ranges cover fragments 0..n1-1 exactly once. */
  lemma GreedyContiguous(starts: seq<nat>, counts: seq<nat>, n1: nat, nThreads: nat, nhT: int)
    requires 1 <= nThreads <= n1 && Greedy(starts, counts, n1, nThreads, nhT)
    ensures Contiguous(starts, n1)
  {
    GreedyRoom(starts, counts, n1, nThreads, nhT, nThreads);
    assert !Continues(counts, n1, nThreads, nhT, nThreads - 1, starts[nThreads - 1], starts[nThreads]);
  }

  /** Ranges of a contiguous partition never move backwards. */
  lemma {:induction false} Monotone(starts: seq<nat>, n1: nat, k: nat, l: nat)
    requires Contiguous(starts, n1) && k <= l < |starts|
    ensures starts[k] <= starts[l]
    decreases l - k
  {
    if k < l {
      Monotone(starts, n1, k + 1, l);
    }
  }

  /** Every fragment belongs to exactly one shard: the returned one. */
  lemma OneShardPerFragment(starts: seq<nat>, n1: nat, f: nat) returns (k: nat)
    requires Contiguous(starts, n1) && f < n1
    ensures k < |starts| - 1 && starts[k] <= f < starts[k + 1]
    ensures forall l :: 0 <= l < |starts| - 1 && starts[l] <= f < starts[l + 1] ==> l == k
  {
    k := FindShard(starts, n1, f, |starts| - 1);
    forall l | 0 <= l < |starts| - 1 && starts[l] <= f < starts[l + 1]
      ensures l == k
    {
      if l < k {
        Monotone(starts, n1, l + 1, k);
      } else if k < l {
        Monotone(starts, n1, k + 1, l);
      }
    }
  }

  /** The last range among 0..t-1 that starts at or before f. */
  lemma {:induction false} FindShard(starts: seq<nat>, n1: nat, f: nat, t: nat) returns (k: nat)
    requires Contiguous(starts, n1) && f < n1
    requires 0 < t < |starts| && f < starts[t]
    ensures k < t && starts[k] <= f < starts[k + 1]
    decreases t
  {
    if starts[t - 1] <= f {
      k := t - 1;
    } else {
      k := FindShard(starts, n1, f, t - 1);
    }
  }

  /** The rule fixes the ranges: two partitions following it are the same. */
  lemma GreedyUnique(starts: seq<nat>, starts': seq<nat>, counts: seq<nat>, n1: nat, nThreads: nat, nhT: int)
    requires Greedy(starts, counts, n1, nThreads, nhT) && Greedy(starts', counts, n1, nThreads, nhT)
    ensures starts == starts'
  {
    forall k | 0 <= k <= nThreads
      ensures starts[k] == starts'[k]
    {
      GreedyUniqueUpTo(starts, starts', counts, n1, nThreads, nhT, k);
    }
  }

  lemma {:induction false} GreedyUniqueUpTo(starts: seq<nat>, starts': seq<nat>, counts: seq<nat>,
                                           n1: nat, nThreads: nat, nhT: int, k: nat)
    requires Greedy(starts, counts, n1, nThreads, nhT) && Greedy(starts', counts, n1, nThreads, nhT)
    requires k <= nThreads
    ensures starts[k] == starts'[k]
  {
    if k > 0 {
      GreedyUniqueUpTo(starts, starts', counts, n1, nThreads, nhT, k - 1);
    }
  }

  /** With a positive threshold every thread gets at least one fragment; the
      last thread always does. */
  lemma NonEmptyShards(starts: seq<nat>, counts: seq<nat>, n1: nat, nThreads: nat, nhT: int)
    requires 1 <= nThreads <= n1 && Greedy(starts, counts, n1, nThreads, nhT)
    ensures starts[nThreads - 1] < starts[nThreads]
    ensures nhT > 0 ==> forall k :: 0 <= k < nThreads ==> starts[k] < starts[k + 1]
  {
    forall k | 0 <= k < nThreads && (nhT > 0 || k == nThreads - 1)
      ensures starts[k] < starts[k + 1]
    {
      GreedyRoom(starts, counts, n1, nThreads, nhT, k);
      assert HitsIn(counts, starts[k], starts[k]) == 0;
      assert Continues(counts, n1, nThreads, nhT, k, starts[k], starts[k]);
    }
  }
}
