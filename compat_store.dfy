/** The compatibility store: every fragment's candidate transcripts with their
    scores, flattened into one hit array with an offset index (the source's
    HitContainer, one per shard; here the shards' containers laid end to end,
    shard k owning a contiguous range of fragments). */
module CompatStore {

  /** Value view of the store. Fragment i owns the hits
      [offsets[i], offsets[i + 1]); hit j names transcript sid[j] and carries
      the score conPrb[j]; ncpv[i] is fragment i's noise score. */
  datatype Hits = Hits(offsets: seq<nat>, sid: seq<nat>, conPrb: seq<real>, ncpv: seq<real>)

  /** Offsets start at zero, never decrease, and end at the number of hits. */
  predicate Shaped(h: Hits)
  {
    && |h.offsets| == |h.ncpv| + 1
    && h.offsets[0] == 0
    && (forall i, j :: 0 <= i <= j < |h.offsets| ==> h.offsets[i] <= h.offsets[j])
    && h.offsets[|h.ncpv|] == |h.sid| == |h.conPrb|
  }

  /** Shaped, and every hit names a transcript in 1..M (0 is the noise slot). */
  predicate WellFormed(h: Hits, M: nat)
  {
    Shaped(h) && forall j :: 0 <= j < |h.sid| ==> 1 <= h.sid[j] <= M
  }

  /** The store with fragment i's noise score and hit scores replaced by `sc`
      (sc[0] for the noise score, sc[1..] for the hits in order). */
  function SetScores(h: Hits, i: nat, sc: seq<real>): (r: Hits)
    requires Shaped(h) && i < |h.ncpv|
    requires |sc| == h.offsets[i + 1] - h.offsets[i] + 1
    ensures Shaped(r) && r.offsets == h.offsets && r.sid == h.sid
    ensures r.ncpv[i] == sc[0]
    ensures forall j :: h.offsets[i] <= j < h.offsets[i + 1] ==>
              r.conPrb[j] == sc[j - h.offsets[i] + 1]
    ensures forall f :: 0 <= f < |h.ncpv| && f != i ==> r.ncpv[f] == h.ncpv[f]
    ensures forall j :: 0 <= j < |h.conPrb| && !(h.offsets[i] <= j < h.offsets[i + 1]) ==>
              r.conPrb[j] == h.conPrb[j]
  {
    h.(ncpv := h.ncpv[i := sc[0]],
       conPrb := h.conPrb[..h.offsets[i]] + sc[1..] + h.conPrb[h.offsets[i + 1]..])
  }

  /** A store that agrees with `SetScores(h, i, sc)` field by field and
      entry by entry is that store. */
  lemma SetScoresExt(h: Hits, i: nat, sc: seq<real>, r: Hits)
    requires Shaped(h) && i < |h.ncpv|
    requires |sc| == h.offsets[i + 1] - h.offsets[i] + 1
    requires r.offsets == h.offsets && r.sid == h.sid && r.ncpv == h.ncpv[i := sc[0]]
    requires |r.conPrb| == |h.conPrb|
    requires forall j :: 0 <= j < |h.conPrb| ==>
               r.conPrb[j] == if h.offsets[i] <= j < h.offsets[i + 1] then sc[j - h.offsets[i] + 1] else h.conPrb[j]
    ensures r == SetScores(h, i, sc)
  {
    var s := SetScores(h, i, sc);
    assert h.offsets[i] <= h.offsets[i + 1] <= |h.conPrb|;
    assert r.conPrb == s.conPrb;
  }

  /** `ns[i]` has one score per slot of fragment i (noise first, then hits). */
  predicate ScoresFit(h: Hits, ns: seq<seq<real>>)
  {
    && Shaped(h)
    && |ns| == |h.ncpv|
    && forall i :: 0 <= i < |ns| ==> 0 < |ns[i]| == h.offsets[i + 1] - h.offsets[i] + 1
  }

  /** The store after fragments lo..hi-1, in order, had their scores replaced
      by `ns`. */
  function Overwrite(h: Hits, ns: seq<seq<real>>, lo: nat, hi: nat): (r: Hits)
    requires ScoresFit(h, ns) && lo <= hi <= |h.ncpv|
    ensures Shaped(r) && r.offsets == h.offsets && r.sid == h.sid
    ensures |r.ncpv| == |h.ncpv| && |r.conPrb| == |h.conPrb|
    decreases hi - lo
  {
    if hi == lo then h
    else SetScores(Overwrite(h, ns, lo, hi - 1), hi - 1, ns[hi - 1])
  }

  /** After the overwrite, fragments lo..hi-1 carry their new noise score and
      every other fragment keeps its own. */
  lemma {:induction false} OverwriteNoise(h: Hits, ns: seq<seq<real>>, lo: nat, hi: nat)
    requires ScoresFit(h, ns) && lo <= hi <= |h.ncpv|
    ensures forall i :: lo <= i < hi ==> Overwrite(h, ns, lo, hi).ncpv[i] == ns[i][0]
    ensures forall i :: 0 <= i < |h.ncpv| && !(lo <= i < hi) ==>
              Overwrite(h, ns, lo, hi).ncpv[i] == h.ncpv[i]
    decreases hi - lo
  {
    if hi > lo {
      OverwriteNoise(h, ns, lo, hi - 1);
    }
  }

  /** After the overwrite, a hit of fragment i in lo..hi-1 carries its new
      score, and every hit outside [offsets[lo], offsets[hi]) keeps its own. */
  lemma OverwriteHits(h: Hits, ns: seq<seq<real>>, lo: nat, hi: nat)
    requires ScoresFit(h, ns) && lo <= hi <= |h.ncpv|
    ensures forall i, j :: lo <= i < hi && h.offsets[i] <= j < h.offsets[i + 1] ==>
              Overwrite(h, ns, lo, hi).conPrb[j] == ns[i][j - h.offsets[i] + 1]
    ensures forall j :: 0 <= j < |h.conPrb| && !(h.offsets[lo] <= j < h.offsets[hi]) ==>
              Overwrite(h, ns, lo, hi).conPrb[j] == h.conPrb[j]
  {
    OverwriteHitsInside(h, ns, lo, hi);
    OverwriteHitsOutside(h, ns, lo, hi);
  }

  lemma {:induction false} OverwriteHitsInside(h: Hits, ns: seq<seq<real>>, lo: nat, hi: nat)
    requires ScoresFit(h, ns) && lo <= hi <= |h.ncpv|
    ensures forall i, j :: lo <= i < hi && h.offsets[i] <= j < h.offsets[i + 1] ==>
              Overwrite(h, ns, lo, hi).conPrb[j] == ns[i][j - h.offsets[i] + 1]
    decreases hi - lo
  {
    if hi > lo {
      var last := hi - 1;
      OverwriteHitsInside(h, ns, lo, last);
      var prev := Overwrite(h, ns, lo, last);
      var r := Overwrite(h, ns, lo, hi);
      forall i, j | lo <= i < last && h.offsets[i] <= j < h.offsets[i + 1]
        ensures r.conPrb[j] == ns[i][j - h.offsets[i] + 1]
      {
        assert h.offsets[i + 1] <= h.offsets[last];
        assert r.conPrb[j] == prev.conPrb[j];
      }
    }
  }

  lemma {:induction false} OverwriteHitsOutside(h: Hits, ns: seq<seq<real>>, lo: nat, hi: nat)
    requires ScoresFit(h, ns) && lo <= hi <= |h.ncpv|
    ensures forall j :: 0 <= j < |h.conPrb| && !(h.offsets[lo] <= j < h.offsets[hi]) ==>
              Overwrite(h, ns, lo, hi).conPrb[j] == h.conPrb[j]
    decreases hi - lo
  {
    if hi > lo {
      var last := hi - 1;
      OverwriteHitsOutside(h, ns, lo, last);
      var prev := Overwrite(h, ns, lo, last);
      var r := Overwrite(h, ns, lo, hi);
      assert r == SetScores(prev, last, ns[last]);
      assert h.offsets[lo] <= h.offsets[last];
      forall j | 0 <= j < |h.conPrb| && !(h.offsets[lo] <= j < h.offsets[hi])
        ensures r.conPrb[j] == h.conPrb[j]
      {
        assert r.conPrb[j] == prev.conPrb[j];
      }
    }
  }

  /** The last fragment of a range is overwritten last. */
  lemma OverwriteLast(h: Hits, ns: seq<seq<real>>, lo: nat, hi: nat)
    requires ScoresFit(h, ns) && lo < hi <= |h.ncpv|
    ensures Overwrite(h, ns, lo, hi) == SetScores(Overwrite(h, ns, lo, hi - 1), hi - 1, ns[hi - 1])
  {
  }

  /** Overwriting a..lo and then lo..hi is overwriting a..hi, when the scores
      used for lo..hi are the same. */
  lemma {:induction false} OverwriteCompose(h: Hits, ns: seq<seq<real>>, ns': seq<seq<real>>,
                                            a: nat, lo: nat, hi: nat)
    requires ScoresFit(h, ns) && a <= lo <= hi <= |h.ncpv|
    requires ScoresFit(Overwrite(h, ns, a, lo), ns')
    requires forall i :: lo <= i < hi ==> ns'[i] == ns[i]
    ensures Overwrite(Overwrite(h, ns, a, lo), ns', lo, hi) == Overwrite(h, ns, a, hi)
    decreases hi - lo
  {
    var h1 := Overwrite(h, ns, a, lo);
    if hi == lo {
      assert Overwrite(h1, ns', lo, hi) == h1;
    } else {
      var last := hi - 1;
      OverwriteCompose(h, ns, ns', a, lo, last);
      var prev := Overwrite(h1, ns', lo, last);
      assert prev == Overwrite(h, ns, a, last);
      var sc := ns[last];
      assert ns'[last] == sc;
      var x := SetScores(prev, last, sc);
      OverwriteLast(h1, ns', lo, hi);
      OverwriteLast(h, ns, a, hi);
      assert Overwrite(h1, ns', lo, hi) == x;
      assert Overwrite(h, ns, a, hi) == x;
    }
  }

  /** The mutable store. Offsets and transcript ids are fixed once loaded;
      the score arrays are overwritten by the expected-weight E-step. */
  class HitStore {
    const offsets: seq<nat>
    const sid: seq<nat>
    const conPrb: array<real>
    const ncpv: array<real>

    ghost function View(): (h: Hits)
      reads conPrb, ncpv
    {
      Hits(offsets, sid, conPrb[..], ncpv[..])
    }

    ghost predicate Valid(M: nat)
      reads conPrb, ncpv
    {
      conPrb != ncpv && WellFormed(View(), M)
    }

    /** The store as loaded from the alignment file. */
    constructor (h: Hits)
      ensures View() == h
      ensures fresh(conPrb) && fresh(ncpv)
    {
      offsets := h.offsets;
      sid := h.sid;
      conPrb := new real[|h.conPrb|](j requires 0 <= j < |h.conPrb| => h.conPrb[j]);
      ncpv := new real[|h.ncpv|](i requires 0 <= i < |h.ncpv| => h.ncpv[i]);
    }
  }
}
