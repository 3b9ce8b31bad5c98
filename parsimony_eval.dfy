/**
 * Replaying a traversal descriptor and scoring an edge.
 *
 * Each descriptor entry (p, q, r) recomputes, in every partition, the
 * vector of inner vertex p from the vectors or tip rows of q and r; entry 0
 * names the edge an evaluation scores and is not replayed.  A partition's
 * row of a node is its tip row when the node is a tip and its vector
 * otherwise.
 */
module ParsimonyEval {
  import opened Wrappers
  import opened ParsimonyKernels
  import opened ParsimonyTree

  /** Per-site codes that each fit their site's table, with the per-site
      bookkeeping of `fixModelIndices`, make every partition's tip rows
      well formed. */
  lemma TipRowsFromSites(tr: Tree)
    requires tr.Shape() && tr.SiteModels()
    requires |tr.cdta.y0| == tr.mxtips * tr.originalCrunchedLength
    requires forall m :: 0 <= m < |tr.cdta.partitions| ==>
               tr.cdta.partitions[m].lower + tr.cdta.partitions[m].width <= tr.cdta.endsite
    requires forall t, k :: 1 <= t <= tr.mxtips && 0 <= k < tr.cdta.endsite ==>
               CodeInRange(CodingOf(tr.dataVector[k], tr.bitVectorSecondary), tr.Code(t, k))
    ensures forall m, t :: 0 <= m < |tr.cdta.partitions| && 1 <= t <= tr.mxtips ==>
              TipRowOk(tr.Coding(m), tr.cdta.y0, tr.TipStart(m, t), tr.cdta.partitions[m].width)
  {
    forall m, t | 0 <= m < |tr.cdta.partitions| && 1 <= t <= tr.mxtips
      ensures TipRowOk(tr.Coding(m), tr.cdta.y0, tr.TipStart(m, t), tr.cdta.partitions[m].width)
    {
      var part := tr.cdta.partitions[m];
      var off := tr.TipStart(m, t);
      var len := tr.originalCrunchedLength;
      assert (t - 1) * len + len == t * len;
      MulLe(t, tr.mxtips, len);
      assert off + part.width <= |tr.cdta.y0|;
      forall i | off <= i < off + part.width
        ensures CodeInRange(tr.Coding(m), tr.cdta.y0[i])
      {
        var k := part.lower + (i - off);
        assert tr.model[k] == m;
        assert tr.Code(t, k) == tr.cdta.y0[i];
      }
    }
  }

  /** Partition m's row of node v. */
  ghost function Row(tr: Tree, m: nat, v: nat): seq<PEntry>
    reads tr.cdta, tr.pVec
    requires tr.Sites() && m < |tr.cdta.partitions| && 1 <= v < 2 * tr.mxtips
  {
    var part := tr.cdta.partitions[m];
    if v <= tr.mxtips then
      TipRow(tr.Coding(m), tr.cdta.y0, tr.TipStart(m, v), part.width)
    else
      tr.pVec[m, v - tr.mxtips - 1]
  }

  /** Partition m's site weights. */
  ghost function Weights(tr: Tree, m: nat): seq<nat>
    reads tr.cdta, tr.pVec, tr.aliaswgt
    requires tr.Sites() && m < |tr.cdta.partitions|
  {
    WeightRow(tr.aliaswgt, tr.cdta.partitions[m].lower, tr.cdta.partitions[m].width)
  }

  /** An entry computeTraversalInfoParsimony can emit: p is an inner
      vertex and the shape says which of q and r are tips. */
  predicate WellShaped(n: nat, e: TraversalInfo)
  {
    n < e.pNumber < 2 * n && 1 <= e.qNumber < 2 * n && 1 <= e.rNumber < 2 * n
    && match e.tipCase
       case TipTip => e.qNumber <= n && e.rNumber <= n
       case TipInner => e.qNumber <= n < e.rNumber
       case InnerInner => n < e.qNumber && n < e.rNumber
  }

  /** Every entry after the anchor is well shaped. */
  predicate Replayable(n: nat, ti: seq<TraversalInfo>)
  {
    forall k :: 1 <= k < |ti| ==> WellShaped(n, ti[k])
  }

  /** Entry e holds in the current vectors: in every partition p's row is
      the Fitch step of q's and r's rows. */
  ghost predicate StepHolds(tr: Tree, e: TraversalInfo)
    reads tr.cdta, tr.pVec
    requires tr.Sites() && WellShaped(tr.mxtips, e)
  {
    forall m :: 0 <= m < |tr.cdta.partitions| ==>
      Row(tr, m, e.pNumber) == FitchRow(Row(tr, m, e.qNumber), Row(tr, m, e.rNumber))
  }

  /** The entries from `lo` on are in post-order with each vertex once:
      no entry rewrites a vertex an entry at or before it reads, and no
      vertex is written twice. */
  ghost predicate OrderedFrom(ti: seq<TraversalInfo>, lo: nat)
  {
    (forall j, k :: lo <= k <= j < |ti| ==> ti[j].pNumber != ti[k].qNumber && ti[j].pNumber != ti[k].rNumber)
    && (forall j, k :: lo <= k < j < |ti| ==> ti[j].pNumber != ti[k].pNumber)
  }

  /** The replayed part of a descriptor (all but the anchor) is in
      post-order with each vertex once. */
  ghost predicate Ordered(ti: seq<TraversalInfo>)
  {
    OrderedFrom(ti, 1)
  }

  /** One entry replayed in partition m (one pass of the inner loop of
      `newviewParsimonyIterative`): AA partitions read tips through the
      protein table, SECONDARY partitions through the 16-state table, the
      others as raw bit sets.  Only p's vector in partition m changes. */
  method NewviewPartition(tr: Tree, e: TraversalInfo, m: nat)
    requires tr.Sites() && WellShaped(tr.mxtips, e) && m < |tr.cdta.partitions|
    modifies tr.pVec
    ensures tr.Sites()
    ensures tr.pVec[m, e.pNumber - tr.mxtips - 1]
            == FitchRow(old(Row(tr, m, e.qNumber)), old(Row(tr, m, e.rNumber)))
    ensures forall a, b :: (0 <= a < tr.pVec.Length0 && 0 <= b < tr.pVec.Length1
                            && !(a == m && b == e.pNumber - tr.mxtips - 1)) ==> tr.pVec[a, b] == old(tr.pVec[a, b])
  {
    var n := tr.mxtips;
    var part := tr.cdta.partitions[m];
    var coding := CodingOf(part.dataType, tr.bitVectorSecondary);
    var ops := Operands(if e.rNumber <= n then tr.TipStart(m, e.rNumber) else 0,
                        if e.qNumber <= n then tr.TipStart(m, e.qNumber) else 0,
                        if e.rNumber <= n then 0 else e.rNumber - n - 1,
                        if e.qNumber <= n then 0 else e.qNumber - n - 1,
                        e.pNumber - n - 1);
    assert LeftRow(e.tipCase, coding, tr.cdta.y0, tr.pVec, m, ops, part.width) == Row(tr, m, e.qNumber);
    assert RightRow(e.tipCase, coding, tr.cdta.y0, tr.pVec, m, ops, part.width) == Row(tr, m, e.rNumber);
    if part.dataType == AaData || part.dataType == SecondaryData {
      NewviewParsimonyPROT(e.tipCase, tr.cdta.y0, tr.pVec, m, ops, part.width, coding);
    } else {
      assert coding == Raw;
      NewviewParsimonyDNA(e.tipCase, tr.cdta.y0, tr.pVec, m, ops, part.width);
    }
  }

  /** One descriptor entry replayed over all partitions (the body of the
      outer loop of `newviewParsimonyIterative`).  Only p's rows change. */
  method NewviewStep(tr: Tree, e: TraversalInfo)
    requires tr.Sites() && WellShaped(tr.mxtips, e)
    modifies tr.pVec
    ensures tr.Sites()
    ensures forall m :: 0 <= m < |tr.cdta.partitions| ==>
              Row(tr, m, e.pNumber) == FitchRow(old(Row(tr, m, e.qNumber)), old(Row(tr, m, e.rNumber)))
    ensures forall m, v :: 0 <= m < |tr.cdta.partitions| && 1 <= v < 2 * tr.mxtips && v != e.pNumber ==>
              Row(tr, m, v) == old(Row(tr, m, v))
  {
    var n := tr.mxtips;
    var parts := tr.cdta.partitions;
    var pv := tr.pVec;
    var pi := e.pNumber - n - 1;
    var m := 0;
    while m < |parts|
      invariant 0 <= m <= |parts|
      invariant tr.Sites()
      invariant forall m' :: 0 <= m' < m ==>
                  pv[m', pi] == FitchRow(old(Row(tr, m', e.qNumber)), old(Row(tr, m', e.rNumber)))
      invariant forall a, b :: 0 <= a < pv.Length0 && 0 <= b < pv.Length1 && !(a < m && b == pi) ==>
                  pv[a, b] == old(pv[a, b])
    {
      assert Row(tr, m, e.qNumber) == old(Row(tr, m, e.qNumber));
      assert Row(tr, m, e.rNumber) == old(Row(tr, m, e.rNumber));
      NewviewPartition(tr, e, m);
      m := m + 1;
    }
  }

  /** No entry from 1 up to (excluding) i writes vertex v. */
  ghost predicate NotWrittenBefore(ti: seq<TraversalInfo>, i: nat, v: nat)
  {
    forall k :: 1 <= k < i && k < |ti| ==> ti[k].pNumber != v
  }

  /** `newviewParsimonyIterative`: replays entries 1 .. count-1 in order.
      When the descriptor is in post-order with each vertex once, every
      replayed entry holds in the final vectors; vertices no entry writes
      keep their rows. */
  method NewviewParsimonyIterative(tr: Tree)
    requires tr.Sites() && Replayable(tr.mxtips, tr.td.ti)
    modifies tr.pVec
    ensures tr.Sites()
    ensures Ordered(tr.td.ti) ==> forall k :: 1 <= k < |tr.td.ti| ==> StepHolds(tr, tr.td.ti[k])
    ensures forall m, v :: (0 <= m < |tr.cdta.partitions| && 1 <= v < 2 * tr.mxtips
                            && NotWrittenBefore(tr.td.ti, |tr.td.ti|, v)) ==> Row(tr, m, v) == old(Row(tr, m, v))
  {
    var ti := tr.td.ti;
    var i := 1;
    while i < |ti|
      invariant 1 <= i && (i <= |ti| || |ti| <= 1)
      invariant tr.Sites()
      invariant Ordered(ti) ==> forall k :: 1 <= k < i && k < |ti| ==> StepHolds(tr, ti[k])
      invariant forall m, v :: (0 <= m < |tr.cdta.partitions| && 1 <= v < 2 * tr.mxtips
                                && NotWrittenBefore(ti, i, v)) ==> Row(tr, m, v) == old(Row(tr, m, v))
    {
      label before:
      NewviewStep(tr, ti[i]);
      if Ordered(ti) {
        forall k | 1 <= k < i + 1
          ensures StepHolds(tr, ti[k])
        {
          var e := ti[k];
          assert e.pNumber != ti[i].pNumber || k == i;
          assert e.qNumber != ti[i].pNumber && e.rNumber != ti[i].pNumber;
          if k < i {
            assert old@before(StepHolds(tr, e));
          }
        }
      }
      i := i + 1;
    }
  }

  /** The weighted score of edge p-q summed over partitions 0 .. count-1. */
  ghost function EdgeScore(tr: Tree, p: nat, q: nat, count: nat): nat
    reads tr.cdta, tr.pVec, tr.aliaswgt
    requires tr.Sites() && 1 <= p < 2 * tr.mxtips && 1 <= q < 2 * tr.mxtips
    requires count <= |tr.cdta.partitions|
  {
    if count == 0 then 0
    else
      var m := count - 1;
      EdgeScore(tr, p, q, m) + EdgeCost(Weights(tr, m), Row(tr, m, p), Row(tr, m, q))
  }

  /** Entry 0 names an edge with at least one inner end. */
  predicate AnchorOk(n: nat, e: TraversalInfo)
  {
    1 <= e.pNumber < 2 * n && 1 <= e.qNumber < 2 * n && !(e.pNumber <= n && e.qNumber <= n)
  }

  /** The kernel dispatch of `evaluateParsimonyIterative` for partition m:
      the protein table for AA data, the 16-state table for SECONDARY data,
      raw bit sets otherwise. */
  method EvalKernel(tr: Tree, m: nat, right: Option<nat>, rightVector: nat, leftVector: nat)
    returns (cost: nat)
    requires tr.Sites() && m < |tr.cdta.partitions|
    requires leftVector < tr.pVec.Length1
    requires right.Some? ==> TipRowOk(tr.Coding(m), tr.cdta.y0, right.value, tr.cdta.partitions[m].width)
    requires right.None? ==> rightVector < tr.pVec.Length1
    ensures cost == EdgeCost(Weights(tr, m), tr.pVec[m, leftVector],
                             EndRow(right, tr.Coding(m), tr.cdta.y0, tr.pVec, m, rightVector,
                                    tr.cdta.partitions[m].width))
  {
    var part := tr.cdta.partitions[m];
    var coding := CodingOf(part.dataType, tr.bitVectorSecondary);
    if part.dataType == AaData || part.dataType == SecondaryData {
      cost := EvalPROT(right, tr.cdta.y0, tr.pVec, m, rightVector, leftVector, part.width,
                       tr.aliaswgt, part.lower, coding);
    } else {
      assert coding == Raw;
      cost := EvalDNA(right, tr.cdta.y0, tr.pVec, m, rightVector, leftVector, part.width,
                      tr.aliaswgt, part.lower);
    }
  }

  /** The score of edge p-q in partition m (one pass of the loop of
      `evaluateParsimonyIterative`): the inner end's vector is read against
      the tip row (q when q is a tip, else p) or against the other vector;
      the result does not depend on which end is the tip. */
  method EvaluatePartition(tr: Tree, m: nat, pNumber: nat, qNumber: nat) returns (cost: nat)
    requires tr.Sites() && m < |tr.cdta.partitions|
    requires AnchorOk(tr.mxtips, TraversalInfo(TipTip, pNumber, qNumber, 0))
    ensures cost == EdgeCost(Weights(tr, m), Row(tr, m, pNumber), Row(tr, m, qNumber))
  {
    var n := tr.mxtips;
    if pNumber <= n || qNumber <= n {
      if qNumber <= n {
        cost := EvalKernel(tr, m, Some(tr.TipStart(m, qNumber)), 0, pNumber - n - 1);
      } else {
        cost := EvalKernel(tr, m, Some(tr.TipStart(m, pNumber)), 0, qNumber - n - 1);
        EdgeCostSymmetric(Weights(tr, m), Row(tr, m, qNumber), Row(tr, m, pNumber));
      }
    } else {
      cost := EvalKernel(tr, m, None, qNumber - n - 1, pNumber - n - 1);
    }
  }

  /** `evaluateParsimonyIterative`: replays the descriptor and sums, over
      the partitions, the weighted score of the edge entry 0 names in the
      final vectors. */
  method EvaluateParsimonyIterative(tr: Tree) returns (result: nat)
    requires tr.Sites() && Replayable(tr.mxtips, tr.td.ti)
    requires |tr.td.ti| >= 1 && AnchorOk(tr.mxtips, tr.td.ti[0])
    modifies tr.pVec
    ensures tr.Sites()
    ensures result == EdgeScore(tr, tr.td.ti[0].pNumber, tr.td.ti[0].qNumber, |tr.cdta.partitions|)
    ensures Ordered(tr.td.ti) ==> forall k :: 1 <= k < |tr.td.ti| ==> StepHolds(tr, tr.td.ti[k])
    ensures forall m, v :: (0 <= m < |tr.cdta.partitions| && 1 <= v < 2 * tr.mxtips
                            && NotWrittenBefore(tr.td.ti, |tr.td.ti|, v)) ==> Row(tr, m, v) == old(Row(tr, m, v))
  {
    var pNumber := tr.td.ti[0].pNumber;
    var qNumber := tr.td.ti[0].qNumber;
    NewviewParsimonyIterative(tr);
    result := EvaluateEdge(tr, pNumber, qNumber);
  }

  /** The partition loop of `evaluateParsimonyIterative`: the score of
      edge p-q summed over all partitions. */
  method EvaluateEdge(tr: Tree, pNumber: nat, qNumber: nat) returns (result: nat)
    requires tr.Sites() && AnchorOk(tr.mxtips, TraversalInfo(TipTip, pNumber, qNumber, 0))
    ensures result == EdgeScore(tr, pNumber, qNumber, |tr.cdta.partitions|)
  {
    result := 0;
    var m := 0;
    var count := |tr.cdta.partitions|;
    while m < count
      invariant 0 <= m <= count == |tr.cdta.partitions|
      invariant tr.Sites()
      invariant result == EdgeScore(tr, pNumber, qNumber, m)
    {
      result := AddPartition(tr, m, pNumber, qNumber, result);
      m := m + 1;
    }
  }

  /** One pass of that loop: partition m's score added to the sum of the
      partitions before it. */
  method AddPartition(tr: Tree, m: nat, pNumber: nat, qNumber: nat, sum: nat) returns (result: nat)
    requires tr.Sites() && m < |tr.cdta.partitions|
    requires AnchorOk(tr.mxtips, TraversalInfo(TipTip, pNumber, qNumber, 0))
    requires sum == EdgeScore(tr, pNumber, qNumber, m)
    ensures tr.Sites()
    ensures result == EdgeScore(tr, pNumber, qNumber, m + 1)
  {
    var cost := EvaluatePartition(tr, m, pNumber, qNumber);
    result := sum + cost;
  }
}
