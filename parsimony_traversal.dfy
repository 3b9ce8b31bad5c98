/**
 * Building the traversal descriptor (`computeTraversalInfoParsimony`):
 * starting at a record p, the entries needed to make p's vector current
 * are appended in post-order, orienting each visited vertex with
 * `getxnode` on the way.  Vertices already oriented towards the caller
 * are not visited.
 *
 * RAxML recurses over the tree and repeats each orientation loop until its
 * flags are set; neither is bounded on a graph that is not a tree, so both
 * carry a `fuel` bound here and report `false` when it runs out (or where
 * RAxML would follow a NULL `back`).
 */
module ParsimonyTraversal {
  import opened ParsimonyKernels
  import opened ParsimonyTree
  import opened ParsimonyEval
  import opened ParsimonySubtree

  /** The vertices a run of entries writes. */
  function Written(s: seq<TraversalInfo>): set<nat>
  {
    set k | 0 <= k < |s| :: s[k].pNumber
  }

  /** `s1` is `s0` with entries appended. */
  predicate Extends(s0: seq<TraversalInfo>, s1: seq<TraversalInfo>)
  {
    |s0| <= |s1| && s1[..|s0|] == s0
  }

  /** The entries written since `start` split at any later point. */
  lemma WrittenGrow(s0: seq<TraversalInfo>, s1: seq<TraversalInfo>, start: nat)
    requires Extends(s0, s1) && start <= |s0|
    ensures Written(s1[start..]) == Written(s0[start..]) + Written(s1[|s0|..])
  {
    var a, b, c := s1[start..], s0[start..], s1[|s0|..];
    forall v | v in Written(a)
      ensures v in Written(b) + Written(c)
    {
      var k :| 0 <= k < |a| && a[k].pNumber == v;
      if k < |b| {
        assert b[k] == a[k];
      } else {
        assert c[k - |b|] == a[k];
      }
    }
    forall v | v in Written(b) + Written(c)
      ensures v in Written(a)
    {
      if v in Written(b) {
        var k :| 0 <= k < |b| && b[k].pNumber == v;
        assert a[k] == b[k];
      } else {
        var k :| 0 <= k < |c| && c[k].pNumber == v;
        assert a[|b| + k] == c[k];
      }
    }
  }

  /** Every vertex that the entries from `lo` on write or read is in `S`. */
  ghost predicate Within(s: seq<TraversalInfo>, lo: nat, S: set<nat>)
  {
    forall k :: lo <= k < |s| ==> s[k].pNumber in S && s[k].qNumber in S && s[k].rNumber in S
  }

  /** The vertices of the subtrees behind q and r. */
  ghost function Around(tr: Tree, q: nat, r: nat, fuel: nat): set<nat>
    reads tr.back
    requires Linked(tr) && tr.Layout().IsRecord(q) && tr.Layout().IsRecord(r)
    requires Nodes(tr, q, fuel).Some? && Nodes(tr, r, fuel).Some?
  {
    Nodes(tr, q, fuel).value + Nodes(tr, r, fuel).value
  }

  /** The links behind q and behind r form two trees that share no vertex
      and hold neither p's vertex: what the subtree behind an inner record
      p with neighbours q and r is made of. */
  ghost predicate Apart(tr: Tree, p: nat, q: nat, r: nat, fuel: nat)
    reads tr.back
    requires Linked(tr) && tr.Layout().IsRecord(p) && tr.Layout().IsRecord(q) && tr.Layout().IsRecord(r)
  {
    Nodes(tr, q, fuel).Some? && Nodes(tr, r, fuel).Some?
    && Nodes(tr, q, fuel).value !! Nodes(tr, r, fuel).value
    && tr.number[p] !in Around(tr, q, r, fuel)
  }

  /** Two runs over disjoint vertex sets, one after the other, make one
      run in post-order. */
  lemma JoinRuns(s0: seq<TraversalInfo>, s1: seq<TraversalInfo>, lo: nat, S: set<nat>, T: set<nat>)
    requires Extends(s0, s1) && lo <= |s0|
    requires OrderedFrom(s0, lo) && Within(s0, lo, S)
    requires OrderedFrom(s1, |s0|) && Within(s1, |s0|, T) && S !! T
    ensures OrderedFrom(s1, lo) && Within(s1, lo, S + T)
  {
    forall k | 0 <= k < |s0|
      ensures s1[k] == s0[k]
    {
      assert s1[..|s0|][k] == s1[k];
    }
  }

  /** A run followed by the entry of a vertex outside it, read from two of
      its vertices, is still in post-order. */
  lemma EmitRun(s0: seq<TraversalInfo>, e: TraversalInfo, lo: nat, S: set<nat>)
    requires lo <= |s0| && OrderedFrom(s0, lo) && Within(s0, lo, S)
    requires e.pNumber !in S && e.qNumber in S && e.rNumber in S
    ensures OrderedFrom(s0 + [e], lo) && Within(s0 + [e], lo, S + {e.pNumber})
  {
    var s1 := s0 + [e];
    assert forall k :: 0 <= k < |s0| ==> s1[k] == s0[k];
    assert s1[|s0|] == e;
  }

  /** The vertices a run within S writes are in S. */
  lemma WrittenWithin(s: seq<TraversalInfo>, lo: nat, S: set<nat>)
    requires lo <= |s| && Within(s, lo, S)
    ensures Written(s[lo..]) <= S
  {
    forall v | v in Written(s[lo..])
      ensures v in S
    {
      var k :| 0 <= k < |s[lo..]| && s[lo..][k].pNumber == v;
      assert s[lo + k] == s[lo..][k];
    }
  }

  /** The new entries since `start` are all well shaped. */
  predicate ShapedFrom(n: nat, s: seq<TraversalInfo>, start: nat)
  {
    forall j :: start <= j < |s| ==> WellShaped(n, s[j])
  }

  /** Every inner vertex whose x flag moved since `x0` was written by an
      entry from `start` on, except possibly `skip`. */
  ghost predicate MovedWritten(tr: Tree, x0: seq<nat>, start: nat, skip: int)
    reads tr.xrec, tr.td
    requires |x0| == tr.xrec.Length && start <= |tr.td.ti|
  {
    forall v :: 0 <= v < tr.xrec.Length && tr.xrec[v] != x0[v] && v != skip ==>
      tr.mxtips + 1 + v in Written(tr.td.ti[start..])
  }

  /** The neighbours of inner record p: the backs of its two other records. */
  ghost predicate HasNeighbours(tr: Tree, p: nat)
    reads tr.back, tr.xrec
    requires tr.Topo() && tr.Layout().IsInnerRecord(p)
  {
    CycleFacts(tr.Layout(), p);
    tr.Layout().IsRecord(tr.back[tr.Layout().Next(p)]) && tr.Layout().IsRecord(tr.back[tr.Layout().NextNext(p)])
  }

  /** e is p's entry: it writes p's vertex from p's two neighbours (in
      either order), and both neighbours are oriented. */
  ghost predicate EntryFor(tr: Tree, p: nat, e: TraversalInfo)
    reads tr.back, tr.xrec
    requires tr.Topo() && tr.Layout().IsInnerRecord(p)
  {
    var a := tr.Layout();
    HasNeighbours(tr, p)
    && (CycleFacts(a, p);
        var q := tr.back[a.Next(p)];
        var r := tr.back[a.NextNext(p)];
        e.pNumber == a.Number(p)
        && ((e.qNumber == a.Number(q) && e.rNumber == a.Number(r))
            || (e.qNumber == a.Number(r) && e.rNumber == a.Number(q)))
        && tr.IsX(q) && tr.IsX(r))
  }

  /** `computeTraversalInfoParsimony(p, ti, counter, maxTips)`.
      A tip appends nothing and changes nothing.  For an inner p, entries
      are only appended; each is well shaped; when the run completes, p is
      oriented, the last entry is p's own and names its two neighbours
      (tips first in the TIP_INNER case), which are oriented; and every
      vertex whose orientation changed has an entry among the new ones. */
  method ComputeTraversalInfoParsimony(tr: Tree, p: nat, fuel: nat) returns (ok: bool)
    requires tr.Topo() && tr.Layout().IsRecord(p)
    modifies tr.td, tr.xrec
    ensures tr.Topo()
    ensures Extends(old(tr.td.ti), tr.td.ti)
    ensures ShapedFrom(tr.mxtips, tr.td.ti, |old(tr.td.ti)|)
    ensures p <= tr.mxtips ==> ok && tr.td.ti == old(tr.td.ti) && tr.xrec[..] == old(tr.xrec[..])
    ensures ok ==> tr.IsX(p)
    ensures ok && tr.mxtips < p ==>
              |tr.td.ti| > |old(tr.td.ti)| && EntryFor(tr, p, tr.td.ti[|tr.td.ti| - 1])
    ensures ok ==> MovedWritten(tr, old(tr.xrec[..]), |old(tr.td.ti)|, -1)
    ensures Nodes(tr, p, fuel).Some? ==>
              ok && OrderedFrom(tr.td.ti, |old(tr.td.ti)|)
              && Within(tr.td.ti, |old(tr.td.ti)|, Nodes(tr, p, fuel).value)
    decreases fuel, 6
  {
    TipIffTipNumber(tr.Layout(), p);
    if tr.number[p] <= tr.mxtips {
      return true;
    }
    ok := ComputeInner(tr, p, fuel);
  }

  /** computeTraversalInfoParsimony for an inner record p. */
  method ComputeInner(tr: Tree, p: nat, fuel: nat) returns (ok: bool)
    requires tr.Topo() && tr.Layout().IsInnerRecord(p)
    modifies tr.td, tr.xrec
    ensures tr.Topo()
    ensures Extends(old(tr.td.ti), tr.td.ti)
    ensures ShapedFrom(tr.mxtips, tr.td.ti, |old(tr.td.ti)|)
    ensures ok ==> tr.IsX(p)
    ensures ok ==> |tr.td.ti| > |old(tr.td.ti)| && EntryFor(tr, p, tr.td.ti[|tr.td.ti| - 1])
    ensures ok ==> MovedWritten(tr, old(tr.xrec[..]), |old(tr.td.ti)|, -1)
    ensures Nodes(tr, p, fuel).Some? ==>
              ok && OrderedFrom(tr.td.ti, |old(tr.td.ti)|)
              && Within(tr.td.ti, |old(tr.td.ti)|, Nodes(tr, p, fuel).value)
    decreases fuel, 5
  {
    ghost var x0 := tr.xrec[..];
    ghost var start := |tr.td.ti|;
    if fuel == 0 {
      return false;
    }
    CycleFacts(tr.Layout(), p);
    if tr.back[tr.next[p]] == NULL || tr.back[tr.next[tr.next[p]]] == NULL {
      return false;
    }
    var tipCase, q, r := Classify(tr, p);
    if Nodes(tr, p, fuel).Some? {
      NodesSplit(tr, p, q, r, fuel);
    }
    ok := Orient(tr, p, tipCase, q, r, fuel);
    if ok {
      Emit(tr, p, tipCase, q, r, x0, start, fuel);
    }
  }

  /** The subtree behind an inner record p is p's vertex and the subtrees
      behind its two neighbours, taken in either order. */
  lemma NodesSplit(tr: Tree, p: nat, q: nat, r: nat, fuel: nat)
    requires tr.Topo() && tr.Layout().IsInnerRecord(p) && tr.Layout().IsRecord(q) && tr.Layout().IsRecord(r)
    requires (CycleFacts(tr.Layout(), p);
              var q0 := tr.back[tr.Layout().Next(p)];
              var r0 := tr.back[tr.Layout().NextNext(p)];
              (q == q0 && r == r0) || (q == r0 && r == q0))
    requires Nodes(tr, p, fuel).Some?
    ensures 1 <= fuel && Apart(tr, p, q, r, fuel - 1)
    ensures Nodes(tr, p, fuel).value == {tr.number[p]} + Around(tr, q, r, fuel - 1)
  {
    CycleFacts(tr.Layout(), p);
  }

  /** The orientation step of either case: `getxnode(p)` alone when both
      neighbours are tips, the orientation loop otherwise. */
  method Orient(tr: Tree, p: nat, tipCase: TipCase, q: nat, r: nat, fuel: nat) returns (ok: bool)
    requires tr.Topo() && tr.Layout().IsInnerRecord(p) && tr.Layout().IsRecord(q) && tr.Layout().IsRecord(r)
    requires tipCase == TipTip ==> q <= tr.mxtips && r <= tr.mxtips
    modifies tr.td, tr.xrec
    ensures tr.Topo()
    ensures Extends(old(tr.td.ti), tr.td.ti)
    ensures ShapedFrom(tr.mxtips, tr.td.ti, |old(tr.td.ti)|)
    ensures ok ==> tr.IsX(p) && tr.IsX(q) && tr.IsX(r)
    ensures ok ==> MovedWritten(tr, old(tr.xrec[..]), |old(tr.td.ti)|, tr.InnerIndex(p))
    ensures 1 <= fuel && Apart(tr, p, q, r, fuel - 1) ==>
              ok && OrderedFrom(tr.td.ti, |old(tr.td.ti)|)
              && Within(tr.td.ti, |old(tr.td.ti)|, Around(tr, q, r, fuel - 1))
    decreases fuel, 4
  {
    if tipCase == TipTip {
      OrientSelf(tr, p);
      ok := true;
    } else {
      ok := OrientLoop(tr, p, q, r, fuel);
    }
  }

  /** The case analysis of computeTraversalInfoParsimony: q and r are
      p's neighbours `p->next->back` and `p->next->next->back`, swapped in
      the TIP_INNER case when r is the tip, so that q is the tip there. */
  method Classify(tr: Tree, p: nat) returns (tipCase: TipCase, q: nat, r: nat)
    requires tr.Topo() && tr.Layout().IsInnerRecord(p) && HasNeighbours(tr, p)
    ensures tr.Layout().IsRecord(q) && tr.Layout().IsRecord(r)
    ensures (CycleFacts(tr.Layout(), p);
             var q0 := tr.back[tr.Layout().Next(p)];
             var r0 := tr.back[tr.Layout().NextNext(p)];
             (q == q0 && r == r0) || (tipCase == TipInner && q == r0 && r == q0))
    ensures WellShaped(tr.mxtips, TraversalInfo(tipCase, tr.number[p], tr.number[q], tr.number[r]))
    ensures tipCase == TipTip <==> q <= tr.mxtips && r <= tr.mxtips
  {
    var n := tr.mxtips;
    ghost var a := tr.Layout();
    CycleFacts(a, p);
    q := tr.back[tr.next[p]];
    r := tr.back[tr.next[tr.next[p]]];
    TipIffTipNumber(a, q);
    TipIffTipNumber(a, r);
    assert a.number[q] < 2 * n by {
      if q > n { assert a.CycleOk(q); }
    }
    assert a.number[r] < 2 * n by {
      if r > n { assert a.CycleOk(r); }
    }
    if tr.number[r] <= n && tr.number[q] <= n {
      tipCase := TipTip;
    } else if tr.number[r] <= n || tr.number[q] <= n {
      if tr.number[r] <= n {
        q, r := r, q;
      }
      tipCase := TipInner;
    } else {
      tipCase := InnerInner;
    }
  }

  /** The TIP_TIP case's `while (!p->x) getxnode(p)`: orients p and
      changes no other flag. */
  method OrientSelf(tr: Tree, p: nat)
    requires tr.Topo() && tr.Layout().IsInnerRecord(p)
    modifies tr.xrec
    ensures tr.Topo() && tr.IsX(p)
    ensures forall v :: 0 <= v < tr.xrec.Length && v != tr.InnerIndex(p) ==> tr.xrec[v] == old(tr.xrec[v])
    ensures MovedWritten(tr, old(tr.xrec[..]), |tr.td.ti|, tr.InnerIndex(p))
  {
    while !tr.IsX(p)
      invariant tr.Topo()
      invariant forall v :: 0 <= v < tr.xrec.Length && v != tr.InnerIndex(p) ==> tr.xrec[v] == old(tr.xrec[v])
      decreases if tr.IsX(p) then 0 else 1
    {
      if !tr.IsX(p) {
        tr.GetXNode(p);
      }
    }
  }

  /** Appending p's entry `ti[*counter]` once p and both children are
      oriented. */
  method Emit(tr: Tree, p: nat, tipCase: TipCase, q: nat, r: nat, ghost x0: seq<nat>, ghost start: nat,
              ghost fuel: nat)
    requires tr.Topo() && tr.Layout().IsInnerRecord(p) && tr.Layout().IsRecord(q) && tr.Layout().IsRecord(r)
    requires (CycleFacts(tr.Layout(), p);
              var q0 := tr.back[tr.Layout().Next(p)];
              var r0 := tr.back[tr.Layout().NextNext(p)];
              (q == q0 && r == r0) || (q == r0 && r == q0))
    requires tr.IsX(p) && tr.IsX(q) && tr.IsX(r)
    requires WellShaped(tr.mxtips, TraversalInfo(tipCase, tr.number[p], tr.number[q], tr.number[r]))
    requires |x0| == tr.xrec.Length && start <= |tr.td.ti|
    requires MovedWritten(tr, x0, start, tr.InnerIndex(p))
    requires ShapedFrom(tr.mxtips, tr.td.ti, start)
    requires Nodes(tr, p, fuel).Some? ==>
               1 <= fuel && Apart(tr, p, q, r, fuel - 1)
               && Nodes(tr, p, fuel).value == {tr.number[p]} + Around(tr, q, r, fuel - 1)
               && OrderedFrom(tr.td.ti, start) && Within(tr.td.ti, start, Around(tr, q, r, fuel - 1))
    modifies tr.td
    ensures tr.Topo()
    ensures tr.td.ti == old(tr.td.ti) + [TraversalInfo(tipCase, tr.number[p], tr.number[q], tr.number[r])]
    ensures Extends(old(tr.td.ti), tr.td.ti)
    ensures ShapedFrom(tr.mxtips, tr.td.ti, start)
    ensures MovedWritten(tr, x0, start, -1)
    ensures EntryFor(tr, p, tr.td.ti[|tr.td.ti| - 1])
    ensures Nodes(tr, p, fuel).Some? ==>
              OrderedFrom(tr.td.ti, start) && Within(tr.td.ti, start, Nodes(tr, p, fuel).value)
  {
    ghost var mid := tr.td.ti;
    var e := TraversalInfo(tipCase, tr.number[p], tr.number[q], tr.number[r]);
    tr.td.ti := tr.td.ti + [e];
    assert tr.td.ti[..|mid|] == mid;
    WrittenGrow(mid, tr.td.ti, start);
    assert tr.td.ti[|mid|..] == [e];
    assert tr.td.ti[|mid|..][0].pNumber == tr.number[p];
    assert tr.number[p] in Written(tr.td.ti[|mid|..]);
    assert tr.Layout().CycleOk(p);
    if Nodes(tr, p, fuel).Some? {
      CloseRun(tr, p, q, r, fuel, mid, e, start);
    }
  }

  /** p's entry after the run of its two subtrees completes a run in
      post-order within the subtree behind p. */
  lemma CloseRun(tr: Tree, p: nat, q: nat, r: nat, fuel: nat, s: seq<TraversalInfo>, e: TraversalInfo, start: nat)
    requires Linked(tr) && tr.Layout().IsRecord(p) && tr.Layout().IsRecord(q) && tr.Layout().IsRecord(r)
    requires Nodes(tr, p, fuel).Some? && 1 <= fuel && Apart(tr, p, q, r, fuel - 1)
    requires Nodes(tr, p, fuel).value == {tr.number[p]} + Around(tr, q, r, fuel - 1)
    requires start <= |s| && OrderedFrom(s, start) && Within(s, start, Around(tr, q, r, fuel - 1))
    requires e.pNumber == tr.number[p] && e.qNumber == tr.number[q] && e.rNumber == tr.number[r]
    ensures OrderedFrom(s + [e], start) && Within(s + [e], start, Nodes(tr, p, fuel).value)
  {
    NodesInRange(tr, q, fuel - 1);
    NodesInRange(tr, r, fuel - 1);
    EmitRun(s, e, start, Around(tr, q, r, fuel - 1));
  }

  /** The orientation loop of the TIP_INNER and INNER_INNER cases:
      `while (!p->x || !q->x || !r->x)` traverse from each unoriented child,
      then orient p.  (In the TIP_INNER case q is a tip, which always counts
      as oriented, so the test of q never fires.)  On completion p, q and r
      are oriented; entries are only appended; every vertex whose
      orientation changed, other than p's, has an entry among the new
      ones. */
  method OrientLoop(tr: Tree, p: nat, q: nat, r: nat, fuel: nat) returns (ok: bool)
    requires tr.Topo() && tr.Layout().IsInnerRecord(p) && tr.Layout().IsRecord(q) && tr.Layout().IsRecord(r)
    modifies tr.td, tr.xrec
    ensures tr.Topo()
    ensures Extends(old(tr.td.ti), tr.td.ti)
    ensures ShapedFrom(tr.mxtips, tr.td.ti, |old(tr.td.ti)|)
    ensures ok ==> tr.IsX(p) && tr.IsX(q) && tr.IsX(r)
    ensures ok ==> MovedWritten(tr, old(tr.xrec[..]), |old(tr.td.ti)|, tr.InnerIndex(p))
    ensures 1 <= fuel && Apart(tr, p, q, r, fuel - 1) ==>
              ok && OrderedFrom(tr.td.ti, |old(tr.td.ti)|)
              && Within(tr.td.ti, |old(tr.td.ti)|, Around(tr, q, r, fuel - 1))
    decreases fuel, 3
  {
    ghost var x0 := tr.xrec[..];
    ghost var start := |tr.td.ti|;
    ghost var tree := 1 <= fuel && Apart(tr, p, q, r, fuel - 1);
    var budget: nat := fuel;
    while !tr.IsX(p) || !tr.IsX(q) || !tr.IsX(r)
      invariant tr.Topo()
      invariant Extends(old(tr.td.ti), tr.td.ti)
      invariant ShapedFrom(tr.mxtips, tr.td.ti, start)
      invariant MovedWritten(tr, x0, start, tr.InnerIndex(p))
      invariant budget <= fuel
      invariant budget == fuel ==> |tr.td.ti| == start
      invariant tree && budget < fuel ==>
                  tr.IsX(p) && tr.IsX(q) && tr.IsX(r)
                  && OrderedFrom(tr.td.ti, start) && Within(tr.td.ti, start, Around(tr, q, r, fuel - 1))
      decreases budget
    {
      if budget == 0 {
        return false;
      }
      budget := budget - 1;
      ok := OrientPass(tr, p, q, r, x0, start, fuel);
      if !ok {
        return false;
      }
    }
    ok := true;
  }

  /** One pass of the orientation loop's body: traverse from q if it is not
      oriented, then from r, then orient p. */
  method OrientPass(tr: Tree, p: nat, q: nat, r: nat, ghost x0: seq<nat>, ghost start: nat, fuel: nat)
    returns (ok: bool)
    requires tr.Topo() && tr.Layout().IsInnerRecord(p) && tr.Layout().IsRecord(q) && tr.Layout().IsRecord(r)
    requires |x0| == tr.xrec.Length && start <= |tr.td.ti|
    requires ShapedFrom(tr.mxtips, tr.td.ti, start)
    requires MovedWritten(tr, x0, start, tr.InnerIndex(p))
    modifies tr.td, tr.xrec
    ensures tr.Topo()
    ensures Extends(old(tr.td.ti), tr.td.ti)
    ensures ShapedFrom(tr.mxtips, tr.td.ti, start)
    ensures ok ==> MovedWritten(tr, x0, start, tr.InnerIndex(p))
    ensures 1 <= fuel && Apart(tr, p, q, r, fuel - 1) ==>
              ok && tr.IsX(p) && tr.IsX(q) && tr.IsX(r) && OrderedFrom(tr.td.ti, |old(tr.td.ti)|)
              && Within(tr.td.ti, |old(tr.td.ti)|, Around(tr, q, r, fuel - 1))
    decreases fuel, 2
  {
    ghost var tree := 1 <= fuel && Apart(tr, p, q, r, fuel - 1);
    ok := DescendBoth(tr, p, q, r, x0, start, fuel);
    if !ok {
      return false;
    }
    ghost var x1 := tr.xrec[..];
    if !tr.IsX(p) {
      tr.GetXNode(p);
    }
    if tree {
      OtherSlot(tr, p, q, x1, fuel - 1);
      OtherSlot(tr, p, r, x1, fuel - 1);
    }
  }

  /** The two traversals of one pass, from q and then from r: on two
      disjoint subtrees without p both end oriented, after one post-order
      run over the two subtrees. */
  method DescendBoth(tr: Tree, p: nat, q: nat, r: nat, ghost x0: seq<nat>, ghost start: nat, fuel: nat)
    returns (ok: bool)
    requires tr.Topo() && tr.Layout().IsInnerRecord(p) && tr.Layout().IsRecord(q) && tr.Layout().IsRecord(r)
    requires |x0| == tr.xrec.Length && start <= |tr.td.ti|
    requires ShapedFrom(tr.mxtips, tr.td.ti, start)
    requires MovedWritten(tr, x0, start, tr.InnerIndex(p))
    modifies tr.td, tr.xrec
    ensures tr.Topo()
    ensures Extends(old(tr.td.ti), tr.td.ti)
    ensures ShapedFrom(tr.mxtips, tr.td.ti, start)
    ensures ok ==> MovedWritten(tr, x0, start, tr.InnerIndex(p))
    ensures 1 <= fuel && Apart(tr, p, q, r, fuel - 1) ==>
              ok && tr.IsX(q) && tr.IsX(r) && OrderedFrom(tr.td.ti, |old(tr.td.ti)|)
              && Within(tr.td.ti, |old(tr.td.ti)|, Around(tr, q, r, fuel - 1))
    decreases fuel, 1
  {
    ghost var tree := 1 <= fuel && Apart(tr, p, q, r, fuel - 1);
    ghost var s0 := tr.td.ti;
    ok := Descend(tr, p, q, x0, start, fuel);
    if !ok {
      return false;
    }
    ghost var mid := tr.td.ti;
    ghost var xm := tr.xrec[..];
    ok := Descend(tr, p, r, x0, start, fuel);
    if !ok {
      return false;
    }
    if tree {
      KeepsOriented(tr, q, xm, fuel - 1, r);
      JoinRuns(mid, tr.td.ti, |s0|, Nodes(tr, q, fuel - 1).value, Nodes(tr, r, fuel - 1).value);
    }
  }

  /** A traversal from c that changed flags only inside the subtree behind
      c leaves a neighbour q outside it as oriented as it was. */
  lemma KeepsOriented(tr: Tree, q: nat, xm: seq<nat>, fuel: nat, c: nat)
    requires tr.Topo() && tr.Layout().IsRecord(q) && tr.Layout().IsRecord(c) && |xm| == tr.xrec.Length
    requires Nodes(tr, q, fuel).Some? && Nodes(tr, c, fuel).Some?
    requires Nodes(tr, q, fuel).value !! Nodes(tr, c, fuel).value
    requires q > tr.mxtips ==> xm[tr.InnerIndex(q)] == q
    requires forall v :: 0 <= v < tr.xrec.Length && tr.xrec[v] != xm[v] ==> tr.mxtips + 1 + v in Nodes(tr, c, fuel).value
    ensures tr.IsX(q)
  {
    NodesInRange(tr, q, fuel);
  }

  /** Orienting p leaves a neighbour q whose subtree does not hold p's
      vertex as oriented as it was. */
  lemma OtherSlot(tr: Tree, p: nat, q: nat, x1: seq<nat>, fuel: nat)
    requires tr.Topo() && tr.Layout().IsInnerRecord(p) && tr.Layout().IsRecord(q) && |x1| == tr.xrec.Length
    requires Nodes(tr, q, fuel).Some? && tr.number[p] !in Nodes(tr, q, fuel).value
    requires q > tr.mxtips ==> x1[tr.InnerIndex(q)] == q
    requires forall v :: 0 <= v < tr.xrec.Length && v != tr.InnerIndex(p) ==> tr.xrec[v] == x1[v]
    ensures tr.IsX(q)
  {
    NodesInRange(tr, q, fuel);
  }

  /** One recursive traversal inside the orientation loop, from c when c
      is not oriented, keeping the loop's invariant. */
  method Descend(tr: Tree, p: nat, c: nat, ghost x0: seq<nat>, ghost start: nat, fuel: nat)
    returns (ok: bool)
    requires tr.Topo() && tr.Layout().IsInnerRecord(p) && tr.Layout().IsRecord(c)
    requires |x0| == tr.xrec.Length && start <= |tr.td.ti|
    requires ShapedFrom(tr.mxtips, tr.td.ti, start)
    requires MovedWritten(tr, x0, start, tr.InnerIndex(p))
    modifies tr.td, tr.xrec
    ensures tr.Topo()
    ensures Extends(old(tr.td.ti), tr.td.ti)
    ensures ShapedFrom(tr.mxtips, tr.td.ti, start)
    ensures ok ==> tr.IsX(c)
    ensures ok ==> MovedWritten(tr, x0, start, tr.InnerIndex(p))
    ensures 1 <= fuel && Nodes(tr, c, fuel - 1).Some? ==>
              ok && OrderedFrom(tr.td.ti, |old(tr.td.ti)|)
              && Within(tr.td.ti, |old(tr.td.ti)|, Nodes(tr, c, fuel - 1).value)
              && forall v :: 0 <= v < tr.xrec.Length && tr.xrec[v] != old(tr.xrec[v]) ==>
                   tr.mxtips + 1 + v in Nodes(tr, c, fuel - 1).value
    decreases fuel, 0
  {
    ghost var mid := tr.td.ti;
    ghost var xm := tr.xrec[..];
    if tr.IsX(c) {
      return true;
    }
    if fuel == 0 {
      return false;
    }
    ok := ComputeTraversalInfoParsimony(tr, c, fuel - 1);
    ShapedGrow(tr.mxtips, mid, tr.td.ti, start);
    if ok {
      MovedGrow(tr, x0, xm, mid, start, tr.InnerIndex(p));
      if Nodes(tr, c, fuel - 1).Some? {
        MovedWithin(tr, xm, |mid|, Nodes(tr, c, fuel - 1).value);
      }
    }
  }

  /** Shaped entries before and after an extension point make a shaped run. */
  lemma ShapedGrow(n: nat, s0: seq<TraversalInfo>, s1: seq<TraversalInfo>, start: nat)
    requires Extends(s0, s1) && start <= |s0|
    requires ShapedFrom(n, s0, start) && ShapedFrom(n, s1, |s0|)
    ensures ShapedFrom(n, s1, start)
  {
    assert forall j :: start <= j < |s0| ==> s1[j] == s0[..|s0|][j] == s0[j];
  }

  /** Flags moved before `mid` was reached were written from `start` on,
      and flags moved since were written after `mid`: together they were
      written from `start` on. */
  lemma MovedGrow(tr: Tree, x0: seq<nat>, xm: seq<nat>, mid: seq<TraversalInfo>, start: nat, skip: int)
    requires |x0| == tr.xrec.Length && |xm| == tr.xrec.Length
    requires Extends(mid, tr.td.ti) && start <= |mid|
    requires forall v :: 0 <= v < |xm| && xm[v] != x0[v] && v != skip ==> tr.mxtips + 1 + v in Written(mid[start..])
    requires MovedWritten(tr, xm, |mid|, -1)
    ensures MovedWritten(tr, x0, start, skip)
  {
    WrittenGrow(mid, tr.td.ti, start);
  }

  /** Flags moved by a run that stays within S belong to vertices of S. */
  lemma MovedWithin(tr: Tree, xm: seq<nat>, lo: nat, S: set<nat>)
    requires |xm| == tr.xrec.Length && lo <= |tr.td.ti|
    requires MovedWritten(tr, xm, lo, -1) && Within(tr.td.ti, lo, S)
    ensures forall v :: 0 <= v < tr.xrec.Length && tr.xrec[v] != xm[v] ==> tr.mxtips + 1 + v in S
  {
    WrittenWithin(tr.td.ti, lo, S);
  }
}
