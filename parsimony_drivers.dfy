/**
 * The drivers over the traversal descriptor: `newviewParsimony` makes one
 * vertex's vectors current, `evaluateParsimony` scores one edge, and the
 * `initrav` family walks a subtree making every vertex current.
 *
 * Every driver passes a `fuel` bound to the traversal; the search code
 * passes `2 * mxtips`, which a tree with `mxtips` taxa never exhausts.
 */
module ParsimonyDrivers {
  import opened ParsimonyKernels
  import opened ParsimonyTree
  import opened ParsimonyEval
  import opened ParsimonyTraversal
  import opened ParsimonySubtree

  /** The fuel the search code gives each traversal. */
  function Fuel(tr: Tree): nat
  {
    2 * tr.mxtips
  }

  /** The links on either side of the edge p-q (q = p->back) form two
      trees that share no vertex. */
  ghost predicate TreeAt(tr: Tree, p: nat, fuel: nat)
    reads tr.back
    requires Linked(tr) && tr.Layout().IsRecord(p) && tr.Layout().IsRecord(tr.back[p])
  {
    Nodes(tr, p, fuel).Some? && Nodes(tr, tr.back[p], fuel).Some?
    && Nodes(tr, p, fuel).value !! Nodes(tr, tr.back[p], fuel).value
  }

  /** `newviewParsimony(tr, p)`: nothing for a tip.  For an inner record
      the descriptor is reset to its anchor entry, the entries that make p
      current are appended, and they are replayed when there are any.  On
      success p is oriented, the last entry is p's own, and, when the
      descriptor is in post-order, p's vectors are the Fitch step of its
      two neighbours' rows. */
  method NewviewParsimony(tr: Tree, p: nat, fuel: nat) returns (ok: bool)
    requires tr.Topo() && tr.Sites() && tr.Layout().IsRecord(p) && |tr.td.ti| >= 1
    modifies tr.td, tr.xrec, tr.pVec
    ensures tr.Topo() && tr.Sites()
    ensures |tr.td.ti| >= 1 && tr.td.ti[0] == old(tr.td.ti[0])
    ensures p <= tr.mxtips ==>
              ok && tr.td.ti == old(tr.td.ti) && tr.xrec[..] == old(tr.xrec[..]) && unchanged(tr.pVec)
    ensures ok ==> tr.IsX(p)
    ensures tr.mxtips < p ==> Replayable(tr.mxtips, tr.td.ti)
    ensures ok && tr.mxtips < p ==> |tr.td.ti| > 1 && EntryFor(tr, p, tr.td.ti[|tr.td.ti| - 1])
    ensures ok && tr.mxtips < p && Ordered(tr.td.ti) ==> StepHolds(tr, tr.td.ti[|tr.td.ti| - 1])
    ensures tr.mxtips < p && Nodes(tr, p, fuel).Some? ==>
              ok && Ordered(tr.td.ti) && forall k :: 1 <= k < |tr.td.ti| ==> StepHolds(tr, tr.td.ti[k])
  {
    TipIffTipNumber(tr.Layout(), p);
    if tr.number[p] <= tr.mxtips {
      return true;
    }
    tr.td.ti := tr.td.ti[..1];
    ok := ComputeTraversalInfoParsimony(tr, p, fuel);
    if |tr.td.ti| > 1 {
      NewviewParsimonyIterative(tr);
    }
  }

  /** `evaluateParsimony(tr, p)`: the descriptor is reset to the anchor
      entry naming the edge p-q (q = p->back), the ends that are not
      oriented are made current, and the edge is scored.  The score is the
      weighted Fitch score of the edge in the final vectors, summed over
      the partitions. */
  method EvaluateParsimony(tr: Tree, p: nat, fuel: nat) returns (result: nat, ok: bool)
    requires tr.Topo() && tr.Sites() && tr.Layout().IsRecord(p) && |tr.td.ti| >= 1
    requires tr.Layout().IsRecord(tr.back[p])
    requires !(p <= tr.mxtips && tr.back[p] <= tr.mxtips)
    modifies tr.td, tr.xrec, tr.pVec
    ensures tr.Topo() && tr.Sites()
    ensures |tr.td.ti| >= 1 && Replayable(tr.mxtips, tr.td.ti)
    ensures tr.td.ti[0] == old(tr.td.ti[0]).(pNumber := tr.number[p], qNumber := tr.number[tr.back[p]])
    ensures ok ==> tr.IsX(tr.back[p])
    ensures (TipIffTipNumber(tr.Layout(), p); TipIffTipNumber(tr.Layout(), tr.back[p]);
             result == EdgeScore(tr, tr.number[p], tr.number[tr.back[p]], |tr.cdta.partitions|))
    ensures Ordered(tr.td.ti) ==> forall k :: 1 <= k < |tr.td.ti| ==> StepHolds(tr, tr.td.ti[k])
    ensures TreeAt(tr, p, fuel) ==> ok && Ordered(tr.td.ti)
  {
    var q := tr.back[p];
    TipIffTipNumber(tr.Layout(), p);
    TipIffTipNumber(tr.Layout(), q);
    tr.td.ti := [tr.td.ti[0].(pNumber := tr.number[p], qNumber := tr.number[q])];
    ok := OrientEnds(tr, p, q, fuel);
    result := EvaluateParsimonyIterative(tr);
  }

  /** The two traversals of `evaluateParsimony`: from p unless it is
      oriented, then from q unless it is oriented.  Entries are only
      appended to the anchor. */
  method OrientEnds(tr: Tree, p: nat, q: nat, fuel: nat) returns (ok: bool)
    requires tr.Topo() && tr.Sites() && tr.Layout().IsRecord(p) && tr.Layout().IsRecord(q)
    requires |tr.td.ti| == 1
    modifies tr.td, tr.xrec
    ensures tr.Topo() && tr.Sites()
    ensures |tr.td.ti| >= 1 && tr.td.ti[0] == old(tr.td.ti[0])
    ensures Replayable(tr.mxtips, tr.td.ti)
    ensures ok ==> tr.IsX(q)
    ensures Nodes(tr, p, fuel).Some? && Nodes(tr, q, fuel).Some? && Nodes(tr, p, fuel).value !! Nodes(tr, q, fuel).value ==>
              ok && Ordered(tr.td.ti)
  {
    ok := true;
    if !tr.IsX(p) {
      ok := ComputeTraversalInfoParsimony(tr, p, fuel);
    }
    ghost var mid := tr.td.ti;
    if !tr.IsX(q) {
      var okQ := ComputeTraversalInfoParsimony(tr, q, fuel);
      ok := ok && okQ;
      assert forall j :: 1 <= j < |mid| ==> tr.td.ti[j] == mid[j];
      if Nodes(tr, p, fuel).Some? && Nodes(tr, q, fuel).Some? && Nodes(tr, p, fuel).value !! Nodes(tr, q, fuel).value {
        JoinRuns(mid, tr.td.ti, 1, Nodes(tr, p, fuel).value, Nodes(tr, q, fuel).value);
      }
    }
  }

  /** `initravParsimonyNormal(tr, p)`: for an inner p, the do-while loop
      over p's cycle walks the subtrees behind p->next and p->next->next,
      then p is made current.  A tip is left alone.  The walk fails where
      RAxML would follow a NULL `back` or when the fuel runs out; it goes
      on with the remaining work after a failed subtree, as RAxML does. */
  method InitravParsimonyNormal(tr: Tree, p: nat, fuel: nat) returns (ok: bool)
    requires tr.Topo() && tr.Sites() && tr.Layout().IsRecord(p) && |tr.td.ti| >= 1
    modifies tr.td, tr.xrec, tr.pVec
    ensures tr.Topo() && tr.Sites()
    ensures |tr.td.ti| >= 1 && tr.td.ti[0] == old(tr.td.ti[0])
    ensures p <= tr.mxtips ==>
              ok && tr.td.ti == old(tr.td.ti) && tr.xrec[..] == old(tr.xrec[..]) && unchanged(tr.pVec)
    ensures ok && tr.mxtips < p ==>
              tr.IsX(p) && |tr.td.ti| > 1 && Replayable(tr.mxtips, tr.td.ti) && EntryFor(tr, p, tr.td.ti[|tr.td.ti| - 1])
    ensures ok && tr.mxtips < p && Ordered(tr.td.ti) ==> StepHolds(tr, tr.td.ti[|tr.td.ti| - 1])
    ensures tr.mxtips < p && 1 <= fuel && Nodes(tr, p, Fuel(tr)).Some? ==>
              tr.IsX(p) && Replayable(tr.mxtips, tr.td.ti) && Ordered(tr.td.ti)
              && forall k :: 1 <= k < |tr.td.ti| ==> StepHolds(tr, tr.td.ti[k])
    decreases fuel, 2
  {
    TipIffTipNumber(tr.Layout(), p);
    if tr.number[p] <= tr.mxtips {
      return true;
    }
    if fuel == 0 {
      return false;
    }
    ok := InitravChildren(tr, p, fuel);
    var okP := NewviewParsimony(tr, p, Fuel(tr));
    ok := ok && okP;
  }

  /** The do-while loop of `initravParsimonyNormal` over p's cycle: the
      subtrees behind p->next and p->next->next are walked in turn.  On
      success both arms are linked and the child walked last is current. */
  method InitravChildren(tr: Tree, p: nat, fuel: nat) returns (ok: bool)
    requires tr.Topo() && tr.Sites() && tr.Layout().IsInnerRecord(p) && |tr.td.ti| >= 1 && fuel >= 1
    modifies tr.td, tr.xrec, tr.pVec
    ensures tr.Topo() && tr.Sites()
    ensures |tr.td.ti| >= 1 && tr.td.ti[0] == old(tr.td.ti[0])
    ensures ok ==> (CycleFacts(tr.Layout(), p);
                    tr.Layout().IsRecord(tr.back[tr.next[p]]) && tr.Layout().IsRecord(tr.back[tr.next[tr.next[p]]])
                    && tr.IsX(tr.back[tr.next[tr.next[p]]]))
    decreases fuel, 1
  {
    CycleFacts(tr.Layout(), p);
    ok := true;
    var q := tr.next[p];
    while q != p
      invariant q == tr.next[p] || q == tr.next[tr.next[p]] || q == p
      invariant tr.Topo() && tr.Sites()
      invariant |tr.td.ti| >= 1 && tr.td.ti[0] == old(tr.td.ti[0])
      invariant ok && q != tr.next[p] ==> tr.Layout().IsRecord(tr.back[tr.next[p]])
      invariant ok && q == p ==>
                  tr.Layout().IsRecord(tr.back[tr.next[tr.next[p]]]) && tr.IsX(tr.back[tr.next[tr.next[p]]])
      decreases if q == tr.next[p] then 2 else if q == p then 0 else 1
    {
      if tr.back[q] == NULL {
        return false;
      }
      var okChild := InitravParsimonyNormal(tr, tr.back[q], fuel - 1);
      ok := ok && okChild;
      q := tr.next[q];
    }
  }

  /** `initravDISTParsimony(tr, p, distance)`: as `initravParsimonyNormal`
      but only while `distance` is positive; the loop decrements it before
      each subtree, so the subtree behind p->next gets `distance - 1` and
      the one behind p->next->next `distance - 2`.  With distance 1 only p
      itself is made current. */
  method InitravDISTParsimony(tr: Tree, p: nat, distance: int) returns (ok: bool)
    requires tr.Topo() && tr.Sites() && tr.Layout().IsRecord(p) && |tr.td.ti| >= 1
    modifies tr.td, tr.xrec, tr.pVec
    ensures tr.Topo() && tr.Sites()
    ensures |tr.td.ti| >= 1 && tr.td.ti[0] == old(tr.td.ti[0])
    ensures p <= tr.mxtips || distance <= 0 ==>
              ok && tr.td.ti == old(tr.td.ti) && tr.xrec[..] == old(tr.xrec[..]) && unchanged(tr.pVec)
    ensures ok && tr.mxtips < p && distance > 0 ==>
              tr.IsX(p) && |tr.td.ti| > 1 && Replayable(tr.mxtips, tr.td.ti) && EntryFor(tr, p, tr.td.ti[|tr.td.ti| - 1])
    ensures ok && tr.mxtips < p && distance > 0 && Ordered(tr.td.ti) ==> StepHolds(tr, tr.td.ti[|tr.td.ti| - 1])
    ensures tr.mxtips < p && distance > 0 && Nodes(tr, p, Fuel(tr)).Some? ==>
              tr.IsX(p) && Replayable(tr.mxtips, tr.td.ti) && Ordered(tr.td.ti)
              && forall k :: 1 <= k < |tr.td.ti| ==> StepHolds(tr, tr.td.ti[k])
    decreases if distance > 0 then distance else 0, 2
  {
    TipIffTipNumber(tr.Layout(), p);
    if tr.number[p] <= tr.mxtips || distance <= 0 {
      return true;
    }
    ok := InitravDISTChildren(tr, p, distance);
    var okP := NewviewParsimony(tr, p, Fuel(tr));
    ok := ok && okP;
  }

  /** The do-while loop of `initravDISTParsimony`.  With distance 1 both
      subtrees get a distance of at most 0 and nothing changes. */
  method InitravDISTChildren(tr: Tree, p: nat, distance: int) returns (ok: bool)
    requires tr.Topo() && tr.Sites() && tr.Layout().IsInnerRecord(p) && |tr.td.ti| >= 1 && distance > 0
    modifies tr.td, tr.xrec, tr.pVec
    ensures tr.Topo() && tr.Sites()
    ensures |tr.td.ti| >= 1 && tr.td.ti[0] == old(tr.td.ti[0])
    ensures distance == 1 ==>
              tr.td.ti == old(tr.td.ti) && tr.xrec[..] == old(tr.xrec[..]) && unchanged(tr.pVec)
    decreases distance, 1
  {
    CycleFacts(tr.Layout(), p);
    ok := true;
    var q := tr.next[p];
    var d := distance;
    while q != p
      invariant q == tr.next[p] || q == tr.next[tr.next[p]] || q == p
      invariant d <= distance
      invariant tr.Topo() && tr.Sites()
      invariant |tr.td.ti| >= 1 && tr.td.ti[0] == old(tr.td.ti[0])
      invariant distance == 1 ==>
                  tr.td.ti == old(tr.td.ti) && tr.xrec[..] == old(tr.xrec[..]) && unchanged(tr.pVec)
      decreases if q == tr.next[p] then 2 else if q == p then 0 else 1
    {
      d := d - 1;
      if tr.back[q] == NULL {
        return false;
      }
      var okChild := InitravDISTParsimony(tr, tr.back[q], d);
      ok := ok && okChild;
      q := tr.next[q];
    }
  }

  /** Every tip of the subtree behind r is marked 1 in `constraintVector`. */
  ghost predicate TipsMarked(tr: Tree, constraintVector: array<int>, r: nat, fuel: nat)
    reads tr.back, constraintVector
    requires Linked(tr) && tr.Layout().IsRecord(r)
  {
    Nodes(tr, r, fuel).Some?
    && forall v :: v in Nodes(tr, r, fuel).value && v <= tr.mxtips ==>
         v < constraintVector.Length && constraintVector[v] == 1
  }

  /** `initravParsimony(tr, p, constraintVector)`: as
      `initravParsimonyNormal`, and every tip reached is marked 1 in the
      given vector.  Only tip entries change, and only to 1; when the links
      behind p form a tree, every tip of it ends up marked. */
  method InitravParsimony(tr: Tree, p: nat, constraintVector: array<int>, fuel: nat) returns (ok: bool)
    requires tr.Topo() && tr.Sites() && tr.Layout().IsRecord(p) && |tr.td.ti| >= 1
    requires constraintVector.Length == 2 * tr.mxtips && constraintVector != tr.back
    modifies tr.td, tr.xrec, tr.pVec, constraintVector
    ensures tr.Topo() && tr.Sites()
    ensures |tr.td.ti| >= 1 && tr.td.ti[0] == old(tr.td.ti[0])
    ensures forall i :: 0 <= i < constraintVector.Length ==>
              constraintVector[i] == old(constraintVector[i]) || (i <= tr.mxtips && constraintVector[i] == 1)
    ensures Nodes(tr, p, fuel).Some? ==> TipsMarked(tr, constraintVector, p, fuel)
    ensures p <= tr.mxtips ==>
              ok && tr.td.ti == old(tr.td.ti) && tr.xrec[..] == old(tr.xrec[..]) && unchanged(tr.pVec)
              && constraintVector[..] == old(constraintVector[..])[tr.number[p] := 1]
    ensures ok && tr.mxtips < p ==>
              tr.IsX(p) && |tr.td.ti| > 1 && Replayable(tr.mxtips, tr.td.ti) && EntryFor(tr, p, tr.td.ti[|tr.td.ti| - 1])
    ensures ok && tr.mxtips < p && Ordered(tr.td.ti) ==> StepHolds(tr, tr.td.ti[|tr.td.ti| - 1])
    ensures tr.mxtips < p && 1 <= fuel && Nodes(tr, p, Fuel(tr)).Some? ==>
              tr.IsX(p) && Replayable(tr.mxtips, tr.td.ti) && Ordered(tr.td.ti)
              && forall k :: 1 <= k < |tr.td.ti| ==> StepHolds(tr, tr.td.ti[k])
    decreases fuel, 2
  {
    TipIffTipNumber(tr.Layout(), p);
    if tr.number[p] <= tr.mxtips {
      constraintVector[tr.number[p]] := 1;
      return true;
    }
    if fuel == 0 {
      return false;
    }
    ok := InitravMarkChildren(tr, p, constraintVector, fuel);
    var okP := NewviewParsimony(tr, p, Fuel(tr));
    ok := ok && okP;
  }

  /** The do-while loop of `initravParsimony` over p's cycle. */
  method InitravMarkChildren(tr: Tree, p: nat, constraintVector: array<int>, fuel: nat) returns (ok: bool)
    requires tr.Topo() && tr.Sites() && tr.Layout().IsInnerRecord(p) && |tr.td.ti| >= 1 && fuel >= 1
    requires constraintVector.Length == 2 * tr.mxtips && constraintVector != tr.back
    modifies tr.td, tr.xrec, tr.pVec, constraintVector
    ensures tr.Topo() && tr.Sites()
    ensures |tr.td.ti| >= 1 && tr.td.ti[0] == old(tr.td.ti[0])
    ensures forall i :: 0 <= i < constraintVector.Length ==>
              constraintVector[i] == old(constraintVector[i]) || (i <= tr.mxtips && constraintVector[i] == 1)
    ensures Nodes(tr, p, fuel).Some? ==> TipsMarked(tr, constraintVector, p, fuel)
    decreases fuel, 1
  {
    CycleFacts(tr.Layout(), p);
    var p1 := tr.next[p];
    var p2 := tr.next[p1];
    ok := true;
    var q := p1;
    while q != p
      invariant q == p1 || q == p2 || q == p
      invariant tr.Topo() && tr.Sites()
      invariant |tr.td.ti| >= 1 && tr.td.ti[0] == old(tr.td.ti[0])
      invariant forall i :: 0 <= i < constraintVector.Length ==>
                  constraintVector[i] == old(constraintVector[i]) || (i <= tr.mxtips && constraintVector[i] == 1)
      invariant Nodes(tr, p, fuel).Some? && q != p1 ==> TipsMarked(tr, constraintVector, tr.back[p1], fuel - 1)
      invariant Nodes(tr, p, fuel).Some? && q == p ==> TipsMarked(tr, constraintVector, tr.back[p2], fuel - 1)
      decreases if q == p1 then 2 else if q == p then 0 else 1
    {
      if tr.back[q] == NULL {
        return false;
      }
      var okChild := InitravParsimony(tr, tr.back[q], constraintVector, fuel - 1);
      ok := ok && okChild;
      q := tr.next[q];
    }
  }
}
