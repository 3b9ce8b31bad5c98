/**
 * Recursions over the subtree behind a record: the subtree of record p is
 * p's vertex and, when p is inner, the subtrees behind the backs of p's two
 * other records (`p->next->back`, `p->next->next->back`).
 *
 * RAxML recurses without a bound and would follow a NULL `back`; here each
 * recursion carries `fuel` and `Nodes` says when a recursion completes
 * (`Some` of the vertex numbers it visits) or not (`None`).
 */
module ParsimonySubtree {
  import opened Wrappers
  import opened ParsimonyTree

  /** The links the recursions follow are in range. */
  ghost predicate Linked(tr: Tree)
    reads tr.back
  {
    tr.Shape() && tr.Layout().WellFormed() && tr.Links()
  }

  /** The vertex numbers of the subtree behind p, or None when the walk
      meets a NULL `back`, runs out of fuel, or meets a vertex twice (the
      links behind p then do not form a tree). */
  ghost function Nodes(tr: Tree, p: nat, fuel: nat): Option<set<nat>>
    reads tr.back
    requires Linked(tr) && tr.Layout().IsRecord(p)
    decreases fuel
  {
    if p <= tr.mxtips then Some({tr.number[p]})
    else if fuel == 0 then None
    else
      CycleFacts(tr.Layout(), p);
      var q := tr.back[tr.next[p]];
      var r := tr.back[tr.next[tr.next[p]]];
      if q == NULL || r == NULL then None
      else
        match (Nodes(tr, q, fuel - 1), Nodes(tr, r, fuel - 1))
        case (Some(a), Some(b)) =>
          if a !! b && tr.number[p] !in a && tr.number[p] !in b then Some({tr.number[p]} + a + b) else None
        case _ => None
  }

  /** Every vertex number a walk visits is a node number. */
  lemma {:induction false} NodesInRange(tr: Tree, p: nat, fuel: nat)
    requires Linked(tr) && tr.Layout().IsRecord(p) && Nodes(tr, p, fuel).Some?
    ensures forall v :: v in Nodes(tr, p, fuel).value ==> 1 <= v < 2 * tr.mxtips
    ensures tr.number[p] in Nodes(tr, p, fuel).value
    decreases fuel
  {
    TipIffTipNumber(tr.Layout(), p);
    if p > tr.mxtips {
      CycleFacts(tr.Layout(), p);
      NodesInRange(tr, tr.back[tr.next[p]], fuel - 1);
      NodesInRange(tr, tr.back[tr.next[tr.next[p]]], fuel - 1);
    }
  }

  /** `checker(tr, p)`: a tip's group; for an inner vertex its own group
      unless it is -9, else the first group other than -9 found behind its
      two neighbours in turn, else -9.  The second neighbour is only read
      when the first gives -9. */
  function Checker(tr: Tree, p: nat, fuel: nat): int
    reads tr.back, tr.constraintVector
    requires Linked(tr) && tr.Layout().IsRecord(p)
    decreases fuel
  {
    TipIffTipNumber(tr.Layout(), p);
    var group := tr.constraintVector[tr.number[p]];
    if p <= tr.mxtips then group
    else if group != -9 then group
    else if fuel == 0 then -9
    else
      CycleFacts(tr.Layout(), p);
      var q := tr.back[tr.next[p]];
      var r := tr.back[tr.next[tr.next[p]]];
      if q == NULL then -9
      else
        var g := Checker(tr, q, fuel - 1);
        if g != -9 then g
        else if r == NULL then -9
        else Checker(tr, r, fuel - 1)
  }

  /** On a completed walk the checker reports -9 exactly when no vertex of
      the subtree has a group, and otherwise the group of one of them. */
  lemma {:induction false} CheckerFindsGroup(tr: Tree, p: nat, fuel: nat)
    requires Linked(tr) && tr.Layout().IsRecord(p) && Nodes(tr, p, fuel).Some?
    ensures Checker(tr, p, fuel) == -9
            <==> forall v :: v in Nodes(tr, p, fuel).value ==> v < tr.constraintVector.Length && tr.constraintVector[v] == -9
    ensures Checker(tr, p, fuel) != -9
            ==> exists v :: v in Nodes(tr, p, fuel).value && v < tr.constraintVector.Length && tr.constraintVector[v] == Checker(tr, p, fuel)
    decreases fuel
  {
    NodesInRange(tr, p, fuel);
    TipIffTipNumber(tr.Layout(), p);
    if p > tr.mxtips && tr.constraintVector[tr.number[p]] == -9 {
      CycleFacts(tr.Layout(), p);
      var q := tr.back[tr.next[p]];
      var r := tr.back[tr.next[tr.next[p]]];
      CheckerFindsGroup(tr, q, fuel - 1);
      CheckerFindsGroup(tr, r, fuel - 1);
    }
  }

  /** `tipHomogeneityChecker(tr, p, grouping)`: every tip behind p is in
      the group. */
  function TipHomogeneityChecker(tr: Tree, p: nat, grouping: int, fuel: nat): bool
    reads tr.back, tr.constraintVector
    requires Linked(tr) && tr.Layout().IsRecord(p)
    decreases fuel
  {
    TipIffTipNumber(tr.Layout(), p);
    if p <= tr.mxtips then tr.constraintVector[tr.number[p]] == grouping
    else if fuel == 0 then false
    else
      CycleFacts(tr.Layout(), p);
      var q := tr.back[tr.next[p]];
      var r := tr.back[tr.next[tr.next[p]]];
      if q == NULL || r == NULL then false
      else TipHomogeneityChecker(tr, q, grouping, fuel - 1) && TipHomogeneityChecker(tr, r, grouping, fuel - 1)
  }

  /** On a completed walk the homogeneity check holds exactly when every
      tip of the subtree carries the group. */
  lemma {:induction false} TipHomogeneityMeansAllTips(tr: Tree, p: nat, grouping: int, fuel: nat)
    requires Linked(tr) && tr.Layout().IsRecord(p) && Nodes(tr, p, fuel).Some?
    ensures TipHomogeneityChecker(tr, p, grouping, fuel)
            <==> forall v :: v in Nodes(tr, p, fuel).value && v <= tr.mxtips ==> v < tr.constraintVector.Length && tr.constraintVector[v] == grouping
    decreases fuel
  {
    NodesInRange(tr, p, fuel);
    TipIffTipNumber(tr.Layout(), p);
    if p > tr.mxtips {
      CycleFacts(tr.Layout(), p);
      var q := tr.back[tr.next[p]];
      var r := tr.back[tr.next[tr.next[p]]];
      TipHomogeneityMeansAllTips(tr, q, grouping, fuel - 1);
      TipHomogeneityMeansAllTips(tr, r, grouping, fuel - 1);
      NodesInRange(tr, q, fuel - 1);
      NodesInRange(tr, r, fuel - 1);
    }
  }

  /** `findAnyTip(p, numsp)`: follows `p->next->back` until a tip. */
  function FindAnyTip(tr: Tree, p: nat, fuel: nat): Option<nat>
    reads tr.back
    requires Linked(tr) && tr.Layout().IsRecord(p)
    decreases fuel
  {
    if p <= tr.mxtips then Some(p)
    else if fuel == 0 then None
    else
      CycleFacts(tr.Layout(), p);
      var q := tr.back[tr.next[p]];
      if q == NULL then None else FindAnyTip(tr, q, fuel - 1)
  }

  /** The tip found is a tip record of the subtree, and a completed walk
      always finds one. */
  lemma {:induction false} FindAnyTipFinds(tr: Tree, p: nat, fuel: nat)
    requires Linked(tr) && tr.Layout().IsRecord(p)
    ensures FindAnyTip(tr, p, fuel).Some? ==>
              var t := FindAnyTip(tr, p, fuel).value;
              tr.Layout().IsTipRecord(t)
              && (Nodes(tr, p, fuel).Some? ==> tr.number[t] in Nodes(tr, p, fuel).value)
    ensures Nodes(tr, p, fuel).Some? ==> FindAnyTip(tr, p, fuel).Some?
    decreases fuel
  {
    if p > tr.mxtips && fuel > 0 {
      CycleFacts(tr.Layout(), p);
      var q := tr.back[tr.next[p]];
      if q != NULL {
        FindAnyTipFinds(tr, q, fuel - 1);
      }
    }
  }

  /** `markBranches(branches, p, counter, numsp)`: the records it writes to
      `branches[*counter ..]`, in order: for an inner vertex its two other
      records, then those of the subtrees behind them.  RAxML returns their
      number. */
  function MarkBranches(tr: Tree, p: nat, fuel: nat): seq<nat>
    reads tr.back
    requires Linked(tr) && tr.Layout().IsRecord(p)
    decreases fuel
  {
    if p <= tr.mxtips || fuel == 0 then []
    else
      CycleFacts(tr.Layout(), p);
      var p1 := tr.next[p];
      var p2 := tr.next[p1];
      var q := tr.back[p1];
      var r := tr.back[p2];
      [p1, p2]
      + (if q == NULL then [] else MarkBranches(tr, q, fuel - 1))
      + (if r == NULL then [] else MarkBranches(tr, r, fuel - 1))
  }

  /** The tip numbers among S. */
  function TipsIn(n: nat, S: set<nat>): set<nat>
  {
    set v | v in S && v <= n
  }

  /** The inner vertex numbers among S. */
  function InnersIn(n: nat, S: set<nat>): set<nat>
  {
    set v | v in S && v > n
  }

  /** Counting the tips and inner vertices of an inner vertex v joined to
      two disjoint subtrees. */
  lemma JoinCounts(n: nat, v: nat, A: set<nat>, B: set<nat>)
    requires A !! B && v !in A && v !in B && v > n
    ensures |TipsIn(n, {v} + A + B)| == |TipsIn(n, A)| + |TipsIn(n, B)|
    ensures |InnersIn(n, {v} + A + B)| == 1 + |InnersIn(n, A)| + |InnersIn(n, B)|
  {
    assert TipsIn(n, {v} + A + B) == TipsIn(n, A) + TipsIn(n, B);
    assert TipsIn(n, A) !! TipsIn(n, B);
    assert InnersIn(n, {v} + A + B) == {v} + InnersIn(n, A) + InnersIn(n, B);
    assert InnersIn(n, A) !! InnersIn(n, B);
  }

  /** A subtree of k inner vertices has k + 1 tips, and `markBranches`
      marks two records per inner vertex.  This is what RAxML's assertion
      `branchCounter == 2 * (ntips - 1) - 3` after marking from a tip's
      neighbour rests on. */
  lemma {:induction false} SubtreeCounts(tr: Tree, p: nat, fuel: nat)
    requires Linked(tr) && tr.Layout().IsRecord(p) && Nodes(tr, p, fuel).Some?
    ensures |TipsIn(tr.mxtips, Nodes(tr, p, fuel).value)| == |InnersIn(tr.mxtips, Nodes(tr, p, fuel).value)| + 1
    ensures |MarkBranches(tr, p, fuel)| == 2 * |InnersIn(tr.mxtips, Nodes(tr, p, fuel).value)|
    decreases fuel
  {
    TipIffTipNumber(tr.Layout(), p);
    if p <= tr.mxtips {
      assert TipsIn(tr.mxtips, {tr.number[p]}) == {tr.number[p]};
      assert InnersIn(tr.mxtips, {tr.number[p]}) == {};
    } else {
      CycleFacts(tr.Layout(), p);
      var q := tr.back[tr.next[p]];
      var r := tr.back[tr.next[tr.next[p]]];
      SubtreeCounts(tr, q, fuel - 1);
      SubtreeCounts(tr, r, fuel - 1);
      JoinCounts(tr.mxtips, tr.number[p], Nodes(tr, q, fuel - 1).value, Nodes(tr, r, fuel - 1).value);
    }
  }

  /** The marked records are inner records. */
  lemma {:induction false} MarkBranchesShape(tr: Tree, p: nat, fuel: nat)
    requires Linked(tr) && tr.Layout().IsRecord(p)
    ensures forall x :: x in MarkBranches(tr, p, fuel) ==> tr.Layout().IsInnerRecord(x)
    decreases fuel
  {
    if p > tr.mxtips && fuel > 0 {
      CycleFacts(tr.Layout(), p);
      var q := tr.back[tr.next[p]];
      var r := tr.back[tr.next[tr.next[p]]];
      if q != NULL { MarkBranchesShape(tr, q, fuel - 1); }
      if r != NULL { MarkBranchesShape(tr, r, fuel - 1); }
    }
  }

  /** On a completed walk every marked record is a record of a vertex of
      the subtree. */
  lemma {:induction false} MarkBranchesInSubtree(tr: Tree, p: nat, fuel: nat)
    requires Linked(tr) && tr.Layout().IsRecord(p) && Nodes(tr, p, fuel).Some?
    ensures forall x :: x in MarkBranches(tr, p, fuel) ==>
              x < |tr.number| && tr.number[x] in Nodes(tr, p, fuel).value
    decreases fuel
  {
    if p > tr.mxtips && fuel > 0 {
      CycleFacts(tr.Layout(), p);
      var q := tr.back[tr.next[p]];
      var r := tr.back[tr.next[tr.next[p]]];
      MarkBranchesInSubtree(tr, q, fuel - 1);
      MarkBranchesInSubtree(tr, r, fuel - 1);
    }
  }
}
