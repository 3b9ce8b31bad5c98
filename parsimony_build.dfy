/**
 * The tree builders around the search: `markBranches` into an array, the
 * replay of the best rearrangement (`restoreTreeRearrangeParsimony`), the
 * preorder renumbering of inner vertices (`nodeRectifier`), the pass loop
 * of the rearrangement search, and stepwise addition
 * (`makeParsimonyTree`, `makeParsimonyTreeRapid`, `makeRandomTree`).
 */
module ParsimonyBuild {
  import opened Wrappers
  import opened ParsimonyTree
  import opened ParsimonyEval
  import opened ParsimonyTraversal
  import opened ParsimonySubtree
  import opened ParsimonyDrivers
  import opened ParsimonyTopology
  import opened ParsimonySearch

  // ---------------------------------------------------------------------
  // markBranches

  /** `markBranches(branches, p, counter, numsp)`: writes the records of
      `MarkBranches` into `branches` from `counter` on and returns the new
      counter.  A NULL link that RAxML would follow gives `ok == false`. */
  method MarkBranchesInto(tr: Tree, branches: array<int>, p: nat, counter: nat, fuel: nat)
    returns (counter': nat, ok: bool)
    requires Linked(tr) && tr.Layout().IsRecord(p)
    requires counter <= branches.Length && branches != tr.back
    modifies branches
    ensures counter <= counter' <= branches.Length
    ensures ok ==> branches[counter..counter'] == MarkBranches(tr, p, fuel)
    ensures branches[..counter] == old(branches[..counter])
    ensures branches[counter'..] == old(branches[counter'..])
    decreases fuel, 2
  {
    TipIffTipNumber(tr.Layout(), p);
    if tr.number[p] <= tr.mxtips {
      return counter, true;
    }
    if fuel == 0 || counter + 2 > branches.Length {
      return counter, false;
    }
    counter', ok := MarkArms(tr, branches, p, counter, fuel);
  }

  /** The inner-vertex case of `markBranches`: p's two other records, then
      the subtrees behind them. */
  method MarkArms(tr: Tree, branches: array<int>, p: nat, counter: nat, fuel: nat)
    returns (counter': nat, ok: bool)
    requires Linked(tr) && tr.Layout().IsInnerRecord(p) && fuel > 0
    requires counter + 2 <= branches.Length && branches != tr.back
    modifies branches
    ensures counter <= counter' <= branches.Length
    ensures ok ==> branches[counter..counter'] == MarkBranches(tr, p, fuel)
    ensures branches[..counter] == old(branches[..counter])
    ensures branches[counter'..] == old(branches[counter'..])
    decreases fuel, 1
  {
    CycleFacts(tr.Layout(), p);
    var p1 := tr.next[p];
    var p2 := tr.next[p1];
    var q := tr.back[p1];
    var r := tr.back[p2];
    ghost var init := branches[..];
    PutArms(branches, counter, p1, p2);
    ghost var pre := branches[..];
    if q == NULL || r == NULL {
      HeadFrame(init, pre, counter, 2);
      return counter + 2, false;
    }
    counter', ok := MarkBoth(tr, branches, q, r, counter + 2, fuel - 1);
    ghost var mq, mr := MarkBranches(tr, q, fuel - 1), MarkBranches(tr, r, fuel - 1);
    Glue(init, pre, branches[..], counter, counter', [p1, p2], mq, mr, ok);
    MarkBranchesInner(tr, p, fuel);
  }

  /** MarkBranches at an inner record whose arms are both linked. */
  lemma MarkBranchesInner(tr: Tree, p: nat, fuel: nat)
    requires Linked(tr) && tr.Layout().IsInnerRecord(p) && fuel > 0
    requires (CycleFacts(tr.Layout(), p); tr.back[tr.next[p]] != NULL && tr.back[tr.next[tr.next[p]]] != NULL)
    ensures (CycleFacts(tr.Layout(), p);
             MarkBranches(tr, p, fuel) == [tr.next[p], tr.next[tr.next[p]]]
               + MarkBranches(tr, tr.back[tr.next[p]], fuel - 1)
               + MarkBranches(tr, tr.back[tr.next[tr.next[p]]], fuel - 1))
  {
    CycleFacts(tr.Layout(), p);
    TipIffTipNumber(tr.Layout(), p);
  }

  /** Writing a head block leaves the rest of the array alone. */
  lemma HeadFrame(init: seq<int>, pre: seq<int>, counter: nat, k: nat)
    requires counter + k <= |init| == |pre|
    requires pre[..counter] == init[..counter] && pre[counter + k..] == init[counter + k..]
    ensures pre[..counter] == init[..counter] && pre[counter + k..] == init[counter + k..]
  {
  }

  /** A head block written at `counter`, then a block filled from
      `counter + |head|` on. */
  lemma Glue(init: seq<int>, pre: seq<int>, post: seq<int>, counter: nat, counter': nat,
             head: seq<nat>, m1: seq<nat>, m2: seq<nat>, ok: bool)
    requires counter + |head| <= counter' <= |init| == |pre| == |post|
    requires pre[..counter] == init[..counter] && pre[counter + |head|..] == init[counter + |head|..]
    requires pre[counter..counter + |head|] == head
    requires post[..counter + |head|] == pre[..counter + |head|] && post[counter'..] == pre[counter'..]
    requires ok ==> post[counter + |head|..counter'] == m1 + m2
    ensures post[..counter] == init[..counter] && post[counter'..] == init[counter'..]
    ensures ok ==> post[counter..counter'] == head + m1 + m2
  {
    var k := |head|;
    assert post[..counter] == post[..counter + k][..counter];
    assert pre[..counter] == pre[..counter + k][..counter];
    assert post[counter'..] == pre[counter + k..][counter' - counter - k..];
    assert init[counter'..] == init[counter + k..][counter' - counter - k..];
    if ok {
      assert post[counter..counter'] == post[counter..counter + k] + post[counter + k..counter'];
      assert post[counter..counter + k] == post[..counter + k][counter..];
      assert pre[counter..counter + k] == pre[..counter + k][counter..];
    }
  }

  /** The two recursive calls: blocks filled from `counter` to `c1` and
      from `c1` to `c2`. */
  lemma Glue2(pre: seq<int>, mid: seq<int>, post: seq<int>, counter: nat, c1: nat, c2: nat,
              m1: seq<nat>, m2: seq<nat>, ok: bool)
    requires counter <= c1 <= c2 <= |pre| == |mid| == |post|
    requires mid[..counter] == pre[..counter] && mid[c1..] == pre[c1..] && mid[counter..c1] == m1
    requires post[..c1] == mid[..c1] && post[c2..] == mid[c2..]
    requires ok ==> post[c1..c2] == m2
    ensures post[..counter] == pre[..counter] && post[c2..] == pre[c2..]
    ensures ok ==> post[counter..c2] == m1 + m2
  {
    assert post[..counter] == post[..c1][..counter];
    assert mid[..counter] == mid[..c1][..counter];
    assert post[c2..] == mid[c1..][c2 - c1..];
    assert pre[c2..] == pre[c1..][c2 - c1..];
    if ok {
      assert post[counter..c2] == post[counter..c1] + post[c1..c2];
      assert post[counter..c1] == post[..c1][counter..];
      assert mid[counter..c1] == mid[..c1][counter..];
    }
  }

  /** `branches[counter] = p->next; branches[counter + 1] = p->next->next`. */
  method PutArms(branches: array<int>, counter: nat, p1: nat, p2: nat)
    requires counter + 2 <= branches.Length
    modifies branches
    ensures branches[..counter] == old(branches[..counter])
    ensures branches[counter + 2..] == old(branches[counter + 2..])
    ensures branches[counter..counter + 2] == [p1, p2]
  {
    branches[counter] := p1;
    branches[counter + 1] := p2;
  }

  /** The two recursive calls of `markBranches`. */
  method MarkBoth(tr: Tree, branches: array<int>, q: nat, r: nat, counter: nat, fuel: nat)
    returns (counter': nat, ok: bool)
    requires Linked(tr) && tr.Layout().IsRecord(q) && tr.Layout().IsRecord(r)
    requires counter <= branches.Length && branches != tr.back
    modifies branches
    ensures counter <= counter' <= branches.Length
    ensures ok ==> branches[counter..counter'] == MarkBranches(tr, q, fuel) + MarkBranches(tr, r, fuel)
    ensures branches[..counter] == old(branches[..counter])
    ensures branches[counter'..] == old(branches[counter'..])
    decreases fuel, 3
  {
    ghost var pre := branches[..];
    var c1, ok1 := MarkBranchesInto(tr, branches, q, counter, fuel);
    ghost var mid := branches[..];
    if !ok1 {
      return c1, false;
    }
    counter', ok := MarkBranchesInto(tr, branches, r, c1, fuel);
    Glue2(pre, mid, branches[..], counter, c1, counter', MarkBranches(tr, q, fuel), MarkBranches(tr, r, fuel), ok);
  }

  // ---------------------------------------------------------------------
  // restoreTreeRearrangeParsimony

  /** A best move that `restoreTreeRearrangeParsimony` can replay.
      removeNode is an inner record whose two other records have
      neighbours. insertNode is a record that still has a neighbour once
      removeNode is cut out. */
  ghost predicate Replayable(a: Arena, b: seq<int>, rm: int, ins: int)
    requires a.WellFormed() && |b| == |a.next|
  {
    a.IsInnerRecord(rm)
    && (CycleFacts(a, rm); a.IsRecord(b[a.Next(rm)]) && a.IsRecord(b[a.NextNext(rm)]))
    && a.IsRecord(ins) && a.IsRecord(RemoveLinks(a, b, rm)[ins])
  }

  /** The links after the replay: removeNode is cut out of the tree, then
      inserted into the edge at insertNode. */
  ghost function Replayed(a: Arena, b: seq<int>, rm: int, ins: int): seq<int>
    requires a.WellFormed() && |b| == |a.next| && Replayable(a, b, rm, ins)
  {
    InsertLinks(a, RemoveLinks(a, b, rm), rm, ins)
  }

  /** `restoreTreeRearrangeParsimony(tr)`: removeNode is cut out with
      `removeNodeParsimony` and inserted for good at insertNode with
      `restoreTreeParsimony`.  A move RAxML could not replay without
      following a NULL link leaves the tree alone and gives `ok == false`. */
  method RestoreTreeRearrangeParsimony(tr: Tree) returns (ok: bool)
    requires tr.Topo() && tr.Sites() && |tr.td.ti| >= 1
    modifies tr.back, tr.td, tr.xrec, tr.pVec
    ensures tr.Topo() && tr.Sites() && |tr.td.ti| >= 1
    ensures old(Replayable(tr.Layout(), tr.back[..], tr.removeNode, tr.insertNode)) ==>
              tr.back[..] == Replayed(tr.Layout(), old(tr.back[..]), tr.removeNode, tr.insertNode)
    ensures !old(Replayable(tr.Layout(), tr.back[..], tr.removeNode, tr.insertNode)) ==>
              !ok && tr.back[..] == old(tr.back[..])
    ensures ok ==> tr.Layout().IsRecord(tr.removeNode) && tr.Layout().IsRecord(tr.insertNode)
                   && tr.IsX(tr.removeNode) && tr.IsX(tr.insertNode)
  {
    var can := CanReplay(tr);
    if !can {
      return false;
    }
    CycleFacts(tr.Layout(), tr.removeNode);
    var _ := RemoveNodeParsimony(tr, tr.removeNode);
    ok := RestoreTreeParsimony(tr, tr.removeNode, tr.insertNode);
  }

  /** Whether the best move can be replayed, judged on the links as they
      are. */
  method CanReplay(tr: Tree) returns (can: bool)
    requires tr.Topo()
    ensures can <==> Replayable(tr.Layout(), tr.back[..], tr.removeNode, tr.insertNode)
  {
    var rm, ins := tr.removeNode, tr.insertNode;
    if !(tr.mxtips < rm < |tr.next|) || !(1 <= ins < |tr.next|) {
      return false;
    }
    CycleFacts(tr.Layout(), rm);
    var p1, p2 := tr.next[rm], tr.next[tr.next[rm]];
    var q, r := tr.back[p1], tr.back[p2];
    if !(1 <= q < |tr.next|) || !(1 <= r < |tr.next|) {
      return false;
    }
    // where insertNode's back points once rm is cut out
    var insBack := if ins == p1 || ins == p2 then NULL else if ins == r then q else if ins == q then r else tr.back[ins];
    assert insBack == RemoveLinks(tr.Layout(), tr.back[..], rm)[ins];
    can := 1 <= insBack < |tr.next|;
  }

  /** Replaying a move into the edge removeNode was cut from gives the
      links back: when removeNode's two neighbours lie on other vertices
      and point back at it, cutting it out and inserting it at its old
      neighbour q restores every link. */
  lemma ReplayAtOrigin(a: Arena, b: seq<int>, rm: nat)
    requires a.WellFormed() && |b| == |a.next| && a.IsInnerRecord(rm)
    requires (CycleFacts(a, rm); a.IsRecord(b[a.Next(rm)]) && a.IsRecord(b[a.NextNext(rm)]))
    requires b[b[a.Next(rm)]] == a.Next(rm) && b[b[a.NextNext(rm)]] == a.NextNext(rm)
    requires a.Number(b[a.Next(rm)]) != a.Number(rm) && a.Number(b[a.NextNext(rm)]) != a.Number(rm)
    ensures Replayable(a, b, rm, b[a.Next(rm)])
    ensures Replayed(a, b, rm, b[a.Next(rm)]) == b
  {
    CycleFacts(a, rm);
    var p1, p2 := a.Next(rm), a.NextNext(rm);
    var q, r := b[p1], b[p2];
    OtherVertex(a, rm, q);
    OtherVertex(a, rm, r);
    assert q != r;
    var b1 := RemoveLinks(a, b, rm);
    assert b1[q] == r;
    RejoinRoundTrip(a, b, rm);
  }

  // ---------------------------------------------------------------------
  // nodeRectifier

  /** The inner records `reorderNodes` lists from p, in preorder: p itself
      when it is inner, then the subtrees behind `p->next->back` and
      `p->next->next->back`. */
  function Preorder(tr: Tree, p: nat, fuel: nat): seq<nat>
    reads tr.back
    requires Linked(tr) && tr.Layout().IsRecord(p)
    decreases fuel
  {
    if p <= tr.mxtips || fuel == 0 then []
    else
      CycleFacts(tr.Layout(), p);
      var q := tr.back[tr.next[p]];
      var r := tr.back[tr.next[tr.next[p]]];
      [p]
      + (if q == NULL then [] else Preorder(tr, q, fuel - 1))
      + (if r == NULL then [] else Preorder(tr, r, fuel - 1))
  }

  /** The vertex numbers of a list of records. */
  ghost function NumbersOf(tr: Tree, s: seq<nat>): set<nat>
  {
    set x | x in s && x < |tr.number| :: tr.number[x]
  }

  /** The preorder lists inner records only. */
  lemma {:induction false} PreorderShape(tr: Tree, p: nat, fuel: nat)
    requires Linked(tr) && tr.Layout().IsRecord(p)
    ensures forall x :: x in Preorder(tr, p, fuel) ==> tr.Layout().IsInnerRecord(x)
    decreases fuel
  {
    if p > tr.mxtips && fuel > 0 {
      CycleFacts(tr.Layout(), p);
      var q := tr.back[tr.next[p]];
      var r := tr.back[tr.next[tr.next[p]]];
      if q != NULL { PreorderShape(tr, q, fuel - 1); }
      if r != NULL { PreorderShape(tr, r, fuel - 1); }
    }
  }

  /** On a completed walk the preorder lists every inner vertex of the
      subtree exactly once: its numbers are the subtree's inner vertices
      and there are as many records as vertices. */
  lemma {:induction false} PreorderListsInnerVertices(tr: Tree, p: nat, fuel: nat)
    requires Linked(tr) && tr.Layout().IsRecord(p) && Nodes(tr, p, fuel).Some?
    ensures NumbersOf(tr, Preorder(tr, p, fuel)) == InnersIn(tr.mxtips, Nodes(tr, p, fuel).value)
    ensures |Preorder(tr, p, fuel)| == |InnersIn(tr.mxtips, Nodes(tr, p, fuel).value)|
    decreases fuel
  {
    TipIffTipNumber(tr.Layout(), p);
    if p <= tr.mxtips {
      assert InnersIn(tr.mxtips, {tr.number[p]}) == {};
    } else {
      CycleFacts(tr.Layout(), p);
      var q := tr.back[tr.next[p]];
      var r := tr.back[tr.next[tr.next[p]]];
      PreorderListsInnerVertices(tr, q, fuel - 1);
      PreorderListsInnerVertices(tr, r, fuel - 1);
      var A, B := Nodes(tr, q, fuel - 1).value, Nodes(tr, r, fuel - 1).value;
      var Pq, Pr := Preorder(tr, q, fuel - 1), Preorder(tr, r, fuel - 1);
      assert Nodes(tr, p, fuel).value == {tr.number[p]} + A + B;
      assert Preorder(tr, p, fuel) == [p] + Pq + Pr;
      JoinPreorder(tr, p, A, B, Pq, Pr);
    }
  }

  /** The counting step of `PreorderListsInnerVertices`: an inner record p
      before the preorders of two disjoint subtrees. */
  lemma JoinPreorder(tr: Tree, p: nat, A: set<nat>, B: set<nat>, Pq: seq<nat>, Pr: seq<nat>)
    requires p < |tr.number| && tr.number[p] > tr.mxtips
    requires A !! B && tr.number[p] !in A && tr.number[p] !in B
    requires NumbersOf(tr, Pq) == InnersIn(tr.mxtips, A) && |Pq| == |InnersIn(tr.mxtips, A)|
    requires NumbersOf(tr, Pr) == InnersIn(tr.mxtips, B) && |Pr| == |InnersIn(tr.mxtips, B)|
    ensures NumbersOf(tr, [p] + Pq + Pr) == InnersIn(tr.mxtips, {tr.number[p]} + A + B)
    ensures |[p] + Pq + Pr| == |InnersIn(tr.mxtips, {tr.number[p]} + A + B)|
  {
    JoinCounts(tr.mxtips, tr.number[p], A, B);
    InnersOfJoin(tr.mxtips, tr.number[p], A, B);
    NumbersOfAppend(tr, [p], Pq);
    NumbersOfAppend(tr, [p] + Pq, Pr);
    NumbersOfOne(tr, p);
  }

  /** The numbers of a single record. */
  lemma NumbersOfOne(tr: Tree, p: nat)
    requires p < |tr.number|
    ensures NumbersOf(tr, [p]) == {tr.number[p]}
  {
    assert p in [p];
  }

  /** The numbers of two lists joined are the numbers of each. */
  lemma NumbersOfAppend(tr: Tree, s: seq<nat>, t: seq<nat>)
    ensures NumbersOf(tr, s + t) == NumbersOf(tr, s) + NumbersOf(tr, t)
  {
  }

  /** The inner vertices of an inner vertex v joined to A and B. */
  lemma InnersOfJoin(n: nat, v: nat, A: set<nat>, B: set<nat>)
    requires v > n
    ensures InnersIn(n, {v} + A + B) == {v} + InnersIn(n, A) + InnersIn(n, B)
  {
  }

  /** The records of every inner vertex later reached through `np`:
      `np[i]` is an inner record for i = mxtips+1 .. 2*mxtips-1. */
  ghost predicate InnerRecordsIn(tr: Tree, np: seq<nat>)
  {
    |np| == 2 * tr.mxtips
    && forall i :: tr.mxtips < i < 2 * tr.mxtips ==> tr.Layout().IsInnerRecord(np[i])
  }

  /** `nodep` holds tip t at entry t and an inner record at every inner
      entry. */
  ghost predicate NodeRecords(tr: Tree)
    reads tr.nodep
  {
    tr.Layout().WellFormed() && tr.nodep.Length == 2 * tr.mxtips
    && (forall i :: 1 <= i <= tr.mxtips ==> tr.nodep[i] == i)
    && (forall i :: tr.mxtips < i < 2 * tr.mxtips ==> tr.Layout().IsInnerRecord(tr.nodep[i]))
  }

  /** p is one of the three records of some `np[i]`, i an inner node. */
  ghost predicate Findable(tr: Tree, np: seq<nat>, p: nat)
    requires tr.Layout().WellFormed() && InnerRecordsIn(tr, np)
  {
    exists i :: tr.mxtips < i < 2 * tr.mxtips && tr.Layout().InCycle(np[i], p)
  }

  /** The search loop of `reorderNodes`: the first i in
      mxtips+1 .. 2*mxtips-1 for which p is `np[i]`, `np[i]->next` or
      `np[i]->next->next`; that record, which is p, is written to
      `nodep[k]`.  The result says whether there was one. */
  method PlaceInOrder(tr: Tree, nodep: array<nat>, np: seq<nat>, p: nat, k: nat) returns (found: bool)
    requires tr.Layout().WellFormed() && InnerRecordsIn(tr, np) && k < nodep.Length
    modifies nodep
    ensures found <==> Findable(tr, np, p)
    ensures found ==> nodep[..k] == old(nodep[..k]) && nodep[k + 1..] == old(nodep[k + 1..])
                      && nodep[k..k + 1] == [p]
    ensures !found ==> nodep[..] == old(nodep[..])
  {
    var i := tr.mxtips + 1;
    found := false;
    while i <= 2 * tr.mxtips - 1 && !found
      invariant tr.mxtips + 1 <= i <= 2 * tr.mxtips
      invariant !found ==> forall j :: tr.mxtips < j < i ==> !tr.Layout().InCycle(np[j], p)
      invariant found ==> Findable(tr, np, p)
      invariant found ==> nodep[..] == old(nodep[..])[k := p]
      invariant !found ==> nodep[..] == old(nodep[..])
      decreases 2 * tr.mxtips - i
    {
      var r := np[i];
      CycleFacts(tr.Layout(), r);
      if p == r || p == tr.next[r] || p == tr.next[tr.next[r]] {
        nodep[k] := if p == r then r else if p == tr.next[r] then tr.next[r] else tr.next[tr.next[r]];
        found := true;
      }
      i := i + 1;
    }
    if found {
      PutOne(old(nodep[..]), nodep[..], k, p);
    }
  }

  /** A single record written at `k` as a block. */
  lemma PutOne(init: seq<nat>, pre: seq<nat>, k: nat, p: nat)
    requires k < |init| && pre == init[k := p]
    ensures |pre| == |init|
    ensures pre[..k] == init[..k] && pre[k + 1..] == init[k + 1..] && pre[k..k + 1] == [p]
  {
  }

  /** `reorderNodes(tr, np, p, count)`: for an inner p, p is written to
      `nodep[count + mxtips + 1]`, the count goes up, and the subtrees
      behind p's two other records follow.  Here `k` is the entry the
      count points at, `count + mxtips + 1`, and `k'` the one after the
      last entry written; the block between them is `Preorder`.  p not
      found through `np` (RAxML's `assert(found != 0)`), an entry past the
      end of `nodep`, a NULL link RAxML would follow, or exhausted fuel
      give `ok == false`. */
  method ReorderNodes(tr: Tree, nodep: array<nat>, np: seq<nat>, p: nat, k: nat, fuel: nat)
    returns (k': nat, ok: bool)
    requires Linked(tr) && tr.Layout().IsRecord(p) && InnerRecordsIn(tr, np)
    requires k <= nodep.Length
    modifies nodep
    ensures k <= k' <= nodep.Length
    ensures ok ==> nodep[k..k'] == Preorder(tr, p, fuel)
    ensures nodep[..k] == old(nodep[..k])
    ensures nodep[k'..] == old(nodep[k'..])
    decreases fuel, 2
  {
    TipIffTipNumber(tr.Layout(), p);
    if tr.number[p] <= tr.mxtips {
      return k, true;
    }
    if fuel == 0 || k >= nodep.Length {
      return k, false;
    }
    k', ok := ReorderInner(tr, nodep, np, p, k, fuel);
  }

  /** `reorderNodes` at an inner record p. */
  method ReorderInner(tr: Tree, nodep: array<nat>, np: seq<nat>, p: nat, k: nat, fuel: nat)
    returns (k': nat, ok: bool)
    requires Linked(tr) && tr.Layout().IsInnerRecord(p) && InnerRecordsIn(tr, np)
    requires k < nodep.Length && fuel > 0
    modifies nodep
    ensures k <= k' <= nodep.Length
    ensures ok ==> nodep[k..k'] == Preorder(tr, p, fuel)
    ensures nodep[..k] == old(nodep[..k])
    ensures nodep[k'..] == old(nodep[k'..])
    decreases fuel, 1
  {
    ghost var init := nodep[..];
    var found := PlaceInOrder(tr, nodep, np, p, k);
    if !found {
      return k, false;
    }
    ghost var pre := nodep[..];
    k', ok := ReorderArms(tr, nodep, np, p, k, fuel);
    ghost var m := nodep[k + 1..k'];
    Glue(init, pre, nodep[..], k, k', [p], m, [], ok);
    assert m + [] == m;
  }

  /** The rest of `reorderNodes` at an inner record p already written at
      entry k: the subtrees behind p's two other records, from k + 1 on. */
  method ReorderArms(tr: Tree, nodep: array<nat>, np: seq<nat>, p: nat, k: nat, fuel: nat)
    returns (k': nat, ok: bool)
    requires Linked(tr) && tr.Layout().IsInnerRecord(p) && InnerRecordsIn(tr, np)
    requires k < nodep.Length && fuel > 0
    modifies nodep
    ensures k + 1 <= k' <= nodep.Length
    ensures ok ==> [p] + nodep[k + 1..k'] == Preorder(tr, p, fuel)
    ensures nodep[..k + 1] == old(nodep[..k + 1])
    ensures nodep[k'..] == old(nodep[k'..])
    decreases fuel, 0
  {
    ArmsInRange(tr, p);
    var q := tr.back[tr.next[p]];
    var r := tr.back[tr.next[tr.next[p]]];
    if q == NULL || r == NULL {
      return k + 1, false;
    }
    k', ok := ReorderBoth(tr, nodep, np, q, r, k + 1, fuel - 1);
    if ok {
      PreorderInner(tr, p, q, r, fuel, nodep[k + 1..k']);
    }
  }

  /** The two other records of an inner record index `back`. */
  lemma ArmsInRange(tr: Tree, p: nat)
    requires Linked(tr) && tr.Layout().IsInnerRecord(p)
    ensures tr.next[p] < tr.back.Length && tr.next[tr.next[p]] < tr.back.Length
  {
    CycleFacts(tr.Layout(), p);
  }

  /** The preorder at an inner record p whose two other records are linked
      to q and r is p followed by the preorders behind q and r. */
  lemma PreorderInner(tr: Tree, p: nat, q: nat, r: nat, fuel: nat, block: seq<nat>)
    requires Linked(tr) && tr.Layout().IsInnerRecord(p) && fuel > 0
    requires tr.next[p] < tr.back.Length && tr.next[tr.next[p]] < tr.back.Length
    requires q == tr.back[tr.next[p]] != NULL && r == tr.back[tr.next[tr.next[p]]] != NULL
    requires block == Preorder(tr, q, fuel - 1) + Preorder(tr, r, fuel - 1)
    ensures [p] + block == Preorder(tr, p, fuel)
  {
    CycleFacts(tr.Layout(), p);
  }

  /** The two recursive calls of `reorderNodes`. */
  method ReorderBoth(tr: Tree, nodep: array<nat>, np: seq<nat>, q: nat, r: nat, k: nat, fuel: nat)
    returns (k': nat, ok: bool)
    requires Linked(tr) && tr.Layout().IsRecord(q) && tr.Layout().IsRecord(r) && InnerRecordsIn(tr, np)
    requires k <= nodep.Length
    modifies nodep
    ensures k <= k' <= nodep.Length
    ensures ok ==> nodep[k..k'] == Preorder(tr, q, fuel) + Preorder(tr, r, fuel)
    ensures nodep[..k] == old(nodep[..k])
    ensures nodep[k'..] == old(nodep[k'..])
    decreases fuel, 3
  {
    ghost var pre := nodep[..];
    var k1, ok1 := ReorderNodes(tr, nodep, np, q, k, fuel);
    ghost var mid := nodep[..];
    if !ok1 {
      return k1, false;
    }
    k', ok := ReorderNodes(tr, nodep, np, r, k1, fuel);
    Glue2(pre, mid, nodep[..], k, k1, k', Preorder(tr, q, fuel), Preorder(tr, r, fuel), ok);
  }

  /** A block spliced into an array: entries before `lo` are as before,
      every later entry is as before or one of the block's. */
  lemma Spliced(s: seq<nat>, s0: seq<nat>, lo: nat, hi: nat, P: seq<nat>)
    requires lo <= hi <= |s| == |s0|
    requires s[..lo] == s0[..lo] && s[hi..] == s0[hi..] && s[lo..hi] == P
    ensures forall i :: 0 <= i < lo ==> s[i] == s0[i]
    ensures forall i :: lo <= i < |s| ==> s[i] == s0[i] || s[i] in P
  {
    forall i | 0 <= i < lo
      ensures s[i] == s0[i]
    {
      assert s[i] == s[..lo][i];
    }
    forall i | lo <= i < |s|
      ensures s[i] == s0[i] || s[i] in P
    {
      if i < hi {
        assert s[i] == s[lo..hi][i - lo];
      } else {
        assert s[i] == s[hi..][i - hi];
      }
    }
  }

  /** `nodeRectifier(tr)`: the start becomes `nodep[1]`, and `nodep` is
      rewritten from entry `mxtips + 1` on with the inner records of the
      subtree behind `start->back` in preorder, each looked up in a copy of
      the old entries.  `count` is the number of entries written.  When the
      walk finishes, `nodep` still holds a record of an inner vertex at every
      inner entry; by `PreorderListsInnerVertices` the rewritten block lists
      each inner vertex of the tree once.  RAxML also clears `tr->rooted`,
      which this model does not carry. */
  method NodeRectifier(tr: Tree) returns (count: nat, ok: bool)
    requires Linked(tr) && NodeRecords(tr)
    modifies tr`start, tr.nodep
    ensures tr.start == old(tr.nodep[1]) && tr.Layout().IsRecord(tr.start)
    ensures tr.mxtips + 1 + count <= tr.nodep.Length
    ensures ok ==> tr.Layout().IsRecord(tr.back[tr.start])
                   && tr.nodep[tr.mxtips + 1..tr.mxtips + 1 + count] == Preorder(tr, tr.back[tr.start], Fuel(tr))
    ensures tr.nodep[..tr.mxtips + 1] == old(tr.nodep[..tr.mxtips + 1])
    ensures tr.nodep[tr.mxtips + 1 + count..] == old(tr.nodep[tr.mxtips + 1 + count..])
    ensures ok ==> NodeRecords(tr)
  {
    tr.start := tr.nodep[1];
    var s := tr.back[tr.start];
    if !(1 <= s < |tr.next|) {
      return 0, false;
    }
    count, ok := RewriteInnerEntries(tr, s);
  }

  /** The rewrite of `nodeRectifier`: the inner entries from `mxtips + 1`
      on become the preorder of the inner records behind s. */
  method RewriteInnerEntries(tr: Tree, s: nat) returns (count: nat, ok: bool)
    requires Linked(tr) && NodeRecords(tr) && tr.Layout().IsRecord(s)
    modifies tr.nodep
    ensures tr.mxtips + 1 + count <= tr.nodep.Length
    ensures ok ==> tr.nodep[tr.mxtips + 1..tr.mxtips + 1 + count] == Preorder(tr, s, Fuel(tr)) && NodeRecords(tr)
    ensures tr.nodep[..tr.mxtips + 1] == old(tr.nodep[..tr.mxtips + 1])
    ensures tr.nodep[tr.mxtips + 1 + count..] == old(tr.nodep[tr.mxtips + 1 + count..])
  {
    var np := tr.nodep[..];
    var k';
    k', ok := ReorderNodes(tr, tr.nodep, np, s, tr.mxtips + 1, Fuel(tr));
    count := k' - tr.mxtips - 1;
    if ok {
      PreorderShape(tr, s, Fuel(tr));
      RecordsAfterSplice(tr, np, k', Preorder(tr, s, Fuel(tr)));
    }
  }

  /** Splicing a block of inner records into the inner entries of `nodep`
      keeps `NodeRecords`. */
  lemma RecordsAfterSplice(tr: Tree, np: seq<nat>, hi: nat, P: seq<nat>)
    requires tr.Layout().WellFormed() && |np| == tr.nodep.Length == 2 * tr.mxtips
    requires forall i :: 1 <= i <= tr.mxtips ==> np[i] == i
    requires forall i :: tr.mxtips < i < 2 * tr.mxtips ==> tr.Layout().IsInnerRecord(np[i])
    requires forall x :: x in P ==> tr.Layout().IsInnerRecord(x)
    requires tr.mxtips + 1 <= hi <= tr.nodep.Length
    requires tr.nodep[..tr.mxtips + 1] == np[..tr.mxtips + 1] && tr.nodep[hi..] == np[hi..]
    requires tr.nodep[tr.mxtips + 1..hi] == P
    ensures NodeRecords(tr)
  {
    Spliced(tr.nodep[..], np, tr.mxtips + 1, hi, P);
    assert forall i :: 1 <= i <= tr.mxtips ==> tr.nodep[i] == np[i];
  }

  // ---------------------------------------------------------------------
  // The rearrangement passes of makeParsimonyTree

  /** One pass of the search loop of `makeParsimonyTree`: `nodeRectifier`,
      then `rearrangeParsimony(nodep[i], 1, 20, FALSE)` for
      i = 1 .. 2*mxtips-2, replaying the best move (`restoreTreeRearrangeParsimony`)
      whenever its score beats `randomMP`, which then takes that score.
      `randomMP` never rises and, on success, is the best score.  A failure
      of any step ends the pass with `ok == false`. */
  method SearchPass(tr: Tree, randomMP: nat) returns (randomMP': nat, ok: bool)
    requires tr.Topo() && tr.Sites() && NodeRecords(tr) && |tr.td.ti| >= 1
    requires tr.bestParsimony == randomMP
    modifies tr.back, tr.td, tr.xrec, tr.pVec, tr`bestParsimony, tr`insertNode, tr`removeNode
    modifies tr`start, tr.nodep
    ensures tr.Topo() && tr.Sites() && |tr.td.ti| >= 1
    ensures tr.bestParsimony <= randomMP' <= randomMP
    ensures ok ==> NodeRecords(tr) && tr.bestParsimony == randomMP'
  {
    var _, okR := NodeRectifier(tr);
    if !okR {
      return randomMP, false;
    }
    randomMP' := randomMP;
    var i := 1;
    while i <= 2 * tr.mxtips - 2
      invariant 1 <= i <= 2 * tr.mxtips - 1
      invariant tr.Topo() && tr.Sites() && NodeRecords(tr) && |tr.td.ti| >= 1
      invariant tr.bestParsimony == randomMP' <= randomMP
      decreases 2 * tr.mxtips - 1 - i
    {
      ghost var trialsA;
      var rA, okA;
      rA, okA, trialsA := RearrangeParsimony(tr, tr.nodep[i], 1, 20, false);
      if !okA {
        return randomMP', false;
      }
      if tr.bestParsimony < randomMP' {
        var okB := RestoreTreeRearrangeParsimony(tr);
        randomMP' := tr.bestParsimony;
        if !okB {
          return randomMP', false;
        }
      }
      i := i + 1;
    }
    ok := true;
  }

  /** The `do ... while (randomMP < startMP)` loop of `makeParsimonyTree`:
      passes are repeated while a pass lowers `randomMP`.  `randomMP` never
      rises, `startMP` is its value before the last pass, and on success
      the last pass found no improvement. */
  method SearchPasses(tr: Tree) returns (randomMP: nat, startMP: nat, ok: bool)
    requires tr.Topo() && tr.Sites() && NodeRecords(tr) && |tr.td.ti| >= 1
    modifies tr.back, tr.td, tr.xrec, tr.pVec, tr`bestParsimony, tr`insertNode, tr`removeNode
    modifies tr`start, tr.nodep
    ensures tr.Topo() && tr.Sites() && |tr.td.ti| >= 1
    ensures tr.bestParsimony <= randomMP <= startMP <= old(tr.bestParsimony)
    ensures ok ==> randomMP == startMP && tr.bestParsimony == randomMP && NodeRecords(tr)
  {
    startMP := tr.bestParsimony;
    randomMP, ok := SearchPass(tr, startMP);
    while ok && randomMP < startMP
      invariant tr.Topo() && tr.Sites() && |tr.td.ti| >= 1
      invariant tr.bestParsimony <= randomMP <= startMP <= old(tr.bestParsimony)
      invariant ok ==> NodeRecords(tr) && tr.bestParsimony == randomMP
      decreases if ok && randomMP < startMP then randomMP + 1 else 0
    {
      startMP := randomMP;
      randomMP, ok := SearchPass(tr, startMP);
    }
  }

  // ---------------------------------------------------------------------
  // Stepwise addition

  /** `Handles` (entry i holds a record of node i) gives `NodeRecords`. */
  lemma HandlesGiveNodeRecords(tr: Tree)
    requires tr.Shape() && tr.Layout().WellFormed() && tr.Handles()
    ensures NodeRecords(tr)
  {
    forall t | 1 <= t <= tr.mxtips
      ensures tr.nodep[t] == t
    {
      HandleOfTip(tr, t);
    }
    forall v | tr.mxtips < v < 2 * tr.mxtips
      ensures tr.Layout().IsInnerRecord(tr.nodep[v])
    {
      HandleOfInner(tr, v);
    }
  }

  /** One round of the stepwise-addition loop of `makeParsimonyTree` and
      `makeParsimonyTreeRapid`.  The best score is reset to INT_MAX and the
      tip count goes up.  Taxon t is hung from the next unused inner vertex
      q (`buildNewTip`).  q is test-inserted into the edges within
      `ntips - 2` steps of `findAnyTip(start)->back`
      (`addTraverseParsimony`).  It is then inserted for good at the best
      edge (`restoreTreeParsimony`).  RAxML asserts `INT_MAX - best >= 1000`.
      Here that assertion failing, a NULL link, or exhausted fuel give
      `ok == false`.  On success the best insertion found was one of q, and
      when the trial insertions restored the links (`Away` from the edge
      `f` the search starts at), q sits at the kept edge `insertNode` and
      both ends are current. */
  method AddTaxon(tr: Tree, t: nat) returns (q: nat, ok: bool, ghost trials: seq<Trial>, ghost f: int)
    requires tr.Topo() && tr.Sites() && NodeRecords(tr) && |tr.td.ti| >= 1
    requires 1 <= t <= tr.mxtips && tr.Layout().IsRecord(tr.start)
    requires 3 <= tr.ntips < tr.mxtips && tr.nextnode == tr.mxtips + tr.ntips - 1
    modifies tr.back, tr.td, tr.xrec, tr.pVec, tr`bestParsimony, tr`insertNode, tr`removeNode
    modifies tr`ntips, tr`nextnode
    ensures tr.Topo() && tr.Sites() && |tr.td.ti| >= 1
    ensures tr.ntips == old(tr.ntips) + 1 && tr.nextnode == old(tr.nextnode) + 1
    ensures q == old(tr.nodep[tr.nextnode]) && tr.Layout().IsInnerRecord(q)
    ensures ok ==> tr.bestParsimony + 1000 <= INT_MAX && tr.removeNode == q
    ensures KeptOf(tr) == After(Kept(INT_MAX, old(tr.insertNode), old(tr.removeNode)), trials)
    ensures forall t :: t in trials ==> t.p == q
    ensures ok && Away(tr.Layout(), NewTipLinks(tr.Layout(), old(tr.back[..]), tr.nodep[t], q), q, f, Fuel(tr)) ==>
              tr.Layout().IsRecord(tr.insertNode)
              && tr.Layout().IsRecord(NewTipLinks(tr.Layout(), old(tr.back[..]), tr.nodep[t], q)[tr.insertNode])
              && tr.back[..] == InsertLinks(tr.Layout(), NewTipLinks(tr.Layout(), old(tr.back[..]), tr.nodep[t], q), q, tr.insertNode)
              && tr.IsX(q) && tr.IsX(tr.insertNode)
  {
    tr.bestParsimony := INT_MAX;
    tr.ntips := tr.ntips + 1;
    var p := tr.nodep[t];
    q := BuildNewTip(tr, p);
    ghost var linked := tr.back[..];
    CycleFacts(tr.Layout(), q);
    assert linked[q] == p && linked[p] == q;
    ghost var searched;
    ok, trials, f, searched := PlaceNewTip(tr, p, q);
  }

  /** The part of a round after `buildNewTip`: the search for the best
      edge from a tip of the tree (starting at `f`), then the final
      insertion of p's neighbour at `insertNode`.  `searched` is the links
      the search leaves; when the search started `Away` from q they are the
      links before it. */
  method PlaceNewTip(tr: Tree, p: nat, q: nat) returns (ok: bool, ghost trials: seq<Trial>, ghost f: int, ghost searched: seq<int>)
    requires tr.Topo() && tr.Sites() && |tr.td.ti| >= 1
    requires tr.Layout().IsInnerRecord(q) && tr.Layout().IsRecord(tr.start) && tr.bestParsimony == INT_MAX
    modifies tr.back, tr.td, tr.xrec, tr.pVec, tr`bestParsimony, tr`insertNode, tr`removeNode
    ensures tr.Topo() && tr.Sites() && |tr.td.ti| >= 1
    ensures ok ==> tr.bestParsimony + 1000 <= INT_MAX && tr.removeNode == q
    ensures KeptOf(tr) == After(old(KeptOf(tr)), trials)
    ensures forall t :: t in trials ==> t.p == q
    ensures ok ==> |searched| == |tr.next| && 1 <= p < |tr.next| && tr.Layout().IsInnerRecord(searched[p])
                   && tr.Layout().IsRecord(tr.insertNode) && tr.Layout().IsRecord(searched[tr.insertNode])
    ensures ok ==> tr.back[..] == InsertLinks(tr.Layout(), searched, searched[p], tr.insertNode)
                   && tr.IsX(searched[p]) && tr.IsX(tr.insertNode)
    ensures (ok && Away(tr.Layout(), old(tr.back[..]), q, f, Fuel(tr))
             && (tr.grouped ==> tr.Layout().IsRecord(old(tr.back[q])))) ==> searched == old(tr.back[..])
  {
    searched := tr.back[..];
    f := 0;
    var ft := FindAnyTip(tr, tr.start, Fuel(tr));
    FindAnyTipFinds(tr, tr.start, Fuel(tr));
    if ft.None? {
      return false, [], f, searched;
    }
    var start := tr.back[ft.value];
    f := start;
    ok, trials := AddTraverseParsimony(tr, q, start, 1, tr.ntips - 2, false, Fuel(tr));
    searched := tr.back[..];
    if !ok || !(1 <= p < |tr.next|) {
      return false, trials, f, searched;
    }
    ok := Settle(tr, tr.back[p], tr.insertNode);
  }

  /** The end of a round: `restoreTreeParsimony(tr, p->back, insertNode)`
      and RAxML's assertion on the score.  pb is inserted into the edge at
      `ins` and both ends are brought up to date; a NULL link, flags the
      bounded loops could not settle, or a failed assertion give
      `ok == false`. */
  method Settle(tr: Tree, pb: int, ins: int) returns (ok: bool)
    requires tr.Topo() && tr.Sites() && |tr.td.ti| >= 1
    modifies tr.back, tr.td, tr.xrec, tr.pVec
    ensures tr.Topo() && tr.Sites() && |tr.td.ti| >= 1
    ensures ok ==> tr.bestParsimony + 1000 <= INT_MAX
    ensures ok ==> tr.Layout().IsInnerRecord(pb) && tr.Layout().IsRecord(ins) && tr.Layout().IsRecord(old(tr.back[ins]))
    ensures ok ==> tr.back[..] == InsertLinks(tr.Layout(), old(tr.back[..]), pb, ins) && tr.IsX(pb) && tr.IsX(ins)
  {
    if !(tr.mxtips < pb < |tr.next|) || !(1 <= ins < |tr.next|) || !(1 <= tr.back[ins] < |tr.next|) {
      return false;
    }
    var settled := RestoreTreeParsimony(tr, pb, ins);
    ok := settled && tr.bestParsimony + 1000 <= INT_MAX;
  }

  /** The loop `while (tr->ntips < tr->mxtips)` of stepwise addition: taxa
      `perm[ntips + 1] .. perm[mxtips]` are added in turn.  On success the
      tip count has reached `mxtips` and every inner node number has been
      handed out; where the taxa end up is not stated. */
  method StepwiseAddition(tr: Tree, perm: seq<nat>) returns (ok: bool)
    requires tr.Topo() && tr.Sites() && NodeRecords(tr) && |tr.td.ti| >= 1
    requires |perm| == tr.mxtips + 1 && forall i :: 1 <= i <= tr.mxtips ==> 1 <= perm[i] <= tr.mxtips
    requires 3 <= tr.ntips <= tr.mxtips && tr.nextnode == tr.mxtips + tr.ntips - 1
    requires tr.Layout().IsRecord(tr.start)
    modifies tr.back, tr.td, tr.xrec, tr.pVec, tr`bestParsimony, tr`insertNode, tr`removeNode
    modifies tr`ntips, tr`nextnode
    ensures tr.Topo() && tr.Sites() && |tr.td.ti| >= 1
    ensures ok ==> tr.ntips == tr.mxtips && tr.nextnode == 2 * tr.mxtips - 1
    ensures ok && old(tr.ntips) < tr.mxtips ==> tr.bestParsimony + 1000 <= INT_MAX
  {
    ghost var ntips0 := tr.ntips;
    while tr.ntips < tr.mxtips
      invariant tr.Topo() && tr.Sites() && NodeRecords(tr) && |tr.td.ti| >= 1
      invariant ntips0 <= tr.ntips <= tr.mxtips && tr.nextnode == tr.mxtips + tr.ntips - 1
      invariant ntips0 < tr.ntips ==> tr.bestParsimony + 1000 <= INT_MAX
      decreases tr.mxtips - tr.ntips
    {
      ghost var trialsT;
      var qT, okT;
      ghost var fT;
      qT, okT, trialsT, fT := AddTaxon(tr, perm[tr.ntips + 1]);
      if !okT {
        return false;
      }
    }
    ok := true;
  }

  /** The start of `makeParsimonyTree` and `makeParsimonyTreeRapid` after
      the site filter: the tree of taxa perm[1..3], then stepwise addition
      of the others in the order of `perm`. */
  method GrowTree(tr: Tree, perm: seq<nat>) returns (ok: bool)
    requires tr.Topo() && tr.Sites() && tr.Handles() && |tr.td.ti| >= 1
    requires |perm| == tr.mxtips + 1 && forall i :: 1 <= i <= tr.mxtips ==> 1 <= perm[i] <= tr.mxtips
    requires perm[1] != perm[2] && perm[2] != perm[3] && perm[1] != perm[3]
    modifies tr.back, tr.td, tr.xrec, tr.pVec, tr`bestParsimony, tr`insertNode, tr`removeNode
    modifies tr`ntips, tr`nextnode, tr`start
    ensures tr.Topo() && tr.Sites() && NodeRecords(tr) && |tr.td.ti| >= 1
    ensures tr.Layout().IsRecord(tr.start)
    ensures ok ==> tr.ntips == tr.mxtips && tr.nextnode == 2 * tr.mxtips - 1
  {
    HandlesGiveNodeRecords(tr);
    tr.ntips := 0;
    tr.nextnode := tr.mxtips + 1;
    BuildSimpleTree(tr, perm[1], perm[2], perm[3], false);
    HandleOfTip(tr, Min(Min(perm[1], perm[2]), perm[3]));
    ok := StepwiseAddition(tr, perm);
  }

  /** `makeParsimonyTreeRapid` after the site filter: stepwise addition and
      `nodeRectifier`, without rearrangements.  On success the tip count
      has reached `mxtips` and the start edge has records at both ends. */
  method MakeParsimonyTreeRapid(tr: Tree, perm: seq<nat>) returns (ok: bool)
    requires tr.Topo() && tr.Sites() && tr.Handles() && |tr.td.ti| >= 1
    requires |perm| == tr.mxtips + 1 && forall i :: 1 <= i <= tr.mxtips ==> 1 <= perm[i] <= tr.mxtips
    requires perm[1] != perm[2] && perm[2] != perm[3] && perm[1] != perm[3]
    modifies tr.back, tr.td, tr.xrec, tr.pVec, tr`bestParsimony, tr`insertNode, tr`removeNode
    modifies tr`ntips, tr`nextnode, tr`start, tr.nodep
    ensures tr.Topo() && tr.Sites() && |tr.td.ti| >= 1
    ensures ok ==> tr.ntips == tr.mxtips && NodeRecords(tr)
    ensures ok ==> tr.Layout().IsRecord(tr.start) && tr.Layout().IsRecord(tr.back[tr.start])
  {
    ok := GrowTree(tr, perm);
    if !ok {
      return;
    }
    var _, okR := NodeRectifier(tr);
    ok := okR;
  }

  /** `makeParsimonyTree` after the site filter: the rapid build, both ends
      of the start edge made current, and the rearrangement passes; then
      `nodeRectifier` once more.  On success the passes stopped after a
      pass that found no improvement, and the best score is the one the
      last pass ended with. */
  method MakeParsimonyTree(tr: Tree, perm: seq<nat>) returns (randomMP: nat, startMP: nat, ok: bool)
    requires tr.Topo() && tr.Sites() && tr.Handles() && |tr.td.ti| >= 1
    requires |perm| == tr.mxtips + 1 && forall i :: 1 <= i <= tr.mxtips ==> 1 <= perm[i] <= tr.mxtips
    requires perm[1] != perm[2] && perm[2] != perm[3] && perm[1] != perm[3]
    modifies tr.back, tr.td, tr.xrec, tr.pVec, tr`bestParsimony, tr`insertNode, tr`removeNode
    modifies tr`ntips, tr`nextnode, tr`start, tr.nodep
    ensures tr.Topo() && tr.Sites() && |tr.td.ti| >= 1
    ensures ok ==> NodeRecords(tr) && randomMP == startMP && tr.bestParsimony == randomMP
  {
    ok := MakeParsimonyTreeRapid(tr, perm);
    if !ok {
      return 0, 0, false;
    }
    var ok1 := InitravParsimonyNormal(tr, tr.start, Fuel(tr));
    var ok2 := InitravParsimonyNormal(tr, tr.back[tr.start], Fuel(tr));
    if !ok1 || !ok2 {
      return 0, 0, false;
    }
    randomMP, startMP, ok := SearchPasses(tr);
    if !ok {
      return;
    }
    var _, okF := NodeRectifier(tr);
    ok := okF;
  }

  // ---------------------------------------------------------------------
  // Random addition

  /** The edges `makeRandomTree` chooses from: f, the record across from a
      tip found from p, then the records `markBranches` writes from f. */
  function Branches(tr: Tree, f: nat): seq<nat>
    reads tr.back
    requires Linked(tr) && tr.Layout().IsRecord(f)
  {
    [f] + MarkBranches(tr, f, Fuel(tr))
  }

  /** Why RAxML's count assertion holds: marking from a record whose
      complete subtree holds k tips yields 2k - 1 edges.  When f is the
      record across from a tip of a tree of `ntips - 1` taxa, k is
      `ntips - 2`, giving `2 * (ntips - 1) - 3`. */
  lemma BranchCount(tr: Tree, f: nat)
    requires Linked(tr) && tr.Layout().IsRecord(f) && Nodes(tr, f, Fuel(tr)).Some?
    ensures |Branches(tr, f)| == 2 * |TipsIn(tr.mxtips, Nodes(tr, f, Fuel(tr)).value)| - 1
  {
    SubtreeCounts(tr, f, Fuel(tr));
  }

  /** Every edge `makeRandomTree` may pick is named by a record. */
  lemma BranchesAreRecords(tr: Tree, f: nat)
    requires Linked(tr) && tr.Layout().IsRecord(f)
    ensures forall x :: x in Branches(tr, f) ==> tr.Layout().IsRecord(x)
  {
    MarkBranchesShape(tr, f, Fuel(tr));
  }

  /** `branches[randomInt(branchCounter)]` after marking from f:
      `rand()` is the parameter `draw`, and `randomInt(n)` is `draw % n`.
      RAxML asserts `branchCounter == 2 * (ntips - 1) - 3`; here a
      different count, a NULL link or exhausted fuel give `ok == false`.
      On success the count is the number of edges of an unrooted tree of
      `ntips - 1` taxa, and the edge is entry `draw % count` of the
      edges marked from f. */
  method PickBranch(tr: Tree, branches: array<int>, f: nat, draw: nat) returns (e: nat, count: nat, ok: bool)
    requires Linked(tr) && tr.Layout().IsRecord(f) && branches.Length == 2 * tr.mxtips
    requires branches != tr.back
    modifies branches
    ensures ok ==> count == |Branches(tr, f)| == 2 * (tr.ntips - 1) - 3 && e == Branches(tr, f)[draw % count]
  {
    branches[0] := f;
    var c, okM := MarkBranchesInto(tr, branches, f, 1, Fuel(tr));
    if !okM || c != 2 * (tr.ntips - 1) - 3 {
      return 0, 0, false;
    }
    assert branches[..c] == Branches(tr, f) by {
      assert branches[..c] == branches[..1] + branches[1..c];
    }
    count := c;
    var k := draw % c;
    assert branches[k] == Branches(tr, f)[k] by {
      assert branches[k] == branches[..c][k];
    }
    e := branches[k];
    ok := true;
  }

  /** One round of `makeRandomTree`: taxon t is hung from the next inner
      vertex q, and q is inserted into an edge picked by `draw` among the
      edges marked from `findAnyTip(start)->back` (`insertRandom`), without
      any scoring. */
  method AddRandomTaxon(tr: Tree, branches: array<int>, t: nat, draw: nat) returns (q: nat, ok: bool)
    requires tr.Topo() && NodeRecords(tr) && branches.Length == 2 * tr.mxtips && branches != tr.back
    requires 1 <= t <= tr.mxtips && tr.Layout().IsRecord(tr.start)
    requires 3 <= tr.ntips < tr.mxtips && tr.nextnode == tr.mxtips + tr.ntips - 1
    modifies tr.back, tr`bestParsimony, tr`ntips, tr`nextnode, branches
    ensures tr.Topo() && tr.ntips == old(tr.ntips) + 1 && tr.nextnode == old(tr.nextnode) + 1
    ensures q == old(tr.nodep[tr.nextnode]) && tr.Layout().IsInnerRecord(q)
  {
    tr.bestParsimony := INT_MAX;
    tr.ntips := tr.ntips + 1;
    var p := tr.nodep[t];
    q := BuildNewTip(tr, p);
    var ft := FindAnyTip(tr, tr.start, Fuel(tr));
    FindAnyTipFinds(tr, tr.start, Fuel(tr));
    if ft.None? || !(1 <= tr.back[ft.value] < |tr.next|) {
      return q, false;
    }
    var e, _, okP := PickBranch(tr, branches, tr.back[ft.value], draw);
    if !okP || !(1 <= e < |tr.next|) || !(1 <= tr.back[e] < |tr.next|) {
      return q, false;
    }
    InsertRandom(tr, q, e);
    ok := true;
  }

  /** The loop of `makeRandomTree`: taxa `perm[ntips + 1] .. perm[mxtips]`
      are added at random edges; `draws[i]` stands for the `rand()` of the
      round that adds taxon i. */
  method RandomAddition(tr: Tree, perm: seq<nat>, draws: seq<nat>) returns (ok: bool)
    requires tr.Topo() && NodeRecords(tr) && tr.Layout().IsRecord(tr.start)
    requires |perm| == tr.mxtips + 1 && forall i :: 1 <= i <= tr.mxtips ==> 1 <= perm[i] <= tr.mxtips
    requires |draws| == tr.mxtips + 1
    requires 3 <= tr.ntips <= tr.mxtips && tr.nextnode == tr.mxtips + tr.ntips - 1
    modifies tr.back, tr`bestParsimony, tr`ntips, tr`nextnode
    ensures tr.Topo() && NodeRecords(tr)
    ensures ok ==> tr.ntips == tr.mxtips && tr.nextnode == 2 * tr.mxtips - 1
  {
    var branches := new int[2 * tr.mxtips];
    while tr.ntips < tr.mxtips
      invariant tr.Topo() && NodeRecords(tr) && tr.Layout().IsRecord(tr.start)
      invariant 3 <= tr.ntips <= tr.mxtips && tr.nextnode == tr.mxtips + tr.ntips - 1
      invariant fresh(branches) && branches.Length == 2 * tr.mxtips
      decreases tr.mxtips - tr.ntips
    {
      var _, okT := AddRandomTaxon(tr, branches, perm[tr.ntips + 1], draws[tr.ntips + 1]);
      if !okT {
        return false;
      }
    }
    ok := true;
  }

  /** `makeRandomTree`: the tree of taxa perm[1..3] (`buildSimpleTreeRandom`),
      then random addition of the others.  On success the tip count has
      reached `mxtips` and every inner node number has been handed out;
      where the taxa end up is not stated. */
  method MakeRandomTree(tr: Tree, perm: seq<nat>, draws: seq<nat>) returns (ok: bool)
    requires tr.Topo() && tr.Sites() && tr.Handles() && |tr.td.ti| >= 1
    requires |perm| == tr.mxtips + 1 && forall i :: 1 <= i <= tr.mxtips ==> 1 <= perm[i] <= tr.mxtips
    requires perm[1] != perm[2] && perm[2] != perm[3] && perm[1] != perm[3]
    requires |draws| == tr.mxtips + 1
    modifies tr.back, tr.td, tr.xrec, tr.pVec, tr`bestParsimony, tr`ntips, tr`nextnode, tr`start
    ensures tr.Topo() && NodeRecords(tr)
    ensures ok ==> tr.ntips == tr.mxtips && tr.nextnode == 2 * tr.mxtips - 1
  {
    HandlesGiveNodeRecords(tr);
    tr.ntips := 0;
    tr.nextnode := tr.mxtips + 1;
    BuildSimpleTree(tr, perm[1], perm[2], perm[3], true);
    HandleOfTip(tr, Min(Min(perm[1], perm[2]), perm[3]));
    ok := RandomAddition(tr, perm, draws);
  }
}
