/**
 * The parsimony tree search: `addTraverseParsimony` walks the edges near
 * a pruned vertex and test-inserts it into each, `rearrangeParsimony`
 * prunes one vertex on either side of an edge and regrafts it nearby
 * (bounded subtree pruning and regrafting).  The replay of the best move
 * found, `restoreTreeRearrangeParsimony`, is in ParsimonyBuild.
 */
module ParsimonySearch {
  import opened Wrappers
  import opened ParsimonyTree
  import opened ParsimonyEval
  import opened ParsimonyTraversal
  import opened ParsimonySubtree
  import opened ParsimonyDrivers
  import opened ParsimonyTopology

  // ---------------------------------------------------------------------
  // When a search leaves the links as they were

  /** q is a record whose whole subtree (walking away through `next`) lies
      apart from the pruned vertex p: every edge the traversal from q can
      reach is one `testInsertParsimony` restores. */
  ghost predicate Away(a: Arena, b: seq<int>, p: nat, q: int, fuel: nat)
    requires a.WellFormed() && |b| == |a.next| && a.IsInnerRecord(p)
    decreases fuel, 0
  {
    a.IsRecord(q) && Detached(a, b, p, q)
    && (a.IsInnerRecord(q) ==> fuel > 0 && ChildrenAway(a, b, p, q, fuel - 1))
  }

  /** Both subtrees behind an inner record c are `Away` from p. */
  ghost predicate ChildrenAway(a: Arena, b: seq<int>, p: nat, c: nat, fuel: nat)
    requires a.WellFormed() && |b| == |a.next| && a.IsInnerRecord(p)
    decreases fuel, 1
  {
    a.IsInnerRecord(c) ==>
      (CycleFacts(a, c);
       Away(a, b, p, b[a.Next(c)], fuel) && Away(a, b, p, b[a.NextNext(c)], fuel))
  }

  /** `addTraverseParsimony(tr, p, q, mintrav, maxtrav, doAll)`: tests the
      edge q-q->back unless fewer than `mintrav` edges have been walked
      (with `doAll` every edge is tried), then walks on into q's two
      subtrees while `maxtrav` allows it (`doAll` walks everything).  Both
      counters are decremented as in RAxML: `mintrav` only when `doAll` is
      off, `maxtrav` only when q is inner.  A NULL link where RAxML would
      follow it, or the walk outrunning `fuel`, gives `ok == false`. */
  method AddTraverseParsimony(tr: Tree, p: nat, q: int, mintrav: int, maxtrav: int, doAll: bool, fuel: nat)
    returns (ok: bool, ghost trials: seq<Trial>)
    requires tr.Topo() && tr.Sites() && tr.Layout().IsInnerRecord(p) && |tr.td.ti| >= 1
    modifies tr.back, tr.td, tr.xrec, tr.pVec, tr`bestParsimony, tr`insertNode, tr`removeNode
    ensures tr.Topo() && tr.Sites() && |tr.td.ti| >= 1
    ensures tr.bestParsimony <= old(tr.bestParsimony)
    ensures tr.bestParsimony < old(tr.bestParsimony) ==> tr.removeNode == p
    ensures tr.bestParsimony == old(tr.bestParsimony) ==>
              tr.insertNode == old(tr.insertNode) && tr.removeNode == old(tr.removeNode)
    ensures Away(tr.Layout(), old(tr.back[..]), p, q, fuel)
            && (tr.grouped ==> tr.Layout().IsRecord(old(tr.back[p]))) ==>
              ok && tr.back[..] == old(tr.back[..])
    ensures KeptOf(tr) == After(old(KeptOf(tr)), trials)
    ensures forall t :: t in trials ==> t.p == p
    decreases fuel, 0
  {
    if !(1 <= q < |tr.next|) {
      return false, [];
    }
    var mt := mintrav;
    var test := doAll;
    if !doAll {
      mt := mt - 1;
      test := mt <= 0;
    }
    ok, trials := TestIfDue(tr, p, q, test);
    if !ok {
      return;
    }
    TipIffTipNumber(tr.Layout(), q);
    if tr.number[q] > tr.mxtips && (maxtrav - 1 > 0 || doAll) {
      if fuel == 0 {
        return false, trials;
      }
      ghost var t1 := trials;
      ghost var t2;
      ghost var k0 := old(KeptOf(tr));
      ok, t2 := TraverseChildren(tr, p, q, mt, maxtrav - 1, doAll, fuel - 1);
      trials := t1 + t2;
      AfterAppend(k0, t1, t2);
      return;
    }
    ok := true;
  }

  /** The two recursive calls of `addTraverseParsimony` into the subtrees
      behind an inner record c (and the same pair of calls in
      `rearrangeParsimony`); a tip c has no subtrees. */
  method TraverseChildren(tr: Tree, p: nat, c: nat, mintrav: int, maxtrav: int, doAll: bool, fuel: nat)
    returns (ok: bool, ghost trials: seq<Trial>)
    requires tr.Topo() && tr.Sites() && tr.Layout().IsInnerRecord(p) && tr.Layout().IsRecord(c)
    requires |tr.td.ti| >= 1
    modifies tr.back, tr.td, tr.xrec, tr.pVec, tr`bestParsimony, tr`insertNode, tr`removeNode
    ensures tr.Topo() && tr.Sites() && |tr.td.ti| >= 1
    ensures tr.bestParsimony <= old(tr.bestParsimony)
    ensures tr.bestParsimony < old(tr.bestParsimony) ==> tr.removeNode == p
    ensures tr.bestParsimony == old(tr.bestParsimony) ==>
              tr.insertNode == old(tr.insertNode) && tr.removeNode == old(tr.removeNode)
    ensures ChildrenAway(tr.Layout(), old(tr.back[..]), p, c, fuel)
            && (tr.grouped ==> tr.Layout().IsRecord(old(tr.back[p]))) ==>
              ok && tr.back[..] == old(tr.back[..])
    ensures KeptOf(tr) == After(old(KeptOf(tr)), trials)
    ensures forall t :: t in trials ==> t.p == p
    decreases fuel, 1
  {
    if c <= tr.mxtips {
      return true, [];
    }
    CycleFacts(tr.Layout(), c);
    ok, trials := AddTraverseParsimony(tr, p, tr.back[tr.next[c]], mintrav, maxtrav, doAll, fuel);
    if ok {
      ghost var t1 := trials;
      ghost var t2;
      ok, t2 := AddTraverseParsimony(tr, p, tr.back[tr.next[tr.next[c]]], mintrav, maxtrav, doAll, fuel);
      trials := t1 + t2;
      AfterAppend(old(KeptOf(tr)), t1, t2);
    }
  }

  /** The first statement of `addTraverseParsimony`: the test insertion
      at q, when it is due. */
  method TestIfDue(tr: Tree, p: nat, q: nat, test: bool) returns (ok: bool, ghost trials: seq<Trial>)
    requires tr.Topo() && tr.Sites() && tr.Layout().IsInnerRecord(p) && tr.Layout().IsRecord(q)
    requires |tr.td.ti| >= 1
    modifies tr.back, tr.td, tr.xrec, tr.pVec, tr`bestParsimony, tr`insertNode, tr`removeNode
    ensures tr.Topo() && tr.Sites() && |tr.td.ti| >= 1
    ensures tr.bestParsimony <= old(tr.bestParsimony)
    ensures tr.bestParsimony < old(tr.bestParsimony) ==> tr.removeNode == p
    ensures tr.bestParsimony == old(tr.bestParsimony) ==>
              tr.insertNode == old(tr.insertNode) && tr.removeNode == old(tr.removeNode)
    ensures !test ==> ok && tr.back[..] == old(tr.back[..])
    ensures Detached(tr.Layout(), old(tr.back[..]), p, q)
            && (tr.grouped ==> tr.Layout().IsRecord(old(tr.back[p]))) ==>
              ok && tr.back[..] == old(tr.back[..])
    ensures KeptOf(tr) == After(old(KeptOf(tr)), trials)
    ensures forall t :: t in trials ==> t.p == p
  {
    trials := [];
    if test {
      if !(1 <= tr.back[q] < |tr.next|) || (tr.grouped && !(1 <= tr.back[p] < |tr.next|)) {
        return false, [];
      }
      trials := TestInsertParsimony(tr, p, q);
    }
    ok := true;
  }

  // ---------------------------------------------------------------------
  // Subtree pruning and regrafting

  /** The side of edge p-p->back that `rearrangeParsimony` prunes at p can
      be walked without disturbing anything: p's two neighbours p1 and p2
      point back at p, and once p is cut out every edge the two searches
      reach is `Away` from p. */
  ghost predicate SideSafe(a: Arena, b: seq<int>, p: nat, fuel: nat)
    requires a.WellFormed() && |b| == |a.next| && a.IsInnerRecord(p)
  {
    CycleFacts(a, p);
    var p1, p2 := b[a.Next(p)], b[a.NextNext(p)];
    a.IsRecord(p1) && a.IsRecord(p2) && b[p1] == a.Next(p) && b[p2] == a.NextNext(p)
    && (var b1 := RemoveLinks(a, b, p);
        ChildrenAway(a, b1, p, p1, fuel) && ChildrenAway(a, b1, p, p2, fuel))
  }

  /** Cutting p out and hooking its two other records back to their old
      neighbours restores every link. */
  lemma RejoinRoundTrip(a: Arena, b: seq<int>, p: nat)
    requires a.WellFormed() && |b| == |a.next| && a.IsInnerRecord(p)
    requires (CycleFacts(a, p); a.IsRecord(b[a.Next(p)]) && a.IsRecord(b[a.NextNext(p)]))
    requires b[b[a.Next(p)]] == a.Next(p) && b[b[a.NextNext(p)]] == a.NextNext(p)
    ensures Hookup(Hookup(RemoveLinks(a, b, p), a.Next(p), b[a.Next(p)]), a.NextNext(p), b[a.NextNext(p)]) == b
  {
    CycleFacts(a, p);
    var b' := Hookup(Hookup(RemoveLinks(a, b, p), a.Next(p), b[a.Next(p)]), a.NextNext(p), b[a.NextNext(p)]);
    assert forall i :: 0 <= i < |b| ==> b'[i] == b[i];
  }

  /** The body of either half of `rearrangeParsimony` once it has decided
      to prune at p (p1 and p2 being p's neighbours): p is removed, the
      subtrees behind p1 and p2 are searched for a better place to
      re-insert it, p is hooked back to p1 and p2, and made current again
      with `initravDISTParsimony(tr, p, 1)`. */
  method PruneAndSearch(tr: Tree, p: nat, mintrav: int, maxtrav: int, doAll: bool)
    returns (ok: bool, ghost trials: seq<Trial>)
    requires tr.Topo() && tr.Sites() && tr.Layout().IsInnerRecord(p) && |tr.td.ti| >= 1
    requires (CycleFacts(tr.Layout(), p);
              tr.Layout().IsRecord(tr.back[tr.next[p]]) && tr.Layout().IsRecord(tr.back[tr.next[tr.next[p]]]))
    modifies tr.back, tr.td, tr.xrec, tr.pVec, tr`bestParsimony, tr`insertNode, tr`removeNode
    ensures tr.Topo() && tr.Sites() && |tr.td.ti| >= 1
    ensures tr.bestParsimony <= old(tr.bestParsimony)
    ensures tr.bestParsimony < old(tr.bestParsimony) ==> tr.removeNode == p
    ensures tr.bestParsimony == old(tr.bestParsimony) ==>
              tr.insertNode == old(tr.insertNode) && tr.removeNode == old(tr.removeNode)
    ensures SideSafe(tr.Layout(), old(tr.back[..]), p, Fuel(tr))
            && (tr.grouped ==> tr.Layout().IsRecord(old(tr.back[p]))) ==>
              tr.back[..] == old(tr.back[..])
    ensures ok ==> tr.IsX(p)
    ensures KeptOf(tr) == After(old(KeptOf(tr)), trials)
    ensures forall t :: t in trials ==> t.p == p
  {
    ok, trials := PruneSearchRejoin(tr, p, mintrav, maxtrav, doAll);
    if ok {
      ok := InitravDISTParsimony(tr, p, 1);
    }
  }

  /** `PruneAndSearch` up to the re-hooking of p. */
  method PruneSearchRejoin(tr: Tree, p: nat, mintrav: int, maxtrav: int, doAll: bool)
    returns (ok: bool, ghost trials: seq<Trial>)
    requires tr.Topo() && tr.Sites() && tr.Layout().IsInnerRecord(p) && |tr.td.ti| >= 1
    requires (CycleFacts(tr.Layout(), p);
              tr.Layout().IsRecord(tr.back[tr.next[p]]) && tr.Layout().IsRecord(tr.back[tr.next[tr.next[p]]]))
    modifies tr.back, tr.td, tr.xrec, tr.pVec, tr`bestParsimony, tr`insertNode, tr`removeNode
    ensures tr.Topo() && tr.Sites() && |tr.td.ti| >= 1
    ensures tr.bestParsimony <= old(tr.bestParsimony)
    ensures tr.bestParsimony < old(tr.bestParsimony) ==> tr.removeNode == p
    ensures tr.bestParsimony == old(tr.bestParsimony) ==>
              tr.insertNode == old(tr.insertNode) && tr.removeNode == old(tr.removeNode)
    ensures SideSafe(tr.Layout(), old(tr.back[..]), p, Fuel(tr))
            && (tr.grouped ==> tr.Layout().IsRecord(old(tr.back[p]))) ==>
              ok && tr.back[..] == old(tr.back[..])
    ensures KeptOf(tr) == After(old(KeptOf(tr)), trials)
    ensures forall t :: t in trials ==> t.p == p
  {
    ghost var b0 := tr.back[..];
    CycleFacts(tr.Layout(), p);
    var p1 := tr.back[tr.next[p]];
    var p2 := tr.back[tr.next[tr.next[p]]];
    ghost var safe := SideSafe(tr.Layout(), b0, p, Fuel(tr)) && (tr.grouped ==> tr.Layout().IsRecord(b0[p]));
    var _ := RemoveNodeParsimony(tr, p);
    ghost var b1 := tr.back[..];
    assert safe ==> ChildrenAway(tr.Layout(), b1, p, p1, Fuel(tr)) && ChildrenAway(tr.Layout(), b1, p, p2, Fuel(tr))
                    && (tr.grouped ==> tr.Layout().IsRecord(b1[p]));
    ok, trials := SearchBoth(tr, p, p1, p2, mintrav, maxtrav, doAll);
    if !ok {
      return;
    }
    assert safe ==> tr.back[..] == b1;
    Rejoin(tr, p, p1, p2);
    if safe {
      RejoinRoundTrip(tr.Layout(), b0, p);
    }
  }

  /** The (up to) four `addTraverseParsimony` calls of one half of
      `rearrangeParsimony`: into the subtrees behind p1, then behind p2. */
  method SearchBoth(tr: Tree, p: nat, p1: nat, p2: nat, mintrav: int, maxtrav: int, doAll: bool)
    returns (ok: bool, ghost trials: seq<Trial>)
    requires tr.Topo() && tr.Sites() && tr.Layout().IsInnerRecord(p)
    requires tr.Layout().IsRecord(p1) && tr.Layout().IsRecord(p2) && |tr.td.ti| >= 1
    modifies tr.back, tr.td, tr.xrec, tr.pVec, tr`bestParsimony, tr`insertNode, tr`removeNode
    ensures tr.Topo() && tr.Sites() && |tr.td.ti| >= 1
    ensures tr.bestParsimony <= old(tr.bestParsimony)
    ensures tr.bestParsimony < old(tr.bestParsimony) ==> tr.removeNode == p
    ensures tr.bestParsimony == old(tr.bestParsimony) ==>
              tr.insertNode == old(tr.insertNode) && tr.removeNode == old(tr.removeNode)
    ensures ChildrenAway(tr.Layout(), old(tr.back[..]), p, p1, Fuel(tr))
            && ChildrenAway(tr.Layout(), old(tr.back[..]), p, p2, Fuel(tr))
            && (tr.grouped ==> tr.Layout().IsRecord(old(tr.back[p]))) ==>
              ok && tr.back[..] == old(tr.back[..])
    ensures KeptOf(tr) == After(old(KeptOf(tr)), trials)
    ensures forall t :: t in trials ==> t.p == p
  {
    ok, trials := TraverseChildren(tr, p, p1, mintrav, maxtrav, doAll, Fuel(tr));
    if ok {
      ghost var t1 := trials;
      ghost var t2;
      ok, t2 := TraverseChildren(tr, p, p2, mintrav, maxtrav, doAll, Fuel(tr));
      trials := t1 + t2;
      AfterAppend(old(KeptOf(tr)), t1, t2);
    }
  }

  /** The two `hookupDefault` calls that put a pruned p back between p1
      and p2. */
  method Rejoin(tr: Tree, p: nat, p1: nat, p2: nat)
    requires tr.Topo() && tr.Layout().IsInnerRecord(p) && tr.Layout().IsRecord(p1) && tr.Layout().IsRecord(p2)
    modifies tr.back
    ensures tr.Topo()
    ensures (CycleFacts(tr.Layout(), p);
             tr.back[..] == Hookup(Hookup(old(tr.back[..]), tr.Layout().Next(p), p1), tr.Layout().NextNext(p), p2))
  {
    CycleFacts(tr.Layout(), p);
    tr.HookupDefault(tr.next[p], p1);
    tr.HookupDefault(tr.next[tr.next[p]], p2);
  }

  /** Whether the subtree at c has an inner vertex one step below c, read
      the way `rearrangeParsimony` reads it (`c->next->back` first, and
      `c->next->next->back` only when that is a tip); `None` when a link it
      follows is NULL. */
  function HasInnerChild(tr: Tree, c: nat): (r: Option<bool>)
    reads tr.back
    requires Linked(tr) && tr.Layout().IsRecord(c)
    ensures tr.Layout().IsTipRecord(c) ==> r == Some(false)
    ensures tr.Layout().IsInnerRecord(c) ==>
              (CycleFacts(tr.Layout(), c);
               var c1, c2 := tr.back[tr.Layout().Next(c)], tr.back[tr.Layout().NextNext(c)];
               (r == Some(true) <==> tr.Layout().IsInnerRecord(c1)
                                      || (tr.Layout().IsTipRecord(c1) && tr.Layout().IsInnerRecord(c2)))
               && (r == Some(false) <==> tr.Layout().IsTipRecord(c1) && tr.Layout().IsTipRecord(c2)))
  {
    TipIffTipNumber(tr.Layout(), c);
    if tr.number[c] <= tr.mxtips then Some(false)
    else
      CycleFacts(tr.Layout(), c);
      var c1 := tr.back[tr.next[c]];
      if !(1 <= c1 < |tr.next|) then None
      else
        TipIffTipNumber(tr.Layout(), c1);
        if tr.number[c1] > tr.mxtips then Some(true)
        else
          var c2 := tr.back[tr.next[tr.next[c]]];
          if !(1 <= c2 < |tr.next|) then None
          else
            TipIffTipNumber(tr.Layout(), c2);
            Some(tr.number[c2] > tr.mxtips)
  }

  /** The first half of `rearrangeParsimony`: p itself is pruned when it is
      inner and one of its two neighbours is inner. */
  method RearrangeNear(tr: Tree, p: nat, mintrav: int, maxtrav: int, doAll: bool)
    returns (ok: bool, ghost trials: seq<Trial>)
    requires tr.Topo() && tr.Sites() && tr.Layout().IsRecord(p) && |tr.td.ti| >= 1
    modifies tr.back, tr.td, tr.xrec, tr.pVec, tr`bestParsimony, tr`insertNode, tr`removeNode
    ensures tr.Topo() && tr.Sites() && |tr.td.ti| >= 1
    ensures tr.bestParsimony <= old(tr.bestParsimony)
    ensures tr.bestParsimony < old(tr.bestParsimony) ==> tr.removeNode == p
    ensures tr.bestParsimony == old(tr.bestParsimony) ==>
              tr.insertNode == old(tr.insertNode) && tr.removeNode == old(tr.removeNode)
    ensures (tr.Layout().IsInnerRecord(p) ==> SideSafe(tr.Layout(), old(tr.back[..]), p, Fuel(tr)))
            && (tr.grouped ==> tr.Layout().IsRecord(old(tr.back[p]))) ==>
              tr.back[..] == old(tr.back[..])
    ensures KeptOf(tr) == After(old(KeptOf(tr)), trials)
    ensures forall t :: t in trials ==> t.p == p
  {
    trials := [];
    TipIffTipNumber(tr.Layout(), p);
    if tr.number[p] <= tr.mxtips {
      return true, [];
    }
    CycleFacts(tr.Layout(), p);
    var p1 := tr.back[tr.next[p]];
    var p2 := tr.back[tr.next[tr.next[p]]];
    if !(1 <= p1 < |tr.next|) || !(1 <= p2 < |tr.next|) {
      return false, [];
    }
    TipIffTipNumber(tr.Layout(), p1);
    TipIffTipNumber(tr.Layout(), p2);
    if tr.number[p1] > tr.mxtips || tr.number[p2] > tr.mxtips {
      ok, trials := PruneAndSearch(tr, p, mintrav, maxtrav, doAll);
    } else {
      ok := true;
    }
  }

  /** The second half of `rearrangeParsimony`, at q = p->back: q is pruned
      when it is inner and one of its neighbours has an inner vertex below
      it; the searches from there start testing only at distance 2. */
  method RearrangeFar(tr: Tree, q: nat, mintrav: int, maxtrav: int, doAll: bool)
    returns (ok: bool, ghost trials: seq<Trial>)
    requires tr.Topo() && tr.Sites() && tr.Layout().IsRecord(q) && |tr.td.ti| >= 1
    modifies tr.back, tr.td, tr.xrec, tr.pVec, tr`bestParsimony, tr`insertNode, tr`removeNode
    ensures tr.Topo() && tr.Sites() && |tr.td.ti| >= 1
    ensures tr.bestParsimony <= old(tr.bestParsimony)
    ensures tr.bestParsimony < old(tr.bestParsimony) ==> tr.removeNode == q
    ensures tr.bestParsimony == old(tr.bestParsimony) ==>
              tr.insertNode == old(tr.insertNode) && tr.removeNode == old(tr.removeNode)
    ensures (tr.Layout().IsInnerRecord(q) ==> SideSafe(tr.Layout(), old(tr.back[..]), q, Fuel(tr)))
            && (tr.grouped ==> tr.Layout().IsRecord(old(tr.back[q]))) ==>
              tr.back[..] == old(tr.back[..])
    ensures KeptOf(tr) == After(old(KeptOf(tr)), trials)
    ensures forall t :: t in trials ==> t.p == q
  {
    trials := [];
    TipIffTipNumber(tr.Layout(), q);
    if tr.number[q] <= tr.mxtips {
      return true, [];
    }
    CycleFacts(tr.Layout(), q);
    var q1 := tr.back[tr.next[q]];
    var q2 := tr.back[tr.next[tr.next[q]]];
    if !(1 <= q1 < |tr.next|) || !(1 <= q2 < |tr.next|) {
      return false, [];
    }
    var d := HasInnerChild(tr, q1);
    if d == None {
      return false, [];
    }
    if d == Some(false) {
      d := HasInnerChild(tr, q2);
      if d == None {
        return false, [];
      }
    }
    if d == Some(true) {
      var mintrav2 := if mintrav > 2 then mintrav else 2;
      ok, trials := PruneAndSearch(tr, q, mintrav2, maxtrav, doAll);
    } else {
      ok := true;
    }
  }

  /** `maxtrav` clamped to `ntips - 3`, as `rearrangeParsimony` starts. */
  function Clamp(maxtrav: int, ntips: nat): (m: int)
    ensures m <= maxtrav && m <= ntips - 3
    ensures m == maxtrav || m == ntips - 3
  {
    if maxtrav > ntips - 3 then ntips - 3 else maxtrav
  }

  /** The cases in which `rearrangeParsimony` returns 0 without moving
      anything: the clamped radius is below `mintrav`, or constraints are
      on and neither side of the edge p-p->back is homogeneous in group 0. */
  ghost predicate Skips(tr: Tree, p: nat, mintrav: int, maxtrav: int)
    reads tr, tr.back, tr.constraintVector
    requires Linked(tr) && tr.Layout().IsRecord(p)
  {
    Clamp(maxtrav, tr.ntips) < mintrav
    || (tr.constrained && tr.Layout().IsRecord(tr.back[p]) && tr.Layout().IsRecord(tr.back[tr.back[p]])
        && !TipHomogeneityChecker(tr, tr.back[p], 0, Fuel(tr))
        && !TipHomogeneityChecker(tr, tr.back[tr.back[p]], 0, Fuel(tr)))
  }

  /** Both halves of a rearrangement at p leave the links as they were. */
  ghost predicate Rearrangeable(a: Arena, b: seq<int>, p: nat, fuel: nat, grouped: bool)
    requires a.WellFormed() && |b| == |a.next| && a.IsRecord(p)
  {
    a.IsRecord(b[p])
    && (a.IsInnerRecord(p) ==> SideSafe(a, b, p, fuel))
    && (a.IsInnerRecord(b[p]) ==> SideSafe(a, b, b[p], fuel))
    && (grouped ==> a.IsRecord(b[b[p]]))
  }

  /** `rearrangeParsimony(tr, p, mintrav, maxtrav, doAll)`: one round of
      subtree pruning and regrafting around the edge p-p->back.  The result
      is 0 exactly in the `Skips` cases, and then nothing has changed; the
      best score never rises, and a strictly better one was found by
      pruning p or p->back.  RAxML asserts `mintrav == 1`. */
  method RearrangeParsimony(tr: Tree, p: nat, mintrav: int, maxtrav: int, doAll: bool)
    returns (r: int, ok: bool, ghost trials: seq<Trial>)
    requires tr.Topo() && tr.Sites() && tr.Layout().IsRecord(p) && |tr.td.ti| >= 1
    requires mintrav == 1
    modifies tr.back, tr.td, tr.xrec, tr.pVec, tr`bestParsimony, tr`insertNode, tr`removeNode
    ensures tr.Topo() && tr.Sites() && |tr.td.ti| >= 1
    ensures r == 0 || r == 1
    ensures ok ==> (r == 0 <==> old(Skips(tr, p, mintrav, maxtrav)))
    ensures r == 0 ==>
              tr.back[..] == old(tr.back[..]) && tr.bestParsimony == old(tr.bestParsimony)
              && tr.insertNode == old(tr.insertNode) && tr.removeNode == old(tr.removeNode)
    ensures tr.bestParsimony <= old(tr.bestParsimony)
    ensures tr.bestParsimony < old(tr.bestParsimony) ==> tr.removeNode == p || tr.removeNode == old(tr.back[p])
    ensures tr.bestParsimony == old(tr.bestParsimony) ==>
              tr.insertNode == old(tr.insertNode) && tr.removeNode == old(tr.removeNode)
    ensures Rearrangeable(tr.Layout(), old(tr.back[..]), p, Fuel(tr), tr.grouped) ==>
              tr.back[..] == old(tr.back[..])
    ensures KeptOf(tr) == After(old(KeptOf(tr)), trials)
    ensures forall t :: t in trials ==> t.p == p || t.p == old(tr.back[p])
  {
    var mx := Clamp(maxtrav, tr.ntips);
    if mx < mintrav {
      return 0, true, [];
    }
    var q := tr.back[p];
    if !(1 <= q < |tr.next|) {
      return 0, false, [];
    }
    var doP, doQ := true, true;
    if tr.constrained {
      if !(1 <= tr.back[q] < |tr.next|) {
        return 0, false, [];
      }
      doP := TipHomogeneityChecker(tr, q, 0, Fuel(tr));
      doQ := TipHomogeneityChecker(tr, tr.back[q], 0, Fuel(tr));
      if !doP && !doQ {
        return 0, true, [];
      }
    }
    r, ok, trials := 1, true, [];
    if doP {
      ok, trials := RearrangeNear(tr, p, mintrav, mx, doAll);
    }
    if mx > 0 && doQ {
      ghost var t1 := trials;
      ghost var t2;
      var okQ;
      okQ, t2 := RearrangeFar(tr, q, mintrav, mx, doAll);
      ok := ok && okQ;
      trials := t1 + t2;
      AfterAppend(old(KeptOf(tr)), t1, t2);
    }
  }
}
