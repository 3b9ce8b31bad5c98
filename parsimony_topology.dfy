/**
 * Topology edits of the parsimony search: inserting a pruned vertex into
 * an edge (`insertParsimony`, `insertRandom`), cutting it out again
 * (`removeNodeParsimony`), growing the tree by a tip (`buildNewTip`,
 * `buildSimpleTree`), and the test insertion that scores one candidate
 * edge and undoes itself (`testInsertParsimony`, `restoreTreeParsimony`).
 */
module ParsimonyTopology {
  import opened ParsimonyTree
  import opened ParsimonyEval
  import opened ParsimonyTraversal
  import opened ParsimonySubtree
  import opened ParsimonyDrivers

  /** `INT_MAX`, the score the search starts each round from. */
  const INT_MAX: nat := 0x7fff_ffff

  // ---------------------------------------------------------------------
  // Links as values

  /** The links after `testInsertParsimony`'s insertion and undo: p is
      hooked into q-r, then q and r are hooked together again and p's two
      other records are set to NULL. */
  function TestLinks(a: Arena, b: seq<int>, p: nat, q: nat): (b': seq<int>)
    requires a.WellFormed() && |b| == |a.next| && a.IsInnerRecord(p) && a.IsRecord(q) && a.IsRecord(b[q])
    ensures |b'| == |b|
  {
    CycleFacts(a, p);
    var b' := InsertLinks(a, b, p, q);
    Hookup(b', q, b[q])[a.Next(p) := NULL][a.NextNext(p) := NULL]
  }

  /** A test insertion into an edge away from the detached vertex p leaves
      every link as it was. */
  lemma TestLinksRestore(a: Arena, b: seq<int>, p: nat, q: nat)
    requires a.WellFormed() && |b| == |a.next| && a.IsInnerRecord(p) && a.IsRecord(q)
    requires Detached(a, b, p, q)
    ensures TestLinks(a, b, p, q) == b
  {
    CycleFacts(a, p);
    InsertRemoveRoundTrip(a, b, p, q);
    InsertLinksShape(a, b, p, q);
  }

  /** The rewiring of `buildNewTip`: p and q become an edge and q's two
      other records are NULL. */
  function NewTipLinks(a: Arena, b: seq<int>, p: nat, q: nat): (b': seq<int>)
    requires a.WellFormed() && |b| == |a.next| && a.IsRecord(p) && a.IsInnerRecord(q)
    ensures |b'| == |b|
  {
    CycleFacts(a, q);
    Hookup(b, p, q)[a.Next(q) := NULL][a.NextNext(q) := NULL]
  }

  // ---------------------------------------------------------------------
  // The edits

  /** `insertRandom(p, q)`: p is hooked into the edge q-r, r = q->back. */
  method InsertRandom(tr: Tree, p: nat, q: nat)
    requires tr.Topo() && tr.Layout().IsInnerRecord(p) && tr.Layout().IsRecord(q)
    requires tr.Layout().IsRecord(tr.back[q])
    modifies tr.back
    ensures tr.Topo()
    ensures tr.back[..] == InsertLinks(tr.Layout(), old(tr.back[..]), p, q)
  {
    CycleFacts(tr.Layout(), p);
    var r := tr.back[q];
    tr.HookupDefault(tr.next[p], q);
    tr.HookupDefault(tr.next[tr.next[p]], r);
  }

  /** `insertParsimony(tr, p, q)`: `insertRandom`, then p is made current. */
  method InsertParsimony(tr: Tree, p: nat, q: nat) returns (ok: bool)
    requires tr.Topo() && tr.Sites() && tr.Layout().IsInnerRecord(p) && tr.Layout().IsRecord(q)
    requires tr.Layout().IsRecord(tr.back[q]) && |tr.td.ti| >= 1
    modifies tr.back, tr.td, tr.xrec, tr.pVec
    ensures tr.Topo() && tr.Sites() && |tr.td.ti| >= 1
    ensures tr.back[..] == InsertLinks(tr.Layout(), old(tr.back[..]), p, q)
    ensures ok ==> tr.IsX(p) && |tr.td.ti| > 1 && EntryFor(tr, p, tr.td.ti[|tr.td.ti| - 1])
    ensures Nodes(tr, p, Fuel(tr)).Some? ==>
              ok && Replayable(tr.mxtips, tr.td.ti) && Ordered(tr.td.ti)
              && forall k :: 1 <= k < |tr.td.ti| ==> StepHolds(tr, tr.td.ti[k])
  {
    InsertRandom(tr, p, q);
    ok := NewviewParsimony(tr, p, Fuel(tr));
  }

  /** `removeNodeParsimony(p)`: p's two neighbours q and r are hooked to
      each other, p's two other records become NULL, and q is returned. */
  method RemoveNodeParsimony(tr: Tree, p: nat) returns (q: nat)
    requires tr.Topo() && tr.Layout().IsInnerRecord(p)
    requires (CycleFacts(tr.Layout(), p);
              tr.Layout().IsRecord(tr.back[tr.next[p]]) && tr.Layout().IsRecord(tr.back[tr.next[tr.next[p]]]))
    modifies tr.back
    ensures tr.Topo()
    ensures q == old(tr.back[tr.next[p]])
    ensures tr.back[..] == RemoveLinks(tr.Layout(), old(tr.back[..]), p)
  {
    CycleFacts(tr.Layout(), p);
    q := tr.back[tr.next[p]];
    var r := tr.back[tr.next[tr.next[p]]];
    tr.HookupDefault(q, r);
    tr.back[tr.next[p]] := NULL;
    tr.back[tr.next[tr.next[p]]] := NULL;
  }

  /** `buildNewTip(tr, p)`: the next unused inner vertex q is taken,
      hooked to p with its two other records NULL; q's cycle closes after
      three steps and one of its records carries the x flag. */
  method BuildNewTip(tr: Tree, p: nat) returns (q: nat)
    requires tr.Topo() && tr.Layout().IsRecord(p)
    requires tr.nextnode < tr.nodep.Length && tr.Layout().IsInnerRecord(tr.nodep[tr.nextnode])
    modifies tr.back, tr`nextnode
    ensures tr.Topo()
    ensures q == old(tr.nodep[tr.nextnode]) && tr.nextnode == old(tr.nextnode) + 1
    ensures tr.Layout().IsInnerRecord(q)
    ensures tr.back[..] == NewTipLinks(tr.Layout(), old(tr.back[..]), p, q)
    ensures (CycleFacts(tr.Layout(), q); tr.next[tr.next[tr.next[q]]] == q)
    ensures (CycleFacts(tr.Layout(), q); tr.IsX(q) || tr.IsX(tr.next[q]) || tr.IsX(tr.next[tr.next[q]]))
  {
    q := tr.nodep[tr.nextnode];
    tr.nextnode := tr.nextnode + 1;
    CycleFacts(tr.Layout(), q);
    tr.HookupDefault(p, q);
    tr.back[tr.next[q]] := NULL;
    tr.back[tr.next[tr.next[q]]] := NULL;
    ghost var x := tr.xrec[tr.InnerIndex(q)];
    SameVertex(tr.Layout(), q, x);
  }

  /** The tree `buildSimpleTree` makes from tips P, Q and R and the new
      inner vertex s: s's three records are linked to R, P and Q in turn,
      and nothing else changes. */
  predicate IsStar(a: Arena, b0: seq<int>, b: seq<int>, P: nat, Q: nat, R: nat, s: nat)
    requires a.WellFormed() && |b0| == |a.next| && |b| == |a.next| && a.IsInnerRecord(s)
    requires a.IsTipRecord(P) && a.IsTipRecord(Q) && a.IsTipRecord(R)
  {
    CycleFacts(a, s);
    var s1, s2 := a.Next(s), a.NextNext(s);
    b[R] == s && b[s] == R && b[s1] == P && b[P] == s1 && b[s2] == Q && b[Q] == s2
    && forall i :: 0 <= i < |b| && i !in {P, Q, R, s, s1, s2} ==> b[i] == b0[i]
  }

  /** `buildSimpleTree(tr, ip, iq, ir)` and, with `random`,
      `buildSimpleTreeRandom`: the tree of the first three taxa.  The start
      is the smallest of the three, ip and iq are hooked together, a new
      inner vertex is hung from ir and inserted into the edge ip-iq; only
      `buildSimpleTree` makes the new vertex current. */
  method BuildSimpleTree(tr: Tree, ip: nat, iq: nat, ir: nat, random: bool)
    requires tr.Topo() && tr.Sites() && tr.Handles() && |tr.td.ti| >= 1
    requires 1 <= ip <= tr.mxtips && 1 <= iq <= tr.mxtips && 1 <= ir <= tr.mxtips
    requires ip != iq && iq != ir && ip != ir
    requires tr.mxtips < tr.nextnode < 2 * tr.mxtips
    modifies tr.back, tr.td, tr.xrec, tr.pVec, tr`start, tr`ntips, tr`nextnode
    ensures tr.Topo() && tr.Sites() && |tr.td.ti| >= 1
    ensures tr.start == Min(Min(ip, iq), ir) && tr.ntips == 3 && tr.nextnode == old(tr.nextnode) + 1
    ensures tr.Layout().IsInnerRecord(old(tr.nodep[tr.nextnode]))
    ensures IsStar(tr.Layout(), old(tr.back[..]), tr.back[..], ip, iq, ir, old(tr.nodep[tr.nextnode]))
  {
    var i := Min(ip, iq);
    if ir < i {
      i := ir;
    }
    tr.start := tr.nodep[i];
    HandleOfTip(tr, i);
    tr.ntips := 3;
    var _ := MakeStar(tr, ip, iq, ir, random);
  }

  /** The links of `buildSimpleTree`, without the start and the tip count. */
  method MakeStar(tr: Tree, ip: nat, iq: nat, ir: nat, random: bool) returns (s: nat)
    requires tr.Topo() && tr.Sites() && tr.Handles() && |tr.td.ti| >= 1
    requires 1 <= ip <= tr.mxtips && 1 <= iq <= tr.mxtips && 1 <= ir <= tr.mxtips
    requires ip != iq && iq != ir && ip != ir
    requires tr.mxtips < tr.nextnode < 2 * tr.mxtips
    modifies tr.back, tr.td, tr.xrec, tr.pVec, tr`nextnode
    ensures tr.Topo() && tr.Sites() && |tr.td.ti| >= 1
    ensures tr.nextnode == old(tr.nextnode) + 1 && s == old(tr.nodep[tr.nextnode])
    ensures tr.Layout().IsInnerRecord(s)
    ensures IsStar(tr.Layout(), old(tr.back[..]), tr.back[..], ip, iq, ir, s)
  {
    HandleOfTip(tr, ip);
    HandleOfTip(tr, iq);
    HandleOfTip(tr, ir);
    ghost var b0 := tr.back[..];
    s := StarFrame(tr, ip, iq, ir);
    StarLinks(tr.Layout(), b0, ip, iq, ir, s);
    if random {
      InsertRandom(tr, s, ip);
    } else {
      var _ := InsertParsimony(tr, s, ip);
    }
  }

  /** The first two steps of `buildSimpleTree`: ip and iq are hooked
      together and a new inner vertex s is hung from ir. */
  method StarFrame(tr: Tree, ip: nat, iq: nat, ir: nat) returns (s: nat)
    requires tr.Topo() && tr.Handles()
    requires 1 <= ip <= tr.mxtips && 1 <= iq <= tr.mxtips && 1 <= ir <= tr.mxtips
    requires tr.nodep[ip] == ip && tr.nodep[iq] == iq && tr.nodep[ir] == ir
    requires tr.mxtips < tr.nextnode < 2 * tr.mxtips
    modifies tr.back, tr`nextnode
    ensures tr.Topo()
    ensures s == old(tr.nodep[tr.nextnode]) && tr.nextnode == old(tr.nextnode) + 1
    ensures tr.Layout().IsInnerRecord(s)
    ensures tr.back[..] == NewTipLinks(tr.Layout(), Hookup(old(tr.back[..]), ip, iq), ir, s)
  {
    HandleOfInner(tr, tr.nextnode);
    tr.HookupDefault(tr.nodep[ip], tr.nodep[iq]);
    s := BuildNewTip(tr, tr.nodep[ir]);
  }

  function Min(x: nat, y: nat): nat
  {
    if x < y then x else y
  }

  /** `nodep[t]` is taxon t's own record. */
  lemma HandleOfTip(tr: Tree, t: nat)
    requires tr.Shape() && tr.Layout().WellFormed() && tr.Handles() && 1 <= t <= tr.mxtips
    ensures tr.nodep[t] == t
  {
    TipIffTipNumber(tr.Layout(), tr.nodep[t]);
  }

  /** `nodep[v]` of an inner node v is an inner record. */
  lemma HandleOfInner(tr: Tree, v: nat)
    requires tr.Shape() && tr.Layout().WellFormed() && tr.Handles() && tr.mxtips < v < 2 * tr.mxtips
    ensures tr.Layout().IsInnerRecord(tr.nodep[v])
  {
    TipIffTipNumber(tr.Layout(), tr.nodep[v]);
  }

  /** The three rewirings of `buildSimpleTree` make the star. */
  lemma StarLinks(a: Arena, b0: seq<int>, P: nat, Q: nat, R: nat, s: nat)
    requires a.WellFormed() && |b0| == |a.next| && a.IsInnerRecord(s)
    requires a.IsTipRecord(P) && a.IsTipRecord(Q) && a.IsTipRecord(R) && P != Q && Q != R && P != R
    ensures (var b2 := NewTipLinks(a, Hookup(b0, P, Q), R, s);
             b2[P] == Q
             && IsStar(a, b0, InsertLinks(a, b2, s, P), P, Q, R, s))
  {
    CycleFacts(a, s);
  }

  /** The group `testInsertParsimony` compares: a node's own entry, or,
      when that is -9, what `checker` finds behind it. */
  function GroupOf(tr: Tree, r: nat, via: nat): int
    reads tr.back, tr.constraintVector
    requires Linked(tr) && tr.Layout().IsRecord(r) && tr.Layout().IsRecord(via)
  {
    TipIffTipNumber(tr.Layout(), r);
    var own := tr.constraintVector[tr.number[r]];
    if own == -9 then Checker(tr, via, Fuel(tr)) else own
  }

  /** Whether `testInsertParsimony` tries the edge q-r for p: always without
      grouping; with grouping when p's group (looked up behind p->back) is
      -9, or equals q's or r's group. */
  function DoIt(tr: Tree, p: nat, q: nat): bool
    reads tr.back, tr.constraintVector
    requires Linked(tr) && tr.Layout().IsInnerRecord(p) && tr.Layout().IsRecord(q)
    requires tr.Layout().IsRecord(tr.back[q]) && (tr.grouped ==> tr.Layout().IsRecord(tr.back[p]))
  {
    if !tr.grouped then true
    else
      var r := tr.back[q];
      var pGroup := GroupOf(tr, p, tr.back[p]);
      pGroup == -9 || pGroup == GroupOf(tr, r, r) || pGroup == GroupOf(tr, q, q)
  }

  /** With grouping, a pruned subtree none of whose vertices has a group
      is tried everywhere. */
  lemma UngroupedSubtreeIsTried(tr: Tree, p: nat, q: nat)
    requires Linked(tr) && tr.Layout().IsInnerRecord(p) && tr.Layout().IsRecord(q)
    requires tr.Layout().IsRecord(tr.back[q]) && tr.Layout().IsRecord(tr.back[p])
    requires (TipIffTipNumber(tr.Layout(), p); tr.constraintVector[tr.number[p]] == -9)
    requires Nodes(tr, tr.back[p], Fuel(tr)).Some?
    requires forall v :: v in Nodes(tr, tr.back[p], Fuel(tr)).value ==> v < tr.constraintVector.Length && tr.constraintVector[v] == -9
    ensures DoIt(tr, p, q)
  {
    CheckerFindsGroup(tr, tr.back[p], Fuel(tr));
  }

  /** The score `testInsertParsimony` reads once p sits in the edge to r:
      the weighted score of the edge between p's third record and r in
      the current vectors. */
  ghost function InsertionScore(tr: Tree, p: nat, r: nat): nat
    reads tr.cdta, tr.pVec, tr.aliaswgt
    requires tr.Sites() && tr.Layout().WellFormed() && tr.Layout().IsInnerRecord(p) && tr.Layout().IsRecord(r)
  {
    CycleFacts(tr.Layout(), p);
    TipIffTipNumber(tr.Layout(), tr.Layout().NextNext(p));
    TipIffTipNumber(tr.Layout(), r);
    EdgeScore(tr, tr.number[tr.Layout().NextNext(p)], tr.number[r], |tr.cdta.partitions|)
  }

  /** The best score after one scored insertion: the score when strictly
      lower, the old best otherwise. */
  function Improved(best: nat, score: nat): nat
  {
    if score < best then score else best
  }

  /** One test insertion: p tried in the edge at q, and the score read. */
  datatype Trial = Trial(p: nat, q: nat, score: nat)

  /** What the search keeps: the best score so far and the insertion that
      reached it. */
  datatype Kept = Kept(score: nat, insertNode: int, removeNode: int)

  ghost function KeptOf(tr: Tree): Kept
    reads tr
  {
    Kept(tr.bestParsimony, tr.insertNode, tr.removeNode)
  }

  /** The record after a run of trials: each trial replaces it only with a
      strictly lower score. */
  function After(k: Kept, ts: seq<Trial>): Kept
  {
    if ts == [] then k
    else
      var k' := After(k, ts[..|ts| - 1]);
      var t := ts[|ts| - 1];
      if t.score < k'.score then Kept(t.score, t.q, t.p) else k'
  }

  /** Two runs of trials one after the other. */
  lemma {:induction false} AfterAppend(k: Kept, s1: seq<Trial>, s2: seq<Trial>)
    ensures After(k, s1 + s2) == After(After(k, s1), s2)
    decreases |s2|
  {
    if s2 == [] {
      assert s1 + s2 == s1;
    } else {
      assert (s1 + s2)[..|s1 + s2| - 1] == s1 + s2[..|s2| - 1];
      AfterAppend(k, s1, s2[..|s2| - 1]);
    }
  }

  /** The kept score is the least of the old one and every trial's; it is
      the old record when no trial beat it, and otherwise the first trial
      that reached the least score. */
  lemma {:induction false} AfterIsFirstMinimum(k: Kept, ts: seq<Trial>)
    ensures forall i :: 0 <= i < |ts| ==> After(k, ts).score <= ts[i].score
    ensures After(k, ts).score <= k.score
    ensures After(k, ts).score == k.score ==> After(k, ts) == k
    ensures After(k, ts).score < k.score ==>
              exists i :: 0 <= i < |ts| && After(k, ts) == Kept(ts[i].score, ts[i].q, ts[i].p)
                          && forall j :: 0 <= j < i ==> ts[j].score > ts[i].score
    decreases |ts|
  {
    if ts != [] {
      var init := ts[..|ts| - 1];
      AfterIsFirstMinimum(k, init);
      assert forall i :: 0 <= i < |init| ==> init[i] == ts[i];
      var k' := After(k, init);
      var t := ts[|ts| - 1];
      if t.score < k'.score {
        assert forall j :: 0 <= j < |ts| - 1 ==> ts[j].score > t.score;
      } else if k'.score < k.score {
        var i :| 0 <= i < |init| && k' == Kept(init[i].score, init[i].q, init[i].p)
                 && forall j :: 0 <= j < i ==> init[j].score > init[i].score;
        assert After(k, ts) == Kept(ts[i].score, ts[i].q, ts[i].p);
      }
    }
  }

  /** `testInsertParsimony(tr, p, q)`: when the edge q-r is to be tried, p
      is inserted into it, the tree is scored at p->next->next, the best
      score so far and its edge are kept when the score is strictly lower,
      and p is cut out again.  The first edge reaching a score wins ties. */
  method TestInsertParsimony(tr: Tree, p: nat, q: nat) returns (ghost trials: seq<Trial>)
    requires tr.Topo() && tr.Sites() && tr.Layout().IsInnerRecord(p) && tr.Layout().IsRecord(q)
    requires tr.Layout().IsRecord(tr.back[q]) && (tr.grouped ==> tr.Layout().IsRecord(tr.back[p]))
    requires |tr.td.ti| >= 1
    modifies tr.back, tr.td, tr.xrec, tr.pVec, tr`bestParsimony, tr`insertNode, tr`removeNode
    ensures tr.Topo() && tr.Sites() && |tr.td.ti| >= 1
    ensures old(DoIt(tr, p, q)) ==> tr.back[..] == TestLinks(tr.Layout(), old(tr.back[..]), p, q)
    ensures !old(DoIt(tr, p, q)) ==>
              tr.back[..] == old(tr.back[..]) && tr.bestParsimony == old(tr.bestParsimony)
    ensures old(DoIt(tr, p, q)) ==>
              tr.bestParsimony == Improved(old(tr.bestParsimony), InsertionScore(tr, p, old(tr.back[q])))
    ensures Detached(tr.Layout(), old(tr.back[..]), p, q) ==> tr.back[..] == old(tr.back[..])
    ensures tr.bestParsimony <= old(tr.bestParsimony)
    ensures tr.bestParsimony < old(tr.bestParsimony) ==> tr.insertNode == q && tr.removeNode == p
    ensures tr.bestParsimony == old(tr.bestParsimony) ==>
              tr.insertNode == old(tr.insertNode) && tr.removeNode == old(tr.removeNode)
    ensures trials == if old(DoIt(tr, p, q)) then [Trial(p, q, InsertionScore(tr, p, old(tr.back[q])))] else []
    ensures KeptOf(tr) == After(old(KeptOf(tr)), trials)
  {
    ghost var b0 := tr.back[..];
    trials := [];
    if DoIt(tr, p, q) {
      ghost var r := tr.back[q];
      TryInsert(tr, p, q);
      trials := [Trial(p, q, InsertionScore(tr, p, r))];
      assert trials[..0] == [];
    }
    if Detached(tr.Layout(), b0, p, q) {
      TestLinksRestore(tr.Layout(), b0, p, q);
    }
  }

  /** The tried branch of `testInsertParsimony`. */
  method TryInsert(tr: Tree, p: nat, q: nat)
    requires tr.Topo() && tr.Sites() && tr.Layout().IsInnerRecord(p) && tr.Layout().IsRecord(q)
    requires tr.Layout().IsRecord(tr.back[q]) && |tr.td.ti| >= 1
    modifies tr.back, tr.td, tr.xrec, tr.pVec, tr`bestParsimony, tr`insertNode, tr`removeNode
    ensures tr.Topo() && tr.Sites() && |tr.td.ti| >= 1
    ensures tr.back[..] == TestLinks(tr.Layout(), old(tr.back[..]), p, q)
    ensures tr.bestParsimony == Improved(old(tr.bestParsimony), InsertionScore(tr, p, old(tr.back[q])))
    ensures tr.bestParsimony <= old(tr.bestParsimony)
    ensures tr.bestParsimony < old(tr.bestParsimony) ==> tr.insertNode == q && tr.removeNode == p
    ensures tr.bestParsimony == old(tr.bestParsimony) ==>
              tr.insertNode == old(tr.insertNode) && tr.removeNode == old(tr.removeNode)
  {
    var r := tr.back[q];
    ScoreInsertion(tr, p, q);
    tr.HookupDefault(q, r);
    DetachEnds(tr, p);
  }

  /** Inserts p at q, scores the tree and records an improvement. */
  method ScoreInsertion(tr: Tree, p: nat, q: nat)
    requires tr.Topo() && tr.Sites() && tr.Layout().IsInnerRecord(p) && tr.Layout().IsRecord(q)
    requires tr.Layout().IsRecord(tr.back[q]) && |tr.td.ti| >= 1
    modifies tr.back, tr.td, tr.xrec, tr.pVec, tr`bestParsimony, tr`insertNode, tr`removeNode
    ensures tr.Topo() && tr.Sites() && |tr.td.ti| >= 1
    ensures tr.back[..] == InsertLinks(tr.Layout(), old(tr.back[..]), p, q)
    ensures tr.bestParsimony == Improved(old(tr.bestParsimony), InsertionScore(tr, p, old(tr.back[q])))
    ensures tr.bestParsimony <= old(tr.bestParsimony)
    ensures tr.bestParsimony < old(tr.bestParsimony) ==> tr.insertNode == q && tr.removeNode == p
    ensures tr.bestParsimony == old(tr.bestParsimony) ==>
              tr.insertNode == old(tr.insertNode) && tr.removeNode == old(tr.removeNode)
  {
    var mp := InsertAndScore(tr, p, q);
    if mp < tr.bestParsimony {
      tr.bestParsimony := mp;
      tr.insertNode := q;
      tr.removeNode := p;
    }
  }

  /** p inserted into q-r and the tree scored at p's third record. */
  method InsertAndScore(tr: Tree, p: nat, q: nat) returns (mp: nat)
    requires tr.Topo() && tr.Sites() && tr.Layout().IsInnerRecord(p) && tr.Layout().IsRecord(q)
    requires tr.Layout().IsRecord(tr.back[q]) && |tr.td.ti| >= 1
    modifies tr.back, tr.td, tr.xrec, tr.pVec
    ensures tr.Topo() && tr.Sites() && |tr.td.ti| >= 1
    ensures tr.back[..] == InsertLinks(tr.Layout(), old(tr.back[..]), p, q)
    ensures mp == InsertionScore(tr, p, old(tr.back[q]))
    ensures (CycleFacts(tr.Layout(), p);
             TreeAt(tr, tr.Layout().NextNext(p), Fuel(tr)) ==>
               Replayable(tr.mxtips, tr.td.ti) && Ordered(tr.td.ti)
               && forall k :: 1 <= k < |tr.td.ti| ==> StepHolds(tr, tr.td.ti[k]))
  {
    ghost var b0 := tr.back[..];
    CycleFacts(tr.Layout(), p);
    var _ := InsertParsimony(tr, p, q);
    InsertLinksShapeAny(tr.Layout(), b0, p, q);
    mp := ScoreAt(tr, tr.next[tr.next[p]]);
  }

  /** Sets the `back` links of p's two other records to NULL. */
  method DetachEnds(tr: Tree, p: nat)
    requires tr.Topo() && tr.Layout().IsInnerRecord(p)
    modifies tr.back
    ensures tr.Topo()
    ensures (CycleFacts(tr.Layout(), p);
             tr.back[..] == old(tr.back[..])[tr.Layout().Next(p) := NULL][tr.Layout().NextNext(p) := NULL])
  {
    CycleFacts(tr.Layout(), p);
    tr.back[tr.next[p]] := NULL;
    tr.back[tr.next[tr.next[p]]] := NULL;
  }

  /** `evaluateParsimony(tr, p)` where p is an inner record, as the search
      calls it. */
  method ScoreAt(tr: Tree, p: nat) returns (mp: nat)
    requires tr.Topo() && tr.Sites() && tr.Layout().IsInnerRecord(p) && tr.Layout().IsRecord(tr.back[p])
    requires |tr.td.ti| >= 1
    modifies tr.td, tr.xrec, tr.pVec
    ensures tr.Topo() && tr.Sites() && |tr.td.ti| >= 1
    ensures (TipIffTipNumber(tr.Layout(), p); TipIffTipNumber(tr.Layout(), tr.back[p]);
             mp == EdgeScore(tr, tr.number[p], tr.number[tr.back[p]], |tr.cdta.partitions|))
    ensures TreeAt(tr, p, Fuel(tr)) ==>
              Replayable(tr.mxtips, tr.td.ti) && Ordered(tr.td.ti)
              && forall k :: 1 <= k < |tr.td.ti| ==> StepHolds(tr, tr.td.ti[k])
  {
    var ok;
    mp, ok := EvaluateParsimony(tr, p, Fuel(tr));
  }

  /** After an insertion p->next->next's back is a record. */
  lemma InsertLinksShapeAny(a: Arena, b: seq<int>, p: nat, q: nat)
    requires a.WellFormed() && |b| == |a.next| && a.IsInnerRecord(p) && a.IsRecord(q) && a.IsRecord(b[q])
    ensures (CycleFacts(a, p); a.IsRecord(InsertLinks(a, b, p, q)[a.NextNext(p)]))
  {
    CycleFacts(a, p);
  }

  /** `restoreTreeParsimony(tr, p, q)`: p is inserted into q-r for good and
      the ends p and q are made current, repeating `newviewParsimony` while
      an inner end is not oriented (RAxML's loops, bounded here).  p is
      always inner, so of RAxML's three cases only "q a tip" and "q inner"
      arise.  The result says whether both ends ended up oriented. */
  method RestoreTreeParsimony(tr: Tree, p: nat, q: nat) returns (ok: bool)
    requires tr.Topo() && tr.Sites() && tr.Layout().IsInnerRecord(p) && tr.Layout().IsRecord(q)
    requires tr.Layout().IsRecord(tr.back[q]) && |tr.td.ti| >= 1
    modifies tr.back, tr.td, tr.xrec, tr.pVec
    ensures tr.Topo() && tr.Sites() && |tr.td.ti| >= 1
    ensures tr.back[..] == InsertLinks(tr.Layout(), old(tr.back[..]), p, q)
    ensures ok <==> tr.IsX(p) && tr.IsX(q)
  {
    var _ := InsertParsimony(tr, p, q);
    ok := SettleEnds(tr, p, q);
  }

  /** The loops of `restoreTreeParsimony`. */
  method SettleEnds(tr: Tree, p: nat, q: nat) returns (ok: bool)
    requires tr.Topo() && tr.Sites() && tr.Layout().IsInnerRecord(p) && tr.Layout().IsRecord(q)
    requires |tr.td.ti| >= 1
    modifies tr.td, tr.xrec, tr.pVec
    ensures tr.Topo() && tr.Sites() && |tr.td.ti| >= 1
    ensures ok <==> tr.IsX(p) && tr.IsX(q)
  {
    var n := Fuel(tr);
    if q <= tr.mxtips {
      while !tr.IsX(p) && n > 0
        invariant tr.Topo() && tr.Sites() && |tr.td.ti| >= 1
        decreases n
      {
        var _ := NewviewParsimony(tr, p, Fuel(tr));
        n := n - 1;
      }
    } else {
      while (!tr.IsX(p) || !tr.IsX(q)) && n > 0
        invariant tr.Topo() && tr.Sites() && |tr.td.ti| >= 1
        decreases n
      {
        if !tr.IsX(p) {
          var _ := NewviewParsimony(tr, p, Fuel(tr));
        }
        if !tr.IsX(q) {
          var _ := NewviewParsimony(tr, q, Fuel(tr));
        }
        n := n - 1;
      }
    }
    ok := tr.IsX(p) && tr.IsX(q);
  }
}
