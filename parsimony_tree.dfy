/**
 * The tree RAxML's parsimony code works on, as an arena of node records.
 *
 * With `n` tips, records 1..n are the tips.  Every other record belongs to
 * an inner vertex; the three records of a vertex share its node number
 * (n+1 .. 2n-1) and are linked in a cycle by `next`.  Record 0 is unused.
 * An edge is two records that name each other in `back`; -1 stands for a
 * NULL `back`.  Of the three records of an inner vertex exactly one carries
 * the `x` flag, the orientation whose parsimony vector is cached; the model
 * stores, per inner vertex, which record that is, so "exactly one x per
 * cycle" holds by construction.  A tip always counts as oriented.
 */
module ParsimonyTree {
  import opened ParsimonyKernels

  const NULL: int := -1

  function NumRecords(n: nat): nat { if n == 0 then 0 else 4 * n - 2 }

  /** The fixed part of the arena: the number of taxa and, per record, its
      `next` and its node `number`. */
  datatype Arena = Arena(n: nat, next: seq<nat>, number: seq<nat>)
  {
    predicate IsRecord(r: int) { 1 <= r < |next| }

    /** A `back` value: a record or NULL. */
    predicate IsLink(r: int) { r == NULL || IsRecord(r) }

    predicate IsTipRecord(r: int) { 1 <= r <= n && r < |next| }

    predicate IsInnerRecord(r: int) { n < r < |next| }

    predicate IsInnerNumber(v: int) { n < v < 2 * n }

    /** `isTip` on node numbers. */
    predicate IsTip(v: int) { v <= n }

    /** The record after r in r's cycle is again a record of r's vertex,
        and three steps lead back to r. */
    predicate CycleOk(r: nat)
      requires IsInnerRecord(r) && |number| == |next|
    {
      var p1 := next[r];
      IsInnerRecord(p1)
      && var p2 := next[p1];
         IsInnerRecord(p2) && next[p2] == r && p1 != r && p2 != r
         && number[p1] == number[r] && IsInnerNumber(number[r])
    }

    /** r and s are records of one vertex. */
    predicate Cosited(r: nat, s: nat)
      requires r < |number| && s < |number|
    {
      number[r] == number[s]
    }

    predicate WellFormed()
    {
      n >= 3 && |next| == NumRecords(n) && |number| == |next|
      && (forall t :: 1 <= t <= n ==> number[t] == t)
      && (forall r :: n < r < |next| ==> CycleOk(r))
      && (forall r, s {:trigger Cosited(r, s)} :: n < r < |next| && n < s < |next| && Cosited(r, s) ==>
            s == r || s == next[r] || (next[r] < |next| && s == next[next[r]]))
    }

    function Next(r: nat): nat
      requires WellFormed() && IsInnerRecord(r)
    {
      next[r]
    }

    function NextNext(r: nat): nat
      requires WellFormed() && IsInnerRecord(r)
    {
      assert CycleOk(r);
      next[next[r]]
    }

    /** `p->number`. */
    function Number(r: nat): nat
      requires WellFormed() && IsRecord(r)
    {
      number[r]
    }

    /** The records of r's cycle. */
    predicate InCycle(r: nat, s: nat)
      requires WellFormed() && IsInnerRecord(r)
    {
      s == r || s == Next(r) || s == NextNext(r)
    }
  }

  lemma CycleFacts(a: Arena, r: nat)
    requires a.WellFormed() && a.IsInnerRecord(r)
    ensures a.IsInnerRecord(a.Next(r)) && a.IsInnerRecord(a.NextNext(r))
    ensures a.Number(a.Next(r)) == a.Number(r) && a.Number(a.NextNext(r)) == a.Number(r)
    ensures a.Next(r) != r && a.NextNext(r) != r && a.Next(r) != a.NextNext(r)
    ensures a.next[a.NextNext(r)] == r
    ensures a.IsInnerNumber(a.Number(r))
  {
    assert a.CycleOk(r);
    assert a.CycleOk(a.next[r]);
  }

  /** Records are tips exactly when their numbers are. */
  lemma TipIffTipNumber(a: Arena, r: nat)
    requires a.WellFormed() && a.IsRecord(r)
    ensures a.IsTip(a.Number(r)) <==> a.IsTipRecord(r)
    ensures 1 <= a.Number(r) < 2 * a.n
  {
    if a.IsInnerRecord(r) {
      assert a.CycleOk(r);
    }
  }

  /** A record of another vertex is not in r's cycle. */
  lemma OtherVertex(a: Arena, r: nat, s: nat)
    requires a.WellFormed() && a.IsInnerRecord(r) && a.IsRecord(s) && a.Number(s) != a.Number(r)
    ensures !a.InCycle(r, s)
  {
    CycleFacts(a, r);
  }

  /** A record with r's number lies in r's cycle. */
  lemma SameVertex(a: Arena, r: nat, s: nat)
    requires a.WellFormed() && a.IsInnerRecord(r) && a.IsRecord(s) && a.Number(s) == a.Number(r)
    ensures a.InCycle(r, s)
  {
    CycleFacts(a, r);
    TipIffTipNumber(a, s);
    assert a.Cosited(r, s);
  }

  /** One entry of the traversal descriptor: the node whose vector is to be
      recomputed and the two nodes it reads, with the shape of the step. */
  datatype TraversalInfo = TraversalInfo(tipCase: TipCase, pNumber: nat, qNumber: nat, rNumber: nat)

  /** A partition: its data type and its run of sites. */
  datatype Partition = Partition(dataType: DataType, lower: nat, width: nat)

  /** The tip table a partition's kernels use: the protein table for
      amino acids, the given 16-state table for secondary structure, the raw
      bit sets otherwise. */
  function CodingOf(dataType: DataType, bitVectorSecondary: seq<bv32>): TipCoding
  {
    match dataType
    case AaData => Mapped(ProtTipParsimonyValue)
    case SecondaryData => Mapped(bitVectorSecondary)
    case _ => Raw
  }

  // ---------------------------------------------------------------------
  // Links as values

  /** `hookupDefault(x, y)`: x and y become the two ends of one edge. */
  function Hookup(b: seq<int>, x: nat, y: nat): seq<int>
    requires x < |b| && y < |b|
  {
    b[x := y][y := x]
  }

  /** `insertParsimony`'s rewiring: p's two other records are hooked to q
      and to q's old neighbour r, so p sits in the middle of edge q-r. */
  function InsertLinks(a: Arena, b: seq<int>, p: nat, q: nat): (b': seq<int>)
    requires a.WellFormed() && |b| == |a.next| && a.IsInnerRecord(p) && a.IsRecord(q) && a.IsRecord(b[q])
    ensures |b'| == |b|
  {
    CycleFacts(a, p);
    var r := b[q];
    Hookup(Hookup(b, a.Next(p), q), a.NextNext(p), r)
  }

  /** `removeNodeParsimony`'s rewiring: p's two neighbours q and r are hooked
      to each other and p's two other records are left NULL. */
  function RemoveLinks(a: Arena, b: seq<int>, p: nat): (b': seq<int>)
    requires a.WellFormed() && |b| == |a.next| && a.IsInnerRecord(p)
    requires (CycleFacts(a, p); a.IsRecord(b[a.Next(p)]) && a.IsRecord(b[a.NextNext(p)]))
    ensures |b'| == |b|
  {
    CycleFacts(a, p);
    var q := b[a.Next(p)];
    var r := b[a.NextNext(p)];
    Hookup(b, q, r)[a.Next(p) := NULL][a.NextNext(p) := NULL]
  }

  /** p is a vertex cut out of the tree (both other records NULL) and q-r is
      an edge apart from it. */
  predicate Detached(a: Arena, b: seq<int>, p: nat, q: nat)
    requires a.WellFormed() && |b| == |a.next| && a.IsInnerRecord(p) && a.IsRecord(q)
  {
    CycleFacts(a, p);
    b[a.Next(p)] == NULL && b[a.NextNext(p)] == NULL
    && a.IsRecord(b[q]) && b[q] != q && b[b[q]] == q
    && a.Number(q) != a.Number(p) && a.Number(b[q]) != a.Number(p)
  }

  /** Inserting a detached vertex into an edge and removing it again
      restores every link: q and r are mutual backs again and p's two other
      records are NULL again. */
  lemma InsertRemoveRoundTrip(a: Arena, b: seq<int>, p: nat, q: nat)
    requires a.WellFormed() && |b| == |a.next| && a.IsInnerRecord(p) && a.IsRecord(q)
    requires Detached(a, b, p, q)
    ensures (CycleFacts(a, p);
             var b' := InsertLinks(a, b, p, q);
             a.IsRecord(b'[a.Next(p)]) && a.IsRecord(b'[a.NextNext(p)])
             && b'[a.Next(p)] == q
             && RemoveLinks(a, b', p) == b)
  {
    CycleFacts(a, p);
    var p1, p2 := a.Next(p), a.NextNext(p);
    var r := b[q];
    OtherVertex(a, p, q);
    OtherVertex(a, p, r);
    var b' := InsertLinks(a, b, p, q);
    assert b'[p1] == q && b'[p2] == r;
    var b'' := RemoveLinks(a, b', p);
    assert forall i :: 0 <= i < |b| ==> b''[i] == b[i];
  }

  /** After an insertion p's two other records are linked to q and r and
      point back at them; no other link changes. */
  lemma InsertLinksShape(a: Arena, b: seq<int>, p: nat, q: nat)
    requires a.WellFormed() && |b| == |a.next| && a.IsInnerRecord(p) && a.IsRecord(q)
    requires Detached(a, b, p, q)
    ensures (CycleFacts(a, p);
             var b' := InsertLinks(a, b, p, q);
             b'[a.Next(p)] == q && b'[q] == a.Next(p)
             && b'[a.NextNext(p)] == b[q] && b'[b[q]] == a.NextNext(p)
             && forall i :: 0 <= i < |b| && i != q && i != b[q] && i != a.Next(p) && i != a.NextNext(p)
                  ==> b'[i] == b[i])
  {
    CycleFacts(a, p);
    OtherVertex(a, p, q);
    OtherVertex(a, p, b[q]);
  }

  lemma RowBound(n: nat, len: nat, t: nat, k: nat)
    requires 1 <= t <= n && k < len
    ensures (t - 1) * len + k < n * len
  {
    assert (t - 1) * len + k < (t - 1) * len + len == t * len;
    assert t * len <= n * len by {
      MulLe(t, n, len);
    }
  }

  lemma MulLe(a: nat, b: nat, c: nat)
    requires a <= b
    ensures a * c <= b * c
  {
  }

  // ---------------------------------------------------------------------
  // The tree

  /** The traversal descriptor `td[0]`: entries `ti[0 .. count-1]`; entry 0
      names the edge an evaluation scores, the rest are replayed in order. */
  class Descriptor {
    var ti: seq<TraversalInfo>
  }

  /** The site data in use: `endsite` and the partitions
      (`partitionData[model]`: data type, first site, number of sites). */
  class SiteData {
    var endsite: nat
    var partitions: seq<Partition>
    /** `rdta->y0`: the tip symbols, one row of `originalCrunchedLength`
        sites per taxon. */
    var y0: seq<byte>
  }

  class Tree {
    /** The number of taxa. */
    const mxtips: nat
    /** `p->back` per record. */
    const back: array<int>
    /** `p->next` per record (fixed). */
    const next: seq<nat>
    /** `p->number` per record (fixed). */
    const number: seq<nat>
    /** Per inner vertex, the record that carries the x flag. */
    const xrec: array<nat>
    /** `nodep[i]`: a record of node i. */
    const nodep: array<nat>
    /** A group number per node (-9: none; used by the constraint search). */
    const constraintVector: array<int>
    /** The weight of each site. */
    const aliaswgt: array<nat>
    /** The partition of each site. */
    const model: array<nat>
    /** The data type of each site. */
    const dataVector: array<DataType>
    /** The parsimony vectors: per partition and inner vertex, one entry
        per site of the partition. */
    const pVec: array2<seq<PEntry>>
    /** The tip table of 16-state secondary-structure data. */
    const bitVectorSecondary: seq<bv32>
    /** The length of each tip row before site filtering. */
    const originalCrunchedLength: nat
    const td: Descriptor
    const cdta: SiteData
    /** Whether a grouping constraint is in force. */
    const grouped: bool
    /** Whether a backbone constraint is in force. */
    const constrained: bool

    var ntips: nat
    var nextnode: nat
    var start: nat
    var bestParsimony: nat
    var insertNode: int
    var removeNode: int

    /** A tree over given arrays (RAxML allocates them in `setupTree`,
        which is not part of this model). */
    constructor (mxtips: nat, back: array<int>, next: seq<nat>, number: seq<nat>,
                 xrec: array<nat>, nodep: array<nat>, constraintVector: array<int>,
                 aliaswgt: array<nat>, model: array<nat>,
                 dataVector: array<DataType>, pVec: array2<seq<PEntry>>, bitVectorSecondary: seq<bv32>,
                 originalCrunchedLength: nat, td: Descriptor, cdta: SiteData, grouped: bool, constrained: bool)
      ensures this.mxtips == mxtips && this.back == back && this.next == next
      ensures this.number == number && this.xrec == xrec && this.nodep == nodep
      ensures this.constraintVector == constraintVector
      ensures this.aliaswgt == aliaswgt && this.model == model && this.dataVector == dataVector
      ensures this.pVec == pVec && this.bitVectorSecondary == bitVectorSecondary
      ensures this.originalCrunchedLength == originalCrunchedLength
      ensures this.td == td && this.cdta == cdta && this.grouped == grouped && this.constrained == constrained
      ensures ntips == 0 && nextnode == mxtips + 1 && start == 1
      ensures bestParsimony == 0 && insertNode == NULL && removeNode == NULL
    {
      this.mxtips := mxtips;
      this.back := back;
      this.next := next;
      this.number := number;
      this.xrec := xrec;
      this.nodep := nodep;
      this.constraintVector := constraintVector;
      this.aliaswgt := aliaswgt;
      this.model := model;
      this.dataVector := dataVector;
      this.pVec := pVec;
      this.bitVectorSecondary := bitVectorSecondary;
      this.originalCrunchedLength := originalCrunchedLength;
      this.td := td;
      this.cdta := cdta;
      this.grouped := grouped;
      this.constrained := constrained;
      ntips := 0;
      nextnode := mxtips + 1;
      start := 1;
      bestParsimony := 0;
      insertNode := NULL;
      removeNode := NULL;
    }

    ghost function Layout(): Arena
    {
      Arena(mxtips, next, number)
    }

    /** The sizes of the fixed arrays and their separation. */
    ghost predicate Shape()
    {
      mxtips >= 3
      // the sizes, as one fact
      && (back.Length, |next|, |number|, xrec.Length, nodep.Length, constraintVector.Length,
          aliaswgt.Length, model.Length, dataVector.Length, pVec.Length1, |bitVectorSecondary|)
         == (NumRecords(mxtips), NumRecords(mxtips), NumRecords(mxtips), mxtips - 1, 2 * mxtips, 2 * mxtips,
             originalCrunchedLength, originalCrunchedLength,
             originalCrunchedLength, mxtips - 1, 256)
      && back != constraintVector
      && xrec != nodep && xrec != aliaswgt && xrec != model
      && nodep != aliaswgt && nodep != model && aliaswgt != model
    }

    /** Every `back` is NULL or a record. */
    ghost predicate Links()
      reads back
    {
      back.Length == |next|
      && forall r :: 0 <= r < back.Length ==> back[r] == NULL || 1 <= back[r] < |next|
    }

    /** The record holding x is a record of its vertex. */
    ghost predicate Orientations()
      reads xrec
    {
      Shape() && Layout().WellFormed()
      && forall v :: 0 <= v < xrec.Length ==>
           mxtips < xrec[v] < |next| && number[xrec[v]] == mxtips + 1 + v
    }

    /** `nodep[i]` is a record of node i for every node. */
    ghost predicate Handles()
      reads nodep
    {
      nodep.Length == 2 * mxtips && |next| == |number|
      && forall i :: 1 <= i < 2 * mxtips ==> 1 <= nodep[i] < |next| && number[nodep[i]] == i
    }

    /** Where taxon t's row starts in the tip array. */
    function TipOffset(t: nat): nat
      requires t >= 1
    {
      (t - 1) * originalCrunchedLength
    }

    /** The symbol of taxon t at site k. */
    ghost function Code(t: nat, k: nat): byte
      reads cdta
      requires 1 <= t <= mxtips && k < originalCrunchedLength
      requires |cdta.y0| == mxtips * originalCrunchedLength
    {
      RowBound(mxtips, originalCrunchedLength, t, k);
      cdta.y0[TipOffset(t) + k]
    }

    /** The tip table partition m reads its tip codes through. */
    function Coding(m: nat): TipCoding
      reads cdta
      requires m < |cdta.partitions|
    {
      CodingOf(cdta.partitions[m].dataType, bitVectorSecondary)
    }

    /** Where taxon t's row of partition m starts in the tip array. */
    function TipStart(m: nat, t: nat): nat
      reads cdta
      requires m < |cdta.partitions| && t >= 1
    {
      TipOffset(t) + cdta.partitions[m].lower
    }

    /** The sites in use: the partitions lie inside them, every vector has
        its partition's width, and every taxon's row of every partition lies
        inside the tip array and holds codes the partition's table maps. */
    ghost predicate Sites()
      reads cdta, pVec
    {
      Shape()
      && (|cdta.y0|, pVec.Length0) == (mxtips * originalCrunchedLength, |cdta.partitions|)
      && cdta.endsite <= originalCrunchedLength
      && (forall m :: 0 <= m < |cdta.partitions| ==>
            cdta.partitions[m].lower + cdta.partitions[m].width <= cdta.endsite)
      && (forall m, v :: 0 <= m < |cdta.partitions| && 0 <= v < pVec.Length1 ==>
            |pVec[m, v]| == cdta.partitions[m].width)
      && (forall m, t :: 0 <= m < |cdta.partitions| && 1 <= t <= mxtips ==>
            TipRowOk(Coding(m), cdta.y0, TipStart(m, t), cdta.partitions[m].width))
    }

    /** The per-site bookkeeping `fixModelIndices` sets up: each site in use
        belongs to a partition and has its data type, and each partition's
        run of sites is its own. */
    ghost predicate SiteModels()
      reads cdta, model, dataVector
      requires Shape()
    {
      cdta.endsite <= originalCrunchedLength
      && (forall k :: 0 <= k < cdta.endsite ==>
            model[k] < |cdta.partitions| && dataVector[k] == cdta.partitions[model[k]].dataType)
      && (forall m, k :: (0 <= m < |cdta.partitions| && cdta.partitions[m].lower <= k
                          && k < cdta.partitions[m].lower + cdta.partitions[m].width
                          && k < cdta.endsite) ==>
            model[k] == m)
    }

    /** The topology part of validity: layout, links and orientations. */
    ghost predicate Topo()
      reads back, xrec
    {
      Shape() && Layout().WellFormed() && Links() && Orientations()
    }

    ghost predicate Valid()
      reads back, xrec, nodep, cdta, pVec
    {
      Topo() && Handles() && Sites()
    }

    /** The position of an inner record's vertex among the inner vertices. */
    function InnerIndex(r: nat): nat
      requires Shape() && Layout().WellFormed() && Layout().IsInnerRecord(r)
      ensures InnerIndex(r) < xrec.Length
    {
      assert Layout().CycleOk(r);
      number[r] - mxtips - 1
    }

    /** `p->x`. */
    predicate IsX(r: nat)
      reads xrec
      requires Shape() && Layout().WellFormed() && Layout().IsRecord(r)
    {
      r <= mxtips || xrec[InnerIndex(r)] == r
    }

    /** `hookupDefault(x, y)`. */
    method HookupDefault(x: nat, y: nat)
      requires Topo() && Layout().IsRecord(x) && Layout().IsRecord(y)
      modifies back
      ensures Topo()
      ensures back[..] == Hookup(old(back[..]), x, y)
    {
      back[x] := y;
      back[y] := x;
    }

    /** `getxnode(p)`: moves the cycle's x flag onto p. */
    method GetXNode(p: nat)
      requires Topo() && Layout().IsInnerRecord(p)
      modifies xrec
      ensures Topo() && IsX(p)
      ensures xrec[..] == old(xrec[..])[InnerIndex(p) := p]
    {
      assert Layout().CycleOk(p);
      xrec[InnerIndex(p)] := p;
    }
  }
}
