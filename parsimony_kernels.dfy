/**
 * The per-site kernels of RAxML's parsimony engine: the Fitch step that
 * combines the state sets of two children into the state set of their
 * parent, the tip-code tables, and the loops that fill one parsimony vector
 * (`newviewParsimonyDNA` / `newviewParsimonyPROT`) or score one edge
 * (`evalDNA` / `evalPROT`).
 *
 * A parsimony vector holds one entry per alignment site: the set of states
 * (a bit set) that minimises the number of changes below the vertex, and
 * that number.  A tip contributes its observed code with no changes.
 */
module ParsimonyKernels {
  import opened Wrappers

  /** An alignment symbol as stored in the tip rows (`unsigned char`). */
  newtype byte = x: int | 0 <= x < 256

  /** One site of a parsimony vector (RAxML's `parsimonyVector`). */
  datatype PEntry = PEntry(score: nat, state: bv32)

  /** The three shapes of a traversal step: both children tips, the left
      child a tip, or both children inner vertices. */
  datatype TipCase = TipTip | TipInner | InnerInner

  /** The data types a partition may hold. */
  datatype DataType = DnaData | AaData | BinaryData | SecondaryData | SecondaryData6 | SecondaryData7

  // ---------------------------------------------------------------------
  // State sets.  Each bit operation is wrapped in a function of its own and
  // every fact about bits is proved in a lemma about bit sets alone.

  /** The states two sets share (C's `&`). */
  function Meet(a: bv32, b: bv32): bv32 { a & b }

  /** The states either set holds (C's `|`). */
  function Join(a: bv32, b: bv32): bv32 { a | b }

  /** Every state moved up by one position (C's `<< 1`). */
  function Double(a: bv32): bv32 { a << 1 }

  lemma JoinNonEmpty(a: bv32, b: bv32)
    requires a != 0
    ensures Join(a, b) != 0
  {
  }

  lemma MeetWithinJoin(a: bv32, b: bv32)
    ensures Meet(Meet(a, b), Join(a, b)) == Meet(a, b)
  {
  }

  lemma JoinKeepsMeet(a: bv32, b: bv32)
    ensures Meet(Join(a, b), Meet(a, b)) == Meet(a, b)
  {
  }

  // ---------------------------------------------------------------------
  // The Fitch step

  /** The Fitch step as the kernels perform it: the states the children
      share when there are any, otherwise all their states and one more
      change. */
  function Fitch(l: PEntry, r: PEntry): PEntry
  {
    var t := Meet(l.state, r.state);
    if t == 0 then PEntry(l.score + r.score + 1, Join(l.state, r.state))
    else PEntry(l.score + r.score, t)
  }

  /** The step adds at most one change to the children's, and the extra
      change is paid exactly when the children share no state. */
  lemma FitchScore(l: PEntry, r: PEntry)
    ensures l.score + r.score <= Fitch(l, r).score <= l.score + r.score + 1
    ensures Fitch(l, r).score == l.score + r.score + 1 <==> Meet(l.state, r.state) == 0
  {
  }

  /** The parent's state set is not empty when the children's are not, it
      lies within their union and it keeps every state they share. */
  lemma FitchStateBounds(l: PEntry, r: PEntry)
    ensures l.state != 0 ==> Fitch(l, r).state != 0
    ensures Meet(Fitch(l, r).state, Join(l.state, r.state)) == Fitch(l, r).state
    ensures Meet(Fitch(l, r).state, Meet(l.state, r.state)) == Meet(l.state, r.state)
  {
    var a, b := l.state, r.state;
    if Meet(a, b) == 0 {
      if a != 0 {
        JoinNonEmpty(a, b);
      }
      assert Meet(Join(a, b), Join(a, b)) == Join(a, b);
      JoinKeepsMeet(a, b);
    } else {
      MeetWithinJoin(a, b);
      assert Meet(Meet(a, b), Meet(a, b)) == Meet(a, b);
    }
  }

  /** The Fitch step does not depend on which child is left. */
  lemma FitchCommutes(l: PEntry, r: PEntry)
    ensures Fitch(l, r) == Fitch(r, l)
  {
    assert Meet(l.state, r.state) == Meet(r.state, l.state);
    assert Join(l.state, r.state) == Join(r.state, l.state);
  }

  /** The amino-acid tip table as it is written in the source: the entry of
      threonine (index 16) is 65535, the union of the sixteen residues before
      it, instead of the single bit 65536. */
  const ProtTipParsimonyValueAsWritten: seq<bv32> :=
    [1, 2, 4, 8, 16, 32, 64, 128, 256, 512, 1024, 2048, 4096, 8192, 16384, 32768,
     65535, 131072, 262144, 524288, 12, 96, 1048575]

  /** The amino-acid tip table with threonine as the single bit 65536: twenty
      residues, one bit each, followed by the ambiguity codes B (N or D),
      Z (Q or E) and X (any residue).  The model uses this table. */
  const ProtTipParsimonyValue: seq<bv32> :=
    [1, 2, 4, 8, 16, 32, 64, 128, 256, 512, 1024, 2048, 4096, 8192, 16384, 32768,
     65536, 131072, 262144, 524288, 12, 96, 1048575]

  /** How a tip's stored byte becomes a state set: DNA-like data stores the
      bit set itself, protein and 16-state secondary data store an index
      into a table. */
  datatype TipCoding = Raw | Mapped(bitValue: seq<bv32>)

  predicate CodeInRange(coding: TipCoding, c: byte)
  {
    coding.Mapped? ==> c as int < |coding.bitValue|
  }

  /** A byte read as a bit set. */
  function Widen(c: byte): bv32
  {
    c as bv32
  }

  function TipState(coding: TipCoding, c: byte): bv32
    requires CodeInRange(coding, c)
  {
    match coding
    case Raw => Widen(c)
    case Mapped(bitValue) => bitValue[c as int]
  }

  /** A tip seen as a parsimony entry: its state set and no changes. */
  function TipEntry(coding: TipCoding, c: byte): PEntry
    requires CodeInRange(coding, c)
  {
    PEntry(0, TipState(coding, c))
  }

  // ---------------------------------------------------------------------
  // The protein table

  /** With the table as written, alanine and threonine share a state, so a
      site where one tip shows A and the other T costs no change. */
  lemma ThreonineOverlapsAlanineAsWritten()
    ensures Meet(ProtTipParsimonyValueAsWritten[16], ProtTipParsimonyValueAsWritten[0]) != 0
    ensures Fitch(TipEntry(Mapped(ProtTipParsimonyValueAsWritten), 0),
                  TipEntry(Mapped(ProtTipParsimonyValueAsWritten), 16)).score == 0
  {
    AlanineInThreonineAsWritten();
    assert Meet(ProtTipParsimonyValueAsWritten[0], ProtTipParsimonyValueAsWritten[16])
        == Meet(ProtTipParsimonyValueAsWritten[16], ProtTipParsimonyValueAsWritten[0]);
  }

  lemma AlanineInThreonineAsWritten()
    ensures Meet(ProtTipParsimonyValueAsWritten[16], ProtTipParsimonyValueAsWritten[0]) == 1
  {
  }

  /** The state set holding the single state `i`. */
  function Bit(i: nat): bv32
    requires i < 32
  {
    if i == 0 then 1 else Double(Bit(i - 1))
  }

  /** Two different single states are disjoint sets. */
  lemma {:induction false} BitsDisjoint(i: nat, j: nat)
    requires i < 32 && j < 32 && i != j
    ensures Meet(Bit(i), Bit(j)) == 0
    decreases i + j
  {
    if i == 0 {
      LowBitClear(Bit(j - 1));
    } else if j == 0 {
      LowBitClear(Bit(i - 1));
      assert Meet(Double(Bit(i - 1)), 1) == Meet(1, Double(Bit(i - 1)));
    } else {
      BitsDisjoint(i - 1, j - 1);
      DoubleMeet(Bit(i - 1), Bit(j - 1));
      DoubleZero();
    }
  }

  lemma LowBitClear(x: bv32)
    ensures Meet(1, Double(x)) == 0
  {
  }

  lemma DoubleMeet(a: bv32, b: bv32)
    ensures Meet(Double(a), Double(b)) == Double(Meet(a, b))
  {
  }

  lemma DoubleZero()
    ensures Double(0) == 0
  {
  }

  /** The corrected table gives residue `i` the single state `i`, so two
      different residues never share a state; its ambiguity codes are the
      unions of the residues they stand for, and X holds every residue. */
  lemma ProtTipTableDistinct()
    ensures |ProtTipParsimonyValue| == 23
    ensures forall i :: 0 <= i < 20 ==> ProtTipParsimonyValue[i] == Bit(i)
    ensures forall i, j :: 0 <= i < 20 && 0 <= j < 20 && i != j ==>
              Meet(ProtTipParsimonyValue[i], ProtTipParsimonyValue[j]) == 0
    ensures ProtTipParsimonyValue[20] == Join(ProtTipParsimonyValue[2], ProtTipParsimonyValue[3])
    ensures ProtTipParsimonyValue[21] == Join(ProtTipParsimonyValue[5], ProtTipParsimonyValue[6])
    ensures forall i :: 0 <= i < 20 ==>
              Meet(ProtTipParsimonyValue[i], ProtTipParsimonyValue[22]) == ProtTipParsimonyValue[i]
  {
    forall i | 0 <= i < 20
      ensures ProtTipParsimonyValue[i] == Bit(i)
      ensures Meet(ProtTipParsimonyValue[i], ProtTipParsimonyValue[22]) == ProtTipParsimonyValue[i]
    {
      ResidueIsBit(i);
      ResidueInX(i);
    }
    forall i, j | 0 <= i < 20 && 0 <= j < 20 && i != j
      ensures Meet(ProtTipParsimonyValue[i], ProtTipParsimonyValue[j]) == 0
    {
      ResidueIsBit(i);
      ResidueIsBit(j);
      BitsDisjoint(i, j);
    }
    AmbiguityCodes();
  }

  lemma AmbiguityCodes()
    ensures ProtTipParsimonyValue[20] == Join(ProtTipParsimonyValue[2], ProtTipParsimonyValue[3])
    ensures ProtTipParsimonyValue[21] == Join(ProtTipParsimonyValue[5], ProtTipParsimonyValue[6])
  {
  }

  lemma {:induction false} ResidueIsBit(i: nat)
    requires i < 20
    ensures ProtTipParsimonyValue[i] == Bit(i)
  {
    if i == 0 {
      assert ProtTipParsimonyValue[0] == 1;
    } else {
      ResidueIsBit(i - 1);
      ResidueStep(i);
    }
  }

  /** Each residue's state is the previous residue's moved up by one. */
  lemma ResidueStep(i: nat)
    requires 0 < i < 20
    ensures ProtTipParsimonyValue[i] == Double(ProtTipParsimonyValue[i - 1])
  {
    if i == 1 {
    } else if i == 2 {
    } else if i == 3 {
    } else if i == 4 {
    } else if i == 5 {
    } else if i == 6 {
    } else if i == 7 {
    } else if i == 8 {
    } else if i == 9 {
    } else if i == 10 {
    } else if i == 11 {
    } else if i == 12 {
    } else if i == 13 {
    } else if i == 14 {
    } else if i == 15 {
    } else if i == 16 {
    } else if i == 17 {
    } else if i == 18 {
    } else {
    }
  }

  lemma ResidueInX(i: nat)
    requires i < 20
    ensures Meet(ProtTipParsimonyValue[i], ProtTipParsimonyValue[22]) == ProtTipParsimonyValue[i]
  {
    if i == 0 {
    } else if i == 1 {
    } else if i == 2 {
    } else if i == 3 {
    } else if i == 4 {
    } else if i == 5 {
    } else if i == 6 {
    } else if i == 7 {
    } else if i == 8 {
    } else if i == 9 {
    } else if i == 10 {
    } else if i == 11 {
    } else if i == 12 {
    } else if i == 13 {
    } else if i == 14 {
    } else if i == 15 {
    } else if i == 16 {
    } else if i == 17 {
    } else if i == 18 {
    } else {
    }
  }

  // ---------------------------------------------------------------------
  // Edge scores

  /** The weighted parsimony score of an edge whose two ends carry the
      vectors `l` and `r`: each site costs the children's changes plus one
      when their state sets are disjoint, times the site's weight. */
  function EdgeCost(w: seq<nat>, l: seq<PEntry>, r: seq<PEntry>): nat
    requires |w| == |l| == |r|
    decreases |w|
  {
    if |w| == 0 then 0
    else
      var k := |w| - 1;
      EdgeCost(w[..k], l[..k], r[..k]) + w[k] * Fitch(l[k], r[k]).score
  }

  /** Extending the scored prefix by one site adds that site's cost. */
  lemma EdgeCostPrefix(w: seq<nat>, l: seq<PEntry>, r: seq<PEntry>, i: nat)
    requires |w| == |l| == |r| && i < |w|
    ensures EdgeCost(w[..i + 1], l[..i + 1], r[..i + 1])
            == EdgeCost(w[..i], l[..i], r[..i]) + w[i] * Fitch(l[i], r[i]).score
  {
    assert w[..i + 1][..i] == w[..i] && l[..i + 1][..i] == l[..i] && r[..i + 1][..i] == r[..i];
  }

  /** Scoring an edge does not depend on which end is called left. */
  lemma {:induction false} EdgeCostSymmetric(w: seq<nat>, l: seq<PEntry>, r: seq<PEntry>)
    requires |w| == |l| == |r|
    ensures EdgeCost(w, l, r) == EdgeCost(w, r, l)
    decreases |w|
  {
    if |w| > 0 {
      var k := |w| - 1;
      EdgeCostSymmetric(w[..k], l[..k], r[..k]);
      FitchCommutes(l[k], r[k]);
    }
  }

  /** Raising site weights never lowers the score of an edge (the ratchet
      perturbs weights upwards only). */
  lemma {:induction false} EdgeCostMonotone(w: seq<nat>, w': seq<nat>, l: seq<PEntry>, r: seq<PEntry>)
    requires |w| == |w'| == |l| == |r|
    requires forall i :: 0 <= i < |w| ==> w[i] <= w'[i]
    ensures EdgeCost(w, l, r) <= EdgeCost(w', l, r)
    decreases |w|
  {
    if |w| > 0 {
      var k := |w| - 1;
      EdgeCostMonotone(w[..k], w'[..k], l[..k], r[..k]);
      assert w[k] * Fitch(l[k], r[k]).score <= w'[k] * Fitch(l[k], r[k]).score by {
        MulMonotone(w[k], w'[k], Fitch(l[k], r[k]).score);
      }
    }
  }

  lemma MulMonotone(a: nat, b: nat, c: nat)
    requires a <= b
    ensures a * c <= b * c
  {
  }

  /** With every site weighted one, an edge costs at least the changes
      already counted below its two ends. */
  lemma {:induction false} EdgeCostAtLeastChildren(w: seq<nat>, l: seq<PEntry>, r: seq<PEntry>)
    requires |w| == |l| == |r|
    requires forall i :: 0 <= i < |w| ==> w[i] == 1
    ensures EdgeCost(w, l, r) >= EdgeCost(w, l, seq(|r|, i requires 0 <= i < |r| => PEntry(0, r[i].state)))
    decreases |w|
  {
    if |w| > 0 {
      var k := |w| - 1;
      var r0 := seq(|r|, i requires 0 <= i < |r| => PEntry(0, r[i].state));
      assert r0[..k] == seq(k, i requires 0 <= i < k => PEntry(0, r[..k][i].state));
      EdgeCostAtLeastChildren(w[..k], l[..k], r[..k]);
    }
  }

  // ---------------------------------------------------------------------
  // Row views of the arrays the kernels read

  /** A vector row: the inner vertex's row of partition m, when it has the
      partition's width. */
  ghost predicate VecOk(pVec: array2<seq<PEntry>>, m: nat, v: nat, width: nat)
    reads pVec
  {
    m < pVec.Length0 && v < pVec.Length1 && |pVec[m, v]| == width
  }

  ghost function TipRow(coding: TipCoding, y0: seq<byte>, off: nat, width: nat): seq<PEntry>
    requires TipRowOk(coding, y0, off, width)
  {
    seq(width, i requires 0 <= i < width && off + i < |y0| && CodeInRange(coding, y0[off + i]) =>
                  TipEntry(coding, y0[off + i]))
  }

  ghost function WeightRow(wgt: array<nat>, off: nat, width: nat): seq<nat>
    reads wgt
    requires off + width <= wgt.Length
  {
    wgt[off..off + width]
  }

  /** Where one model's step finds its operands (the addresses RAxML passes
      to the kernels): `left` and `right` are offsets of tip rows in the tip
      array, the vectors are rows of the vector array.  Which of them a step
      uses depends on its shape. */
  datatype Operands = Operands(right: nat, left: nat, rightVector: nat, leftVector: nat, thisVector: nat)

  predicate TipRowOk(coding: TipCoding, y0: seq<byte>, off: nat, width: nat)
  {
    off + width <= |y0| && forall i :: off <= i < off + width ==> CodeInRange(coding, y0[i])
  }

  /** The operands a step of shape `tc` reads, inside the arrays. */
  ghost predicate OperandsOk(tc: TipCase, coding: TipCoding, y0: seq<byte>, pVec: array2<seq<PEntry>>,
                             m: nat, ops: Operands, width: nat)
    reads pVec
  {
    VecOk(pVec, m, ops.thisVector, width)
    && (tc != InnerInner ==> TipRowOk(coding, y0, ops.left, width))
    && (tc == InnerInner ==> VecOk(pVec, m, ops.leftVector, width))
    && (tc == TipTip ==> TipRowOk(coding, y0, ops.right, width))
    && (tc != TipTip ==> VecOk(pVec, m, ops.rightVector, width))
  }

  /** The row a step reads as its left child: a tip row unless both
      children are inner vertices. */
  ghost function LeftRow(tc: TipCase, coding: TipCoding, y0: seq<byte>, pVec: array2<seq<PEntry>>,
                         m: nat, ops: Operands, width: nat): seq<PEntry>
    reads pVec
    requires OperandsOk(tc, coding, y0, pVec, m, ops, width)
  {
    if tc == InnerInner then pVec[m, ops.leftVector]
    else TipRow(coding, y0, ops.left, width)
  }

  /** The row a step reads as its right child: a tip row only when both
      children are tips. */
  ghost function RightRow(tc: TipCase, coding: TipCoding, y0: seq<byte>, pVec: array2<seq<PEntry>>,
                          m: nat, ops: Operands, width: nat): seq<PEntry>
    reads pVec
    requires OperandsOk(tc, coding, y0, pVec, m, ops, width)
  {
    if tc == TipTip then TipRow(coding, y0, ops.right, width)
    else pVec[m, ops.rightVector]
  }

  /** The Fitch step applied site by site. */
  function FitchRow(l: seq<PEntry>, r: seq<PEntry>): seq<PEntry>
    requires |l| == |r|
  {
    seq(|l|, i requires 0 <= i < |l| => Fitch(l[i], r[i]))
  }

  // ---------------------------------------------------------------------
  // The kernels

  /** `newviewParsimonyDNA`: fills the parent's vector with the Fitch step
      of its two children, reading tip rows as raw bit sets.  Every other
      vector is kept. */
  method NewviewParsimonyDNA(tc: TipCase, y0: seq<byte>, pVec: array2<seq<PEntry>>, m: nat,
                             ops: Operands, width: nat)
    requires OperandsOk(tc, Raw, y0, pVec, m, ops, width)
    modifies pVec
    ensures pVec[m, ops.thisVector]
            == FitchRow(old(LeftRow(tc, Raw, y0, pVec, m, ops, width)),
                        old(RightRow(tc, Raw, y0, pVec, m, ops, width)))
    ensures forall a, b :: 0 <= a < pVec.Length0 && 0 <= b < pVec.Length1 && !(a == m && b == ops.thisVector) ==>
              pVec[a, b] == old(pVec[a, b])
  {
    NewviewParsimonyPROT(tc, y0, pVec, m, ops, width, Raw);
  }

  /** `newviewParsimonyPROT`: the same step, reading each tip code through a
      table of state sets. */
  method NewviewParsimonyPROT(tc: TipCase, y0: seq<byte>, pVec: array2<seq<PEntry>>, m: nat,
                              ops: Operands, width: nat, coding: TipCoding)
    requires OperandsOk(tc, coding, y0, pVec, m, ops, width)
    modifies pVec
    ensures pVec[m, ops.thisVector]
            == FitchRow(old(LeftRow(tc, coding, y0, pVec, m, ops, width)),
                        old(RightRow(tc, coding, y0, pVec, m, ops, width)))
    ensures forall a, b :: 0 <= a < pVec.Length0 && 0 <= b < pVec.Length1 && !(a == m && b == ops.thisVector) ==>
              pVec[a, b] == old(pVec[a, b])
  {
    ghost var l := LeftRow(tc, coding, y0, pVec, m, ops, width);
    ghost var r := RightRow(tc, coding, y0, pVec, m, ops, width);
    ghost var out := pVec[m, ops.thisVector];
    var i := 0;
    while i < width
      invariant 0 <= i <= width
      invariant |pVec[m, ops.thisVector]| == width
      invariant forall j :: 0 <= j < i ==> pVec[m, ops.thisVector][j] == Fitch(l[j], r[j])
      invariant forall j :: i <= j < width ==> pVec[m, ops.thisVector][j] == out[j]
      invariant forall a, b :: 0 <= a < pVec.Length0 && 0 <= b < pVec.Length1 && !(a == m && b == ops.thisVector) ==>
                  pVec[a, b] == old(pVec[a, b])
    {
      var le: PEntry, ri: PEntry;
      if tc == InnerInner {
        le := pVec[m, ops.leftVector][i];
      } else {
        le := TipEntry(coding, y0[ops.left + i]);
      }
      if tc == TipTip {
        ri := TipEntry(coding, y0[ops.right + i]);
      } else {
        ri := pVec[m, ops.rightVector][i];
      }
      assert le == l[i] && ri == r[i];
      var e := SiteStep(le, ri);
      pVec[m, ops.thisVector] := pVec[m, ops.thisVector][i := e];
      i := i + 1;
    }
    assert pVec[m, ops.thisVector] == FitchRow(l, r);
  }

  /** The body of the kernels' site loop: the shared states, or the union
      and one more change when there are none. */
  method SiteStep(le: PEntry, ri: PEntry) returns (e: PEntry)
    ensures e == Fitch(le, ri)
  {
    var t := Meet(le.state, ri.state);
    var ts := le.score + ri.score;
    if t == 0 {
      t := Join(le.state, ri.state);
      ts := ts + 1;
    }
    e := PEntry(ts, t);
  }

  /** `evalDNA`: the weighted score of the edge between the vector row
      `leftVector` and either a tip row (`right` given) or the vector row
      `rightVector`; tip rows hold raw bit sets.  Nothing is changed. */
  method EvalDNA(right: Option<nat>, y0: seq<byte>, pVec: array2<seq<PEntry>>, m: nat,
                 rightVector: nat, leftVector: nat, width: nat, wgt: array<nat>, wOff: nat)
    returns (acc: nat)
    requires VecOk(pVec, m, leftVector, width)
    requires right.Some? ==> TipRowOk(Raw, y0, right.value, width)
    requires right.None? ==> VecOk(pVec, m, rightVector, width)
    requires wOff + width <= wgt.Length
    ensures acc == EdgeCost(WeightRow(wgt, wOff, width), pVec[m, leftVector],
                            EndRow(right, Raw, y0, pVec, m, rightVector, width))
  {
    acc := EvalPROT(right, y0, pVec, m, rightVector, leftVector, width, wgt, wOff, Raw);
  }

  /** The row at the right end of an edge being scored. */
  ghost function EndRow(right: Option<nat>, coding: TipCoding, y0: seq<byte>, pVec: array2<seq<PEntry>>,
                        m: nat, rightVector: nat, width: nat): seq<PEntry>
    reads pVec
    requires right.Some? ==> TipRowOk(coding, y0, right.value, width)
    requires right.None? ==> VecOk(pVec, m, rightVector, width)
  {
    if right.Some? then TipRow(coding, y0, right.value, width) else pVec[m, rightVector]
  }

  /** `evalPROT`: the same score, reading tip codes through a table. */
  method EvalPROT(right: Option<nat>, y0: seq<byte>, pVec: array2<seq<PEntry>>, m: nat,
                  rightVector: nat, leftVector: nat, width: nat, wgt: array<nat>, wOff: nat,
                  coding: TipCoding)
    returns (acc: nat)
    requires VecOk(pVec, m, leftVector, width)
    requires right.Some? ==> TipRowOk(coding, y0, right.value, width)
    requires right.None? ==> VecOk(pVec, m, rightVector, width)
    requires wOff + width <= wgt.Length
    ensures acc == EdgeCost(WeightRow(wgt, wOff, width), pVec[m, leftVector],
                            EndRow(right, coding, y0, pVec, m, rightVector, width))
  {
    ghost var w := WeightRow(wgt, wOff, width);
    ghost var l := pVec[m, leftVector];
    ghost var r := EndRow(right, coding, y0, pVec, m, rightVector, width);
    acc := 0;
    var i := 0;
    while i < width
      invariant 0 <= i <= width
      invariant acc == EdgeCost(w[..i], l[..i], r[..i])
    {
      var le := pVec[m, leftVector][i];
      var ri: PEntry;
      if right.Some? {
        ri := TipEntry(coding, y0[right.value + i]);
      } else {
        ri := pVec[m, rightVector][i];
      }
      assert le == l[i] && ri == r[i];
      var sum := le.score + ri.score;
      if Meet(le.state, ri.state) == 0 {
        sum := sum + 1;
      }
      FitchScore(le, ri);
      EdgeCostPrefix(w, l, r, i);
      acc := acc + wgt[wOff + i] * sum;
      i := i + 1;
    }
    assert w[..width] == w && l[..width] == l && r[..width] == r;
  }
}
