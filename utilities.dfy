/** The helpers of `utilities.py` that the reference-package builder relies
    on: header clean-up, completing a lineage with a species name, picking
    the best HMM match, the median of a list, mapping annotated leaf ranges
    to internal nodes of the tree, and the auto-vivifying dictionary. */
module Utilities {
  import opened Wrappers
  import opened PyStrings
  import opened Collections
  import opened Sorting

  // ---------------------------------------------------------------------
  // reformat_string
  // ---------------------------------------------------------------------

  /** The characters `reformat_string` deletes: `[ ] ( ) / \ ' < >`. */
  predicate IsMark(c: char)
  {
    c == '[' || c == ']' || c == '(' || c == ')' || c == '/' || c == '\\' || c == '\'' || c == '<' || c == '>'
  }

  /** The characters `reformat_string` turns into '_': white space, ';',
      ',' and '|'. */
  predicate Underscored(c: char)
  {
    IsSpace(c) || c == ';' || c == ',' || c == '|'
  }

  predicate NotMark(c: char)
  {
    !IsMark(c)
  }

  function Underscore(c: char): char
  {
    if Underscored(c) then '_' else c
  }

  function Underscores(s: string): (r: string)
    ensures |r| == |s|
    ensures forall i :: 0 <= i < |s| ==> r[i] == Underscore(s[i])
  {
    seq(|s|, i requires 0 <= i < |s| => Underscore(s[i]))
  }

  predicate IsHeader(s: string)
  {
    |s| > 0 && s[0] == '>'
  }

  /** The string before its trailing dots are removed: marks deleted, the
      leading '>' of a header put back, separators replaced, and anything
      longer than 110 characters cut to 109. */
  function Trimmed(s: string): string
  {
    var kept := Filter(s, NotMark);
    var restored := if IsHeader(s) then ">" + kept else kept;
    var replaced := Underscores(restored);
    if |replaced| > 110 then replaced[..109] else replaced
  }

  /** What `reformat_string(s)` returns. */
  function Reformatted(s: string): string
  {
    RStrip(Trimmed(s), {'.'})
  }

  /** `reformat_string`: the substitutions in order, then a loop that drops
      the trailing dots one at a time. */
  method ReformatString(s: string) returns (r: string)
    ensures r == Reformatted(s)
  {
    var header := |s| > 0 && s[0] == '>';
    r := Filter(s, NotMark);
    if header {
      r := ">" + r;
    }
    r := Underscores(r);
    if |r| > 110 {
      r := r[..109];
    }
    ghost var cut := r;
    while |r| > 0 && r[|r| - 1] == '.'
      invariant RStrip(r, {'.'}) == RStrip(cut, {'.'})
      decreases |r|
    {
      r := r[..|r| - 1];
    }
  }

  /** The marks are gone before the '>' of a header is put back. */
  lemma RestoredChars(s: string)
    ensures var kept := Filter(s, NotMark);
      var restored := if IsHeader(s) then ">" + kept else kept;
      forall i :: 0 <= i < |restored| ==> (IsMark(restored[i]) ==> i == 0 && restored[i] == '>')
    ensures var kept := Filter(s, NotMark);
      IsHeader(if IsHeader(s) then ">" + kept else kept) <==> IsHeader(s)
  {
    var kept := Filter(s, NotMark);
    var restored := if IsHeader(s) then ">" + kept else kept;
    forall i | 0 <= i < |restored|
      ensures IsMark(restored[i]) ==> i == 0 && restored[i] == '>'
    {
      if IsHeader(s) && i > 0 {
        assert restored[i] == kept[i - 1];
        assert kept[i - 1] in kept;
      } else if !IsHeader(s) {
        assert restored[i] in kept;
      }
    }
    if !IsHeader(s) && |kept| > 0 {
      assert kept[0] in kept;
    }
  }

  /** Every character of the untrimmed result is neither a separator nor a
      mark, except a leading '>' on a header. */
  lemma TrimmedChars(s: string)
    ensures var t := Trimmed(s);
      forall i :: 0 <= i < |t| ==> !Underscored(t[i]) && (IsMark(t[i]) ==> i == 0 && t[i] == '>')
    ensures IsHeader(Trimmed(s)) <==> IsHeader(s)
    ensures |Trimmed(s)| <= 110
  {
    RestoredChars(s);
    var kept := Filter(s, NotMark);
    var restored := if IsHeader(s) then ">" + kept else kept;
    ReplacedChars(restored);
  }

  /** Replacing the separators keeps the marks where they were and leaves no
      separator. */
  lemma ReplacedChars(restored: string)
    ensures var replaced := Underscores(restored);
      forall i :: 0 <= i < |replaced| ==>
        !Underscored(replaced[i]) && (IsMark(replaced[i]) <==> IsMark(restored[i]))
        && (replaced[i] == '>' <==> restored[i] == '>')
  {
  }

  /** `reformat_string` keeps a leading '>' exactly when there was one, and
      whatever else it returns holds none of the deleted or replaced
      characters. */
  lemma ReformattedChars(s: string)
    ensures var r := Reformatted(s);
      IsHeader(r) <==> IsHeader(s)
    ensures var r := Reformatted(s);
      forall i :: 0 <= i < |r| ==> !Underscored(r[i]) && (IsMark(r[i]) ==> i == 0 && r[i] == '>')
  {
    TrimmedChars(s);
    var t := Trimmed(s);
    var r := Reformatted(s);
    assert r == t[..|r|];
    if IsHeader(t) {
      assert t[0] !in {'.'};
    }
  }

  /** The result is at most 110 characters long and does not end in '.'. */
  lemma ReformattedShape(s: string)
    ensures |Reformatted(s)| <= 110
    ensures var r := Reformatted(s); |r| > 0 ==> r[|r| - 1] != '.'
  {
    TrimmedChars(s);
  }

  /** A string without marks, except for a leading '>' on a header, keeps
      its marks deleted and its '>' restored. */
  lemma RestoredUnchanged(r: string)
    requires forall i :: 0 <= i < |r| ==> (IsMark(r[i]) ==> i == 0 && r[i] == '>')
    ensures (if IsHeader(r) then ">" + Filter(r, NotMark) else Filter(r, NotMark)) == r
  {
    if IsHeader(r) {
      assert forall i :: 1 <= i < |r| ==> NotMark(r[i]);
      RestoredHeader(r);
    } else {
      FilterKeeps(r, NotMark);
    }
  }

  lemma RestoredHeader(r: string)
    requires IsHeader(r)
    requires forall i :: 1 <= i < |r| ==> NotMark(r[i])
    ensures ">" + Filter(r, NotMark) == r
  {
    FilterRestoresFirst(r, NotMark);
    assert ">" == [r[0]];
  }

  /** A string without separators is its own replacement. */
  lemma UnderscoresUnchanged(r: string)
    requires forall i :: 0 <= i < |r| ==> !Underscored(r[i])
    ensures Underscores(r) == r
  {
  }

  /** Reformatting a reformatted string changes nothing. */
  lemma ReformattedIdempotent(s: string)
    ensures Reformatted(Reformatted(s)) == Reformatted(s)
  {
    var r := Reformatted(s);
    ReformattedChars(s);
    ReformattedShape(s);
    RestoredUnchanged(r);
    UnderscoresUnchanged(r);
    assert Trimmed(r) == r;
  }

  // ---------------------------------------------------------------------
  // check_lineage
  // ---------------------------------------------------------------------

  predicate UpperLetter(c: char)
  {
    'A' <= c <= 'Z'
  }

  predicate LowerLetter(c: char)
  {
    'a' <= c <= 'z'
  }

  /** s[lo..hi] is made of lower-case letters. */
  predicate LowerRun(s: string, lo: nat, hi: nat)
  {
    forall i :: lo <= i < hi && i < |s| ==> LowerLetter(s[i])
  }

  /** The name and epithet meet at a space at k. */
  predicate SpaceAt(s: string, k: nat)
  {
    2 <= k < |s| - 1 && s[k] == ' ' && LowerRun(s, 1, k) && LowerRun(s, k + 1, |s|)
  }

  /** `[A-Z][a-z]+ [a-z]+` spanning the whole string. */
  predicate Binomial(s: string)
  {
    |s| >= 4 && UpperLetter(s[0]) && exists k: nat | k < |s| :: SpaceAt(s, k)
  }

  /** `re.match("^[A-Z][a-z]+ [a-z]+$", s)`: `$` also matches just before a
      final newline. */
  predicate ProperSpecies(s: string)
  {
    Binomial(s) || (|s| > 0 && s[|s| - 1] == '\n' && Binomial(s[..|s| - 1]))
  }

  const RankSep := "; "

  /** `check_lineage(lineage, organism_name)`: a seven-rank lineage whose
      last rank is not a species gains the organism name when that is one. */
  function CheckLineage(lineage: string, organism: string): string
  {
    var ranks := Split(lineage, RankSep);
    if ProperSpecies(ranks[|ranks| - 1]) then lineage
    else if |ranks| == 7 && ProperSpecies(organism) then lineage + RankSep + organism
    else lineage
  }

  /** The lineage is returned unchanged or with "; " and the organism
      appended, and it is appended exactly when the last rank is not a
      species, there are seven ranks and the organism is a species. */
  lemma CheckLineageCases(lineage: string, organism: string)
    ensures var r := CheckLineage(lineage, organism);
      r == lineage || r == lineage + RankSep + organism
    ensures var ranks := Split(lineage, RankSep);
      CheckLineage(lineage, organism) != lineage
      <==> !ProperSpecies(ranks[|ranks| - 1]) && |ranks| == 7 && ProperSpecies(organism)
  {
    var r := CheckLineage(lineage, organism);
    if r != lineage {
      assert |r| == |lineage| + 2 + |organism|;
    }
  }

  /** A binomial is made of letters and one space. */
  lemma BinomialNoSemicolon(s: string)
    requires Binomial(s)
    ensures forall i :: 0 <= i < |s| ==> s[i] != ';'
  {
    var k: nat :| k < |s| && SpaceAt(s, k);
    assert LowerRun(s, 1, k) && LowerRun(s, k + 1, |s|);
    forall i | 0 <= i < |s|
      ensures s[i] != ';'
    {
      if 1 <= i < k {
        assert LowerLetter(s[i]);
      } else if k < i {
        assert LowerLetter(s[i]);
      }
    }
  }

  /** A species name holds no ';'. */
  lemma ProperSpeciesNoSemicolon(s: string)
    requires ProperSpecies(s)
    ensures forall i :: 0 <= i < |s| ==> s[i] != ';'
  {
    if Binomial(s) {
      BinomialNoSemicolon(s);
    } else {
      var b := s[..|s| - 1];
      BinomialNoSemicolon(b);
      assert forall i :: 0 <= i < |b| ==> s[i] == b[i];
    }
  }

  /** When the organism is appended, the lineage has eight ranks: the old
      seven followed by the organism. */
  lemma CheckLineageAppends(lineage: string, organism: string)
    requires CheckLineage(lineage, organism) != lineage
    ensures Split(CheckLineage(lineage, organism), RankSep) == Split(lineage, RankSep) + [organism]
    ensures |Split(CheckLineage(lineage, organism), RankSep)| == 8
  {
    CheckLineageCases(lineage, organism);
    ProperSpeciesNoSemicolon(organism);
    var t := lineage + RankSep + organism;
    forall j | 0 <= j
      ensures !OccursAt(organism, RankSep, j)
    {
      if j + 2 <= |organism| {
        assert organism[j..j + 2][0] == organism[j];
      }
    }
    forall j | |lineage| - |RankSep| < j < |lineage| && 0 <= j
      ensures !OccursAt(t, RankSep, j)
    {
      assert j == |lineage| - 1;
      assert t[j + 1] == ';';
      assert t[j..j + 2][1] == t[j + 1];
    }
    SplitSnoc(lineage, organism, RankSep);
  }

  // ---------------------------------------------------------------------
  // best_match
  // ---------------------------------------------------------------------

  /** The two fields of an `HmmMatch` that `best_match` reads. */
  datatype HmmMatch = HmmMatch(targetHmm: string, fullScore: real)

  /** Entry i has a positive score, no entry scores more and every earlier
      entry scores strictly less. */
  predicate FirstBest(matches: seq<HmmMatch>, i: int)
  {
    0 <= i < |matches| && matches[i].fullScore > 0.0
    && (forall j :: 0 <= j < |matches| ==> matches[j].fullScore <= matches[i].fullScore)
    && (forall j :: 0 <= j < i ==> matches[j].fullScore < matches[i].fullScore)
  }

  /** At most one entry is the first best. */
  lemma FirstBestUnique(matches: seq<HmmMatch>, i: int, j: int)
    requires FirstBest(matches, i) && FirstBest(matches, j)
    ensures i == j
  {
  }

  /** `best_match`: a running maximum that starts at 0 and moves only on a
      strictly larger score. */
  method BestMatch(matches: seq<HmmMatch>) returns (target: string, best: Option<HmmMatch>)
    ensures best.None? <==> forall j :: 0 <= j < |matches| ==> matches[j].fullScore <= 0.0
    ensures best.None? ==> target == ""
    ensures best.Some? ==>
      exists i :: FirstBest(matches, i) && best.value == matches[i] && target == matches[i].targetHmm
  {
    target := "";
    best := None;
    var top: real := 0.0;
    var at := -1;
    for k := 0 to |matches|
      invariant best.None? <==> at == -1
      invariant at == -1 ==> top == 0.0 && target == ""
      invariant at == -1 ==> forall j :: 0 <= j < k ==> matches[j].fullScore <= 0.0
      invariant at != -1 ==> 0 <= at < k && best == Some(matches[at])
      invariant at != -1 ==> target == matches[at].targetHmm && top == matches[at].fullScore && top > 0.0
      invariant at != -1 ==> forall j :: 0 <= j < k ==> matches[j].fullScore <= top
      invariant at != -1 ==> forall j :: 0 <= j < at ==> matches[j].fullScore < top
    {
      if matches[k].fullScore > top {
        best := Some(matches[k]);
        target := matches[k].targetHmm;
        top := matches[k].fullScore;
        at := k;
      }
    }
    if at != -1 {
      assert FirstBest(matches, at);
    }
  }

  // ---------------------------------------------------------------------
  // median
  // ---------------------------------------------------------------------

  predicate RealLe(a: real, b: real)
  {
    a <= b
  }

  function SortReals(s: seq<real>): (r: seq<real>)
    ensures multiset(r) == multiset(s) && |r| == |s| && SortedBy(r, RealLe)
  {
    Sort(s, RealLe)
  }

  /** `median(lst)`: None for an empty list, the middle entry of the sorted
      list for an odd length, and the mean of the two middle entries for an
      even length. */
  function Median(lst: seq<real>): Option<real>
  {
    var n := |lst|;
    if n < 1 then None
    else
      var t := SortReals(lst);
      if n % 2 == 1 then Some(t[n / 2])
      else Some((t[n / 2 - 1] + t[n / 2]) / 2.0)
  }

  /** Two non-empty sorted lists of reals with the same entries start
      alike. */
  lemma SortedHeads(t: seq<real>, u: seq<real>)
    requires |t| > 0 && |u| > 0
    requires SortedBy(t, RealLe) && SortedBy(u, RealLe) && multiset(t) == multiset(u)
    ensures t[0] == u[0]
  {
    assert t[0] in multiset(u);
    assert u[0] in multiset(t);
    var j :| 0 <= j < |u| && u[j] == t[0];
    var k :| 0 <= k < |t| && t[k] == u[0];
    assert RealLe(t[0], t[k]) || k == 0;
    assert RealLe(u[0], u[j]) || j == 0;
  }

  /** Two sorted lists of reals with the same entries are equal. */
  lemma {:induction false} SortedUnique(t: seq<real>, u: seq<real>)
    requires SortedBy(t, RealLe) && SortedBy(u, RealLe) && multiset(t) == multiset(u)
    ensures t == u
    decreases |t|
  {
    assert |t| == |multiset(t)| == |u|;
    if |t| > 0 {
      SortedHeads(t, u);
      assert t == [t[0]] + t[1..];
      assert u == [u[0]] + u[1..];
      assert multiset(t) == multiset{t[0]} + multiset(t[1..]);
      assert multiset(u) == multiset{u[0]} + multiset(u[1..]);
      assert multiset(t[1..]) == multiset(t) - multiset{t[0]};
      assert multiset(u[1..]) == multiset(u) - multiset{u[0]};
      assert SortedBy(t[1..], RealLe) && SortedBy(u[1..], RealLe);
      SortedUnique(t[1..], u[1..]);
    }
  }

  /** The median does not depend on how the list is sorted: for any sorted
      arrangement t of the entries it is the middle entry of t, or the mean
      of the two middle ones. */
  lemma MedianMiddle(lst: seq<real>, t: seq<real>)
    requires SortedBy(t, RealLe) && multiset(t) == multiset(lst)
    ensures |t| == |lst|
    ensures |lst| == 0 <==> Median(lst).None?
    ensures |lst| % 2 == 1 ==> Median(lst) == Some(t[|lst| / 2])
    ensures |lst| > 0 && |lst| % 2 == 0 ==>
      Median(lst) == Some((t[|lst| / 2 - 1] + t[|lst| / 2]) / 2.0)
  {
    assert |t| == |multiset(t)| == |multiset(lst)| == |lst|;
    SortedUnique(SortReals(lst), t);
  }

  // ---------------------------------------------------------------------
  // convert_outer_to_inner_nodes
  // ---------------------------------------------------------------------

  /** An item of `internal_node_map`: an internal node of the tree and the
      leaves below it. */
  type Clade = (nat, seq<string>)

  /** Clades ordered by their number of leaves. */
  predicate CladeSizeLe(a: Clade, b: Clade)
  {
    |a.1| <= |b.1|
  }

  /** `warm_front`: the clades that hold the start leaf, in map order. */
  function WarmFront(nodes: seq<Clade>, start: string): seq<Clade>
    decreases |nodes|
  {
    if |nodes| == 0 then []
    else
      var n := |nodes| - 1;
      WarmFront(nodes[..n], start) + (if start in nodes[n].1 then [nodes[n]] else [])
  }

  lemma {:induction false} WarmFrontMembers(nodes: seq<Clade>, start: string)
    ensures forall c :: c in WarmFront(nodes, start) <==> c in nodes && start in c.1
    decreases |nodes|
  {
    if |nodes| > 0 {
      var n := |nodes| - 1;
      WarmFrontMembers(nodes[..n], start);
      assert nodes == nodes[..n] + [nodes[n]];
    }
  }

  /** The node of the first clade that holds the end leaf. */
  function FirstHolding(front: seq<Clade>, end: string): Option<nat>
    decreases |front|
  {
    if |front| == 0 then None
    else if end in front[0].1 then Some(front[0].0)
    else FirstHolding(front[1..], end)
  }

  /** The internal node `convert_outer_to_inner_nodes` picks for the leaf
      range (start, end): the first clade holding end among the clades that
      hold start, taken from the smallest to the largest. */
  function Innermost(nodes: seq<Clade>, start: string, end: string): Option<nat>
  {
    FirstHolding(Sort(WarmFront(nodes, start), CladeSizeLe), end)
  }

  /** There is no such clade exactly when no clade holds the end leaf. */
  lemma {:induction false} FirstHoldingNone(front: seq<Clade>, end: string)
    ensures FirstHolding(front, end).None? <==> forall k :: 0 <= k < |front| ==> end !in front[k].1
    decreases |front|
  {
    if |front| > 0 && end !in front[0].1 {
      FirstHoldingNone(front[1..], end);
      assert forall k :: 1 <= k < |front| ==> front[k] == front[1..][k - 1];
    }
  }

  /** Clade k is the first of the list that holds the end leaf. */
  predicate FirstHolds(front: seq<Clade>, end: string, k: int)
  {
    0 <= k < |front| && end in front[k].1 && forall j :: 0 <= j < k ==> end !in front[j].1
  }

  /** The node found is that of the first clade holding the end leaf. */
  lemma {:induction false} FirstHoldingSome(front: seq<Clade>, end: string)
    requires FirstHolding(front, end).Some?
    ensures exists k :: FirstHolds(front, end, k) && front[k].0 == FirstHolding(front, end).value
    decreases |front|
  {
    if end in front[0].1 {
      assert FirstHolds(front, end, 0);
    } else {
      var rest := front[1..];
      FirstHoldingSome(rest, end);
      var k :| FirstHolds(rest, end, k) && rest[k].0 == FirstHolding(front, end).value;
      assert front[k + 1] == rest[k];
      assert forall j :: 1 <= j < k + 1 ==> front[j] == rest[j - 1];
      assert FirstHolds(front, end, k + 1);
    }
  }

  /** Sorting keeps the members of a list. */
  lemma SortedMembers(front: seq<Clade>)
    ensures forall c :: c in Sort(front, CladeSizeLe) <==> c in front
  {
    var sorted := Sort(front, CladeSizeLe);
    forall c
      ensures c in sorted <==> c in front
    {
      assert c in sorted <==> c in multiset(sorted);
      assert c in front <==> c in multiset(front);
    }
  }

  /** The picked node is that of a smallest clade holding both leaves, and
      there is none exactly when no clade holds both. */
  lemma InnermostSmallest(nodes: seq<Clade>, start: string, end: string)
    ensures Innermost(nodes, start, end).None? <==>
      forall c :: c in nodes ==> !(start in c.1 && end in c.1)
    ensures Innermost(nodes, start, end).Some? ==>
      exists c :: SmallestHolding(nodes, start, end, c) && c.0 == Innermost(nodes, start, end).value
  {
    if Innermost(nodes, start, end).Some? {
      InnermostFound(nodes, start, end);
    } else {
      InnermostNone(nodes, start, end);
    }
  }

  lemma InnermostNone(nodes: seq<Clade>, start: string, end: string)
    requires Innermost(nodes, start, end).None?
    ensures forall c :: c in nodes ==> !(start in c.1 && end in c.1)
  {
    var sorted := Sort(WarmFront(nodes, start), CladeSizeLe);
    WarmFrontMembers(nodes, start);
    SortedMembers(WarmFront(nodes, start));
    FirstHoldingNone(sorted, end);
    forall c | c in nodes
      ensures !(start in c.1 && end in c.1)
    {
      if start in c.1 {
        var j :| 0 <= j < |sorted| && sorted[j] == c;
      }
    }
  }

  /** c is a clade of the map that holds both leaves, and no clade holding
      both is smaller. */
  predicate SmallestHolding(nodes: seq<Clade>, start: string, end: string, c: Clade)
  {
    c in nodes && start in c.1 && end in c.1
    && forall d :: d in nodes && start in d.1 && end in d.1 ==> |c.1| <= |d.1|
  }

  lemma InnermostFound(nodes: seq<Clade>, start: string, end: string)
    requires Innermost(nodes, start, end).Some?
    ensures exists c :: SmallestHolding(nodes, start, end, c) && c.0 == Innermost(nodes, start, end).value
  {
    var sorted := Sort(WarmFront(nodes, start), CladeSizeLe);
    WarmFrontMembers(nodes, start);
    SortedMembers(WarmFront(nodes, start));
    FirstHoldingSome(sorted, end);
    var k :| FirstHolds(sorted, end, k) && sorted[k].0 == Innermost(nodes, start, end).value;
    var c := sorted[k];
    forall d | d in nodes && start in d.1 && end in d.1
      ensures |c.1| <= |d.1|
    {
      var j :| 0 <= j < |sorted| && sorted[j] == d;
      assert k <= j;
      assert CladeSizeLe(sorted[k], sorted[j]) || k == j;
    }
    assert SmallestHolding(nodes, start, end, c);
  }

  /** The picked nodes of a list of leaf ranges, in order; a range held by no
      clade adds nothing. */
  function InnerNodes(nodes: seq<Clade>, fronds: seq<(string, string)>): seq<nat>
    decreases |fronds|
  {
    if |fronds| == 0 then []
    else
      var n := |fronds| - 1;
      InnerNodes(nodes, fronds[..n])
      + match Innermost(nodes, fronds[n].0, fronds[n].1)
        case Some(i) => [i]
        case None => []
  }

  /** One (start, end) pair: collect the warm front, sort it by clade size
      and stop at the first clade holding end. */
  method InnerNode(nodes: seq<Clade>, start: string, end: string) returns (r: Option<nat>)
    ensures r == Innermost(nodes, start, end)
  {
    var front: seq<Clade> := [];
    for k := 0 to |nodes|
      invariant front == WarmFront(nodes[..k], start)
    {
      PrefixSnoc(nodes, k);
      if start in nodes[k].1 {
        front := front + [nodes[k]];
      }
    }
    TakeAll(nodes);
    var sorted := Sort(front, CladeSizeLe);
    r := None;
    for k := 0 to |sorted|
      invariant r.None? && FirstHolding(sorted[k..], end) == FirstHolding(sorted, end)
    {
      if end in sorted[k].1 {
        r := Some(sorted[k].0);
        break;
      }
      assert sorted[k..][1..] == sorted[k + 1..];
    }
  }

  /** The inner nodes of the leaf ranges of one annotation, in order. */
  method MapFronds(nodes: seq<Clade>, fronds: seq<(string, string)>) returns (found: seq<nat>)
    ensures found == InnerNodes(nodes, fronds)
  {
    found := [];
    for f := 0 to |fronds|
      invariant found == InnerNodes(nodes, fronds[..f])
    {
      PrefixSnoc(fronds, f);
      var i := InnerNode(nodes, fronds[f].0, fronds[f].1);
      if i.Some? {
        found := found + [i.value];
      }
    }
    TakeAll(fronds);
  }

  /** `convert_outer_to_inner_nodes`: every annotation, in the order of
      the input, maps to the inner nodes of its leaf ranges. */
  method ConvertOuterToInnerNodes(clusters: seq<(string, seq<(string, string)>)>, nodes: seq<Clade>)
    returns (m: seq<(string, seq<nat>)>)
    requires DistinctKeys(clusters)
    ensures |m| == |clusters| && DistinctKeys(m)
    ensures forall j :: 0 <= j < |clusters| ==>
      m[j].0 == clusters[j].0 && m[j].1 == InnerNodes(nodes, clusters[j].1)
  {
    m := [];
    for c := 0 to |clusters|
      invariant |m| == c
      invariant forall j :: 0 <= j < c ==>
        m[j].0 == clusters[j].0 && m[j].1 == InnerNodes(nodes, clusters[j].1)
    {
      var found := MapFronds(nodes, clusters[c].1);
      m := m + [(clusters[c].0, found)];
    }
  }

  // ---------------------------------------------------------------------
  // annotate_internal_nodes
  // ---------------------------------------------------------------------

  /** `leaf_group_members[a]`: the leaves below the internal nodes of an
      annotation. */
  function GroupLeaves(nodes: seq<Clade>, inodes: seq<nat>): set<string>
    decreases |nodes|
  {
    if |nodes| == 0 then {}
    else
      var n := |nodes| - 1;
      GroupLeaves(nodes[..n], inodes)
      + (if nodes[n].0 in inodes then set l | l in nodes[n].1 else {})
  }

  /** `annotated_clade_members[a]`: the internal nodes all of whose leaves
      are in the group. */
  function Annotated(nodes: seq<Clade>, group: set<string>): set<nat>
    decreases |nodes|
  {
    if |nodes| == 0 then {}
    else
      var n := |nodes| - 1;
      Annotated(nodes[..n], group)
      + (if forall l :: l in nodes[n].1 ==> l in group then {nodes[n].0} else {})
  }

  lemma {:induction false} GroupLeavesMembers(nodes: seq<Clade>, inodes: seq<nat>)
    ensures forall l :: l in GroupLeaves(nodes, inodes) <==>
      exists k :: 0 <= k < |nodes| && nodes[k].0 in inodes && l in nodes[k].1
    decreases |nodes|
  {
    if |nodes| > 0 {
      var n := |nodes| - 1;
      GroupLeavesMembers(nodes[..n], inodes);
      assert forall k :: 0 <= k < n ==> nodes[..n][k] == nodes[k];
    }
  }

  lemma {:induction false} AnnotatedMembers(nodes: seq<Clade>, group: set<string>)
    ensures forall i :: i in Annotated(nodes, group) <==>
      exists k :: 0 <= k < |nodes| && nodes[k].0 == i && forall l :: l in nodes[k].1 ==> l in group
    decreases |nodes|
  {
    if |nodes| > 0 {
      var n := |nodes| - 1;
      AnnotatedMembers(nodes[..n], group);
      assert forall k :: 0 <= k < n ==> nodes[..n][k] == nodes[k];
    }
  }

  /** Every internal node listed for an annotation is annotated with it, and
      an annotated node's leaves all lie below the listed nodes. */
  lemma AnnotatedCovers(nodes: seq<Clade>, inodes: seq<nat>, k: nat)
    requires k < |nodes| && nodes[k].0 in inodes
    ensures nodes[k].0 in Annotated(nodes, GroupLeaves(nodes, inodes))
  {
    GroupLeavesMembers(nodes, inodes);
    AnnotatedMembers(nodes, GroupLeaves(nodes, inodes));
  }

  /** The leaves below the internal nodes of one annotation, added one by
      one. */
  method CollectLeaves(nodes: seq<Clade>, inodes: seq<nat>) returns (group: set<string>)
    ensures group == GroupLeaves(nodes, inodes)
  {
    group := {};
    for k := 0 to |nodes|
      invariant group == GroupLeaves(nodes[..k], inodes)
    {
      PrefixSnoc(nodes, k);
      if nodes[k].0 in inodes {
        var leaves := nodes[k].1;
        for j := 0 to |leaves|
          invariant group == GroupLeaves(nodes[..k], inodes) + set l | l in leaves[..j]
        {
          PrefixSnoc(leaves, j);
          group := group + {leaves[j]};
        }
        TakeAll(leaves);
      }
    }
    TakeAll(nodes);
  }

  /** The internal nodes whose leaves all lie in the group. */
  method CollectAnnotated(nodes: seq<Clade>, group: set<string>) returns (members: set<nat>)
    ensures members == Annotated(nodes, group)
  {
    members := {};
    for k := 0 to |nodes|
      invariant members == Annotated(nodes[..k], group)
    {
      PrefixSnoc(nodes, k);
      if forall l :: l in nodes[k].1 ==> l in group {
        members := members + {nodes[k].0};
      }
    }
    TakeAll(nodes);
  }

  /** `annotate_internal_nodes`: each annotation, in the order of the
      input, gets the internal nodes covered by the leaves of its own nodes;
      the second result collects every leaf below an annotated node. */
  method AnnotateInternalNodes(nodes: seq<Clade>, clusters: seq<(string, seq<nat>)>)
    returns (annotated: seq<(string, set<nat>)>, inClusters: set<string>)
    ensures |annotated| == |clusters|
    ensures forall j :: 0 <= j < |clusters| ==>
      annotated[j].0 == clusters[j].0 && annotated[j].1 == Annotated(nodes, GroupLeaves(nodes, clusters[j].1))
    ensures forall l :: l in inClusters <==>
      exists j :: 0 <= j < |clusters| && l in GroupLeaves(nodes, clusters[j].1)
  {
    annotated := [];
    inClusters := {};
    for c := 0 to |clusters|
      invariant |annotated| == c
      invariant forall j :: 0 <= j < c ==>
        annotated[j].0 == clusters[j].0 && annotated[j].1 == Annotated(nodes, GroupLeaves(nodes, clusters[j].1))
      invariant forall l :: l in inClusters <==>
        exists j :: 0 <= j < c && l in GroupLeaves(nodes, clusters[j].1)
    {
      var group := CollectLeaves(nodes, clusters[c].1);
      inClusters := inClusters + group;
      var members := CollectAnnotated(nodes, group);
      annotated := annotated + [(clusters[c].0, members)];
    }
  }

  // ---------------------------------------------------------------------
  // Autovivify
  // ---------------------------------------------------------------------

  /** A dictionary that creates an empty nested dictionary for a missing
      key on first access. */
  class Autovivify {
    var children: map<string, Autovivify>

    constructor ()
      ensures children == map[]
    {
      children := map[];
    }

    /** `d[item]`: the stored value, or a new empty dictionary that is
        stored under the key and returned. */
    method GetItem(item: string) returns (value: Autovivify)
      modifies this
      ensures item in old(children) ==> children == old(children) && value == old(children)[item]
      ensures item !in old(children) ==>
        fresh(value) && value.children == map[] && children == old(children)[item := value]
    {
      if item in children {
        value := children[item];
      } else {
        value := new Autovivify();
        children := children[item := value];
      }
    }
  }
}
