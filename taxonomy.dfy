/** The taxonomic hierarchy of a reference package
    (treesapp/taxonomic_hierarchy.py).

    Every `Taxon` instance ever created is an entry of an arena
    `taxa: seq<Taxon>`, and a reference to an instance (a parent, a value of
    the hierarchy dictionary, the result of `lca`) is its index, so Python's
    identity test `t1 == t2` is equality of indices.  Only the operations
    modelled here create taxa, and each new taxon's parent already exists:
    every parent index is smaller than its child's (`Rooted`), which is what
    makes `lineage` terminate. */
module Taxonomy {
  import opened Wrappers
  import opened PyStrings
  import opened Sorting
  import opened Collections

  /** A `Taxon`: name, rank, parent (an index into the arena), rank prefix,
      taxid and coverage. */
  datatype Taxon = Taxon(name: string, rank: string, parent: Option<nat>, prefix: string, taxid: string, coverage: int)

  /** The separator between a rank prefix and a taxon name. */
  const TaxonSep: string := "__"
  /** The separator between the taxa of a lineage (the constructor's default). */
  const LinSep: string := "; "
  const NoRankName: string := "no rank"
  const BadTaxa: seq<string> := ["cellular organisms", "unclassified"]

  /** `prefix_taxon()`: the key of a taxon in the hierarchy dictionary. */
  function PrefixTaxon(t: Taxon): string
  {
    t.prefix + TaxonSep + t.name
  }

  /** Every parent was created before its child. */
  predicate Rooted(taxa: seq<Taxon>)
  {
    forall i :: 0 <= i < |taxa| && taxa[i].parent.Some? ==> taxa[i].parent.value < i
  }

  /** A reference that is None or names a taxon of the arena. */
  predicate RefOk(taxa: seq<Taxon>, r: Option<nat>)
  {
    r.Some? ==> r.value < |taxa|
  }

  // ---------------------------------------------------------------------
  // Taxon.lineage, Taxon.tax_dist

  /** `Taxon.lineage()`: the chain of parents from a parentless root down to
      t, ending with t itself. */
  function Lineage(taxa: seq<Taxon>, t: nat): (l: seq<nat>)
    requires Rooted(taxa) && t < |taxa|
    ensures |l| >= 1 && l[|l| - 1] == t
    ensures forall k :: 0 <= k < |l| ==> l[k] <= t
    ensures taxa[l[0]].parent.None?
    ensures forall k :: 0 < k < |l| ==> taxa[l[k]].parent == Some(l[k - 1])
    ensures forall j, k :: 0 <= j < k < |l| ==> l[j] < l[k]
    decreases t
  {
    match taxa[t].parent
    case None => [t]
    case Some(p) => Lineage(taxa, p) + [t]
  }

  /** The lineage of an ancestor is the start of the descendant's lineage. */
  lemma {:induction false} LineagePrefix(taxa: seq<Taxon>, a: nat, k: nat)
    requires Rooted(taxa) && a < |taxa| && k < |Lineage(taxa, a)|
    ensures Lineage(taxa, Lineage(taxa, a)[k]) == Lineage(taxa, a)[..k + 1]
    decreases a
  {
    var l := Lineage(taxa, a);
    if k < |l| - 1 {
      var p := taxa[a].parent.value;
      assert l == Lineage(taxa, p) + [a];
      LineagePrefix(taxa, p, k);
      assert l[..k + 1] == Lineage(taxa, p)[..k + 1];
    }
  }

  /** An ancestor at position k of a lineage has a lineage of k + 1 taxa. */
  lemma AncestorDepth(taxa: seq<Taxon>, a: nat, k: nat)
    requires Rooted(taxa) && a < |taxa| && k < |Lineage(taxa, a)|
    ensures |Lineage(taxa, Lineage(taxa, a)[k])| == k + 1
  {
    LineagePrefix(taxa, a, k);
  }

  /** `name in [t.name for t in l]`. */
  predicate NameIn(taxa: seq<Taxon>, name: string, l: seq<nat>)
  {
    exists k :: 0 <= k < |l| && l[k] < |taxa| && taxa[l[k]].name == name
  }

  /** The recursion of `tax_dist` once `b`'s name is known to occur in a's
      lineage: one step up per taxon until a taxon of b's name. */
  function DistUp(taxa: seq<Taxon>, a: nat, b: nat): nat
    requires Rooted(taxa) && a < |taxa| && b < |taxa|
    requires NameIn(taxa, taxa[b].name, Lineage(taxa, a))
    decreases a
  {
    if taxa[a].name == taxa[b].name then 0
    else
      var p := taxa[a].parent.value;
      assert Lineage(taxa, a) == Lineage(taxa, p) + [a];
      DistUp(taxa, p, b) + 1
  }

  /** `Taxon.tax_dist(self=a, taxon=b)`.  When neither name occurs in the
      other's lineage and the two are not both parentless, the method calls
      itself with its arguments swapped forever (a `RecursionError` in
      Python): here `None`. */
  function TaxDist(taxa: seq<Taxon>, a: nat, b: nat): Option<nat>
    requires Rooted(taxa) && a < |taxa| && b < |taxa|
  {
    if taxa[a].name == taxa[b].name then Some(0)
    else if taxa[a].parent.None? && taxa[b].parent.None? then Some(1)
    else if !NameIn(taxa, taxa[b].name, Lineage(taxa, a)) then
      if NameIn(taxa, taxa[a].name, Lineage(taxa, b)) then Some(DistUp(taxa, b, a)) else None
    else Some(DistUp(taxa, a, b))
  }

  /** No two taxa of the lineage share a name. */
  predicate DistinctNames(taxa: seq<Taxon>, l: seq<nat>)
  {
    forall j, k :: 0 <= j < k < |l| && l[j] < |taxa| && l[k] < |taxa| ==> taxa[l[j]].name != taxa[l[k]].name
  }

  lemma {:induction false} DistUpDepth(taxa: seq<Taxon>, a: nat, k: nat)
    requires Rooted(taxa) && a < |taxa| && k < |Lineage(taxa, a)|
    requires DistinctNames(taxa, Lineage(taxa, a))
    ensures NameIn(taxa, taxa[Lineage(taxa, a)[k]].name, Lineage(taxa, a))
    ensures DistUp(taxa, a, Lineage(taxa, a)[k]) == |Lineage(taxa, a)| - 1 - k
    decreases a
  {
    var l := Lineage(taxa, a);
    var b := l[k];
    assert l[k] < |taxa|;
    if k < |l| - 1 {
      var p := taxa[a].parent.value;
      assert l == Lineage(taxa, p) + [a];
      assert taxa[a].name != taxa[b].name by {
        assert l[|l| - 1] == a;
      }
      assert Lineage(taxa, p)[k] == b;
      assert DistinctNames(taxa, Lineage(taxa, p)) by {
        forall j, i | 0 <= j < i < |Lineage(taxa, p)|
          ensures taxa[Lineage(taxa, p)[j]].name != taxa[Lineage(taxa, p)[i]].name
        {
          assert Lineage(taxa, p)[j] == l[j] && Lineage(taxa, p)[i] == l[i];
        }
      }
      DistUpDepth(taxa, p, k);
    }
  }

  /** Along a lineage whose names are distinct, `tax_dist` from a taxon to
      one of its ancestors is the number of ranks between them. */
  lemma TaxDistToAncestor(taxa: seq<Taxon>, a: nat, k: nat)
    requires Rooted(taxa) && a < |taxa| && k < |Lineage(taxa, a)|
    requires DistinctNames(taxa, Lineage(taxa, a))
    ensures TaxDist(taxa, a, Lineage(taxa, a)[k]) == Some(|Lineage(taxa, a)| - |Lineage(taxa, Lineage(taxa, a)[k])|)
  {
    var l := Lineage(taxa, a);
    DistUpDepth(taxa, a, k);
    AncestorDepth(taxa, a, k);
    if taxa[a].name == taxa[l[k]].name {
      assert l[|l| - 1] == a;
      assert k == |l| - 1;
    }
  }

  /** `tax_dist` from a taxon to any taxon of its lineage terminates. */
  lemma TaxDistDefined(taxa: seq<Taxon>, a: nat, k: nat)
    requires Rooted(taxa) && a < |taxa| && k < |Lineage(taxa, a)|
    ensures TaxDist(taxa, a, Lineage(taxa, a)[k]).Some?
  {
    var l := Lineage(taxa, a);
    assert l[k] < |taxa|;
    assert NameIn(taxa, taxa[l[k]].name, l);
  }

  // ---------------------------------------------------------------------
  // Taxon.lca

  /** The deepest position below m at which the two lineages agree. */
  function DeepestMatch(l1: seq<nat>, l2: seq<nat>, m: nat): (r: Option<nat>)
    requires m <= |l1| && m <= |l2|
    ensures r.Some? ==> r.value < m && l1[r.value] == l2[r.value]
    ensures r.Some? ==> forall k :: r.value < k < m ==> l1[k] != l2[k]
    ensures r.None? ==> forall k :: 0 <= k < m ==> l1[k] != l2[k]
  {
    if m == 0 then None
    else if l1[m - 1] == l2[m - 1] then Some(m - 1)
    else DeepestMatch(l1, l2, m - 1)
  }

  function Min(a: nat, b: nat): nat
  {
    if a <= b then a else b
  }

  /** The deepest common entry of two lineages cut to the same length. */
  function CommonOf(l1: seq<nat>, l2: seq<nat>): Option<nat>
  {
    match DeepestMatch(l1, l2, Min(|l1|, |l2|))
    case None => None
    case Some(k) => Some(l1[k])
  }

  /** `Taxon.lca(a, b)` as a value: the deepest common taxon of the two
      lineages cut to the same length, if any. */
  function LcaOf(taxa: seq<Taxon>, a: nat, b: nat): Option<nat>
    requires Rooted(taxa) && a < |taxa| && b < |taxa|
  {
    CommonOf(Lineage(taxa, a), Lineage(taxa, b))
  }

  /** `Taxon.lca`. */
  method Lca(taxa: seq<Taxon>, a: nat, b: nat) returns (r: Option<nat>)
    requires Rooted(taxa) && a < |taxa| && b < |taxa|
    ensures r == LcaOf(taxa, a, b)
  {
    var l1 := Lineage(taxa, a);
    var l2 := Lineage(taxa, b);
    r := PopToCommon(l1, l2);
  }

  /** The loops of `Taxon.lca` on the two lineages: the longer is popped to
      the length of the shorter, then both are popped together until the
      popped entries are the same. */
  method PopToCommon(l1: seq<nat>, l2: seq<nat>) returns (r: Option<nat>)
    ensures r == CommonOf(l1, l2)
  {
    ghost var L1, L2 := l1, l2;
    ghost var m := Min(|L1|, |L2|);
    var l1, l2 := l1, l2;
    while |l1| > |l2|
      invariant m <= |l1| <= |L1| && l1 == L1[..|l1|] && l2 == L2
    {
      l1 := l1[..|l1| - 1];
    }
    while |l2| > |l1|
      invariant m <= |l2| <= |L2| && l2 == L2[..|l2|] && l1 == L1[..m]
    {
      l2 := l2[..|l2| - 1];
    }
    while |l1| > 0 && |l2| > 0
      invariant |l1| == |l2| <= m
      invariant l1 == L1[..|l1|] && l2 == L2[..|l2|]
      invariant DeepestMatch(L1, L2, m) == DeepestMatch(L1, L2, |l1|)
    {
      var t1 := l1[|l1| - 1];
      var t2 := l2[|l2| - 1];
      l1, l2 := l1[..|l1| - 1], l2[..|l2| - 1];
      if t1 == t2 {
        return Some(t1);
      }
    }
    return None;
  }

  /** A taxon common to two lineages sits at the same depth in both. */
  lemma SameDepth(taxa: seq<Taxon>, a: nat, b: nat, i: nat, j: nat)
    requires Rooted(taxa) && a < |taxa| && b < |taxa|
    requires i < |Lineage(taxa, a)| && j < |Lineage(taxa, b)| && Lineage(taxa, a)[i] == Lineage(taxa, b)[j]
    ensures i == j
  {
    AncestorDepth(taxa, a, i);
    AncestorDepth(taxa, b, j);
  }

  /** The taxon `lca` returns is a common ancestor of both, at least as deep
      as every other common ancestor; `None` only when they have none. */
  lemma LcaDeepest(taxa: seq<Taxon>, a: nat, b: nat)
    requires Rooted(taxa) && a < |taxa| && b < |taxa|
    ensures LcaOf(taxa, a, b).Some? ==> LcaOf(taxa, a, b).value in Lineage(taxa, a) && LcaOf(taxa, a, b).value in Lineage(taxa, b)
    ensures LcaOf(taxa, a, b).Some? ==>
              forall c :: c in Lineage(taxa, a) && c in Lineage(taxa, b) ==>
                c < |taxa| && |Lineage(taxa, c)| <= |Lineage(taxa, LcaOf(taxa, a, b).value)|
    ensures LcaOf(taxa, a, b).None? <==> forall c :: c in Lineage(taxa, a) ==> c !in Lineage(taxa, b)
  {
    var l1, l2 := Lineage(taxa, a), Lineage(taxa, b);
    var m := Min(|l1|, |l2|);
    forall c | c in l1 && c in l2
      ensures exists k :: 0 <= k < m && l1[k] == c && l2[k] == c
    {
      var i :| 0 <= i < |l1| && l1[i] == c;
      var j :| 0 <= j < |l2| && l2[j] == c;
      SameDepth(taxa, a, b, i, j);
    }
    match DeepestMatch(l1, l2, m)
    case None =>
    case Some(k) =>
      assert l1[k] in l2 by {
        assert l2[k] == l1[k];
      }
      forall c | c in l1 && c in l2
        ensures c < |taxa| && |Lineage(taxa, c)| <= |Lineage(taxa, l1[k])|
      {
        var i :| 0 <= i < m && l1[i] == c && l2[i] == c;
        AncestorDepth(taxa, a, i);
        AncestorDepth(taxa, a, k);
      }
  }

  // ---------------------------------------------------------------------
  // Taxon.lineage_slice

  /** The entries after the first x; empty when x does not occur. */
  function SliceAfter(l: seq<nat>, x: nat): (r: seq<nat>)
    ensures forall y :: y in r ==> y in l
  {
    if |l| == 0 then []
    else if l[0] == x then l[1..]
    else SliceAfter(l[1..], x)
  }

  /** `Taxon.lineage_slice(start, stop)`: the lineage of start is popped from
      the front up to and including stop. */
  method LineageSlice(taxa: seq<Taxon>, start: nat, stop: nat) returns (r: seq<nat>)
    requires Rooted(taxa) && start < |taxa|
    ensures r == SliceAfter(Lineage(taxa, start), stop)
  {
    var lineage := Lineage(taxa, start);
    ghost var L := lineage;
    while |lineage| > 0
      invariant SliceAfter(lineage, stop) == SliceAfter(L, stop)
    {
      var taxon := lineage[0];
      lineage := lineage[1..];
      if taxon == stop {
        return lineage;
      }
    }
    return lineage;
  }

  /** The slice is the part of the lineage after stop, start included and
      stop excluded; it is empty when stop is not in the lineage. */
  lemma {:induction false} SliceAfterSpec(l: seq<nat>, x: nat)
    requires forall j, k :: 0 <= j < k < |l| ==> l[j] < l[k]
    ensures x !in l ==> SliceAfter(l, x) == []
    ensures forall k :: 0 <= k < |l| && l[k] == x ==> SliceAfter(l, x) == l[k + 1..]
  {
    if |l| > 0 && l[0] != x {
      SliceAfterSpec(l[1..], x);
      forall k | 0 <= k < |l| && l[k] == x
        ensures SliceAfter(l, x) == l[k + 1..]
      {
        assert l[1..][k - 1] == x;
        assert l[1..][k..] == l[k + 1..];
      }
    }
  }

  /** Cutting a lineage at an ancestor stop keeps start and drops stop. */
  lemma LineageSliceBounds(taxa: seq<Taxon>, start: nat, k: nat)
    requires Rooted(taxa) && start < |taxa| && k < |Lineage(taxa, start)|
    ensures var l := Lineage(taxa, start);
            SliceAfter(l, l[k]) == l[k + 1..] && l[k] !in SliceAfter(l, l[k])
            && (l[k] != start <==> start in SliceAfter(l, l[k]))
  {
    var l := Lineage(taxa, start);
    SliceAfterSpec(l, l[k]);
    assert l[|l| - 1] == start;
    if l[k] != start {
      assert l[k + 1..][|l| - k - 2] == start;
    }
  }

  /** Python's `str.split` of a lineage keeps the first d taxa when the
      lineage is cut after its d-th taxon. */
  lemma {:induction false} SplitPrefix(s: string, sep: string, d: nat)
    requires |sep| > 0 && 1 <= d <= |Split(s, sep)|
    ensures Split(Join(Split(s, sep)[..d], sep), sep) == Split(s, sep)[..d]
    decreases |s|
  {
    var r := FindFrom(s, sep, 0);
    if r.Some? {
      var i := r.value;
      SplitFirst(s, sep, i);
      if d == 1 {
        SplitPrefixOne(s, sep, i);
      } else {
        SplitPrefix(s[i + |sep|..], sep, d - 1);
        SplitPrefixStep(s, sep, i, d);
      }
    }
  }

  lemma SplitPrefixOne(s: string, sep: string, i: nat)
    requires |sep| > 0 && FindFrom(s, sep, 0) == Some(i)
    ensures Split(Join(Split(s, sep)[..1], sep), sep) == Split(s, sep)[..1]
  {
    SplitFirst(s, sep, i);
    assert Split(s, sep)[..1] == [s[..i]];
    NoOccurrenceBefore(s, s[..i], sep, i);
  }

  lemma SplitPrefixStep(s: string, sep: string, i: nat, d: nat)
    requires |sep| > 0 && FindFrom(s, sep, 0) == Some(i) && 2 <= d <= |Split(s, sep)|
    requires i + |sep| <= |s| && 1 <= d - 1 <= |Split(s[i + |sep|..], sep)|
    requires var rest := Split(s[i + |sep|..], sep);
             Split(Join(rest[..d - 1], sep), sep) == rest[..d - 1]
    ensures Split(Join(Split(s, sep)[..d], sep), sep) == Split(s, sep)[..d]
  {
    SplitFirst(s, sep, i);
    var rest := Split(s[i + |sep|..], sep);
    var x := Join(rest[..d - 1], sep);
    assert Split(s, sep)[..d] == [s[..i]] + rest[..d - 1];
    JoinCons(s[..i], rest[..d - 1], sep);
    var t := s[..i] + sep + x;
    assert s[..i + |sep|] == t[..i + |sep|] by {
      assert t[..i + |sep|] == s[..i] + sep;
      assert s[..i + |sep|] == s[..i] + s[i..i + |sep|];
    }
    SameFirst(s, t, sep, i);
    FirstAt(t, sep, i);
    SplitFirst(t, sep, i);
    assert t[..i] == s[..i];
    assert t[i + |sep|..] == x;
  }

  /** A string that agrees with s before s's first occurrence of sep (and
      is no longer) has no occurrence of sep. */
  lemma NoOccurrenceBefore(s: string, t: string, sep: string, i: nat)
    requires |sep| > 0 && FindFrom(s, sep, 0) == Some(i) && t == s[..i]
    ensures Split(t, sep) == [t]
  {
    forall j | 0 <= j
      ensures !OccursAt(t, sep, j)
    {
      if j + |sep| <= i {
        OccursAgree(s, t, sep, i, j);
      }
    }
    assert FindFrom(t, sep, 0).None?;
  }

  /** A string that agrees with s up to the end of s's first occurrence of
      sep has its first occurrence at the same place. */
  lemma SameFirst(s: string, t: string, sep: string, i: nat)
    requires OccursAt(s, sep, i) && forall j :: 0 <= j < i ==> !OccursAt(s, sep, j)
    requires i + |sep| <= |t| && s[..i + |sep|] == t[..i + |sep|]
    ensures OccursAt(t, sep, i) && forall j :: 0 <= j < i ==> !OccursAt(t, sep, j)
  {
    OccursAgree(s, t, sep, i + |sep|, i);
    forall j | 0 <= j < i
      ensures !OccursAt(t, sep, j)
    {
      OccursAgree(s, t, sep, i + |sep|, j);
    }
  }

  // ---------------------------------------------------------------------
  // Coverage-counted removal

  /** Every value of the hierarchy dictionary names a taxon of the arena. */
  predicate Refs(taxa: seq<Taxon>, hier: map<string, nat>)
  {
    forall k :: k in hier ==> hier[k] < |taxa|
  }

  /** taxa' differs from taxa at most in coverages. */
  predicate SameButCoverage(taxa: seq<Taxon>, taxa': seq<Taxon>)
  {
    |taxa'| == |taxa| && forall i :: 0 <= i < |taxa| ==> taxa'[i] == taxa[i].(coverage := taxa'[i].coverage)
  }

  /** hier' keeps some of the entries of hier, unchanged. */
  predicate SubMap(hier': map<string, nat>, hier: map<string, nat>)
  {
    hier'.Keys <= hier.Keys && forall k :: k in hier' ==> hier'[k] == hier[k]
  }

  /** Coverage changes keep every parent, so the arena stays rooted and
      every lineage stays the same. */
  lemma SameRooted(taxa: seq<Taxon>, taxa': seq<Taxon>)
    requires Rooted(taxa) && SameButCoverage(taxa, taxa')
    ensures Rooted(taxa')
  {
    forall i | 0 <= i < |taxa'| && taxa'[i].parent.Some?
      ensures taxa'[i].parent.value < i
    {
      assert taxa'[i].parent == taxa[i].parent;
    }
  }

  lemma {:induction false} SameLineage(taxa: seq<Taxon>, taxa': seq<Taxon>, t: nat)
    requires Rooted(taxa) && SameButCoverage(taxa, taxa') && t < |taxa|
    ensures Rooted(taxa') && Lineage(taxa', t) == Lineage(taxa, t)
    decreases t
  {
    SameRooted(taxa, taxa');
    assert taxa'[t].parent == taxa[t].parent;
    if taxa[t].parent.Some? {
      SameLineage(taxa, taxa', taxa[t].parent.value);
    }
  }

  /** `rm_taxon_from_hierarchy(t, decrement)` on the arena and the
      dictionary: t's coverage drops by `decrement`, and only when it is
      then at most 0 is the key `prefix_taxon()` of t deleted. */
  function RmTaxon(taxa: seq<Taxon>, hier: map<string, nat>, t: nat, decrement: int): (st: (seq<Taxon>, map<string, nat>))
    requires t < |taxa|
    ensures SameButCoverage(taxa, st.0) && SubMap(st.1, hier)
    ensures st.0[t].coverage == taxa[t].coverage - decrement
    ensures forall i :: 0 <= i < |taxa| && i != t ==> st.0[i] == taxa[i]
    ensures st.0[t].coverage <= 0 ==> st.1.Keys == hier.Keys - {PrefixTaxon(taxa[t])}
    ensures st.0[t].coverage > 0 ==> st.1 == hier
  {
    var cov := taxa[t].coverage - decrement;
    (taxa[t := taxa[t].(coverage := cov)], if cov <= 0 then hier - {PrefixTaxon(taxa[t])} else hier)
  }

  /** `rm_taxon_from_hierarchy` applied to each taxon of a lineage in turn:
      each taxon's coverage drops by the number of times it occurs. */
  function RmLineage(taxa: seq<Taxon>, hier: map<string, nat>, lin: seq<nat>): (st: (seq<Taxon>, map<string, nat>))
    requires forall k :: 0 <= k < |lin| ==> lin[k] < |taxa|
    ensures SameButCoverage(taxa, st.0) && SubMap(st.1, hier)
    ensures forall i :: 0 <= i < |taxa| ==> st.0[i].coverage == taxa[i].coverage - multiset(lin)[i]
    decreases |lin|
  {
    if |lin| == 0 then (taxa, hier)
    else
      var n := |lin| - 1;
      assert lin == lin[..n] + [lin[n]];
      var st := RmLineage(taxa, hier, lin[..n]);
      RmTaxon(st.0, st.1, lin[n], 1)
  }

  /** The effect of `remove_leaf_nodes` on a list of names already sorted:
      the new arena, dictionary and `lineages_fed`, and the leaves found. */
  datatype Removal = Removal(taxa: seq<Taxon>, hierarchy: map<string, nat>, fed: int, found: seq<nat>)

  /** One name of `remove_leaf_nodes`: when it is a key, every taxon of the
      leaf's lineage loses one coverage and `lineages_fed` drops by one. */
  function RemoveStep(rm: Removal, name: string): (rm': Removal)
    requires Rooted(rm.taxa) && Refs(rm.taxa, rm.hierarchy)
    ensures SameButCoverage(rm.taxa, rm'.taxa) && SubMap(rm'.hierarchy, rm.hierarchy)
    ensures Rooted(rm'.taxa) && Refs(rm'.taxa, rm'.hierarchy)
  {
    if name in rm.hierarchy then
      var leaf := rm.hierarchy[name];
      var st := RmLineage(rm.taxa, rm.hierarchy, Lineage(rm.taxa, leaf));
      SameRooted(rm.taxa, st.0);
      Removal(st.0, st.1, rm.fed - 1, rm.found + [leaf])
    else rm
  }

  function RemoveLeaves(taxa: seq<Taxon>, hier: map<string, nat>, fed: int, names: seq<string>): (rm: Removal)
    requires Rooted(taxa) && Refs(taxa, hier)
    ensures SameButCoverage(taxa, rm.taxa) && SubMap(rm.hierarchy, hier)
    ensures Rooted(rm.taxa) && Refs(rm.taxa, rm.hierarchy)
    ensures forall k :: 0 <= k < |rm.found| ==> rm.found[k] < |taxa|
    decreases |names|
  {
    if |names| == 0 then Removal(taxa, hier, fed, [])
    else RemoveStep(RemoveLeaves(taxa, hier, fed, names[..|names| - 1]), names[|names| - 1])
  }

  /** How many of the found leaves have x in their lineage. */
  function Hits(taxa: seq<Taxon>, found: seq<nat>, x: nat): nat
    requires Rooted(taxa) && forall k :: 0 <= k < |found| ==> found[k] < |taxa|
    decreases |found|
  {
    if |found| == 0 then 0
    else Hits(taxa, found[..|found| - 1], x) + multiset(Lineage(taxa, found[|found| - 1]))[x]
  }

  /** `remove_leaf_nodes` decrements the coverage of every taxon once for
      each found leaf whose lineage holds it, and `lineages_fed` once per
      found leaf; a name that is not (or no longer) a key is skipped. */
  lemma {:induction false} RemoveLeavesAccounting(taxa: seq<Taxon>, hier: map<string, nat>, fed: int, names: seq<string>)
    requires Rooted(taxa) && Refs(taxa, hier)
    ensures var rm := RemoveLeaves(taxa, hier, fed, names);
            rm.fed == fed - |rm.found| && |rm.found| <= |names|
            && forall x :: 0 <= x < |taxa| ==> rm.taxa[x].coverage == taxa[x].coverage - Hits(taxa, rm.found, x)
    decreases |names|
  {
    if |names| > 0 {
      var prev := names[..|names| - 1];
      RemoveLeavesAccounting(taxa, hier, fed, prev);
      var rm := RemoveLeaves(taxa, hier, fed, prev);
      var name := names[|names| - 1];
      if name in rm.hierarchy {
        var leaf := rm.hierarchy[name];
        SameLineage(taxa, rm.taxa, leaf);
        var found := rm.found + [leaf];
        assert found[..|found| - 1] == rm.found;
      }
    }
  }

  /** Names none of which is a key change nothing. */
  lemma {:induction false} RemoveLeavesAbsent(taxa: seq<Taxon>, hier: map<string, nat>, fed: int, names: seq<string>)
    requires Rooted(taxa) && Refs(taxa, hier)
    requires forall k :: 0 <= k < |names| ==> names[k] !in hier
    ensures RemoveLeaves(taxa, hier, fed, names) == Removal(taxa, hier, fed, [])
    decreases |names|
  {
    if |names| > 0 {
      RemoveLeavesAbsent(taxa, hier, fed, names[..|names| - 1]);
    }
  }

  // ---------------------------------------------------------------------
  // hierarchy_key_chain, evaluate_hierarchy_clash, digest_taxon

  /** The i-th alias `prefix__name_i` of a taxon. */
  function Alias(child: Taxon, i: nat): string
  {
    child.prefix + TaxonSep + child.name + "_" + NatToString(i)
  }

  lemma AliasInjective(child: Taxon, i: nat, j: nat)
    requires Alias(child, i) == Alias(child, j)
    ensures i == j
  {
    var a := child.prefix + TaxonSep + child.name + "_";
    assert Alias(child, i)[|a|..] == NatToString(i);
    assert Alias(child, j)[|a|..] == NatToString(j);
    NatToStringInjective(i, j);
  }

  /** The taxon `hierarchy_key_chain` creates for the alias i: its name is
      what follows the last "__" of the alias. */
  function Twin(child: Taxon, i: nat, parent: nat): Taxon
  {
    var parts := Split(Alias(child, i), TaxonSep);
    Taxon(parts[|parts| - 1], child.rank, Some(parent), child.prefix, "", 1)
  }

  /** The outcome of `hierarchy_key_chain(child, parent)`: the aliases
      1..i-1 are keys whose taxa have another parent, and alias i is either
      a key whose taxon has this parent (returned, nothing changes) or no
      key, in which case a twin with this parent is created and stored. */
  ghost predicate KeyChained(taxa: seq<Taxon>, hier: map<string, nat>, child: nat, parent: nat, i: nat,
                             r: nat, taxa': seq<Taxon>, hier': map<string, nat>)
    requires child < |taxa| && Refs(taxa, hier)
  {
    var c := taxa[child];
    1 <= i
    && (forall j :: 1 <= j < i ==> Alias(c, j) in hier && taxa[hier[Alias(c, j)]].parent != Some(parent))
    && if Alias(c, i) in hier then
         taxa[hier[Alias(c, i)]].parent == Some(parent) && r == hier[Alias(c, i)] && taxa' == taxa && hier' == hier
       else
         var twin := Twin(c, i, parent);
         r == |taxa| && taxa' == taxa + [twin] && hier' == hier[PrefixTaxon(twin) := r]
  }

  /** Coverage of t raised by one (`child.coverage += 1`). */
  function Bump(taxa: seq<Taxon>, t: nat): (taxa': seq<Taxon>)
    requires t < |taxa|
    ensures SameButCoverage(taxa, taxa') && taxa'[t].coverage == taxa[t].coverage + 1
  {
    taxa[t := taxa[t].(coverage := taxa[t].coverage + 1)]
  }

  /** The rank names of the taxa of a slice of a lineage. */
  function Ranks(taxa: seq<Taxon>, sl: seq<nat>): set<string>
    requires forall t :: t in sl ==> t < |taxa|
  {
    set t | t in sl :: taxa[t].rank
  }

  /** The four ways `evaluate_hierarchy_clash(child, p1, p2)` ends. */
  datatype Clash =
    | Same      // no new parent, or the same one: coverage + 1
    | Crash     // p2 is None while p1 is not: `lca` calls a method of None
    | Chain     // a renamed twin through `hierarchy_key_chain(child, p1)`
    | Conflict  // coverage + 1 and (p1, p2) recorded as a conflict

  ghost function ClashOf(taxa: seq<Taxon>, p1: Option<nat>, p2: Option<nat>): (c: Clash)
    requires Rooted(taxa) && RefOk(taxa, p1) && RefOk(taxa, p2)
    ensures c == Chain || c == Conflict ==> p1.Some? && p2.Some?
  {
    if p1.None? || p1 == p2 then Same
    else if p2.None? then Crash
    else
      var a, b := p1.value, p2.value;
      match LcaOf(taxa, a, b)
      case None => Chain
      case Some(lca) =>
        LcaDeepest(taxa, a, b);
        ClashAt(taxa, a, b, lca)
  }

  /** The clash of two parents whose lowest common ancestor is lca. */
  ghost function ClashAt(taxa: seq<Taxon>, a: nat, b: nat, lca: nat): Clash
    requires Rooted(taxa) && a < |taxa| && b < |taxa| && lca in Lineage(taxa, a) && lca in Lineage(taxa, b)
  {
    var s1, s2 := SliceAfter(Lineage(taxa, a), lca), SliceAfter(Lineage(taxa, b), lca);
    TaxDistToMember(taxa, a, lca);
    TaxDistToMember(taxa, b, lca);
    ClashBy(Ranks(taxa, s1), Ranks(taxa, s2), TaxDist(taxa, a, lca).value, TaxDist(taxa, b, lca).value)
  }

  /** The last three branches of `evaluate_hierarchy_clash`: the ranks
      strictly between each parent and the common ancestor, and their
      distances to it. */
  function ClashBy(r1: set<string>, r2: set<string>, d1: nat, d2: nat): Clash
  {
    if (r1 != {} && r1 <= {NoRankName}) || (r2 != {} && r2 <= {NoRankName}) then Conflict
    else if d1 > 1 || d2 > 1 then Chain
    else Conflict
  }

  lemma TaxDistToMember(taxa: seq<Taxon>, a: nat, c: nat)
    requires Rooted(taxa) && a < |taxa| && c in Lineage(taxa, a)
    ensures c < |taxa| && TaxDist(taxa, a, c).Some?
  {
    var k :| 0 <= k < |Lineage(taxa, a)| && Lineage(taxa, a)[k] == c;
    TaxDistDefined(taxa, a, k);
  }

  /** The state after `evaluate_hierarchy_clash(child, p1, p2)` returns r
      (`ok` is false when it raises). */
  ghost predicate ClashDone(taxa: seq<Taxon>, hier: map<string, nat>, conflicts: set<(nat, nat)>,
                            child: nat, p1: Option<nat>, p2: Option<nat>, r: nat, ok: bool,
                            taxa': seq<Taxon>, hier': map<string, nat>, conflicts': set<(nat, nat)>)
    requires Rooted(taxa) && Refs(taxa, hier) && child < |taxa| && RefOk(taxa, p1) && RefOk(taxa, p2)
  {
    Outcome(ClashOf(taxa, p1, p2), taxa, hier, conflicts, child, p1, p2, r, ok, taxa', hier', conflicts')
  }

  /** What each way of ending does to the state. */
  ghost predicate Outcome(c: Clash, taxa: seq<Taxon>, hier: map<string, nat>, conflicts: set<(nat, nat)>,
                          child: nat, p1: Option<nat>, p2: Option<nat>, r: nat, ok: bool,
                          taxa': seq<Taxon>, hier': map<string, nat>, conflicts': set<(nat, nat)>)
    requires Refs(taxa, hier) && child < |taxa|
    requires c == Chain || c == Conflict ==> p1.Some? && p2.Some?
  {
    match c
    case Crash => !ok && taxa' == taxa && hier' == hier && conflicts' == conflicts
    case Same => ok && r == child && taxa' == Bump(taxa, child) && hier' == hier && conflicts' == conflicts
    case Conflict =>
      ok && r == child && taxa' == Bump(taxa, child) && hier' == hier && conflicts' == conflicts + {(p1.value, p2.value)}
    case Chain =>
      ok && conflicts' == conflicts && exists i :: KeyChained(taxa, hier, child, p1.value, i, r, taxa', hier')
  }

  /** The name `digest_taxon` files a taxon under: when the taxon starts with
      `prefix__`, every leading character that occurs in `prefix__` is
      stripped (`str.lstrip` takes a set of characters). */
  function DigestedName(taxon: string, rankPrefix: string): string
  {
    if StartsWith(taxon, rankPrefix + TaxonSep) then LStrip(taxon, Chars(rankPrefix + TaxonSep)) else taxon
  }

  /** The stripped name is a suffix of the taxon past the whole prefix; the
      characters dropped all occur in `prefix__`. */
  lemma DigestedNameSuffix(taxon: string, rankPrefix: string)
    requires StartsWith(taxon, rankPrefix + TaxonSep)
    ensures var n := DigestedName(taxon, rankPrefix);
            |n| <= |taxon| - |rankPrefix| - 2 && n == taxon[|taxon| - |n|..]
  {
    var p := rankPrefix + TaxonSep;
    StripsAtLeast(taxon, Chars(p), |p|);
  }

  lemma {:induction false} StripsAtLeast(s: string, chars: set<char>, n: nat)
    requires n <= |s| && forall i :: 0 <= i < n ==> s[i] in chars
    ensures |LStrip(s, chars)| <= |s| - n
    decreases n
  {
    if n > 0 {
      StripsAtLeast(s[1..], chars, n - 1);
    }
  }

  /** A name whose first character occurs in `prefix__` (as in
      "c__candidatus" with prefix "c") loses it as well. */
  lemma DigestStripsCharacterSet(rankPrefix: string, name: string)
    requires |name| > 0 && name[0] in Chars(rankPrefix + TaxonSep)
    ensures DigestedName(rankPrefix + TaxonSep + name, rankPrefix) != name
  {
    var p := rankPrefix + TaxonSep;
    var taxon := p + name;
    assert taxon[..|p|] == p;
    DigestedNameSuffix(taxon, rankPrefix);
  }

  // ---------------------------------------------------------------------
  // rank_prefix_map: whet and validate_rank_prefixes

  /** A value of `rank_prefix_map`: a set of rank names (the state `whet`
      leaves) or a single name (the state `validate_rank_prefixes` leaves). */
  datatype RankNames = Names(names: set<string>) | Name(name: string)

  /** Two rank names for one prefix: `validate_rank_prefixes` exits. */
  predicate PrefixConflict(m: map<char, RankNames>)
  {
    exists p :: p in m && m[p].Names? && |m[p].names| > 1
  }

  lemma SingletonUnique(s: set<string>, x: string, y: string)
    requires |s| == 1 && x in s && y in s
    ensures x == y
  {
    var rest := s - {x};
    assert |rest| == 0;
  }

  /** `s.pop()` of a one-element set. */
  function TheName(s: set<string>): (x: string)
    requires |s| == 1
    ensures s == {x}
  {
    var x :| x in s;
    forall y | y in s ensures y == x {
      SingletonUnique(s, x, y);
    }
    x
  }

  /** A one-element set becomes its element; everything else stays. */
  function Settle(v: RankNames): RankNames
  {
    if v.Names? && |v.names| == 1 then Name(TheName(v.names)) else v
  }

  /** A single name becomes a one-element set (`{v}`). */
  function Whetted(v: RankNames): RankNames
  {
    if v.Name? then Names({v.name}) else v
  }

  function SettledMap(m: map<char, RankNames>): map<char, RankNames>
  {
    map p | p in m :: Settle(m[p])
  }

  function WhettedMap(m: map<char, RankNames>): map<char, RankNames>
  {
    map p | p in m :: Whetted(m[p])
  }

  /** `validate_rank_prefixes` undoes `whet` on a validated map. */
  lemma SettleAfterWhet(m: map<char, RankNames>)
    requires forall p :: p in m ==> m[p].Name?
    ensures SettledMap(WhettedMap(m)) == m
  {
    forall p | p in m
      ensures Settle(Whetted(m[p])) == m[p]
    {
      var v := m[p].name;
      assert |{v}| == 1;
      assert TheName({v}) == v;
    }
  }

  /** `whet` undoes `validate_rank_prefixes` on a map of one-name sets. */
  lemma WhetAfterSettle(m: map<char, RankNames>)
    requires forall p :: p in m ==> m[p].Names? && |m[p].names| == 1
    ensures WhettedMap(SettledMap(m)) == m
  {
    forall p | p in m
      ensures Whetted(Settle(m[p])) == m[p]
    {
    }
  }

  /** Without a conflict, validation leaves every prefix a single name or
      (for an empty set) the empty set. */
  lemma SettledShape(m: map<char, RankNames>)
    requires !PrefixConflict(m)
    ensures forall p :: p in SettledMap(m) ==> SettledMap(m)[p].Name? || SettledMap(m)[p].names == {}
  {
    forall p | p in m
      ensures Settle(m[p]).Name? || Settle(m[p]).names == {}
    {
      if m[p].Names? && |m[p].names| == 0 {
        assert m[p].names == {};
      }
    }
  }

  // ---------------------------------------------------------------------
  // trim_lineages_to_rank

  /** `accepted_ranks_depths`. */
  const AcceptedRanksDepths: map<string, nat> :=
    map["root" := 0, "domain" := 1, "phylum" := 2, "class" := 3, "order" := 4,
        "family" := 5, "genus" := 6, "species" := 7]

  /** What `trim_lineages_to_rank` does with one lineage. */
  datatype Trim = Skip | Keep(lineage: string) | Fail(error: string)

  function TrimOne(lineage: string, depth: nat, rpm: map<char, RankNames>, rank: string): Trim
  {
    var taxa := Split(lineage, LinSep);
    if |taxa| == 1 || |taxa| < depth then Skip
    else if depth == 0 then Fail("IndexError")
    else
      var taxon := taxa[depth - 1];
      if |taxon| == 0 then Fail("IndexError")
      else if taxon[0] !in rpm || rpm[taxon[0]] != Name(rank) then Fail("RuntimeError(17)")
      else Keep(Join(taxa[..depth], LinSep))
  }

  /** The loop of `trim_lineages_to_rank` over (node, lineage) pairs: the
      first failing lineage stops it. */
  function TrimAll(nodes: seq<(string, string)>, depth: nat, rpm: map<char, RankNames>, rank: string): Result<map<string, string>>
    decreases |nodes|
  {
    if |nodes| == 0 then Ok(map[])
    else
      var n := |nodes| - 1;
      match TrimAll(nodes[..n], depth, rpm, rank)
      case Ok(m) =>
        (match TrimOne(nodes[n].1, depth, rpm, rank)
         case Skip => Ok(m)
         case Keep(l) => Ok(m[nodes[n].0 := l])
         case Fail(e) => Raise(e))
      case other => other
  }

  /** The trim succeeds exactly when no lineage fails. */
  lemma {:induction false} TrimAllFails(nodes: seq<(string, string)>, depth: nat, rpm: map<char, RankNames>, rank: string)
    ensures TrimAll(nodes, depth, rpm, rank).Ok? <==> forall k :: 0 <= k < |nodes| ==> !TrimOne(nodes[k].1, depth, rpm, rank).Fail?
    decreases |nodes|
  {
    if |nodes| > 0 {
      var n := |nodes| - 1;
      TrimAllFails(nodes[..n], depth, rpm, rank);
      assert forall k :: 0 <= k < n ==> nodes[..n][k] == nodes[k];
    }
  }

  /** The trimmed map holds exactly the nodes whose lineage is kept (it has
      at least `depth` taxa, and more than one), each with its kept lineage. */
  lemma {:induction false} TrimAllKept(nodes: seq<(string, string)>, depth: nat, rpm: map<char, RankNames>, rank: string)
    requires DistinctKeys(nodes) && TrimAll(nodes, depth, rpm, rank).Ok?
    ensures var m := TrimAll(nodes, depth, rpm, rank).value;
            (forall key :: key in m ==> exists k :: 0 <= k < |nodes| && nodes[k].0 == key)
            && forall k :: 0 <= k < |nodes| ==>
                 (nodes[k].0 in m <==> TrimOne(nodes[k].1, depth, rpm, rank).Keep?)
                 && (nodes[k].0 in m ==> m[nodes[k].0] == TrimOne(nodes[k].1, depth, rpm, rank).lineage)
    decreases |nodes|
  {
    if |nodes| > 0 {
      var n := |nodes| - 1;
      var prev := nodes[..n];
      assert DistinctKeys(prev);
      TrimAllKept(prev, depth, rpm, rank);
      var m0 := TrimAll(prev, depth, rpm, rank).value;
      var m := TrimAll(nodes, depth, rpm, rank).value;
      var last := TrimOne(nodes[n].1, depth, rpm, rank);
      assert m == if last.Keep? then m0[nodes[n].0 := last.lineage] else m0;
      forall k | 0 <= k < n
        ensures nodes[k].0 != nodes[n].0 && prev[k] == nodes[k]
      {
      }
      forall key | key in m
        ensures exists k :: 0 <= k < |nodes| && nodes[k].0 == key
      {
        if key != nodes[n].0 {
          var k :| 0 <= k < n && prev[k].0 == key;
          assert nodes[k].0 == key;
        }
      }
    }
  }

  /** A kept lineage is the first `depth` taxa of the original, and its last
      taxon carries the prefix of the rank. */
  lemma TrimOneKeeps(lineage: string, depth: nat, rpm: map<char, RankNames>, rank: string)
    requires TrimOne(lineage, depth, rpm, rank).Keep?
    ensures var taxa := Split(lineage, LinSep);
            var kept := TrimOne(lineage, depth, rpm, rank).lineage;
            1 <= depth <= |taxa| && |taxa| > 1
            && Split(kept, LinSep) == taxa[..depth]
            && |taxa[depth - 1]| > 0 && rpm[taxa[depth - 1][0]] == Name(rank)
  {
    SplitPrefix(lineage, LinSep, depth);
  }

  /** Once a lineage fails, the rest of the loop is never reached. */
  lemma {:induction false} TrimAllStuck(nodes: seq<(string, string)>, k: nat, depth: nat, rpm: map<char, RankNames>, rank: string)
    requires k <= |nodes| && !TrimAll(nodes[..k], depth, rpm, rank).Ok?
    ensures TrimAll(nodes, depth, rpm, rank) == TrimAll(nodes[..k], depth, rpm, rank)
    decreases |nodes|
  {
    if k == |nodes| {
      assert nodes[..k] == nodes;
    } else {
      var n := |nodes| - 1;
      assert nodes[..n][..k] == nodes[..k];
      TrimAllStuck(nodes[..n], k, depth, rpm, rank);
    }
  }

  /** The loop of `trim_lineages_to_rank` over its sorted items. */
  method TrimNodes(nodes: seq<(string, string)>, depth: nat, rpm: map<char, RankNames>, rank: string) returns (r: Result<map<string, string>>)
    ensures r == TrimAll(nodes, depth, rpm, rank)
  {
    var trimmed: map<string, string> := map[];
    for k := 0 to |nodes|
      invariant TrimAll(nodes[..k], depth, rpm, rank) == Ok(trimmed)
    {
      assert nodes[..k + 1][..k] == nodes[..k];
      var lineage := Split(nodes[k].1, LinSep);
      if |lineage| == 1 || |lineage| < depth {
        continue;
      }
      if depth == 0 {
        r := Raise("IndexError");
      } else if |lineage[depth - 1]| == 0 {
        r := Raise("IndexError");
      } else if lineage[depth - 1][0] !in rpm || rpm[lineage[depth - 1][0]] != Name(rank) {
        r := Raise("RuntimeError(17)");
      } else {
        trimmed := trimmed[nodes[k].0 := Join(lineage[..depth], LinSep)];
        continue;
      }
      TrimAllStuck(nodes, k + 1, depth, rpm, rank);
      return;
    }
    assert nodes[..|nodes|] == nodes;
    return Ok(trimmed);
  }

  // ---------------------------------------------------------------------
  // strip_rank_prefix

  /** One taxon without its rank prefix: "p__X" becomes "X"; a taxon with no
      "__", or with more than one, is kept whole (the `ValueError` case). */
  function StripRank(taxon: string): string
  {
    var parts := Split(taxon, TaxonSep);
    if |parts| == 2 then parts[1] else taxon
  }

  /** `strip_rank_prefix(lineage)`. */
  function StripRankPrefix(lineage: string): string
  {
    var ranks := Split(lineage, LinSep);
    Join(seq(|ranks|, i requires 0 <= i < |ranks| => StripRank(ranks[i])), LinSep)
  }

  /** A lineage of prefixed names whose prefixes and names hold neither '_'
      nor ';' loses exactly its prefixes. */
  lemma StripRankPrefixNames(prefixes: seq<string>, names: seq<string>)
    requires |prefixes| == |names| >= 1
    requires forall k :: 0 <= k < |names| ==> '_' !in prefixes[k] && '_' !in names[k] && ';' !in prefixes[k] && ';' !in names[k]
    ensures StripRankPrefix(Join(seq(|names|, i requires 0 <= i < |names| => prefixes[i] + TaxonSep + names[i]), LinSep))
            == Join(names, LinSep)
  {
    var ranks := seq(|names|, i requires 0 <= i < |names| => prefixes[i] + TaxonSep + names[i]);
    forall k | 0 <= k < |ranks|
      ensures ';' !in ranks[k]
    {
      assert ranks[k] == prefixes[k] + TaxonSep + names[k];
    }
    SplitJoin(ranks, LinSep);
    var stripped := seq(|ranks|, i requires 0 <= i < |ranks| => StripRank(ranks[i]));
    forall k | 0 <= k < |ranks|
      ensures stripped[k] == names[k]
    {
      var two := [prefixes[k], names[k]];
      assert Join(two, TaxonSep) == ranks[k] by {
        assert two[1..] == [names[k]];
      }
      SplitJoin(two, TaxonSep);
    }
    assert stripped == names;
  }

  /** Stripping twice strips no more than stripping once. */
  lemma StripRankIdempotent(taxon: string)
    ensures StripRank(StripRank(taxon)) == StripRank(taxon)
  {
    var parts := Split(taxon, TaxonSep);
    if |parts| == 2 {
      var i := FindFrom(taxon, TaxonSep, 0).value;
      var rest := taxon[i + |TaxonSep|..];
      SplitFirst(taxon, TaxonSep, i);
      assert FindFrom(rest, TaxonSep, 0).None?;
    }
  }

  // ---------------------------------------------------------------------
  // The effects of validate_rank_prefixes and digest_taxon

  /** `validate_rank_prefixes` on the flag and the map: None when a prefix
      has two rank names (the process exits with status 5). */
  function Validate(areSets: bool, m: map<char, RankNames>): Option<map<char, RankNames>>
  {
    if !areSets then Some(m)
    else if PrefixConflict(m) then None
    else Some(SettledMap(m))
  }

  /** The state after `digest_taxon(taxon, rank, rank_prefix, previous)`
      returns r (`ok` is false when it raises). */
  ghost predicate DigestDone(taxa: seq<Taxon>, hier: map<string, nat>, conflicts: set<(nat, nat)>,
                             taxon: string, rank: string, rankPrefix: string, previous: Option<nat>,
                             r: Option<nat>, ok: bool,
                             taxa': seq<Taxon>, hier': map<string, nat>, conflicts': set<(nat, nat)>)
    requires Rooted(taxa) && Refs(taxa, hier) && RefOk(taxa, previous)
  {
    var name := DigestedName(taxon, rankPrefix);
    var key := rankPrefix + TaxonSep + name;
    if name in BadTaxa then
      ok && r.None? && taxa' == taxa && hier' == hier && conflicts' == conflicts
    else if key !in hier then
      ok && r == Some(|taxa|) && conflicts' == conflicts
      && taxa' == taxa + [Taxon(name, rank, previous, rankPrefix, "", 1)] && hier' == hier[key := |taxa|]
    else
      var ti := hier[key];
      r.Some? && ClashDone(taxa, hier, conflicts, ti, previous, taxa[ti].parent, r.value, ok, taxa', hier', conflicts')
  }

  /** A new taxon's key is its `prefix_taxon()`. */
  lemma DigestKey(name: string, rank: string, rankPrefix: string, previous: Option<nat>)
    ensures PrefixTaxon(Taxon(name, rank, previous, rankPrefix, "", 1)) == rankPrefix + TaxonSep + name
  {
  }

  // ---------------------------------------------------------------------
  // TaxonomicHierarchy

  /** A `TaxonomicHierarchy`: the arena of every taxon created, the
      dictionary from `prefix_taxon()` keys to taxa, the recorded conflicts,
      `rank_prefix_map` and whether its values are sets, and
      `lineages_fed`. */
  class TaxonomicHierarchy {
    var taxa: seq<Taxon>
    var hierarchy: map<string, nat>
    var conflicts: set<(nat, nat)>
    var rankPrefixMap: map<char, RankNames>
    var rankNamesAreSets: bool
    var lineagesFed: int

    ghost predicate Valid()
      reads this
    {
      Rooted(taxa) && Refs(taxa, hierarchy)
    }

    constructor ()
      ensures Valid() && taxa == [] && hierarchy == map[] && conflicts == {} && lineagesFed == 0
      ensures rankPrefixMap == map['n' := Names({NoRankName}), 'r' := Names({"root"})] && rankNamesAreSets
    {
      taxa := [];
      hierarchy := map[];
      conflicts := {};
      rankPrefixMap := map['n' := Names({NoRankName}), 'r' := Names({"root"})];
      rankNamesAreSets := true;
      lineagesFed := 0;
    }

    /** `rm_taxon_from_hierarchy(taxon, decrement)`. */
    method RmTaxonFromHierarchy(t: nat, decrement: int)
      requires Valid() && t < |taxa|
      modifies `taxa, `hierarchy
      ensures Valid()
      ensures (taxa, hierarchy) == RmTaxon(old(taxa), old(hierarchy), t, decrement)
    {
      var key := PrefixTaxon(taxa[t]);
      var cov := taxa[t].coverage - decrement;
      taxa := taxa[t := taxa[t].(coverage := cov)];
      if cov <= 0 {
        hierarchy := hierarchy - {key};
      }
      SameRooted(old(taxa), taxa);
    }

    /** `Taxon.absorb(other)` on the taxon t: coverages are summed. */
    method Absorb(t: nat, other: nat)
      requires Valid() && t < |taxa| && other < |taxa|
      modifies `taxa
      ensures Valid() && SameButCoverage(old(taxa), taxa)
      ensures taxa[t].coverage == old(taxa[t].coverage + taxa[other].coverage)
      ensures forall i :: 0 <= i < |taxa| && i != t ==> taxa[i] == old(taxa[i])
    {
      taxa := taxa[t := taxa[t].(coverage := taxa[t].coverage + taxa[other].coverage)];
      SameRooted(old(taxa), taxa);
    }

    /** `rm_taxon_from_hierarchy` for every taxon of a lineage. */
    method RemoveLineage(lineage: seq<nat>)
      requires Valid() && forall k :: 0 <= k < |lineage| ==> lineage[k] < |taxa|
      modifies `taxa, `hierarchy
      ensures Valid()
      ensures (taxa, hierarchy) == RmLineage(old(taxa), old(hierarchy), lineage)
    {
      for k := 0 to |lineage|
        invariant Valid() && |taxa| == |old(taxa)|
        invariant (taxa, hierarchy) == RmLineage(old(taxa), old(hierarchy), lineage[..k])
      {
        assert lineage[..k + 1][..k] == lineage[..k];
        RmTaxonFromHierarchy(lineage[k], 1);
      }
      assert lineage[..|lineage|] == lineage;
    }

    /** `remove_leaf_nodes(names)`: for each name in sorted order that is a
        key, every taxon of its lineage loses one coverage and
        `lineages_fed` drops by one. */
    method RemoveLeafNodes(names: seq<string>)
      requires Valid()
      modifies `taxa, `hierarchy, `lineagesFed
      ensures Valid()
      ensures var rm := RemoveLeaves(old(taxa), old(hierarchy), old(lineagesFed), SortStrings(names));
              taxa == rm.taxa && hierarchy == rm.hierarchy && lineagesFed == rm.fed
    {
      var sorted := SortStrings(names);
      ghost var found: seq<nat> := [];
      for k := 0 to |sorted|
        invariant Valid()
        invariant RemoveLeaves(old(taxa), old(hierarchy), old(lineagesFed), sorted[..k]) == Removal(taxa, hierarchy, lineagesFed, found)
      {
        assert sorted[..k + 1][..k] == sorted[..k];
        found := RemoveLeaf(sorted[k], found);
      }
      assert sorted[..|sorted|] == sorted;
    }

    /** The body of the loop of `remove_leaf_nodes`, for one name. */
    method RemoveLeaf(name: string, ghost found: seq<nat>) returns (ghost found': seq<nat>)
      requires Valid()
      modifies `taxa, `hierarchy, `lineagesFed
      ensures Valid()
      ensures Removal(taxa, hierarchy, lineagesFed, found') == RemoveStep(Removal(old(taxa), old(hierarchy), old(lineagesFed), found), name)
    {
      found' := found;
      if name in hierarchy {
        var leaf := hierarchy[name];
        var lineage := Lineage(taxa, leaf);
        RemoveLineage(lineage);
        lineagesFed := lineagesFed - 1;
        found' := found + [leaf];
      }
    }

    /** `hierarchy_key_chain(child, parent)`; i is the alias number reached. */
    method HierarchyKeyChain(child: nat, parent: nat) returns (r: nat, ghost i: nat)
      requires Valid() && child < |taxa| && parent < |taxa|
      modifies `taxa, `hierarchy
      ensures Valid() && r < |taxa|
      ensures KeyChained(old(taxa), old(hierarchy), child, parent, i, r, taxa, hierarchy)
    {
      var c := taxa[child];
      var k: nat := 1;
      var alias := Alias(c, k);
      ghost var tried: set<string> := {};
      while alias in hierarchy
        invariant 1 <= k && alias == Alias(c, k)
        invariant forall j :: 1 <= j < k ==> Alias(c, j) in hierarchy && taxa[hierarchy[Alias(c, j)]].parent != Some(parent)
        invariant tried <= hierarchy.Keys
        invariant forall a :: a in tried ==> exists j :: 1 <= j < k && a == Alias(c, j)
        decreases hierarchy.Keys - tried
      {
        if taxa[hierarchy[alias]].parent == Some(parent) {
          return hierarchy[alias], k;
        }
        assert alias !in tried by {
          if alias in tried {
            var j :| 1 <= j < k && alias == Alias(c, j);
            AliasInjective(c, j, k);
          }
        }
        tried := tried + {alias};
        k := k + 1;
        alias := Alias(c, k);
      }
      var twin := Twin(c, k, parent);
      r, i := |taxa|, k;
      taxa := taxa + [twin];
      hierarchy := hierarchy[PrefixTaxon(twin) := r];
    }

    /** `evaluate_hierarchy_clash(child, p1, p2)`; ok is false when it
        raises. */
    method EvaluateHierarchyClash(child: nat, p1: Option<nat>, p2: Option<nat>) returns (r: nat, ok: bool)
      requires Valid() && child < |taxa| && RefOk(taxa, p1) && RefOk(taxa, p2)
      modifies `taxa, `hierarchy, `conflicts
      ensures Valid() && r < |taxa|
      ensures ClashDone(old(taxa), old(hierarchy), old(conflicts), child, p1, p2, r, ok, taxa, hierarchy, conflicts)
    {
      ghost var clash := ClashOf(taxa, p1, p2);
      if p1.None? || p1 == p2 {
        assert clash == Same;
        taxa := Bump(taxa, child);
        SameRooted(old(taxa), taxa);
        return child, true;
      }
      if p2.None? {
        assert clash == Crash;
        return child, false;
      }
      var a, b := p1.value, p2.value;
      var lca := Lca(taxa, a, b);
      ghost var i: nat;
      if lca.None? {
        assert clash == Chain;
        r, i := HierarchyKeyChain(child, a);
        return r, true;
      }
      LcaDeepest(taxa, a, b);
      assert clash == ClashAt(taxa, a, b, lca.value);
      r, ok := ClashWithAncestor(child, a, b, lca.value);
    }

    /** The part of `evaluate_hierarchy_clash` after the parents' common
        ancestor lca is found. */
    method ClashWithAncestor(child: nat, a: nat, b: nat, lca: nat) returns (r: nat, ok: bool)
      requires Valid() && child < |taxa| && a < |taxa| && b < |taxa|
      requires lca in Lineage(taxa, a) && lca in Lineage(taxa, b)
      modifies `taxa, `hierarchy, `conflicts
      ensures Valid() && r < |taxa|
      ensures Outcome(ClashAt(old(taxa), a, b, lca), old(taxa), old(hierarchy), old(conflicts), child, Some(a), Some(b),
                      r, ok, taxa, hierarchy, conflicts)
    {
      ghost var clash := ClashAt(taxa, a, b, lca);
      var s1 := LineageSlice(taxa, a, lca);
      var s2 := LineageSlice(taxa, b, lca);
      var r1, r2 := Ranks(taxa, s1), Ranks(taxa, s2);
      TaxDistToMember(taxa, a, lca);
      TaxDistToMember(taxa, b, lca);
      var d1, d2 := TaxDist(taxa, a, lca).value, TaxDist(taxa, b, lca).value;
      var c := ClashBy(r1, r2, d1, d2);
      assert clash == c;
      ghost var i: nat;
      ghost var t0, h0, c0 := taxa, hierarchy, conflicts;
      if c == Chain {
        r, i := HierarchyKeyChain(child, a);
        ok := true;
        assert KeyChained(t0, h0, child, a, i, r, taxa, hierarchy);
      } else {
        r, ok := BumpConflict(child, a, b);
      }
    }

    /** `child.coverage += 1` and `conflicts.add((p1, p2))`. */
    method BumpConflict(child: nat, a: nat, b: nat) returns (r: nat, ok: bool)
      requires Valid() && child < |taxa|
      modifies `taxa, `conflicts
      ensures Valid() && r == child && ok
      ensures taxa == Bump(old(taxa), child) && conflicts == old(conflicts) + {(a, b)}
    {
      taxa := Bump(taxa, child);
      SameRooted(old(taxa), taxa);
      conflicts := conflicts + {(a, b)};
      return child, true;
    }

    /** `digest_taxon(taxon, rank, rank_prefix, previous)`; ok is false when
        it raises. */
    method DigestTaxon(taxon: string, rank: string, rankPrefix: string, previous: Option<nat>) returns (r: Option<nat>, ok: bool)
      requires Valid() && RefOk(taxa, previous)
      modifies `taxa, `hierarchy, `conflicts
      ensures Valid() && (r.Some? ==> r.value < |taxa|)
      ensures DigestDone(old(taxa), old(hierarchy), old(conflicts), taxon, rank, rankPrefix, previous, r, ok, taxa, hierarchy, conflicts)
    {
      var name := taxon;
      if StartsWith(taxon, rankPrefix + TaxonSep) {
        name := LStrip(taxon, Chars(rankPrefix + TaxonSep));
      }
      var key := rankPrefix + TaxonSep + name;
      if name in BadTaxa {
        return None, true;
      }
      if key in hierarchy {
        var ti := hierarchy[key];
        var t;
        t, ok := EvaluateHierarchyClash(ti, previous, taxa[ti].parent);
        return Some(t), ok;
      }
      var t := Taxon(name, rank, previous, rankPrefix, "", 1);
      r := Some(|taxa|);
      taxa := taxa + [t];
      hierarchy := hierarchy[key := r.value];
      return r, true;
    }

    /** `whet()`: single rank names become one-element sets again. */
    method Whet()
      modifies `rankPrefixMap, `rankNamesAreSets
      ensures rankNamesAreSets
      ensures rankPrefixMap == if old(rankNamesAreSets) then old(rankPrefixMap) else WhettedMap(old(rankPrefixMap))
    {
      if !rankNamesAreSets {
        ghost var m0 := rankPrefixMap;
        var todo := rankPrefixMap.Keys;
        while todo != {}
          invariant todo <= m0.Keys && rankPrefixMap.Keys == m0.Keys
          invariant forall p :: p in m0 ==> rankPrefixMap[p] == if p in todo then m0[p] else Whetted(m0[p])
          decreases todo
        {
          var p :| p in todo;
          if rankPrefixMap[p].Name? {
            rankPrefixMap := rankPrefixMap[p := Names({rankPrefixMap[p].name})];
          }
          todo := todo - {p};
        }
        rankNamesAreSets := true;
      }
    }

    /** `validate_rank_prefixes()`: ok is false when a prefix has two rank
        names (the process exits with status 5, the map half converted). */
    method ValidateRankPrefixes() returns (ok: bool)
      modifies `rankPrefixMap, `rankNamesAreSets
      ensures ok <==> Validate(old(rankNamesAreSets), old(rankPrefixMap)).Some?
      ensures ok ==> rankPrefixMap == Validate(old(rankNamesAreSets), old(rankPrefixMap)).value && !rankNamesAreSets
    {
      if rankNamesAreSets {
        ghost var m0 := rankPrefixMap;
        var todo := rankPrefixMap.Keys;
        while todo != {}
          invariant todo <= m0.Keys && rankPrefixMap.Keys == m0.Keys
          invariant forall p :: p in m0 ==> rankPrefixMap[p] == if p in todo then m0[p] else Settle(m0[p])
          invariant forall p :: p in m0 && p !in todo ==> !(m0[p].Names? && |m0[p].names| > 1)
          decreases todo
        {
          var p :| p in todo;
          var v := rankPrefixMap[p];
          if v.Names? {
            if |v.names| == 1 {
              rankPrefixMap := rankPrefixMap[p := Name(TheName(v.names))];
            } else if |v.names| > 1 {
              return false;
            }
          }
          todo := todo - {p};
        }
        rankNamesAreSets := false;
      }
      return true;
    }

    /** `trim_lineages_to_rank(leaf_taxa_map, rank)`, the dictionary given as
        its items. */
    method TrimLineagesToRank(leafTaxaMap: seq<(string, string)>, rank: string) returns (r: Result<map<string, string>>)
      modifies `rankPrefixMap, `rankNamesAreSets
      ensures rank !in AcceptedRanksDepths ==>
                r == Raise("RuntimeError(17)") && rankPrefixMap == old(rankPrefixMap) && rankNamesAreSets == old(rankNamesAreSets)
      ensures rank in AcceptedRanksDepths && Validate(old(rankNamesAreSets), old(rankPrefixMap)).None? ==> r == Exit(5)
      ensures rank in AcceptedRanksDepths && Validate(old(rankNamesAreSets), old(rankPrefixMap)).Some? ==>
                rankPrefixMap == Validate(old(rankNamesAreSets), old(rankPrefixMap)).value && !rankNamesAreSets
                && r == TrimAll(SortItems(leafTaxaMap), AcceptedRanksDepths[rank], rankPrefixMap, rank)
    {
      if rank !in AcceptedRanksDepths {
        return Raise("RuntimeError(17)");
      }
      var depth := AcceptedRanksDepths[rank];
      var ok := ValidateRankPrefixes();
      if !ok {
        return Exit(5);
      }
      r := TrimNodes(SortItems(leafTaxaMap), depth, rankPrefixMap, rank);
    }
  }

}
