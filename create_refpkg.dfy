/** The record filters and renumbering of the reference-package builder
    (treesapp/create_refpkg.py). */
module CreateRefpkg {
  import opened Wrappers
  import opened PyStrings
  import opened Sorting
  import opened Collections
  import opened References

  // ---------------------------------------------------------------------
  // screen_filter_taxa

  /** The terms of a comma-separated option; an empty option has none. */
  function Terms(option: string): seq<string>
  {
    if option == "" then [] else Split(option, ",")
  }

  /** A lineage passes when some screen term is found in it (or there is no
      screen term) and no filter term is found in it.  `search(term, s)` is
      `re.search(term, s)`, which this model leaves abstract. */
  predicate Passes(screenTerms: seq<string>, filterTerms: seq<string>, search: (string, string) -> bool, lineage: string)
  {
    (|screenTerms| == 0 || exists t :: t in screenTerms && search(t, lineage))
    && forall t :: t in filterTerms ==> !search(t, lineage)
  }

  /** `screen_filter_taxa(args, fasta_replace_dict)`. */
  method ScreenFilterTaxa(screen: string, filter: string, records: Records, search: (string, string) -> bool)
    returns (r: Records)
    ensures screen == "" && filter == "" ==> r == records
    ensures r == Filter(records, (e: (nat, ReferenceSequence)) => Passes(Terms(screen), Terms(filter), search, e.1.lineage))
  {
    var screenTerms, filterTerms := Terms(screen), Terms(filter);
    ghost var p := (e: (nat, ReferenceSequence)) => Passes(screenTerms, filterTerms, search, e.1.lineage);
    if screen == "" && filter == "" {
      FilterAll(records, p);
      return records;
    }
    r := [];
    for k := 0 to |records|
      invariant r == Filter(records[..k], p)
    {
      assert records[..k + 1][..k] == records[..k];
      var lineage := records[k].1.lineage;
      var screenPass := ScreenPass(screenTerms, search, lineage);
      var filterPass := FilterPass(filterTerms, search, lineage);
      if filterPass && screenPass {
        r := r + [records[k]];
      }
    }
    assert records[..|records|] == records;
  }

  /** The screen loop: stops at the first term found. */
  method ScreenPass(terms: seq<string>, search: (string, string) -> bool, lineage: string) returns (pass: bool)
    ensures pass <==> |terms| == 0 || exists t :: t in terms && search(t, lineage)
  {
    if |terms| == 0 {
      return true;
    }
    pass := false;
    var k := 0;
    while k < |terms|
      invariant 0 <= k <= |terms|
      invariant !pass ==> forall j :: 0 <= j < k ==> !search(terms[j], lineage)
      invariant pass ==> exists t :: t in terms && search(t, lineage)
    {
      if search(terms[k], lineage) {
        pass := true;
        break;
      }
      k := k + 1;
    }
  }

  /** The filter loop: every term is tried. */
  method FilterPass(terms: seq<string>, search: (string, string) -> bool, lineage: string) returns (pass: bool)
    ensures pass <==> forall t :: t in terms ==> !search(t, lineage)
  {
    pass := true;
    for k := 0 to |terms|
      invariant pass <==> forall j :: 0 <= j < k ==> !search(terms[j], lineage)
    {
      if search(terms[k], lineage) {
        pass := false;
      }
    }
  }

  /** Empty options keep every record, by the early return and by the loop
      alike. */
  lemma NoTermsKeepAll(records: Records, search: (string, string) -> bool)
    ensures Filter(records, (e: (nat, ReferenceSequence)) => Passes(Terms(""), Terms(""), search, e.1.lineage)) == records
  {
    FilterAll(records, (e: (nat, ReferenceSequence)) => Passes(Terms(""), Terms(""), search, e.1.lineage));
  }

  // ---------------------------------------------------------------------
  // remove_by_truncated_lineages

  /** `rank_depth_map`. */
  const RankDepthMap: map<char, nat> := map['k' := 1, 'p' := 2, 'c' := 3, 'o' := 4, 'f' := 5, 'g' := 6, 's' := 7]

  const Unclassified: string := "unclassified"

  /** `re.search("^unclassified", s, re.IGNORECASE)` (ASCII case folding). */
  predicate UnclassifiedAtStart(s: string)
  {
    |Unclassified| <= |s| && forall i :: 0 <= i < |Unclassified| ==> Lower(s[i]) == Unclassified[i]
  }

  /** A lineage truncated before the rank at `depth`, or unclassified there. */
  predicate Truncated(lineage: string, depth: nat)
    requires depth >= 1
  {
    var ranks := Split(lineage, "; ");
    |ranks| < depth || UnclassifiedAtStart(ranks[depth - 1])
  }

  /** `remove_by_truncated_lineages(min_taxonomic_rank, fasta_replace_dict)`. */
  method RemoveByTruncatedLineages(minRank: char, records: Records) returns (r: Result<Records>)
    ensures minRank !in RankDepthMap ==> r == Raise("KeyError")
    ensures minRank == 'k' ==> r == Ok(records)
    ensures minRank in RankDepthMap && minRank != 'k' ==>
              r == Ok(Filter(records, (e: (nat, ReferenceSequence)) => !Truncated(e.1.lineage, RankDepthMap[minRank])))
  {
    if minRank !in RankDepthMap {
      return Raise("KeyError");
    }
    var depth := RankDepthMap[minRank];
    if minRank == 'k' {
      return Ok(records);
    }
    var kept: Records := [];
    ghost var p := (e: (nat, ReferenceSequence)) => !Truncated(e.1.lineage, depth);
    for k := 0 to |records|
      invariant kept == Filter(records[..k], p)
    {
      assert records[..k + 1][..k] == records[..k];
      var ranks := Split(records[k].1.lineage, "; ");
      if |ranks| < depth {
      } else if UnclassifiedAtStart(ranks[depth - 1]) {
      } else {
        kept := kept + [records[k]];
      }
    }
    assert records[..|records|] == records;
    return Ok(kept);
  }

  /** At kingdom level nothing is removed, even a lineage that starts with
      an unclassified kingdom, which the loop would have removed. */
  lemma KingdomKeepsUnclassified()
    ensures Truncated("Unclassified", RankDepthMap['k'])
  {
    var s := "Unclassified";
    assert ';' !in s;
    SplitJoin([s], "; ");
    assert Join([s], "; ") == s;
    assert forall i :: 0 <= i < |Unclassified| ==> Lower(s[i]) == Unclassified[i];
  }

  // ---------------------------------------------------------------------
  // remove_duplicate_records

  /** The records and header entries kept so far, and the accessions seen. */
  datatype Kept = Kept(records: Records, headers: seq<(nat, string)>, seen: set<string>)

  /** The loop of `remove_duplicate_records` over the records in identifier
      order: the first record of each accession is kept with its header
      (`KeyError` when the header registry has no entry for it). */
  function Dedup(s: Records, headers: map<nat, string>): Result<Kept>
    decreases |s|
  {
    if |s| == 0 then Ok(Kept([], [], {}))
    else DedupStep(Dedup(s[..|s| - 1], headers), s[|s| - 1], headers)
  }

  /** One record of the loop: skipped when its accession was seen, kept
      with its header entry otherwise. */
  function DedupStep(r: Result<Kept>, e: (nat, ReferenceSequence), headers: map<nat, string>): Result<Kept>
  {
    match r
    case Ok(d) =>
      var acc := e.1.accession;
      if acc in d.seen then Ok(d)
      else if e.0 !in headers then Raise("KeyError")
      else Ok(Kept(d.records + [e], d.headers + [(e.0, headers[e.0])], d.seen + {acc}))
    case other => other
  }

  lemma DedupPrefix(s: Records, k: nat, headers: map<nat, string>)
    requires k < |s|
    ensures Dedup(s[..k + 1], headers) == DedupStep(Dedup(s[..k], headers), s[k], headers)
  {
    assert s[..k + 1][..k] == s[..k];
  }

  /** The record at i is the first of its accession. */
  predicate FirstOfAccession(s: Records, i: nat)
    requires i < |s|
  {
    forall h :: 0 <= h < i ==> s[h].1.accession != s[i].1.accession
  }

  /** The accessions seen are those of the input and those of the kept
      records. */
  lemma {:induction false} DedupSeen(s: Records, headers: map<nat, string>)
    requires Dedup(s, headers).Ok?
    ensures var d := Dedup(s, headers).value;
            forall a :: (a in d.seen <==> (exists k :: 0 <= k < |s| && s[k].1.accession == a))
                        && (a in d.seen <==> (exists j :: 0 <= j < |d.records| && d.records[j].1.accession == a))
    decreases |s|
  {
    if |s| > 0 {
      var n := |s| - 1;
      var prev := s[..n];
      assert Dedup(prev, headers).Ok?;
      DedupSeen(prev, headers);
      assert forall k :: 0 <= k < n ==> prev[k] == s[k];
      var d0, d := Dedup(prev, headers).value, Dedup(s, headers).value;
      var last := s[n].1.accession;
      assert last in d.seen && (exists k :: 0 <= k < |s| && s[k].1.accession == last) by {
        assert s[n].1.accession == last;
      }
      if last !in d0.seen {
        assert d.records[|d0.records|].1.accession == last;
        assert forall j :: 0 <= j < |d0.records| ==> d.records[j] == d0.records[j];
      }
      forall a | a != last
        ensures (a in d.seen <==> (exists k :: 0 <= k < |s| && s[k].1.accession == a))
        ensures (a in d.seen <==> (exists j :: 0 <= j < |d.records| && d.records[j].1.accession == a))
      {
        assert a in d.seen <==> a in d0.seen;
        if exists j :: 0 <= j < |d.records| && d.records[j].1.accession == a {
          var j :| 0 <= j < |d.records| && d.records[j].1.accession == a;
          assert j < |d0.records| && d0.records[j].1.accession == a;
        }
      }
    }
  }

  /** The kept records are records of the input, with distinct accessions. */
  lemma {:induction false} DedupDistinct(s: Records, headers: map<nat, string>)
    requires Dedup(s, headers).Ok?
    ensures var d := Dedup(s, headers).value;
            && (forall i, j :: 0 <= i < j < |d.records| ==> d.records[i].1.accession != d.records[j].1.accession)
            && forall j :: 0 <= j < |d.records| ==> d.records[j] in s
    decreases |s|
  {
    if |s| > 0 {
      var n := |s| - 1;
      var prev := s[..n];
      assert Dedup(prev, headers).Ok?;
      DedupDistinct(prev, headers);
      DedupSeen(prev, headers);
      assert s == prev + [s[n]];
    }
  }

  /** Each header entry kept is the registry's entry. */
  lemma {:induction false} DedupHeaders(s: Records, headers: map<nat, string>)
    requires Dedup(s, headers).Ok?
    ensures var d := Dedup(s, headers).value;
            |d.headers| == |d.records|
            && forall j :: 0 <= j < |d.records| ==> d.records[j].0 in headers && d.headers[j] == (d.records[j].0, headers[d.records[j].0])
    decreases |s|
  {
    if |s| > 0 {
      var n := |s| - 1;
      assert Dedup(s[..n], headers).Ok?;
      DedupHeaders(s[..n], headers);
    }
  }

  /** The record kept for an accession is its first record. */
  lemma {:induction false} DedupFirst(s: Records, headers: map<nat, string>, k: nat)
    requires Dedup(s, headers).Ok? && k < |s|
    ensures exists i :: FirstKept(s, Dedup(s, headers).value.records, k, i)
    decreases |s|
  {
    var n := |s| - 1;
    var prev := s[..n];
    assert Dedup(prev, headers).Ok?;
    var d0, d := Dedup(prev, headers).value, Dedup(s, headers).value;
    var acc := s[n].1.accession;
    if k < n {
      DedupFirst(prev, headers, k);
      var i: nat :| FirstKept(prev, d0.records, k, i);
      FirstKeptExtends(s, d0.records, d.records, k, i);
    } else if acc in d0.seen {
      var h: nat :| h < n && prev[h].1.accession == acc by {
        DedupSeen(prev, headers);
      }
      DedupFirst(prev, headers, h);
      var i: nat :| FirstKept(prev, d0.records, h, i);
      FirstKeptExtends(s, d0.records, d.records, h, i);
      assert FirstKept(s, d.records, k, i);
    } else {
      assert FirstOfAccession(s, n) by {
        DedupSeen(prev, headers);
        assert forall h :: 0 <= h < n ==> prev[h] == s[h];
      }
      assert FirstKept(s, d.records, k, n);
    }
  }

  /** Record i is the first of the accession of record k, and is kept. */
  predicate FirstKept(s: Records, kept: Records, k: nat, i: nat)
  {
    i <= k < |s| && FirstOfAccession(s, i) && s[i].1.accession == s[k].1.accession && s[i] in kept
  }

  /** Appending a record keeps the first records of the earlier
      accessions, and the kept records grow. */
  lemma FirstKeptExtends(s: Records, kept0: Records, kept: Records, k: nat, i: nat)
    requires |s| > 0 && FirstKept(s[..|s| - 1], kept0, k, i)
    requires forall r :: r in kept0 ==> r in kept
    ensures FirstKept(s, kept, k, i)
  {
    assert forall h :: 0 <= h <= k ==> s[..|s| - 1][h] == s[h];
  }

  /** Over records in identifier order, the record kept for an accession has
      the smallest identifier of all its records. */
  lemma SmallestIdKept(s: Records, headers: map<nat, string>, k: nat)
    requires Dedup(s, headers).Ok? && k < |s| && SortedBy(s, NatKeyLe<ReferenceSequence>)
    ensures exists r :: r in Dedup(s, headers).value.records && r.1.accession == s[k].1.accession && r.0 <= s[k].0
  {
    DedupFirst(s, headers, k);
    var i: nat :| FirstKept(s, Dedup(s, headers).value.records, k, i);
    assert i <= k && s[i] in Dedup(s, headers).value.records && s[i].1.accession == s[k].1.accession;
    if i < k {
      assert NatKeyLe(s[i], s[k]);
    }
  }

  /** `remove_duplicate_records(fasta_record_objects, header_registry)`:
      the kept records and their header entries. */
  method RemoveDuplicateRecords(records: Records, headers: map<nat, string>) returns (r: Result<(Records, seq<(nat, string)>)>)
    ensures var d := Dedup(SortNatKeys(records), headers);
            (r.Ok? <==> d.Ok?) && (r.Ok? ==> r.value == (d.value.records, d.value.headers)) && (!r.Ok? ==> r == Raise("KeyError"))
  {
    var sorted := SortNatKeys(records);
    var kept: Records, keptHeaders: seq<(nat, string)> := [], [];
    var accessions: set<string> := {};
    for k := 0 to |sorted|
      invariant Dedup(sorted[..k], headers) == Ok(Kept(kept, keptHeaders, accessions))
    {
      DedupPrefix(sorted, k, headers);
      var id, refSeq := sorted[k].0, sorted[k].1;
      if refSeq.accession !in accessions {
        accessions := accessions + {refSeq.accession};
        kept := kept + [sorted[k]];
        if id !in headers {
          DedupStuck(sorted, k + 1, headers);
          return Raise("KeyError");
        }
        keptHeaders := keptHeaders + [(id, headers[id])];
      }
    }
    assert sorted[..|sorted|] == sorted;
    return Ok((kept, keptHeaders));
  }

  /** Once the registry lacks an entry, the loop is never finished. */
  lemma {:induction false} DedupStuck(s: Records, k: nat, headers: map<nat, string>)
    requires k <= |s| && !Dedup(s[..k], headers).Ok?
    ensures Dedup(s, headers) == Dedup(s[..k], headers)
    decreases |s|
  {
    if k == |s| {
      assert s[..k] == s;
    } else {
      var n := |s| - 1;
      assert s[..n][..k] == s[..k];
      DedupStuck(s[..n], k, headers);
    }
  }

  /** Every error of the loop is a missing header entry. */
  lemma {:induction false} DedupError(s: Records, headers: map<nat, string>)
    ensures !Dedup(s, headers).Ok? ==> Dedup(s, headers) == Raise("KeyError")
    decreases |s|
  {
    if |s| > 0 {
      DedupError(s[..|s| - 1], headers);
    }
  }

  // ---------------------------------------------------------------------
  // order_dict_by_lineage

  /** Two records share an accession. */
  predicate DupAccession(s: Records)
  {
    exists i, j :: 0 <= i < j < |s| && s[i].1.accession == s[j].1.accession
  }

  /** The cluster representatives, in order. */
  function Reps(s: Records): seq<ReferenceSequence>
    decreases |s|
  {
    if |s| == 0 then []
    else
      var n := |s| - 1;
      Reps(s[..n]) + (if s[n].1.clusterRep then [s[n].1] else [])
  }

  /** The representatives are exactly the records marked as such. */
  lemma {:induction false} RepsMembers(s: Records)
    ensures forall x :: x in Reps(s) <==> x.clusterRep && exists k :: 0 <= k < |s| && s[k].1 == x
    decreases |s|
  {
    if |s| > 0 {
      var n := |s| - 1;
      RepsMembers(s[..n]);
      assert forall k :: 0 <= k < n ==> s[..n][k] == s[k];
    }
  }

  /** The representatives of one lineage, in order (`lineage_dict[lineage]`). */
  function WithLineage(reps: seq<ReferenceSequence>, lineage: string): (r: seq<ReferenceSequence>)
    ensures forall x :: x in r ==> x.lineage == lineage && x in reps
    decreases |reps|
  {
    if |reps| == 0 then []
    else
      var n := |reps| - 1;
      WithLineage(reps[..n], lineage) + (if reps[n].lineage == lineage then [reps[n]] else [])
  }

  /** The lineages of the representatives, in order of first appearance
      (the keys of `lineage_dict`). */
  function LineagesOf(reps: seq<ReferenceSequence>): (r: seq<string>)
    ensures forall l :: l in r <==> exists k :: 0 <= k < |reps| && reps[k].lineage == l
    ensures Distinct(r)
    decreases |reps|
  {
    if |reps| == 0 then []
    else
      var n := |reps| - 1;
      var p := LineagesOf(reps[..n]);
      assert forall k :: 0 <= k < n ==> reps[..n][k] == reps[k];
      if reps[n].lineage in p then p else p + [reps[n].lineage]
  }

  /** A lineage that no representative has has an empty group. */
  lemma {:induction false} WithLineageAbsent(reps: seq<ReferenceSequence>, lineage: string)
    requires lineage !in LineagesOf(reps)
    ensures WithLineage(reps, lineage) == []
    decreases |reps|
  {
    if |reps| > 0 {
      var n := |reps| - 1;
      WithLineageAbsent(reps[..n], lineage);
    }
  }

  /** The groups of the given lineages, in the order of the lineages. */
  function Groups(reps: seq<ReferenceSequence>, lineages: seq<string>): (r: seq<seq<ReferenceSequence>>)
    ensures |r| == |lineages|
    decreases |lineages|
  {
    if |lineages| == 0 then []
    else
      var n := |lineages| - 1;
      Groups(reps, lineages[..n]) + [WithLineage(reps, lineages[n])]
  }

  /** The representatives, group by group in sorted lineage order. */
  function Ordered(reps: seq<ReferenceSequence>): seq<ReferenceSequence>
  {
    Flatten(Groups(reps, SortStrings(LineagesOf(reps))))
  }

  /** The record renamed for number n: `str(n) + '_' + code`, where the code
      is what follows the first underscore of the old short identifier. */
  function Renamed(x: ReferenceSequence, n: nat): ReferenceSequence
  {
    x.(shortId := NatToString(n) + "_" + Join(Split(x.shortId, "_")[1..], "_"))
  }

  /** Renaming changes only the short identifier, which then starts with
      the number and an underscore and ends with the old code. */
  lemma RenamedSpec(x: ReferenceSequence, n: nat)
    ensures var r := Renamed(x, n);
            && StartsWith(r.shortId, NatToString(n) + "_")
            && r.shortId[|NatToString(n)| + 1..] == Join(Split(x.shortId, "_")[1..], "_")
            && r.(shortId := x.shortId) == x
  {
    var p := NatToString(n) + "_";
    var r := Renamed(x, n);
    assert r.shortId == p + Join(Split(x.shortId, "_")[1..], "_");
    assert r.shortId[..|p|] == p;
  }

  /** The records numbered consecutively from `start`, each renamed for its
      number. */
  function Number(s: seq<ReferenceSequence>, start: nat): (r: Records)
    ensures |r| == |s|
    decreases |s|
  {
    if |s| == 0 then []
    else
      var n := |s| - 1;
      Number(s[..n], start) + [(start + n, Renamed(s[n], start + n))]
  }

  /** Numbering one more record appends it under the next number. */
  lemma NumberSnoc(s: seq<ReferenceSequence>, x: ReferenceSequence, start: nat)
    ensures Number(s + [x], start) == Number(s, start) + [(start + |s|, Renamed(x, start + |s|))]
  {
    assert (s + [x])[..|s|] == s;
  }

  /** Entry i of the numbering is record i under number start + i. */
  lemma {:induction false} NumberAt(s: seq<ReferenceSequence>, start: nat, i: nat)
    requires i < |s|
    ensures Number(s, start)[i] == (start + i, Renamed(s[i], start + i))
    decreases |s|
  {
    var n := |s| - 1;
    if i < n {
      NumberAt(s[..n], start, i);
    }
  }

  /** `groups` and `order` are `lineage_dict` and its keys for the
      representatives `reps`. */
  ghost predicate Grouped(reps: seq<ReferenceSequence>, groups: map<string, seq<ReferenceSequence>>, order: seq<string>)
  {
    && order == LineagesOf(reps)
    && (forall l :: l in groups <==> l in order)
    && forall l :: l in groups ==> groups[l] == WithLineage(reps, l)
  }

  /** `order_dict_by_lineage(fasta_object_dict)`: exit status 13 on a
      repeated accession; otherwise the representatives, renumbered from 1
      in sorted lineage order. */
  method OrderDictByLineage(records: Records) returns (r: Result<Records>)
    ensures DupAccession(records) <==> r == Exit(13)
    ensures !DupAccession(records) ==> r == Ok(Number(Ordered(Reps(records)), 1))
  {
    var dup, groups, order := GroupRecords(records);
    if dup {
      return Exit(13);
    }
    var sorted := SortStrings(order);
    forall l | l in sorted
      ensures l in groups && groups[l] == WithLineage(Reps(records), l)
    {
      assert l in multiset(order);
    }
    var out := NumberGroups(sorted, groups, Reps(records));
    return Ok(out);
  }

  /** The first loop of `order_dict_by_lineage`: a repeated accession stops
      it; otherwise every representative is in the group of its lineage. */
  method GroupRecords(records: Records)
    returns (dup: bool, groups: map<string, seq<ReferenceSequence>>, order: seq<string>)
    ensures dup <==> DupAccession(records)
    ensures !dup ==> Grouped(Reps(records), groups, order)
  {
    groups, order := map[], [];
    var accessions: seq<string> := [];
    for k := 0 to |records|
      invariant Scanned(records, k, accessions, groups, order)
    {
      dup, accessions, groups, order := ScanRecord(records, k, accessions, groups, order);
      if dup {
        return;
      }
    }
    TakeAll(records);
    dup := false;
  }

  /** The first k records are grouped, with distinct accessions listed in
      `accessions`. */
  ghost predicate Scanned(records: Records, k: nat, accessions: seq<string>,
                          groups: map<string, seq<ReferenceSequence>>, order: seq<string>)
  {
    && k <= |records|
    && |accessions| == k && (forall i :: 0 <= i < k ==> accessions[i] == records[i].1.accession)
    && !DupAccession(records[..k])
    && Grouped(Reps(records[..k]), groups, order)
  }

  /** One turn of the first loop: record k either repeats an accession or
      is grouped. */
  method ScanRecord(records: Records, k: nat, accessions: seq<string>,
                    groups: map<string, seq<ReferenceSequence>>, order: seq<string>)
    returns (dup: bool, accessions': seq<string>, groups': map<string, seq<ReferenceSequence>>, order': seq<string>)
    requires k < |records| && Scanned(records, k, accessions, groups, order)
    ensures dup ==> DupAccession(records)
    ensures !dup ==> Scanned(records, k + 1, accessions', groups', order')
  {
    var refSeq := records[k].1;
    if refSeq.accession in accessions {
      var i :| 0 <= i < k && accessions[i] == refSeq.accession;
      assert records[i].1.accession == records[k].1.accession;
      return true, accessions, groups, order;
    }
    GrowDistinct(records, k);
    accessions' := accessions + [refSeq.accession];
    groups', order' := GroupRecord(records, k, groups, order);
    dup := false;
  }

  /** The grouping step for record k: a representative joins the group of
      its lineage, opened when the lineage is new. */
  method GroupRecord(records: Records, k: nat, groups: map<string, seq<ReferenceSequence>>, order: seq<string>)
    returns (groups': map<string, seq<ReferenceSequence>>, order': seq<string>)
    requires k < |records| && Grouped(Reps(records[..k]), groups, order)
    ensures Grouped(Reps(records[..k + 1]), groups', order')
  {
    var refSeq := records[k].1;
    RepsSnoc(records, k);
    groups', order' := groups, order;
    if !refSeq.clusterRep {
      assert Reps(records[..k + 1]) == Reps(records[..k]) + [];
      assert Reps(records[..k]) + [] == Reps(records[..k]);
      assert Grouped(Reps(records[..k]), groups', order');
      return;
    }
    ghost var reps := Reps(records[..k]);
    if refSeq.lineage !in groups' {
      AddNewLineage(reps, refSeq, groups, order);
      groups' := groups'[refSeq.lineage := []];
      order' := order' + [refSeq.lineage];
      groups' := groups'[refSeq.lineage := groups'[refSeq.lineage] + [refSeq]];
      assert groups' == groups[refSeq.lineage := [refSeq]];
    } else {
      AddToLineage(reps, refSeq, groups, order);
      groups' := groups'[refSeq.lineage := groups'[refSeq.lineage] + [refSeq]];
    }
  }

  lemma RepsSnoc(records: Records, k: nat)
    requires k < |records|
    ensures Reps(records[..k + 1]) == Reps(records[..k]) + (if records[k].1.clusterRep then [records[k].1] else [])
  {
    PrefixSnoc(records, k);
  }

  /** A record with a new accession keeps the accessions distinct. */
  lemma GrowDistinct(records: Records, k: nat)
    requires k < |records| && !DupAccession(records[..k])
    requires forall i :: 0 <= i < k ==> records[i].1.accession != records[k].1.accession
    ensures !DupAccession(records[..k + 1])
  {
    var s := records[..k + 1];
    forall i, j | 0 <= i < j < |s|
      ensures s[i].1.accession != s[j].1.accession
    {
      if j < k {
        assert records[..k][i] == s[i] && records[..k][j] == s[j];
      }
    }
  }

  /** A representative of a lineage already grouped joins its group. */
  lemma AddToLineage(reps: seq<ReferenceSequence>, x: ReferenceSequence, groups: map<string, seq<ReferenceSequence>>, order: seq<string>)
    requires Grouped(reps, groups, order) && x.lineage in groups
    ensures Grouped(reps + [x], groups[x.lineage := groups[x.lineage] + [x]], order)
  {
    AppendTake(reps, x);
    assert x.lineage in LineagesOf(reps);
  }

  /** A representative of a new lineage opens a group, after the others. */
  lemma AddNewLineage(reps: seq<ReferenceSequence>, x: ReferenceSequence, groups: map<string, seq<ReferenceSequence>>, order: seq<string>)
    requires Grouped(reps, groups, order) && x.lineage !in groups
    ensures Grouped(reps + [x], groups[x.lineage := [x]], order + [x.lineage])
  {
    assert (reps + [x])[..|reps|] == reps;
    WithLineageAbsent(reps, x.lineage);
  }

  /** The second loop: the groups of `sorted`, numbered from 1. */
  method NumberGroups(sorted: seq<string>, groups: map<string, seq<ReferenceSequence>>, ghost reps: seq<ReferenceSequence>)
    returns (out: Records)
    requires forall l :: l in sorted ==> l in groups && groups[l] == WithLineage(reps, l)
    ensures out == Number(Flatten(Groups(reps, sorted)), 1)
  {
    ghost var flat: seq<ReferenceSequence> := [];
    out := [];
    var numKey := 1;
    for i := 0 to |sorted|
      invariant flat == Flatten(Groups(reps, sorted[..i]))
      invariant out == Number(flat, 1) && numKey == |flat| + 1
    {
      var group := groups[sorted[i]];
      out, numKey := NumberGroup(out, flat, group, numKey);
      flat := flat + group;
      assert sorted[..i + 1][..i] == sorted[..i];
    }
    assert sorted[..|sorted|] == sorted;
  }

  /** The inner loop: one group's records, numbered on from `numKey`. */
  method NumberGroup(out: Records, ghost flat: seq<ReferenceSequence>, group: seq<ReferenceSequence>, numKey: nat)
    returns (out': Records, numKey': nat)
    requires out == Number(flat, 1) && numKey == |flat| + 1
    ensures out' == Number(flat + group, 1) && numKey' == numKey + |group|
  {
    out', numKey' := out, numKey;
    ghost var done := flat;
    for j := 0 to |group|
      invariant done == flat + group[..j]
      invariant out' == Number(done, 1) && numKey' == |done| + 1
    {
      NumberSnoc(done, group[j], 1);
      out' := out' + [(numKey', Renamed(group[j], numKey'))];
      SnocSlice(flat, group, j);
      done := done + [group[j]];
      numKey' := numKey' + 1;
    }
    assert group[..|group|] == group;
  }

  /** The representatives whose lineage is in `lineages`, in order. */
  function InLineages(reps: seq<ReferenceSequence>, lineages: set<string>): seq<ReferenceSequence>
    decreases |reps|
  {
    if |reps| == 0 then []
    else
      var n := |reps| - 1;
      InLineages(reps[..n], lineages) + (if reps[n].lineage in lineages then [reps[n]] else [])
  }

  /** Adding a lineage to the set adds its group. */
  lemma {:induction false} InLineagesAdd(reps: seq<ReferenceSequence>, lineages: set<string>, l: string)
    requires l !in lineages
    ensures multiset(InLineages(reps, lineages + {l})) == multiset(InLineages(reps, lineages)) + multiset(WithLineage(reps, l))
    decreases |reps|
  {
    if |reps| > 0 {
      InLineagesAdd(reps[..|reps| - 1], lineages, l);
    }
  }

  /** Every lineage kept keeps every representative. */
  lemma {:induction false} InLineagesAll(reps: seq<ReferenceSequence>, lineages: set<string>)
    requires forall k :: 0 <= k < |reps| ==> reps[k].lineage in lineages
    ensures InLineages(reps, lineages) == reps
    decreases |reps|
  {
    if |reps| > 0 {
      var n := |reps| - 1;
      InLineagesAll(reps[..n], lineages);
      assert reps == reps[..n] + [reps[n]];
    }
  }

  /** The groups of lineages without repeats hold, together, the
      representatives of those lineages. */
  lemma {:induction false} GroupsMultiset(reps: seq<ReferenceSequence>, ls: seq<string>, lineages: set<string>)
    requires forall l :: multiset(ls)[l] <= 1
    requires forall l :: l in lineages <==> l in ls
    ensures multiset(Flatten(Groups(reps, ls))) == multiset(InLineages(reps, lineages))
    decreases |ls|
  {
    if |ls| == 0 {
      assert lineages == {};
      InLineagesNone(reps);
    } else {
      var n := |ls| - 1;
      var prefix, last := ls[..n], ls[n];
      MultisetSnoc(ls);
      forall l
        ensures multiset(prefix)[l] <= 1
      {
        assert multiset(prefix)[l] <= multiset(ls)[l];
      }
      assert multiset(prefix)[last] == 0 by {
        assert multiset(ls)[last] == multiset(prefix)[last] + 1;
      }
      assert last !in multiset(prefix);
      GroupsMultiset(reps, prefix, lineages - {last});
      AppendTake(Groups(reps, prefix), WithLineage(reps, last));
      InLineagesAdd(reps, lineages - {last}, last);
      assert lineages == (lineages - {last}) + {last};
    }
  }

  lemma {:induction false} InLineagesNone(reps: seq<ReferenceSequence>)
    ensures InLineages(reps, {}) == []
    decreases |reps|
  {
    if |reps| > 0 {
      InLineagesNone(reps[..|reps| - 1]);
    }
  }

  /** Reordering loses and duplicates no representative. */
  lemma OrderedPermutation(reps: seq<ReferenceSequence>)
    ensures multiset(Ordered(reps)) == multiset(reps)
  {
    var sorted := SortStrings(LineagesOf(reps));
    SortedLineages(reps);
    GroupsMultiset(reps, sorted, set l | l in sorted);
    InLineagesAll(reps, (set l | l in sorted));
  }

  /** The sorted lineages are those of the representatives, each once. */
  lemma SortedLineages(reps: seq<ReferenceSequence>)
    ensures var sorted := SortStrings(LineagesOf(reps));
            && (forall l :: multiset(sorted)[l] <= 1)
            && forall k :: 0 <= k < |reps| ==> reps[k].lineage in sorted
  {
    var lineages := LineagesOf(reps);
    var sorted := SortStrings(lineages);
    DistinctCounts(lineages);
    forall k | 0 <= k < |reps|
      ensures reps[k].lineage in sorted
    {
      assert reps[k].lineage in lineages;
      assert reps[k].lineage in multiset(sorted);
    }
  }

  /** The lineage order of records. */
  predicate LineageLe(a: ReferenceSequence, b: ReferenceSequence)
  {
    StrLe(a.lineage, b.lineage)
  }

  /** A concatenation is sorted when both halves are and each entry of the
      first is at most each entry of the second. */
  lemma SortedAppend<T(!new)>(a: seq<T>, b: seq<T>, le: (T, T) -> bool)
    requires SortedBy(a, le) && SortedBy(b, le)
    requires forall i, j :: 0 <= i < |a| && 0 <= j < |b| ==> le(a[i], b[j])
    ensures SortedBy(a + b, le)
  {
  }

  /** The groups of sorted lineages come out in lineage order. */
  lemma {:induction false} GroupsSorted(reps: seq<ReferenceSequence>, ls: seq<string>)
    requires SortedBy(ls, StrLe)
    ensures SortedBy(Flatten(Groups(reps, ls)), LineageLe)
    decreases |ls|
  {
    if |ls| > 0 {
      var n := |ls| - 1;
      var prefix := ls[..n];
      var front := Flatten(Groups(reps, prefix));
      var group := WithLineage(reps, ls[n]);
      GroupsSorted(reps, prefix);
      AppendTake(Groups(reps, prefix), group);
      forall i, j | 0 <= i < j < |group|
        ensures LineageLe(group[i], group[j])
      {
        assert group[i] in group && group[j] in group;
        StrLeTotal(ls[n], ls[n]);
      }
      forall i, j | 0 <= i < |front| && 0 <= j < |group|
        ensures LineageLe(front[i], group[j])
      {
        assert group[j] in group;
        GroupsLineage(reps, prefix, front[i]);
      }
      SortedAppend(front, group, LineageLe);
    }
  }

  /** An entry of the groups of `ls` has one of the lineages of `ls`. */
  lemma {:induction false} GroupsLineage(reps: seq<ReferenceSequence>, ls: seq<string>, x: ReferenceSequence)
    requires x in Flatten(Groups(reps, ls))
    ensures x.lineage in ls
    decreases |ls|
  {
    var n := |ls| - 1;
    AppendTake(Groups(reps, ls[..n]), WithLineage(reps, ls[n]));
    if x in Flatten(Groups(reps, ls[..n])) {
      GroupsLineage(reps, ls[..n], x);
    }
  }

  /** Every entry of the numbering is its record under its number. */
  lemma NumberSpec(s: seq<ReferenceSequence>, start: nat)
    ensures forall i :: 0 <= i < |s| ==> Number(s, start)[i] == (start + i, Renamed(s[i], start + i))
  {
    forall i | 0 <= i < |s|
      ensures Number(s, start)[i] == (start + i, Renamed(s[i], start + i))
    {
      NumberAt(s, start, i);
    }
  }

  /** Numbering keeps the lineage order. */
  lemma NumberSorted(s: seq<ReferenceSequence>, start: nat)
    requires SortedBy(s, LineageLe)
    ensures forall i, j :: 0 <= i < j < |s| ==> StrLe(Number(s, start)[i].1.lineage, Number(s, start)[j].1.lineage)
  {
    NumberSpec(s, start);
    forall i, j | 0 <= i < j < |s|
      ensures StrLe(Number(s, start)[i].1.lineage, Number(s, start)[j].1.lineage)
    {
      assert LineageLe(s[i], s[j]);
    }
  }

  /** The renumbered records: numbered 1, 2, … in order, each a
      representative renamed for its number, sorted by lineage, every
      representative exactly once. */
  lemma OrderedRenumbered(records: Records)
    ensures var reps := Reps(records);
            var out := Number(Ordered(reps), 1);
            && |out| == |reps|
            && (forall i :: 0 <= i < |out| ==> out[i] == (i + 1, Renamed(Ordered(reps)[i], i + 1)))
            && (forall i, j :: 0 <= i < j < |out| ==> StrLe(out[i].1.lineage, out[j].1.lineage))
            && multiset(Ordered(reps)) == multiset(reps)
  {
    var reps := Reps(records);
    OrderedPermutation(reps);
    GroupsSorted(reps, SortStrings(LineagesOf(reps)));
    NumberSpec(Ordered(reps), 1);
    NumberSorted(Ordered(reps), 1);
    assert |Ordered(reps)| == |reps| by {
      assert |multiset(Ordered(reps))| == |multiset(reps)|;
    }
  }

  // ---------------------------------------------------------------------
  // guarantee_ref_seqs

  /** A cluster of identical sequences: its representative header, its
      members (a header and its identity each; only the header is read
      here) and the lineage LCA of the cluster. */
  datatype Cluster = Cluster(representative: string, members: seq<(string, string)>, lca: string)

  /** A key of the result: a cluster identifier of the input (a decimal
      string) or a number handed out by the expanded-cluster counter (an
      integer, so the two never collide). */
  datatype ClusterKey = Read(id: nat) | Added(n: nat)

  /** The result so far and the value of `expanded_cluster_id`. */
  datatype Guaranteed = Guaranteed(out: seq<(ClusterKey, Cluster)>, next: nat)

  /** Some member of the cluster is an important sequence. */
  predicate HasImportant(members: seq<(string, string)>, important: set<string>)
  {
    exists m :: m in members && m.0 in important
  }

  /** A singleton cluster for each important member, numbered on from
      `next`; the counter after them. */
  function ExpandMembers(members: seq<(string, string)>, important: set<string>, lca: string, next: nat)
    : (r: (seq<(ClusterKey, Cluster)>, nat))
    ensures next <= r.1
    ensures forall e :: e in r.0 ==> e.0.Added? && next <= e.0.n < r.1 && e.1.members == [] && e.1.lca == lca && e.1.representative in important
    decreases |members|
  {
    if |members| == 0 then ([], next)
    else
      var n := |members| - 1;
      var (e, k) := ExpandMembers(members[..n], important, lca, next);
      if members[n].0 in important then (e + [(Added(k), Cluster(members[n].0, [], lca))], k + 1) else (e, k)
  }

  /** Whether the cluster keeps its own entry, and the entry it keeps. */
  predicate KeepsEntry(c: Cluster, important: set<string>)
  {
    |c.members| == 0 || !HasImportant(c.members, important) || c.representative in important
  }

  function KeptCluster(c: Cluster, important: set<string>): Cluster
  {
    if |c.members| > 0 && HasImportant(c.members, important) then c.(members := []) else c
  }

  /** One cluster of the loop.  A cluster without members is copied; in
      the others each important member becomes a cluster of its own, and
      the cluster is then dropped (its representative is not important:
      a swap), copied with its members cleared (it is important) or copied
      unchanged (no member is important). */
  function GuaranteeStep(g: Guaranteed, id: nat, c: Cluster, important: set<string>): Guaranteed
  {
    if |c.members| == 0 then Guaranteed(g.out + [(Read(id), c)], g.next + 1)
    else
      var (e, k) := ExpandMembers(c.members, important, c.lca, g.next);
      var kept := if KeepsEntry(c, important) then [(Read(id), KeptCluster(c, important))] else [];
      Guaranteed(g.out + e + kept, k + 1)
  }

  /** The loop over the clusters in the order given. */
  function Guarantee(s: seq<(nat, Cluster)>, important: set<string>): Guaranteed
    decreases |s|
  {
    if |s| == 0 then Guaranteed([], 0)
    else
      var n := |s| - 1;
      GuaranteeStep(Guarantee(s[..n], important), s[n].0, s[n].1, important)
  }

  /** `guarantee_ref_seqs(cluster_dict, important_seqs)`, with the keys of
      `important_seqs` as a set. */
  method GuaranteeRefSeqs(clusters: seq<(nat, Cluster)>, important: set<string>) returns (out: seq<(ClusterKey, Cluster)>)
    ensures out == Guarantee(SortNatKeys(clusters), important).out
  {
    var sorted := SortNatKeys(clusters);
    out := [];
    var expandedId := 0;
    for i := 0 to |sorted|
      invariant Guarantee(sorted[..i], important) == Guaranteed(out, expandedId)
    {
      PrefixSnoc(sorted, i);
      out, expandedId := GuaranteeCluster(out, expandedId, sorted[i].0, sorted[i].1, important);
    }
    TakeAll(sorted);
  }

  /** The loop body for one cluster. */
  method GuaranteeCluster(out: seq<(ClusterKey, Cluster)>, expandedId: nat, id: nat, cluster: Cluster, important: set<string>)
    returns (out': seq<(ClusterKey, Cluster)>, expandedId': nat)
    ensures Guaranteed(out', expandedId') == GuaranteeStep(Guaranteed(out, expandedId), id, cluster, important)
  {
    if |cluster.members| == 0 {
      out' := out + [(Read(id), cluster)];
      expandedId' := expandedId;
    } else {
      var containsImportant;
      out', expandedId', containsImportant := ExpandCluster(out, cluster.members, important, cluster.lca, expandedId);
      if containsImportant && cluster.representative !in important {
      } else if containsImportant && cluster.representative in important {
        out' := out' + [(Read(id), cluster.(members := []))];
      } else {
        out' := out' + [(Read(id), cluster)];
      }
    }
    expandedId' := expandedId' + 1;
  }

  /** The member loop of one cluster. */
  method ExpandCluster(out: seq<(ClusterKey, Cluster)>, members: seq<(string, string)>, important: set<string>, lca: string, next: nat)
    returns (out': seq<(ClusterKey, Cluster)>, next': nat, containsImportant: bool)
    ensures out' == out + ExpandMembers(members, important, lca, next).0
    ensures next' == ExpandMembers(members, important, lca, next).1
    ensures containsImportant == HasImportant(members, important)
  {
    out', next', containsImportant := out, next, false;
    for j := 0 to |members|
      invariant out' == out + ExpandMembers(members[..j], important, lca, next).0
      invariant next' == ExpandMembers(members[..j], important, lca, next).1
      invariant containsImportant == HasImportant(members[..j], important)
    {
      PrefixSnoc(members, j);
      if members[j].0 in important {
        out' := out' + [(Added(next'), Cluster(members[j].0, [], lca))];
        next' := next' + 1;
        containsImportant := true;
      }
    }
    TakeAll(members);
  }

  /** Every important member gets a singleton cluster. */
  lemma {:induction false} ExpandCovers(members: seq<(string, string)>, important: set<string>, lca: string, next: nat, m: (string, string))
    requires m in members && m.0 in important
    ensures exists k :: (Added(k), Cluster(m.0, [], lca)) in ExpandMembers(members, important, lca, next).0
    decreases |members|
  {
    var n := |members| - 1;
    var (e, k) := ExpandMembers(members[..n], important, lca, next);
    if m in members[..n] {
      ExpandCovers(members[..n], important, lca, next, m);
      var k' :| (Added(k'), Cluster(m.0, [], lca)) in e;
    } else {
      assert m == members[n];
      assert (Added(k), Cluster(m.0, [], lca)) in ExpandMembers(members, important, lca, next).0;
    }
  }

  /** Every singleton cluster is one of the members. */
  lemma {:induction false} ExpandFrom(members: seq<(string, string)>, important: set<string>, lca: string, next: nat, e: (ClusterKey, Cluster))
    requires e in ExpandMembers(members, important, lca, next).0
    ensures exists m :: m in members && m.0 == e.1.representative
    decreases |members|
  {
    var n := |members| - 1;
    var (r, k) := ExpandMembers(members[..n], important, lca, next);
    if e in r {
      ExpandFrom(members[..n], important, lca, next, e);
      var m :| m in members[..n] && m.0 == e.1.representative;
      assert m in members;
    } else {
      assert members[n] in members;
    }
  }

  /** Entries are never removed by later clusters. */
  lemma GuaranteeGrows(s: seq<(nat, Cluster)>, important: set<string>, e: (ClusterKey, Cluster))
    requires |s| > 0 && e in Guarantee(s[..|s| - 1], important).out
    ensures e in Guarantee(s, important).out
  {
  }

  /** What the loop keeps of each cluster: its own entry (cleared of its
      members when one of them is important) unless it is swapped out, and
      a singleton cluster for each important member. */
  lemma {:induction false} GuaranteeKeeps(s: seq<(nat, Cluster)>, important: set<string>, i: nat)
    requires i < |s|
    ensures var out := Guarantee(s, important).out;
            var c := s[i].1;
            && (KeepsEntry(c, important) ==> (Read(s[i].0), KeptCluster(c, important)) in out)
            && forall m :: m in c.members && m.0 in important ==> exists k :: (Added(k), Cluster(m.0, [], c.lca)) in out
    decreases |s|
  {
    var n := |s| - 1;
    if i < n {
      GuaranteeKeeps(s[..n], important, i);
      assert s[..n][i] == s[i];
      GuaranteeKeepsEarlier(s, important, i);
    } else {
      GuaranteeKeepsLast(s, important);
    }
  }

  /** What an earlier cluster kept survives the last one. */
  lemma GuaranteeKeepsEarlier(s: seq<(nat, Cluster)>, important: set<string>, i: nat)
    requires i < |s| - 1
    requires var out := Guarantee(s[..|s| - 1], important).out;
            var c := s[i].1;
            && (KeepsEntry(c, important) ==> (Read(s[i].0), KeptCluster(c, important)) in out)
            && forall m :: m in c.members && m.0 in important ==> exists k :: (Added(k), Cluster(m.0, [], c.lca)) in out
    ensures var out := Guarantee(s, important).out;
            var c := s[i].1;
            && (KeepsEntry(c, important) ==> (Read(s[i].0), KeptCluster(c, important)) in out)
            && forall m :: m in c.members && m.0 in important ==> exists k :: (Added(k), Cluster(m.0, [], c.lca)) in out
  {
    var g := Guarantee(s[..|s| - 1], important);
    var c := s[i].1;
    if KeepsEntry(c, important) {
      GuaranteeGrows(s, important, (Read(s[i].0), KeptCluster(c, important)));
    }
    forall m | m in c.members && m.0 in important
      ensures exists k :: (Added(k), Cluster(m.0, [], c.lca)) in Guarantee(s, important).out
    {
      var k :| (Added(k), Cluster(m.0, [], c.lca)) in g.out;
      GuaranteeGrows(s, important, (Added(k), Cluster(m.0, [], c.lca)));
    }
  }

  /** What the last cluster keeps. */
  lemma GuaranteeKeepsLast(s: seq<(nat, Cluster)>, important: set<string>)
    requires |s| > 0
    ensures var out := Guarantee(s, important).out;
            var c := s[|s| - 1].1;
            && (KeepsEntry(c, important) ==> (Read(s[|s| - 1].0), KeptCluster(c, important)) in out)
            && forall m :: m in c.members && m.0 in important ==> exists k :: (Added(k), Cluster(m.0, [], c.lca)) in out
  {
    var n := |s| - 1;
    var g := Guarantee(s[..n], important);
    var c := s[n].1;
    if |c.members| > 0 {
      forall m | m in c.members && m.0 in important
        ensures exists k :: (Added(k), Cluster(m.0, [], c.lca)) in Guarantee(s, important).out
      {
        ExpandCovers(c.members, important, c.lca, g.next, m);
      }
    }
  }

  /** A cluster without members is copied unchanged under its own key. */
  lemma GuaranteeCopiesEmpty(s: seq<(nat, Cluster)>, important: set<string>, i: nat)
    requires i < |s| && |s[i].1.members| == 0
    ensures (Read(s[i].0), s[i].1) in Guarantee(s, important).out
  {
    GuaranteeKeeps(s, important, i);
  }

  /** Where each entry comes from: a singleton cluster of an important
      member, numbered below the counter, or a kept cluster of the input
      under its own key. */
  lemma {:induction false} GuaranteeSource(s: seq<(nat, Cluster)>, important: set<string>, e: (ClusterKey, Cluster))
    requires e in Guarantee(s, important).out
    ensures e.0.Added? ==> && e.0.n < Guarantee(s, important).next && e.1.members == [] && e.1.representative in important
                           && exists i, m :: 0 <= i < |s| && m in s[i].1.members && m.0 == e.1.representative && e.1.lca == s[i].1.lca
    ensures e.0.Read? ==> exists i :: 0 <= i < |s| && s[i].0 == e.0.id && KeepsEntry(s[i].1, important) && e.1 == KeptCluster(s[i].1, important)
    decreases |s|
  {
    var n := |s| - 1;
    var g := Guarantee(s[..n], important);
    var c := s[n].1;
    if e in g.out {
      GuaranteeSource(s[..n], important, e);
      if e.0.Added? {
        var i, m :| 0 <= i < n && m in s[..n][i].1.members && m.0 == e.1.representative && e.1.lca == s[..n][i].1.lca;
        assert s[..n][i] == s[i];
      } else {
        var i :| 0 <= i < n && s[..n][i].0 == e.0.id && KeepsEntry(s[..n][i].1, important) && e.1 == KeptCluster(s[..n][i].1, important);
        assert s[..n][i] == s[i];
      }
    } else if |c.members| > 0 && e in ExpandMembers(c.members, important, c.lca, g.next).0 {
      ExpandFrom(c.members, important, c.lca, g.next, e);
    }
  }

  /** With distinct input keys, a cluster that is swapped out (an important
      member, an unimportant representative) leaves no entry of its own. */
  lemma GuaranteeDrops(s: seq<(nat, Cluster)>, important: set<string>, i: nat)
    requires DistinctKeys(s) && i < |s| && !KeepsEntry(s[i].1, important)
    ensures forall e :: e in Guarantee(s, important).out ==> e.0 != Read(s[i].0)
  {
    forall e | e in Guarantee(s, important).out
      ensures e.0 != Read(s[i].0)
    {
      GuaranteeSource(s, important, e);
    }
  }

  // ---------------------------------------------------------------------
  // write_tax_ids

  /** The lineage written for a record: the cluster's LCA when `taxa_lca`
      is set. */
  function LineageOf(x: ReferenceSequence, taxaLca: bool): string
  {
    if taxaLca then x.clusterLca else x.lineage
  }

  /** A line of the tax_ids file, without its newline. */
  function TaxIdLine(e: (nat, ReferenceSequence), taxaLca: bool): string
  {
    Join([NatToString(e.0), e.1.organism + " | " + e.1.accession, LineageOf(e.1, taxaLca)], "\t")
  }

  function TaxIdLines(s: Records, taxaLca: bool): (r: seq<string>)
    ensures |r| == |s|
    decreases |s|
  {
    if |s| == 0 then []
    else
      var n := |s| - 1;
      TaxIdLines(s[..n], taxaLca) + [TaxIdLine(s[n], taxaLca)]
  }

  /** The text of the tax_ids file: a line per record, in the order given. */
  function TaxIdsText(s: Records, taxaLca: bool): string
    decreases |s|
  {
    if |s| == 0 then ""
    else
      var n := |s| - 1;
      TaxIdsText(s[..n], taxaLca) + TaxIdLine(s[n], taxaLca) + "\n"
  }

  /** The accessions of the records without a lineage, in order. */
  function NoLineage(s: Records, taxaLca: bool): seq<string>
    decreases |s|
  {
    if |s| == 0 then []
    else
      var n := |s| - 1;
      NoLineage(s[..n], taxaLca) + (if LineageOf(s[n].1, taxaLca) == "" then [s[n].1.accession] else [])
  }

  /** The warning about records without a lineage; empty when there is none. */
  function TaxIdsWarning(noLineage: seq<string>): string
  {
    if |noLineage| > 0 then NatToString(|noLineage|) + WarningHeader + Join(noLineage, "\n\t")
    else ""
  }

  const WarningHeader: string := " reference sequences did not have an associated lineage!\n\t"

  /** `write_tax_ids(fasta_replace_dict, tax_ids_file, taxa_lca)`: the text
      written to the file, line by line in identifier order, and the
      warning returned. */
  method WriteTaxIds(records: Records, taxaLca: bool) returns (text: string, warning: string)
    ensures text == TaxIdsText(SortNatKeys(records), taxaLca)
    ensures warning == TaxIdsWarning(NoLineage(SortNatKeys(records), taxaLca))
  {
    var sorted := SortNatKeys(records);
    text := "";
    var noLineage: seq<string> := [];
    for i := 0 to |sorted|
      invariant text == TaxIdsText(sorted[..i], taxaLca)
      invariant noLineage == NoLineage(sorted[..i], taxaLca)
    {
      TaxIdsSnoc(sorted, i, taxaLca);
      var id, refSeq := sorted[i].0, sorted[i].1;
      var lineage := if taxaLca then refSeq.clusterLca else refSeq.lineage;
      if lineage == "" {
        noLineage := noLineage + [refSeq.accession];
      }
      text := text + Join([NatToString(id), refSeq.organism + " | " + refSeq.accession, lineage], "\t") + "\n";
    }
    TakeAll(sorted);
    warning := "";
    if |noLineage| > 0 {
      warning := NatToString(|noLineage|) + WarningHeader + Join(noLineage, "\n\t");
    }
  }

  /** One more record adds its line and, without a lineage, its accession. */
  lemma TaxIdsSnoc(s: Records, i: nat, taxaLca: bool)
    requires i < |s|
    ensures TaxIdsText(s[..i + 1], taxaLca) == TaxIdsText(s[..i], taxaLca) + TaxIdLine(s[i], taxaLca) + "\n"
    ensures NoLineage(s[..i + 1], taxaLca) == NoLineage(s[..i], taxaLca) + (if LineageOf(s[i].1, taxaLca) == "" then [s[i].1.accession] else [])
  {
    PrefixSnoc(s, i);
  }

  /** No field written holds a line break or a tab. */
  predicate PlainFields(x: ReferenceSequence, taxaLca: bool)
  {
    '\n' !in x.organism + " | " + x.accession && '\n' !in LineageOf(x, taxaLca)
    && '\t' !in x.organism + " | " + x.accession && '\t' !in LineageOf(x, taxaLca)
  }

  /** A line splits by tabs into the identifier, the organism and accession,
      and the lineage. */
  lemma TaxIdLineFields(e: (nat, ReferenceSequence), taxaLca: bool)
    requires PlainFields(e.1, taxaLca)
    ensures Split(TaxIdLine(e, taxaLca), "\t") == [NatToString(e.0), e.1.organism + " | " + e.1.accession, LineageOf(e.1, taxaLca)]
  {
    NatToStringDigits(e.0);
    SplitJoin([NatToString(e.0), e.1.organism + " | " + e.1.accession, LineageOf(e.1, taxaLca)], "\t");
  }

  /** A line holds no line break. */
  lemma TaxIdLinePlain(e: (nat, ReferenceSequence), taxaLca: bool)
    requires PlainFields(e.1, taxaLca)
    ensures '\n' !in TaxIdLine(e, taxaLca)
  {
    NatToStringDigits(e.0);
    var a, b, c := NatToString(e.0), e.1.organism + " | " + e.1.accession, LineageOf(e.1, taxaLca);
    assert [a, b, c][1..] == [b, c] && [b, c][1..] == [c];
    assert Join([b, c], "\t") == b + "\t" + c;
    assert TaxIdLine(e, taxaLca) == a + "\t" + (b + "\t" + c) by {
      ConcatAssoc(a, "\t", b + "\t" + c);
    }
  }

  /** The text is its lines, each ended by a line break. */
  lemma {:induction false} TaxIdsTextJoin(s: Records, taxaLca: bool)
    ensures TaxIdsText(s, taxaLca) == Join(TaxIdLines(s, taxaLca) + [""], "\n")
    decreases |s|
  {
    if |s| > 0 {
      var n := |s| - 1;
      var lines := TaxIdLines(s[..n], taxaLca);
      var line := TaxIdLine(s[n], taxaLca);
      var before := TaxIdsText(s[..n], taxaLca);
      assert TaxIdLines(s, taxaLca) == lines + [line];
      assert TaxIdsText(s, taxaLca) == before + line + "\n";
      TaxIdsTextJoin(s[..n], taxaLca);
      JoinSnoc(lines + [line], "", "\n");
      assert Join(lines + [line] + [""], "\n") == Join(lines + [line], "\n") + "\n";
      if |lines| > 0 {
        JoinSnoc(lines, line, "\n");
        JoinSnoc(lines, "", "\n");
        assert before == Join(lines, "\n") + "\n";
        ConcatAssoc(Join(lines, "\n") + "\n", line, "\n");
      } else {
        assert before == "";
        assert lines + [line] == [line];
      }
    }
  }

  /** Reading the file back by lines gives each record's line, in order,
      and an empty rest after the last line break. */
  lemma TaxIdsTextLines(s: Records, taxaLca: bool)
    requires forall k :: 0 <= k < |s| ==> PlainFields(s[k].1, taxaLca)
    ensures Split(TaxIdsText(s, taxaLca), "\n") == TaxIdLines(s, taxaLca) + [""]
  {
    TaxIdsTextJoin(s, taxaLca);
    var parts := TaxIdLines(s, taxaLca) + [""];
    forall k | 0 <= k < |parts|
      ensures '\n' !in parts[k]
    {
      if k < |s| {
        TaxIdLinesAt(s, taxaLca, k);
        TaxIdLinePlain(s[k], taxaLca);
      }
    }
    SplitJoin(parts, "\n");
  }

  lemma {:induction false} TaxIdLinesAt(s: Records, taxaLca: bool, k: nat)
    requires k < |s|
    ensures TaxIdLines(s, taxaLca)[k] == TaxIdLine(s[k], taxaLca)
    decreases |s|
  {
    var n := |s| - 1;
    if k < n {
      TaxIdLinesAt(s[..n], taxaLca, k);
    }
  }

  /** The warning starts with the number of records without a lineage,
      and the accessions can be read back from what follows its header. */
  lemma TaxIdsWarningCount(noLineage: seq<string>)
    requires |noLineage| > 0
    requires forall k :: 0 <= k < |noLineage| ==> '\n' !in noLineage[k]
    ensures var w, count := TaxIdsWarning(noLineage), NatToString(|noLineage|);
            && StartsWith(w, count)
            && Split(w[|count| + |WarningHeader|..], "\n\t") == noLineage
  {
    var count := NatToString(|noLineage|);
    var body := Join(noLineage, "\n\t");
    var w := TaxIdsWarning(noLineage);
    ConcatAssoc(count, WarningHeader, body);
    assert w == count + (WarningHeader + body);
    assert w[..|count|] == count;
    assert w[|count| + |WarningHeader|..] == body;
    SplitJoin(noLineage, "\n\t");
  }

  // ---------------------------------------------------------------------
  // update_build_parameters

  /** The tab-separated fields of a line read from the parameters file. */
  function Fields(line: string): (r: seq<string>)
    ensures |r| >= 1
  {
    Split(Strip(line, {'\n'}), "\t")
  }

  /** The lines kept, each rewritten from its fields. */
  function KeptParamLines(lines: seq<string>, cog: string): seq<string>
    decreases |lines|
  {
    if |lines| == 0 then []
    else
      var n := |lines| - 1;
      var fields := Fields(lines[n]);
      KeptParamLines(lines[..n], cog) + (if fields[0] != cog then [Join(fields, "\t")] else [])
  }

  /** The line rewrite of `update_build_parameters`: every line of another
      marker is kept, the new line for `cog` is appended; the text written
      is the lines joined by line breaks and ended by one. */
  method UpdateBuildParameters(paramLines: seq<string>, cog: string, buildList: seq<string>)
    returns (updated: seq<string>, content: string)
    ensures updated == KeptParamLines(paramLines, cog) + [Join(buildList, "\t")]
    ensures content == Join(updated, "\n") + "\n"
  {
    updated := [];
    for k := 0 to |paramLines|
      invariant updated == KeptParamLines(paramLines[..k], cog)
    {
      PrefixSnoc(paramLines, k);
      var fields := Split(Strip(paramLines[k], {'\n'}), "\t");
      if fields[0] != cog {
        updated := updated + [Join(fields, "\t")];
      }
    }
    TakeAll(paramLines);
    updated := updated + [Join(buildList, "\t")];
    content := Join(updated, "\n") + "\n";
  }

  /** A kept line is its line without surrounding line breaks. */
  lemma {:induction false} KeptParamLinesStripped(lines: seq<string>, cog: string)
    ensures KeptParamLines(lines, cog) == StripAll(Filter(lines, (l: string) => Fields(l)[0] != cog))
    decreases |lines|
  {
    if |lines| > 0 {
      var n := |lines| - 1;
      var p := (l: string) => Fields(l)[0] != cog;
      var before := Filter(lines[..n], p);
      KeptParamLinesStripped(lines[..n], cog);
      KeptParamStep(lines, cog);
      FilterSnoc(lines, p);
      if p(lines[n]) {
        StripAllSnoc(before, lines[n]);
      } else {
        assert Filter(lines, p) == before;
      }
    }
  }

  /** The last line of a non-empty list is kept, once stripped, exactly
      when its first field is not the marker. */
  lemma KeptParamStep(lines: seq<string>, cog: string)
    requires |lines| > 0
    ensures var n := |lines| - 1;
            KeptParamLines(lines, cog) == KeptParamLines(lines[..n], cog) +
              (if Fields(lines[n])[0] != cog then [Strip(lines[n], {'\n'})] else [])
  {
    JoinSplit(Strip(lines[|lines| - 1], {'\n'}), "\t");
  }

  /** Each line without its surrounding line breaks. */
  function StripAll(lines: seq<string>): seq<string>
  {
    seq(|lines|, k requires 0 <= k < |lines| => Strip(lines[k], {'\n'}))
  }

  lemma StripAllSnoc(lines: seq<string>, x: string)
    ensures StripAll(lines + [x]) == StripAll(lines) + [Strip(x, {'\n'})]
    ensures StripAll(lines) + [] == StripAll(lines)
  {
  }

  /** After the rewrite the marker has exactly one line, the last: no kept
      line starts with the marker's field, and the appended line does. */
  lemma {:induction false} OneLinePerMarker(lines: seq<string>, cog: string, buildList: seq<string>)
    requires |buildList| > 0 && buildList[0] == cog && '\t' !in cog
    ensures var updated := KeptParamLines(lines, cog) + [Join(buildList, "\t")];
            && Split(updated[|updated| - 1], "\t")[0] == cog
            && forall k :: 0 <= k < |updated| - 1 ==> Split(updated[k], "\t")[0] != cog
  {
    KeptFirstFields(lines, cog);
    var b := Join(buildList, "\t");
    if |buildList| == 1 {
      SplitJoin([cog], "\t");
    } else {
      JoinCons(cog, buildList[1..], "\t");
      assert buildList == [cog] + buildList[1..];
      SplitFirstField(cog, Join(buildList[1..], "\t"));
    }
  }

  /** The first field of `a + tab + rest` is a, when a holds no tab. */
  lemma SplitFirstField(a: string, rest: string)
    requires '\t' !in a
    ensures Split(a + "\t" + rest, "\t")[0] == a
  {
    var s := a + "\t" + rest;
    forall j | 0 <= j < |a|
      ensures !OccursAt(s, "\t", j)
    {
      assert s[j] == a[j];
    }
    assert OccursAt(s, "\t", |a|);
    assert FindFrom(s, "\t", 0) == Some(|a|);
    assert s[..|a|] == a;
  }

  /** No kept line has the marker as its first field. */
  lemma {:induction false} KeptFirstFields(lines: seq<string>, cog: string)
    ensures forall k :: 0 <= k < |KeptParamLines(lines, cog)| ==> Split(KeptParamLines(lines, cog)[k], "\t")[0] != cog
    decreases |lines|
  {
    if |lines| > 0 {
      var n := |lines| - 1;
      KeptFirstFields(lines[..n], cog);
      KeptParamStep(lines, cog);
    }
  }
}
