/** The helpers of `create_treesapp_ref_data.py` that build reference
    data: the reverse complement of a ribosomal RNA sequence, the clean-up
    of a header-swap table, the identical-sequence clusters of a USEARCH
    cluster (`.uc`) file, and the text of the reference FASTA file. */
module RefData {
  import opened Wrappers
  import opened PyStrings
  import opened Collections
  import opened Sorting
  import opened References

  // ---------------------------------------------------------------------
  // reverse_complement
  // ---------------------------------------------------------------------

  /** What the loop appends for one character: the complement of a
      nucleotide letter of either case (U and T both pair with A), the
      character itself for the alignment gaps '.' and '-', and nothing for
      any other character. */
  function Complement(c: char): string
  {
    if c == 'A' || c == 'a' then "T"
    else if c == 'G' || c == 'g' then "C"
    else if c == 'U' || c == 'u' || c == 'T' || c == 't' then "A"
    else if c == 'C' || c == 'c' then "G"
    else if c == '.' || c == '-' then [c]
    else ""
  }

  /** The characters the loop appends something for. */
  predicate Recognized(c: char)
  {
    c in "AaGgUuTtCc.-"
  }

  /** The characters a reverse complement is made of. */
  predicate Canonical(c: char)
  {
    c in "ACGT.-"
  }

  /** The list `comp` after the loop has run over s. */
  function Comps(s: string): string
    decreases |s|
  {
    if |s| == 0 then "" else Comps(s[..|s| - 1]) + Complement(s[|s| - 1])
  }

  /** `''.join(reversed(…))`. */
  function Reverse<T>(s: seq<T>): (r: seq<T>)
    ensures |r| == |s| && forall i :: 0 <= i < |s| ==> r[i] == s[|s| - 1 - i]
  {
    seq(|s|, i requires 0 <= i < |s| => s[|s| - 1 - i])
  }

  /** `reverse_complement(rrna_sequence)`. */
  method ReverseComplement(s: string) returns (r: string)
    ensures r == Reverse(Comps(s))
  {
    var comp := "";
    for k := 0 to |s|
      invariant comp == Comps(s[..k])
    {
      PrefixSnoc(s, k);
      comp := comp + Complement(s[k]);
    }
    TakeAll(s);
    r := Reverse(comp);
  }

  /** Every character of a string is a nucleotide letter or a gap. */
  predicate AllRecognized(s: string)
  {
    forall i :: 0 <= i < |s| ==> Recognized(s[i])
  }

  /** One character contributes one canonical character when it is
      recognized and nothing otherwise. */
  lemma ComplementShape(c: char)
    ensures |Complement(c)| == (if Recognized(c) then 1 else 0)
    ensures forall i :: 0 <= i < |Complement(c)| ==> Canonical(Complement(c)[i])
  {
  }

  /** The reverse complement is made of "ACGT.-" only. */
  lemma {:induction false} CompsAlphabet(s: string)
    ensures forall i :: 0 <= i < |Comps(s)| ==> Canonical(Comps(s)[i])
    decreases |s|
  {
    if |s| > 0 {
      var n := |s| - 1;
      CompsAlphabet(s[..n]);
      ComplementShape(s[n]);
      var c, d := Comps(s[..n]), Complement(s[n]);
      assert Comps(s) == c + d;
      forall i | 0 <= i < |c + d|
        ensures Canonical((c + d)[i])
      {
        if i < |c| {
          assert (c + d)[i] == c[i];
        } else {
          assert (c + d)[i] == d[i - |c|];
        }
      }
    }
  }

  lemma AllRecognizedSnoc(s: string)
    requires |s| > 0
    ensures AllRecognized(s) <==> AllRecognized(s[..|s| - 1]) && Recognized(s[|s| - 1])
  {
    var p := s[..|s| - 1];
    assert forall i :: 0 <= i < |p| ==> p[i] == s[i];
  }

  /** The reverse complement is never longer than its input, and is as long
      exactly when every input character is a nucleotide letter or a gap. */
  lemma {:induction false} CompsLength(s: string)
    ensures |Comps(s)| <= |s|
    ensures |Comps(s)| == |s| <==> AllRecognized(s)
    decreases |s|
  {
    if |s| > 0 {
      var n := |s| - 1;
      CompsLength(s[..n]);
      ComplementShape(s[n]);
      AllRecognizedSnoc(s);
    }
  }

  lemma ReverseComplementAlphabet(s: string)
    ensures forall i :: 0 <= i < |Reverse(Comps(s))| ==> Canonical(Reverse(Comps(s))[i])
    ensures |Reverse(Comps(s))| <= |s|
    ensures |Reverse(Comps(s))| == |s| <==> AllRecognized(s)
  {
    CompsAlphabet(s);
    CompsLength(s);
    var c := Comps(s);
    forall i | 0 <= i < |c|
      ensures Canonical(Reverse(c)[i])
    {
      assert Reverse(c)[i] == c[|c| - 1 - i];
    }
  }

  /** The complement of one canonical character, itself canonical. */
  function Pair(c: char): char
  {
    if c == 'A' then 'T' else if c == 'T' then 'A' else if c == 'G' then 'C' else if c == 'C' then 'G' else c
  }

  lemma PairTwice(c: char)
    requires Canonical(c)
    ensures Canonical(Pair(c)) && Pair(Pair(c)) == c && Complement(c) == [Pair(c)]
  {
  }

  /** Each character replaced by its pair. */
  function Pairs(s: string): (r: string)
    ensures |r| == |s|
  {
    seq(|s|, i requires 0 <= i < |s| => Pair(s[i]))
  }

  predicate AllCanonical(s: string)
  {
    forall i :: 0 <= i < |s| ==> Canonical(s[i])
  }

  /** Over canonical characters the loop maps each character to its pair. */
  lemma {:induction false} CompsCanonical(s: string)
    requires AllCanonical(s)
    ensures Comps(s) == Pairs(s)
    decreases |s|
  {
    if |s| > 0 {
      var n := |s| - 1;
      var p := s[..n];
      assert AllCanonical(p) by {
        forall i | 0 <= i < n
          ensures Canonical(p[i])
        {
          assert p[i] == s[i];
        }
      }
      CompsCanonical(p);
      PairTwice(s[n]);
      assert Pairs(s) == Pairs(p) + [Pair(s[n])];
    }
  }

  lemma ReverseTwice<T>(s: seq<T>)
    ensures Reverse(Reverse(s)) == s
  {
  }

  lemma PairsReverse(s: string)
    ensures Pairs(Reverse(s)) == Reverse(Pairs(s))
  {
  }

  lemma PairsTwice(s: string)
    requires AllCanonical(s)
    ensures AllCanonical(Pairs(s)) && Pairs(Pairs(s)) == s
  {
    forall i | 0 <= i < |s|
      ensures Canonical(Pairs(s)[i]) && Pairs(Pairs(s))[i] == s[i]
    {
      PairTwice(s[i]);
    }
  }

  lemma ReverseCanonical(s: string)
    requires AllCanonical(s)
    ensures AllCanonical(Reverse(s))
  {
    forall i | 0 <= i < |s|
      ensures Canonical(Reverse(s)[i])
    {
      assert Reverse(s)[i] == s[|s| - 1 - i];
    }
  }

  /** Taking the reverse complement twice gives a sequence of "ACGT.-"
      back. */
  lemma ReverseComplementTwice(s: string)
    requires AllCanonical(s)
    ensures Reverse(Comps(Reverse(Comps(s)))) == s
  {
    CompsCanonical(s);
    PairsTwice(s);
    var t := Reverse(Pairs(s));
    ReverseCanonical(Pairs(s));
    CompsCanonical(t);
    PairsReverse(Pairs(s));
    ReverseTwice(s);
  }

  // ---------------------------------------------------------------------
  // reformat_headers
  // ---------------------------------------------------------------------

  /** The brackets `reformat_string` deletes. */
  predicate Bracket(c: char)
  {
    c == '[' || c == ']' || c == '(' || c == ')'
  }

  predicate NotBracket(c: char)
  {
    !Bracket(c)
  }

  /** The characters it turns into '_': white space, ';' and ','. */
  predicate Separator(c: char)
  {
    IsSpace(c) || c == ';' || c == ','
  }

  function ToUnderscore(c: char): char
  {
    if Separator(c) then '_' else c
  }

  /** `reformat_string`: cut to 110 characters, brackets deleted, white
      space, ';' and ',' replaced by '_'. */
  function ReformatString(s: string): string
  {
    var cut := if |s| > 110 then s[..110] else s;
    var kept := Filter(cut, NotBracket);
    seq(|kept|, i requires 0 <= i < |kept| => ToUnderscore(kept[i]))
  }

  /** A reformatted string has at most 110 characters and neither brackets
      nor separators. */
  lemma ReformatStringClean(s: string)
    ensures |ReformatString(s)| <= 110
    ensures forall i :: 0 <= i < |ReformatString(s)| ==> !Bracket(ReformatString(s)[i]) && !Separator(ReformatString(s)[i])
  {
    var cut := if |s| > 110 then s[..110] else s;
    var kept := Filter(cut, NotBracket);
    var r := ReformatString(s);
    assert |r| == |kept|;
    forall i | 0 <= i < |r|
      ensures !Bracket(r[i]) && !Separator(r[i])
    {
      assert kept[i] in kept;
      assert r[i] == ToUnderscore(kept[i]);
    }
  }

  /** A string of at most 110 characters without brackets or separators is
      left as it is. */
  lemma ReformatStringKeeps(s: string)
    requires |s| <= 110 && forall i :: 0 <= i < |s| ==> !Bracket(s[i]) && !Separator(s[i])
    ensures ReformatString(s) == s
  {
    FilterKeeps(s, NotBracket);
    var r := ReformatString(s);
    assert |r| == |s|;
    forall i | 0 <= i < |s|
      ensures r[i] == s[i]
    {
      assert r[i] == ToUnderscore(s[i]);
    }
  }

  /** Reformatting twice changes nothing more. */
  lemma ReformatStringIdempotent(s: string)
    ensures ReformatString(ReformatString(s)) == ReformatString(s)
  {
    ReformatStringClean(s);
    ReformatStringKeeps(ReformatString(s));
  }

  /** The dictionary `swappers` after the items of `pairs`. */
  function Swappers(pairs: seq<(string, string)>): map<string, string>
    decreases |pairs|
  {
    if |pairs| == 0 then map[]
    else
      var n := |pairs| - 1;
      Swappers(pairs[..n])[ReformatString(pairs[n].0) := ReformatString(pairs[n].1)]
  }

  /** `reformat_headers(header_dict)`, the dictionary given as its items. */
  method ReformatHeaders(headers: seq<(string, string)>) returns (swappers: map<string, string>)
    ensures swappers == Swappers(headers)
  {
    swappers := map[];
    for k := 0 to |headers|
      invariant swappers == Swappers(headers[..k])
    {
      PrefixSnoc(headers, k);
      swappers := swappers[ReformatString(headers[k].0) := ReformatString(headers[k].1)];
    }
    TakeAll(headers);
  }

  /** The keys are the reformatted old headers. */
  lemma {:induction false} SwappersKeys(pairs: seq<(string, string)>)
    ensures forall k :: k in Swappers(pairs) <==> exists i :: 0 <= i < |pairs| && ReformatString(pairs[i].0) == k
    decreases |pairs|
  {
    if |pairs| > 0 {
      var n := |pairs| - 1;
      SwappersKeys(pairs[..n]);
      assert forall i :: 0 <= i < n ==> pairs[..n][i] == pairs[i];
    }
  }

  /** Each key maps to the reformatted new header of the last item whose
      old header reformats to it: old headers that become equal collapse. */
  lemma {:induction false} SwappersLast(pairs: seq<(string, string)>, i: nat)
    requires i < |pairs|
    requires forall j :: i < j < |pairs| ==> ReformatString(pairs[j].0) != ReformatString(pairs[i].0)
    ensures ReformatString(pairs[i].0) in Swappers(pairs)
    ensures Swappers(pairs)[ReformatString(pairs[i].0)] == ReformatString(pairs[i].1)
    decreases |pairs|
  {
    var n := |pairs| - 1;
    if i < n {
      SwappersLast(pairs[..n], i);
    }
  }

  // ---------------------------------------------------------------------
  // read_uc
  // ---------------------------------------------------------------------

  /** The fields of a `.uc` line that `read_uc` reads: the record type
      (column 1), the identity (4), the CIGAR string (8), the query
      header (9) and the target header (10). */
  datatype UcRecord = UcRecord(kind: string, identity: string, cigar: string, header: string, target: string)

  /** The characters `str.strip()` removes. */
  const WhiteSpace: set<char> := {' ', '\t', '\n', '\r', '\U{0B}', '\U{0C}'}

  /** `line.strip().split("\t")` unpacked into ten names: a line with
      another number of fields raises ValueError. */
  function ParseUcLine(line: string): Result<UcRecord>
  {
    var f := Split(Strip(line, WhiteSpace), "\t");
    if |f| != 10 then Raise("ValueError") else Ok(UcRecord(f[0], f[3], f[7], f[8], f[9]))
  }

  /** A record of one line: an "S" record opens the list of its header,
      emptying it if it existed; an "H" record of identity 100.0 (what
      `hundred` says of the identity field's float value) and CIGAR "="
      appends its header to the list of its target, which must exist
      (KeyError otherwise); other records change nothing. */
  function UcStep(d: map<string, seq<string>>, r: UcRecord, hundred: string -> bool): Result<map<string, seq<string>>>
  {
    if r.kind == "C" then Ok(d)
    else if r.kind == "S" then Ok(d[">" + r.header := []])
    else if r.kind == "H" && hundred(r.identity) && r.cigar == "=" then
      var rep := ">" + r.target;
      if rep in d then Ok(d[rep := d[rep] + [">" + r.header]]) else Raise("KeyError")
    else Ok(d)
  }

  /** The outcome of the parse of one line applied to the clusters so
      far: a line that does not parse stops the reading with its error. */
  function ApplyLine(d: map<string, seq<string>>, p: Result<UcRecord>, hundred: string -> bool): Result<map<string, seq<string>>>
  {
    match p
    case Ok(r) => UcStep(d, r, hundred)
    case Raise(e) => Raise(e)
    case Exit(c) => Exit(c)
  }

  /** The clusters after the given parsed lines, or the error of the first
      line that fails, in file order. */
  function Clusters(ps: seq<Result<UcRecord>>, hundred: string -> bool): Result<map<string, seq<string>>>
    decreases |ps|
  {
    if |ps| == 0 then Ok(map[])
    else
      var n := |ps| - 1;
      match Clusters(ps[..n], hundred)
      case Ok(d) => ApplyLine(d, ps[n], hundred)
      case other => other
  }

  /** Each line parsed on its own. */
  function ParseAll(lines: seq<string>): seq<Result<UcRecord>>
  {
    seq(|lines|, i requires 0 <= i < |lines| => ParseUcLine(lines[i]))
  }

  /** What `read_uc` returns for the lines of a file, or the exception it
      raises. */
  function ReadUc(lines: seq<string>, hundred: string -> bool): Result<map<string, seq<string>>>
  {
    Clusters(ParseAll(lines), hundred)
  }

  /** `read_uc(uc_file)` over the lines of the file. */
  method ReadUcLines(lines: seq<string>, hundred: string -> bool) returns (r: Result<map<string, seq<string>>>)
    ensures r == ReadUc(lines, hundred)
  {
    ghost var ps := ParseAll(lines);
    var d: map<string, seq<string>> := map[];
    for k := 0 to |lines|
      invariant Clusters(ps[..k], hundred) == Ok(d)
    {
      PrefixSnoc(ps, k);
      var step := ApplyLine(d, ParseUcLine(lines[k]), hundred);
      if !step.Ok? {
        ClustersStuck(ps, k + 1, hundred);
        return step;
      }
      d := step.value;
    }
    TakeAll(ps);
    r := Ok(d);
  }

  /** Once a line fails, the rest of the file is never read. */
  lemma {:induction false} ClustersStuck(ps: seq<Result<UcRecord>>, k: nat, hundred: string -> bool)
    requires k <= |ps| && !Clusters(ps[..k], hundred).Ok?
    ensures Clusters(ps, hundred) == Clusters(ps[..k], hundred)
    decreases |ps|
  {
    if k == |ps| {
      assert ps[..k] == ps;
    } else {
      var n := |ps| - 1;
      assert ps[..n][..k] == ps[..k];
      ClustersStuck(ps[..n], k, hundred);
    }
  }

  /** One record adds the key of an "S" record and no other key. */
  lemma UcStepKeys(d: map<string, seq<string>>, r: UcRecord, hundred: string -> bool)
    requires UcStep(d, r, hundred).Ok?
    ensures forall k :: k in UcStep(d, r, hundred).value <==> k in d || (r.kind == "S" && k == ">" + r.header)
  {
  }

  /** One record adds a member only through an "H" record of identity
      100.0 and CIGAR "=". */
  lemma UcStepMembers(d: map<string, seq<string>>, r: UcRecord, hundred: string -> bool)
    requires UcStep(d, r, hundred).Ok?
    ensures var e := UcStep(d, r, hundred).value;
      forall k, m :: k in e && m in e[k] ==>
        (k in d && m in d[k])
        || (r.kind == "H" && hundred(r.identity) && r.cigar == "=" && k == ">" + r.target && m == ">" + r.header)
  {
  }

  /** The parsed line is an "S" record for key k. */
  predicate Opens(p: Result<UcRecord>, k: string)
  {
    p.Ok? && p.value.kind == "S" && k == ">" + p.value.header
  }

  /** The parsed line is an "H" record of identity 100.0 and CIGAR "=" that
      adds member m to the cluster of key k. */
  predicate Joins(p: Result<UcRecord>, k: string, m: string, hundred: string -> bool)
  {
    p.Ok? && p.value.kind == "H" && hundred(p.value.identity) && p.value.cigar == "="
    && k == ">" + p.value.target && m == ">" + p.value.header
  }

  /** Parsed lines that read without error read their last line without
      error, after the lines before it. */
  lemma ClustersSnoc(ps: seq<Result<UcRecord>>, hundred: string -> bool)
    requires |ps| > 0 && Clusters(ps, hundred).Ok?
    ensures var n := |ps| - 1;
      Clusters(ps[..n], hundred).Ok? && ps[n].Ok?
      && UcStep(Clusters(ps[..n], hundred).value, ps[n].value, hundred).Ok?
      && Clusters(ps, hundred).value == UcStep(Clusters(ps[..n], hundred).value, ps[n].value, hundred).value
  {
  }

  /** The keys are the headers of the "S" records, each with a '>' put in
      front. */
  lemma {:induction false} ClustersKeys(ps: seq<Result<UcRecord>>, hundred: string -> bool)
    requires Clusters(ps, hundred).Ok?
    ensures forall k :: k in Clusters(ps, hundred).value <==> exists i :: 0 <= i < |ps| && Opens(ps[i], k)
    decreases |ps|
  {
    if |ps| > 0 {
      var n := |ps| - 1;
      var prev := ps[..n];
      ClustersSnoc(ps, hundred);
      var d0 := Clusters(prev, hundred).value;
      ClustersKeys(prev, hundred);
      var r := ps[n].value;
      UcStepKeys(d0, r, hundred);
      var d := Clusters(ps, hundred).value;
      assert forall i :: 0 <= i < n ==> prev[i] == ps[i];
      forall k | k in d
        ensures exists i :: 0 <= i < |ps| && Opens(ps[i], k)
      {
        if k in d0 {
          var i :| 0 <= i < n && Opens(prev[i], k);
          assert Opens(ps[i], k);
        } else {
          assert Opens(ps[n], k);
        }
      }
      forall k, i | 0 <= i < |ps| && Opens(ps[i], k)
        ensures k in d
      {
        if i < n {
          assert Opens(prev[i], k);
        }
      }
    }
  }

  /** Every member of a cluster is the header, with a '>' put in front, of
      an "H" record of identity 100.0 and CIGAR "=" whose target is the
      cluster's key. */
  lemma {:induction false} ClustersMembers(ps: seq<Result<UcRecord>>, hundred: string -> bool)
    requires Clusters(ps, hundred).Ok?
    ensures var d := Clusters(ps, hundred).value;
      forall k, m :: k in d && m in d[k] ==> exists i :: 0 <= i < |ps| && Joins(ps[i], k, m, hundred)
    decreases |ps|
  {
    if |ps| > 0 {
      var n := |ps| - 1;
      var prev := ps[..n];
      ClustersSnoc(ps, hundred);
      var d0 := Clusters(prev, hundred).value;
      ClustersMembers(prev, hundred);
      var r := ps[n].value;
      UcStepMembers(d0, r, hundred);
      var d := Clusters(ps, hundred).value;
      assert forall i :: 0 <= i < n ==> prev[i] == ps[i];
      forall k, m | k in d && m in d[k]
        ensures exists i :: 0 <= i < |ps| && Joins(ps[i], k, m, hundred)
      {
        if k in d0 && m in d0[k] {
          var i :| 0 <= i < n && Joins(prev[i], k, m, hundred);
          assert Joins(ps[i], k, m, hundred);
        } else {
          assert Joins(ps[n], k, m, hundred);
        }
      }
    }
  }

  /** Over the lines of a file: the keys returned are exactly the headers
      of the "S" lines, and each member of a cluster comes from an "H"
      line of identity 100.0 and CIGAR "=" aimed at the cluster's key. */
  lemma ReadUcClusters(lines: seq<string>, hundred: string -> bool)
    requires ReadUc(lines, hundred).Ok?
    ensures var d := ReadUc(lines, hundred).value;
      forall k :: k in d <==> exists i :: 0 <= i < |lines| && Opens(ParseUcLine(lines[i]), k)
    ensures var d := ReadUc(lines, hundred).value;
      forall k, m :: k in d && m in d[k] ==> exists i :: 0 <= i < |lines| && Joins(ParseUcLine(lines[i]), k, m, hundred)
  {
    var ps := ParseAll(lines);
    ClustersKeys(ps, hundred);
    ClustersMembers(ps, hundred);
    assert forall i :: 0 <= i < |lines| ==> ps[i] == ParseUcLine(lines[i]);
  }

  /** Reading one more line applies it to the clusters of the lines
      before it. */
  lemma ReadUcSnoc(lines: seq<string>, line: string, hundred: string -> bool)
    ensures ReadUc(lines + [line], hundred) ==
      match ReadUc(lines, hundred)
      case Ok(d) => ApplyLine(d, ParseUcLine(line), hundred)
      case other => other
  {
    var ps := ParseAll(lines + [line]);
    assert ps[..|lines|] == ParseAll(lines);
  }

  /** A cluster record ("C") changes nothing. */
  lemma ClusterRecordIgnored(lines: seq<string>, line: string, hundred: string -> bool)
    requires ParseUcLine(line).Ok? && ParseUcLine(line).value.kind == "C"
    ensures ReadUc(lines + [line], hundred) == ReadUc(lines, hundred)
  {
    ReadUcSnoc(lines, line, hundred);
  }

  /** A line without exactly ten tab-separated fields stops the reading
      with ValueError. */
  lemma MalformedLineRaises(lines: seq<string>, line: string, hundred: string -> bool)
    requires ReadUc(lines, hundred).Ok? && |Split(Strip(line, WhiteSpace), "\t")| != 10
    ensures ReadUc(lines + [line], hundred) == Raise("ValueError")
  {
    ReadUcSnoc(lines, line, hundred);
  }

  /** An "H" line aimed at a header no "S" line before it opened stops the
      reading with KeyError. */
  lemma MissingRepresentativeRaises(lines: seq<string>, line: string, hundred: string -> bool)
    requires ReadUc(lines, hundred).Ok? && ParseUcLine(line).Ok?
    requires var r := ParseUcLine(line).value;
      r.kind == "H" && hundred(r.identity) && r.cigar == "="
      && forall i :: 0 <= i < |lines| ==> !Opens(ParseUcLine(lines[i]), ">" + r.target)
    ensures ReadUc(lines + [line], hundred) == Raise("KeyError")
  {
    var r := ParseUcLine(line).value;
    assert ">" + r.target !in ReadUc(lines, hundred).value by {
      ReadUcClusters(lines, hundred);
    }
    ReadUcSnoc(lines, line, hundred);
  }

  // ---------------------------------------------------------------------
  // create_new_fasta
  // ---------------------------------------------------------------------

  predicate NotGap(c: char)
  {
    c != '-' && c != '.'
  }

  /** The sequence as written: gaps removed unless `dashes` is set. */
  function Written(s: string, dashes: bool): string
  {
    if dashes then s else Filter(s, NotGap)
  }

  /** The two lines written for a record. */
  function EntryLines(x: ReferenceSequence, dashes: bool): seq<string>
  {
    [">" + x.shortId, Written(x.sequence, dashes)]
  }

  /** The text written for the records, in the given order. */
  function FastaText(s: Records, dashes: bool): string
    decreases |s|
  {
    if |s| == 0 then ""
    else
      var n := |s| - 1;
      FastaText(s[..n], dashes) + (">" + s[n].1.shortId) + "\n" + Written(s[n].1.sequence, dashes) + "\n"
  }

  /** The lines written for the records, in the given order. */
  function FastaLines(s: Records, dashes: bool): (r: seq<string>)
    ensures |r| == 2 * |s|
    decreases |s|
  {
    if |s| == 0 then [] else FastaLines(s[..|s| - 1], dashes) + EntryLines(s[|s| - 1].1, dashes)
  }

  /** `create_new_fasta(out_fasta, ref_seq_dict, dashes)`: the text written
      for the records in the order of their integer keys; with no record
      the program exits with status 5. */
  method CreateNewFasta(refSeqs: Records, dashes: bool) returns (r: Result<string>)
    ensures |refSeqs| == 0 ==> r == Exit(5)
    ensures |refSeqs| > 0 ==> r == Ok(FastaText(SortNatKeys(refSeqs), dashes))
  {
    var sorted := SortNatKeys(refSeqs);
    var text := "";
    var written := 0;
    for k := 0 to |sorted|
      invariant text == FastaText(sorted[..k], dashes) && written == k
    {
      PrefixSnoc(sorted, k);
      var sequence := if dashes then sorted[k].1.sequence else Filter(sorted[k].1.sequence, NotGap);
      text := text + (">" + sorted[k].1.shortId) + "\n" + sequence + "\n";
      written := written + 1;
    }
    if written == 0 {
      return Exit(5);
    }
    TakeAll(sorted);
    r := Ok(text);
  }

  /** Without `dashes` no sequence written holds a gap; with it every
      sequence is written as it is. */
  lemma WrittenGaps(s: string, dashes: bool)
    ensures !dashes ==> '-' !in Written(s, dashes) && '.' !in Written(s, dashes)
    ensures dashes ==> Written(s, dashes) == s
  {
  }

  /** Appending a line to lines that each end in a line break. */
  lemma JoinLineSnoc(lines: seq<string>, line: string)
    ensures Join(lines + [line] + [""], "\n") == Join(lines + [""], "\n") + line + "\n"
  {
    JoinSnoc(lines + [line], "", "\n");
    if |lines| > 0 {
      JoinSnoc(lines, line, "\n");
      JoinSnoc(lines, "", "\n");
      ConcatAssoc(Join(lines, "\n") + "\n", line, "\n");
    } else {
      assert lines + [line] == [line];
      assert lines + [""] == [""];
    }
  }

  /** The text is its lines, each ended by a line break. */
  lemma {:induction false} FastaTextJoin(s: Records, dashes: bool)
    ensures FastaText(s, dashes) == Join(FastaLines(s, dashes) + [""], "\n")
    decreases |s|
  {
    if |s| > 0 {
      var n := |s| - 1;
      var lines := FastaLines(s[..n], dashes);
      var h, q := ">" + s[n].1.shortId, Written(s[n].1.sequence, dashes);
      assert FastaLines(s, dashes) + [""] == lines + [h] + [q] + [""];
      assert FastaText(s, dashes) == FastaText(s[..n], dashes) + h + "\n" + q + "\n";
      FastaTextJoin(s[..n], dashes);
      JoinLineSnoc(lines + [h], q);
      JoinLineSnoc(lines, h);
    }
  }

  /** Reading the text back by lines gives a header line and a sequence
      line per record, in order, when no short id or sequence holds a line
      break. */
  lemma FastaTextLines(s: Records, dashes: bool)
    requires forall k :: 0 <= k < |s| ==> '\n' !in s[k].1.shortId && '\n' !in s[k].1.sequence
    ensures Split(FastaText(s, dashes), "\n") == FastaLines(s, dashes) + [""]
  {
    FastaTextJoin(s, dashes);
    FastaLinesPlain(s, dashes);
    var parts := FastaLines(s, dashes) + [""];
    forall k | 0 <= k < |parts|
      ensures "\n"[0] !in parts[k]
    {
      if k < |parts| - 1 {
        assert parts[k] == FastaLines(s, dashes)[k];
      }
    }
    SplitJoin(parts, "\n");
  }

  lemma {:induction false} FastaLinesPlain(s: Records, dashes: bool)
    requires forall k :: 0 <= k < |s| ==> '\n' !in s[k].1.shortId && '\n' !in s[k].1.sequence
    ensures forall k :: 0 <= k < |FastaLines(s, dashes)| ==> '\n' !in FastaLines(s, dashes)[k]
    decreases |s|
  {
    if |s| > 0 {
      var n := |s| - 1;
      var lines := FastaLines(s[..n], dashes);
      FastaLinesPlain(s[..n], dashes);
      var x := s[n].1;
      var h, q := ">" + x.shortId, Written(x.sequence, dashes);
      assert '\n' !in q;
      assert '\n' !in h;
      assert FastaLines(s, dashes) == lines + [h, q];
    }
  }

  /** Line 2k of the text is the header of the record with the k-th
      smallest key and line 2k + 1 its sequence. */
  lemma {:induction false} FastaLinesAt(s: Records, dashes: bool, k: nat)
    requires k < |s|
    ensures FastaLines(s, dashes)[2 * k] == ">" + s[k].1.shortId
    ensures FastaLines(s, dashes)[2 * k + 1] == Written(s[k].1.sequence, dashes)
    decreases |s|
  {
    var n := |s| - 1;
    if k < n {
      FastaLinesAt(s[..n], dashes, k);
    }
  }
}
