/** The string and dictionary helpers of `treesapp/update_refpkg.py`:
    stripping the `|refpkg|start_end` tag from assigned sequence names,
    rewriting reference descriptions, mapping classified sequences to their
    lineages, and rendering a dictionary as a table. */
module UpdateRefpkg {
  import opened Wrappers
  import opened PyStrings
  import opened Collections

  // ---------------------------------------------------------------------
  // strip_assigment_pattern
  // ---------------------------------------------------------------------

  predicate IsDigit(c: char)
  {
    '0' <= c <= '9'
  }

  /** The digits of t, before and after an underscore at k. */
  predicate DigitsAround(t: string, k: nat)
  {
    0 < k < |t| - 1 && t[k] == '_'
    && (forall i :: 0 <= i < k ==> IsDigit(t[i]))
    && (forall i :: k < i < |t| ==> IsDigit(t[i]))
  }

  /** `\d+_\d+` spanning the whole string. */
  predicate DigitsPair(t: string)
  {
    exists k: nat | k < |t| :: DigitsAround(t, k)
  }

  /** The tag TreeSAPP appends to an assigned sequence name. */
  function Tag(refpkg: string): string
  {
    "|" + refpkg + "|"
  }

  /** `\|refpkg\|\d+_\d+` spanning the whole string. */
  predicate AssignmentSuffix(t: string, refpkg: string)
  {
    StartsWith(t, Tag(refpkg)) && DigitsPair(t[|Tag(refpkg)|..])
  }

  /** The leftmost position at or after q where an assignment suffix starts
      and runs to the end of s. */
  function FirstSuffix(s: string, refpkg: string, q: nat): (r: Option<nat>)
    requires q <= |s|
    ensures r.Some? ==> q <= r.value <= |s| && AssignmentSuffix(s[r.value..], refpkg)
    ensures r.Some? ==> forall p :: q <= p < r.value ==> !AssignmentSuffix(s[p..], refpkg)
    ensures r.None? ==> forall p :: q <= p <= |s| ==> !AssignmentSuffix(s[p..], refpkg)
    decreases |s| - q
  {
    if AssignmentSuffix(s[q..], refpkg) then Some(q)
    else if q == |s| then None
    else FirstSuffix(s, refpkg, q + 1)
  }

  /** The part of s that `$` lets the pattern end at: everything but a final
      newline. */
  function Body(s: string): string
  {
    if |s| > 0 && s[|s| - 1] == '\n' then s[..|s| - 1] else s
  }

  /** `re.sub(r"\|refpkg\|\d+_\d+$", '', s)`: the leftmost match, which
      ends at the end of the string or just before a final newline, is
      removed. */
  function StripAssignment(s: string, refpkg: string): string
  {
    var body := Body(s);
    match FirstSuffix(body, refpkg, 0)
    case None => s
    case Some(p) => s[..p] + s[|body|..]
  }

  /** A name changes exactly when it ends in an assignment suffix. */
  lemma StripAssignmentChanges(s: string, refpkg: string)
    ensures StripAssignment(s, refpkg) == s <==>
      forall p :: 0 <= p <= |Body(s)| ==> !AssignmentSuffix(Body(s)[p..], refpkg)
  {
    var body := Body(s);
    match FirstSuffix(body, refpkg, 0)
    case None =>
    case Some(p) =>
      var k: nat :| k < |body[p..][|Tag(refpkg)|..]| && DigitsAround(body[p..][|Tag(refpkg)|..], k);
      assert |StripAssignment(s, refpkg)| < |s|;
  }

  /** In an assignment suffix the only '|' after the first character is the
      one that closes the tag, when the package name holds none. */
  lemma SuffixPipes(u: string, refpkg: string)
    requires '|' !in refpkg
    ensures AssignmentSuffix(u, refpkg) ==>
      forall i :: 1 <= i < |u| && u[i] == '|' ==> i == |refpkg| + 1
  {
    if AssignmentSuffix(u, refpkg) {
      var tag := Tag(refpkg);
      var digits := u[|tag|..];
      var k: nat :| k < |digits| && DigitsAround(digits, k);
      assert u[..|tag|] == tag;
      forall i | 1 <= i < |u| && i != |refpkg| + 1
        ensures u[i] != '|'
      {
        if i < |refpkg| + 1 {
          assert u[i] == tag[i] == refpkg[i - 1];
        } else {
          assert u[i] == digits[i - |tag|];
        }
      }
    }
  }

  /** The digits of a natural number, with an underscore and another
      number, form a `\d+_\d+` pair. */
  lemma DigitsPairOf(a: nat, b: nat)
    ensures DigitsPair(NatToString(a) + "_" + NatToString(b))
  {
    var x := NatToString(a);
    var y := NatToString(b);
    var t := x + "_" + y;
    NatToStringDigits(a);
    NatToStringDigits(b);
    forall i | 0 <= i < |x|
      ensures IsDigit(t[i])
    {
      assert t[i] == x[i] && x[i] in x;
    }
    forall i | |x| < i < |t|
      ensures IsDigit(t[i])
    {
      assert t[i] == y[i - |x| - 1] && y[i - |x| - 1] in y;
    }
    assert DigitsAround(t, |x|);
  }

  /** A name followed by an assignment suffix comes back as the name, when
      the package name holds no '|' and the suffix does not end in a
      newline. */
  lemma StripSuffixed(base: string, suffix: string, refpkg: string)
    requires '|' !in refpkg && AssignmentSuffix(suffix, refpkg)
    requires suffix[|suffix| - 1] != '\n'
    ensures StripAssignment(base + suffix, refpkg) == base
  {
    var s := base + suffix;
    var t := Tag(refpkg);
    assert suffix[..|t|] == t;
    assert s[|s| - 1] == suffix[|suffix| - 1];
    assert Body(s) == s;
    assert s[|base|..] == suffix;
    forall q | 0 <= q < |base|
      ensures !AssignmentSuffix(s[q..], refpkg)
    {
      SuffixPipes(s[q..], refpkg);
      assert s[q..][|base| - q] == suffix[0] == t[0];
      assert s[q..][|base| - q + |refpkg| + 1] == suffix[|refpkg| + 1] == t[|refpkg| + 1];
    }
    var r := FirstSuffix(s, refpkg, 0);
    assert r == Some(|base|) by {
      assert r.Some?;
      assert !(r.value < |base|);
      assert !(r.value > |base|);
    }
    assert s[..|base|] == base;
  }

  /** Stripping undoes the tagging of an assigned name: a name followed by
      `|refpkg|start_end` comes back as the name, when the package name holds
      no '|'. */
  lemma StripTagged(base: string, refpkg: string, a: nat, b: nat)
    requires '|' !in refpkg
    ensures StripAssignment(base + Tag(refpkg) + NatToString(a) + "_" + NatToString(b), refpkg) == base
  {
    var x, y := NatToString(a), NatToString(b);
    TaggedSuffix(refpkg, a, b);
    TaggedShape(base, Tag(refpkg), x, y);
    StripSuffixed(base, Tag(refpkg) + (x + "_" + y), refpkg);
  }

  lemma TaggedShape(base: string, t: string, x: string, y: string)
    ensures base + t + x + "_" + y == base + (t + (x + "_" + y))
  {
    ConcatAssoc(base + t, x, "_");
    ConcatAssoc(base + t, x + "_", y);
    ConcatAssoc(base, t, x + "_" + y);
  }

  /** `|refpkg|start_end` is an assignment suffix that ends in a digit. */
  lemma TaggedSuffix(refpkg: string, a: nat, b: nat)
    ensures var suffix := Tag(refpkg) + (NatToString(a) + "_" + NatToString(b));
      AssignmentSuffix(suffix, refpkg) && suffix[|suffix| - 1] != '\n'
  {
    var digits := NatToString(a) + "_" + NatToString(b);
    var suffix := Tag(refpkg) + digits;
    DigitsPairOf(a, b);
    NatToStringDigits(b);
    var y := NatToString(b);
    assert suffix[|suffix| - 1] == y[|y| - 1] && y[|y| - 1] in y;
    assert suffix[..|Tag(refpkg)|] == Tag(refpkg) && suffix[|Tag(refpkg)|..] == digits;
  }

  /** `strip_assigment_pattern(seq_names, refpkg_name)`: every name maps to
      itself with its assignment suffix removed. */
  function StripAssignmentPattern(names: seq<string>, refpkg: string): (m: map<string, string>)
    ensures m.Keys == set n | n in names
  {
    map n | n in names :: StripAssignment(n, refpkg)
  }

  // ---------------------------------------------------------------------
  // reformat_ref_seq_descriptions
  // ---------------------------------------------------------------------

  const DescSep := " | "

  /** The leading '>' of a header removed. */
  function Unchevron(d: string): string
  {
    if |d| > 0 && d[0] == '>' then d[1..] else d
  }

  /** One description as the source computes it: unpacking the split into
      two names raises `ValueError` unless there are exactly two parts, and
      the handler only catches `IndexError`. */
  function DescriptionAsWritten(v: string): Result<string>
  {
    var parts := Split(v, DescSep);
    if |parts| != 2 then Raise("ValueError")
    else
      var d := if |parts[0]| > 0 && |parts[1]| > 0 then parts[1] + " [" + parts[0] + "]" else v;
      Ok(Unchevron(d))
  }

  /** One description as the handler evidently means it: "organism |
      accession" with both parts becomes "accession [organism]", anything
      else is kept, and one leading '>' is removed. */
  function Description(v: string): string
  {
    var parts := Split(v, DescSep);
    var d := if |parts| == 2 && |parts[0]| > 0 && |parts[1]| > 0 then parts[1] + " [" + parts[0] + "]" else v;
    Unchevron(d)
  }

  /** A description without " | " stops the source with `ValueError`
      instead of being kept. */
  lemma DescriptionAsWrittenRaises()
    ensures DescriptionAsWritten("abc") == Raise("ValueError")
    ensures Description("abc") == "abc"
  {
    assert !OccursAt("abc", DescSep, 0) by {
      assert "abc"[0..3][0] == 'a';
    }
    assert FindFrom("abc", DescSep, 0).None?;
  }

  /** Where the source does not raise, it agrees with the intended rewrite. */
  lemma DescriptionAgrees(v: string)
    requires |Split(v, DescSep)| == 2
    ensures DescriptionAsWritten(v) == Ok(Description(v))
  {
  }

  /** Two non-empty parts are swapped around brackets; the description is
      exactly the two parts around " | ". */
  lemma DescriptionSwapped(v: string, org: string, acc: string)
    requires Split(v, DescSep) == [org, acc] && |org| > 0 && |acc| > 0
    ensures Description(v) == Unchevron(acc + " [" + org + "]")
    ensures v == org + DescSep + acc
  {
    JoinSplit(v, DescSep);
    assert Join([org, acc], DescSep) == org + DescSep + acc;
  }

  /** Anything else is kept, apart from a leading '>'. */
  lemma DescriptionKept(v: string)
    requires var parts := Split(v, DescSep); !(|parts| == 2 && |parts[0]| > 0 && |parts[1]| > 0)
    ensures Description(v) == Unchevron(v)
  {
  }

  /** `reformat_ref_seq_descriptions`: every identifier keeps its place and
      gets its rewritten description. */
  method ReformatRefSeqDescriptions(headers: seq<(string, string)>) returns (r: seq<(string, string)>)
    ensures |r| == |headers|
    ensures forall k :: 0 <= k < |headers| ==> r[k] == (headers[k].0, Description(headers[k].1))
  {
    r := [];
    for k := 0 to |headers|
      invariant |r| == k
      invariant forall j :: 0 <= j < k ==> r[j] == (headers[j].0, Description(headers[j].1))
    {
      var parts := Split(headers[k].1, DescSep);
      var d := headers[k].1;
      if |parts| == 2 && |parts[0]| > 0 && |parts[1]| > 0 {
        d := parts[1] + " [" + parts[0] + "]";
      }
      if |d| > 0 && d[0] == '>' {
        d := d[1..];
      }
      r := r + [(headers[k].0, d)];
    }
  }

  // ---------------------------------------------------------------------
  // map_classified_seqs
  // ---------------------------------------------------------------------

  /** `assignments[ref_pkg_name]`: lineages and the names classified under
      them, in dictionary order. */
  type Assignments = seq<(string, seq<string>)>

  /** The first lineage that lists t. */
  function FirstLineage(t: string, lineages: Assignments): Option<string>
    decreases |lineages|
  {
    if |lineages| == 0 then None
    else
      var n := |lineages| - 1;
      match FirstLineage(t, lineages[..n])
      case Some(l) => Some(l)
      case None => if t in lineages[n].1 then Some(lineages[n].0) else None
  }

  /** FirstLineage names the lineage of the first entry that lists t, and is
      None exactly when no entry lists it. */
  lemma {:induction false} FirstLineageSpec(t: string, lineages: Assignments)
    ensures FirstLineage(t, lineages).None? <==> forall k :: 0 <= k < |lineages| ==> t !in lineages[k].1
    ensures FirstLineage(t, lineages).Some? ==>
      exists k :: FirstListing(t, lineages, k) && lineages[k].0 == FirstLineage(t, lineages).value
    decreases |lineages|
  {
    if |lineages| > 0 {
      var n := |lineages| - 1;
      FirstLineageSpec(t, lineages[..n]);
      assert forall k :: 0 <= k < n ==> lineages[..n][k] == lineages[k];
      if FirstLineage(t, lineages[..n]).Some? {
        var k :| FirstListing(t, lineages[..n], k) && lineages[..n][k].0 == FirstLineage(t, lineages[..n]).value;
        assert FirstListing(t, lineages, k);
      } else if t in lineages[n].1 {
        assert FirstListing(t, lineages, n);
      }
    }
  }

  /** Entry k is the first that lists t. */
  predicate FirstListing(t: string, lineages: Assignments, k: int)
  {
    0 <= k < |lineages| && t in lineages[k].1 && forall j :: 0 <= j < k ==> t !in lineages[j].1
  }

  /** The names whose stripped form no lineage lists, in order. */
  function Pending(refpkg: string, lineages: Assignments, names: seq<string>): seq<string>
    decreases |names|
  {
    if |names| == 0 then []
    else
      var n := |names| - 1;
      Pending(refpkg, lineages, names[..n])
      + if FirstLineage(StripAssignment(names[n], refpkg), lineages).None? then [names[n]] else []
  }

  /** The names of `pending` whose stripped form the list does not hold. */
  function Unlisted(refpkg: string, listed: seq<string>, pending: seq<string>): seq<string>
    decreases |pending|
  {
    if |pending| == 0 then []
    else
      var n := |pending| - 1;
      Unlisted(refpkg, listed, pending[..n])
      + if StripAssignment(pending[n], refpkg) in listed then [] else [pending[n]]
  }

  /** m maps every name some lineage lists to the first such lineage, and
      holds nothing else. */
  ghost predicate Classified(refpkg: string, lineages: Assignments, names: seq<string>, m: map<string, string>)
  {
    (forall n :: n in m <==> n in names && FirstLineage(StripAssignment(n, refpkg), lineages).Some?)
    && forall n :: n in m ==> m[n] == FirstLineage(StripAssignment(n, refpkg), lineages).value
  }

  /** One more lineage drops the names it lists from the pending ones. */
  lemma {:induction false} PendingSnoc(refpkg: string, lineages: Assignments, i: nat, names: seq<string>)
    requires i < |lineages|
    ensures Pending(refpkg, lineages[..i + 1], names)
      == Unlisted(refpkg, lineages[i].1, Pending(refpkg, lineages[..i], names))
    decreases |names|
  {
    if |names| > 0 {
      var n := |names| - 1;
      var t := StripAssignment(names[n], refpkg);
      PendingSnoc(refpkg, lineages, i, names[..n]);
      FirstLineageSnoc(t, lineages, i);
      var before := Pending(refpkg, lineages[..i], names[..n]);
      if FirstLineage(t, lineages[..i]).None? {
        assert Pending(refpkg, lineages[..i], names) == before + [names[n]];
        UnlistedSnoc(refpkg, lineages[i].1, before, names[n]);
      } else {
        assert Pending(refpkg, lineages[..i], names) == before + [];
        assert before + [] == before;
      }
    }
  }

  /** A name is unlisted by one more lineage exactly when it was unlisted
      before and the new lineage does not list it. */
  lemma FirstLineageSnoc(t: string, lineages: Assignments, i: nat)
    requires i < |lineages|
    ensures FirstLineage(t, lineages[..i + 1]).None? <==>
      FirstLineage(t, lineages[..i]).None? && t !in lineages[i].1
  {
    assert lineages[..i + 1][..i] == lineages[..i];
  }

  lemma UnlistedSnoc(refpkg: string, listed: seq<string>, pending: seq<string>, x: string)
    ensures Unlisted(refpkg, listed, pending + [x])
      == Unlisted(refpkg, listed, pending) + if StripAssignment(x, refpkg) in listed then [] else [x]
  {
    assert (pending + [x])[..|pending|] == pending;
  }

  lemma {:induction false} PendingMembers(refpkg: string, lineages: Assignments, names: seq<string>)
    ensures forall n :: n in Pending(refpkg, lineages, names) <==>
      n in names && FirstLineage(StripAssignment(n, refpkg), lineages).None?
    decreases |names|
  {
    if |names| > 0 {
      var n := |names| - 1;
      PendingMembers(refpkg, lineages, names[..n]);
      assert names == names[..n] + [names[n]];
    }
  }

  /** The names left over are exactly those that no lineage lists; there are
      none left exactly when every name is listed somewhere. */
  lemma PendingEmpty(refpkg: string, lineages: Assignments, names: seq<string>)
    ensures |Pending(refpkg, lineages, names)| == 0 <==>
      forall n :: n in names ==> exists k :: 0 <= k < |lineages| && StripAssignment(n, refpkg) in lineages[k].1
  {
    PendingMembers(refpkg, lineages, names);
    var p := Pending(refpkg, lineages, names);
    if |p| > 0 {
      assert p[0] in p;
      FirstLineageSpec(StripAssignment(p[0], refpkg), lineages);
    } else {
      forall n | n in names
        ensures exists k :: 0 <= k < |lineages| && StripAssignment(n, refpkg) in lineages[k].1
      {
        FirstLineageSpec(StripAssignment(n, refpkg), lineages);
        var k :| FirstListing(StripAssignment(n, refpkg), lineages, k)
          && lineages[k].0 == FirstLineage(StripAssignment(n, refpkg), lineages).value;
      }
    }
  }

  /** The classification after one more lineage. */
  lemma ClassifiedStep(refpkg: string, lineages: Assignments, i: nat, names: seq<string>,
                       m: map<string, string>, m': map<string, string>)
    requires i < |lineages| && Classified(refpkg, lineages[..i], names, m)
    requires forall n :: n in m' <==>
      n in m || (n in Pending(refpkg, lineages[..i], names) && StripAssignment(n, refpkg) in lineages[i].1)
    requires forall n :: n in m' ==> m'[n] == if n in m then m[n] else lineages[i].0
    ensures Classified(refpkg, lineages[..i + 1], names, m')
  {
    assert lineages[..i + 1][..i] == lineages[..i];
    PendingMembers(refpkg, lineages[..i], names);
  }

  /** The inner loop of `map_classified_seqs` for one lineage: a name whose
      stripped form it lists is mapped to it and popped, otherwise the index
      moves on. */
  method PopListed(refpkg: string, lineage: string, listed: seq<string>, pending: seq<string>,
                   m: map<string, string>)
    returns (left: seq<string>, m': map<string, string>)
    requires forall n :: n in pending ==> n !in m
    ensures left == Unlisted(refpkg, listed, pending)
    ensures forall n :: n in m' <==> n in m || (n in pending && StripAssignment(n, refpkg) in listed)
    ensures forall n :: n in m' ==> m'[n] == if n in m then m[n] else lineage
  {
    left := pending;
    m' := m;
    var x := 0;
    ghost var k := 0;
    while x < |left|
      invariant 0 <= k <= |pending| && x <= |left|
      invariant x == |Unlisted(refpkg, listed, pending[..k])|
      invariant left == Unlisted(refpkg, listed, pending[..k]) + pending[k..]
      invariant m' == Assigned(refpkg, lineage, listed, pending[..k], m)
      decreases |left| - x
    {
      var seqName := left[x];
      PopFront(refpkg, listed, pending, k, left);
      AssignedStep(refpkg, lineage, listed, pending, k, m);
      var original := StripAssignment(seqName, refpkg);
      if original in listed {
        m' := m'[seqName := lineage];
        left := left[..x] + left[x + 1..];
      } else {
        x := x + 1;
      }
      k := k + 1;
    }
    assert |left| == x + (|pending| - k);
    TakeAll(pending);
    AssignedMembers(refpkg, lineage, listed, pending, m);
  }

  /** The map after the names of `seen` whose stripped form the list holds
      are mapped to the lineage, one after another. */
  function Assigned(refpkg: string, lineage: string, listed: seq<string>, seen: seq<string>,
                    m: map<string, string>): map<string, string>
    decreases |seen|
  {
    if |seen| == 0 then m
    else
      var n := |seen| - 1;
      var before := Assigned(refpkg, lineage, listed, seen[..n], m);
      if StripAssignment(seen[n], refpkg) in listed then before[seen[n] := lineage] else before
  }

  lemma AssignedStep(refpkg: string, lineage: string, listed: seq<string>, pending: seq<string>,
                     k: nat, m: map<string, string>)
    requires k < |pending|
    ensures Assigned(refpkg, lineage, listed, pending[..k + 1], m)
      == if StripAssignment(pending[k], refpkg) in listed
         then Assigned(refpkg, lineage, listed, pending[..k], m)[pending[k] := lineage]
         else Assigned(refpkg, lineage, listed, pending[..k], m)
  {
    PrefixSnoc(pending, k);
  }

  /** The names added are exactly the listed ones, each mapped to the
      lineage, when none of them was mapped before. */
  lemma {:induction false} AssignedMembers(refpkg: string, lineage: string, listed: seq<string>,
                                           seen: seq<string>, m: map<string, string>)
    requires forall n :: n in seen ==> n !in m
    ensures forall n :: n in Assigned(refpkg, lineage, listed, seen, m) <==>
      n in m || (n in seen && StripAssignment(n, refpkg) in listed)
    ensures forall n :: n in Assigned(refpkg, lineage, listed, seen, m) ==>
      Assigned(refpkg, lineage, listed, seen, m)[n] == if n in m then m[n] else lineage
    decreases |seen|
  {
    if |seen| > 0 {
      var n := |seen| - 1;
      PrefixMembers(seen, n);
      assert seen[..n + 1] == seen;
      AssignedMembers(refpkg, lineage, listed, seen[..n], m);
    }
  }

  /** One step of the inner loop: the name at the index is the next one of
      `pending`, and popping it or stepping past it keeps the list equal to
      the names seen so far that survive, followed by those not seen yet. */
  lemma PopFront(refpkg: string, listed: seq<string>, pending: seq<string>, k: nat, left: seq<string>)
    requires k < |pending|
    requires left == Unlisted(refpkg, listed, pending[..k]) + pending[k..]
    ensures var x := |Unlisted(refpkg, listed, pending[..k])|;
      x < |left| && left[x] == pending[k]
      && if StripAssignment(pending[k], refpkg) in listed then
        left[..x] + left[x + 1..] == Unlisted(refpkg, listed, pending[..k + 1]) + pending[k + 1..]
        && x == |Unlisted(refpkg, listed, pending[..k + 1])|
      else
        left == Unlisted(refpkg, listed, pending[..k + 1]) + pending[k + 1..]
        && x + 1 == |Unlisted(refpkg, listed, pending[..k + 1])|
  {
    var u := Unlisted(refpkg, listed, pending[..k]);
    PopSplit(u, pending, k, left);
    if StripAssignment(pending[k], refpkg) in listed {
      UnlistedDrop(refpkg, listed, pending, k);
    } else {
      UnlistedKeep(refpkg, listed, pending, k);
      ConcatAssoc(u, [pending[k]], pending[k + 1..]);
    }
  }

  lemma PopSplit(u: seq<string>, pending: seq<string>, k: nat, left: seq<string>)
    requires k < |pending| && left == u + pending[k..]
    ensures |u| < |left| && left[|u|] == pending[k]
    ensures left[..|u|] + left[|u| + 1..] == u + pending[k + 1..]
    ensures left == u + [pending[k]] + pending[k + 1..]
  {
    assert pending[k..] == [pending[k]] + pending[k + 1..];
    assert left[..|u|] == u;
  }

  /** A name whose stripped form the list holds is dropped. */
  lemma UnlistedDrop(refpkg: string, listed: seq<string>, pending: seq<string>, k: nat)
    requires k < |pending| && StripAssignment(pending[k], refpkg) in listed
    ensures Unlisted(refpkg, listed, pending[..k + 1]) == Unlisted(refpkg, listed, pending[..k])
  {
    PrefixSnoc(pending, k);
    assert Unlisted(refpkg, listed, pending[..k + 1]) == Unlisted(refpkg, listed, pending[..k]) + [];
  }

  /** Any other name is kept. */
  lemma UnlistedKeep(refpkg: string, listed: seq<string>, pending: seq<string>, k: nat)
    requires k < |pending| && StripAssignment(pending[k], refpkg) !in listed
    ensures Unlisted(refpkg, listed, pending[..k + 1]) == Unlisted(refpkg, listed, pending[..k]) + [pending[k]]
  {
    PrefixSnoc(pending, k);
  }

  /** `map_classified_seqs`: the names of `unmapped` are mapped, lineage by
      lineage, to the first lineage that lists their stripped form; any name
      left over stops the run with exit status 5. The second result is
      `unmapped_seqs` as the source leaves it. */
  method MapClassifiedSeqs(refpkg: string, lineages: Assignments, unmapped: seq<string>)
    returns (r: Result<map<string, string>>, left: seq<string>)
    ensures left == Pending(refpkg, lineages, unmapped)
    ensures |left| > 0 <==> r == Exit(5)
    ensures |left| == 0 ==> r.Ok? && Classified(refpkg, lineages, unmapped, r.value)
  {
    var m: map<string, string> := map[];
    left := unmapped;
    assert lineages[..0] == [];
    PendingNone(refpkg, unmapped);
    for i := 0 to |lineages|
      invariant left == Pending(refpkg, lineages[..i], unmapped)
      invariant Classified(refpkg, lineages[..i], unmapped, m)
    {
      PendingMembers(refpkg, lineages[..i], unmapped);
      var m';
      left, m' := PopListed(refpkg, lineages[i].0, lineages[i].1, left, m);
      ClassifiedStep(refpkg, lineages, i, unmapped, m, m');
      PendingSnoc(refpkg, lineages, i, unmapped);
      m := m';
    }
    TakeAll(lineages);
    if |left| > 0 {
      r := Exit(5);
    } else {
      r := Ok(m);
    }
  }

  /** With no lineages every name is pending. */
  lemma {:induction false} PendingNone(refpkg: string, names: seq<string>)
    ensures Pending(refpkg, [], names) == names
    decreases |names|
  {
    if |names| > 0 {
      var n := |names| - 1;
      PendingNone(refpkg, names[..n]);
      assert names == names[..n] + [names[n]];
    }
  }

  // ---------------------------------------------------------------------
  // write_dict_to_table
  // ---------------------------------------------------------------------

  /** The value types `write_dict_to_table` meets: a string, a list of
      strings, or anything else. */
  datatype TableValue = Str(s: string) | Strs(items: seq<string>) | Other

  /** One row: the key and the value, or the key and the values, joined by
      the separator. */
  function TableRow(key: string, v: TableValue, sep: string): Option<string>
  {
    match v
    case Str(s) => Some(Join([key, s], sep))
    case Strs(items) => Some(Join([key, Join(items, sep)], sep))
    case Other => None
  }

  /** The rows of the dictionary, or exit status 5 at the first value of
      another type. */
  function TableRows(items: seq<(string, TableValue)>, sep: string): Result<seq<string>>
    decreases |items|
  {
    if |items| == 0 then Ok([])
    else
      var n := |items| - 1;
      match TableRows(items[..n], sep)
      case Ok(rows) =>
        (match TableRow(items[n].0, items[n].1, sep)
         case Some(row) => Ok(rows + [row])
         case None => Exit(5))
      case other => other
  }

  /** What `write_dict_to_table` writes: the rows, one per line. */
  function TableText(items: seq<(string, TableValue)>, sep: string): Result<string>
  {
    match TableRows(items, sep)
    case Ok(rows) => Ok(Join(rows, "\n") + "\n")
    case Exit(code) => Exit(code)
    case Raise(error) => Raise(error)
  }

  /** `write_dict_to_table` up to opening the file: the rows are built in
      dictionary order, a value of another type exits with status 5. */
  method WriteDictToTable(items: seq<(string, TableValue)>, sep: string) returns (r: Result<string>)
    ensures r == TableText(items, sep)
  {
    var rows: seq<string> := [];
    for k := 0 to |items|
      invariant TableRows(items[..k], sep) == Ok(rows)
    {
      PrefixSnoc(items, k);
      var v := items[k].1;
      if v.Str? {
        rows := rows + [Join([items[k].0, v.s], sep)];
      } else if v.Strs? {
        rows := rows + [Join([items[k].0, Join(v.items, sep)], sep)];
      } else {
        TableRowsExit(items, sep, k);
        return Exit(5);
      }
    }
    TakeAll(items);
    r := Ok(Join(rows, "\n") + "\n");
  }

  /** A value of another type anywhere stops the whole table. */
  lemma {:induction false} TableRowsExit(items: seq<(string, TableValue)>, sep: string, k: nat)
    requires k < |items| && items[k].1.Other?
    ensures TableRows(items, sep) == Exit(5)
    ensures TableText(items, sep) == Exit(5)
    decreases |items|
  {
    var n := |items| - 1;
    if k < n {
      TableRowsExit(items[..n], sep, k);
    } else {
      if TableRows(items[..n], sep).Ok? {
      } else {
        TableRowsNotOk(items[..n], sep);
      }
    }
  }

  /** The only failure of the rows is exit status 5. */
  lemma {:induction false} TableRowsNotOk(items: seq<(string, TableValue)>, sep: string)
    ensures !TableRows(items, sep).Ok? ==> TableRows(items, sep) == Exit(5)
    decreases |items|
  {
    if |items| > 0 {
      TableRowsNotOk(items[..|items| - 1], sep);
    }
  }

  /** With only strings and lists of strings, there is one row per key, in
      order. */
  lemma {:induction false} TableRowsOk(items: seq<(string, TableValue)>, sep: string)
    requires forall k :: 0 <= k < |items| ==> !items[k].1.Other?
    ensures TableRows(items, sep).Ok?
    ensures |TableRows(items, sep).value| == |items|
    ensures forall k :: 0 <= k < |items| ==>
      Some(TableRows(items, sep).value[k]) == TableRow(items[k].0, items[k].1, sep)
    decreases |items|
  {
    if |items| > 0 {
      var n := |items| - 1;
      TableRowsOk(items[..n], sep);
      assert forall k :: 0 <= k < n ==> items[..n][k] == items[k];
    }
  }

  /** The fields of a row: the key followed by the value or by the values
      (an empty list leaves one empty field). */
  function RowFields(key: string, v: TableValue): seq<string>
  {
    match v
    case Str(s) => [key, s]
    case Strs(items) => if |items| == 0 then [key, ""] else [key] + items
    case Other => [key]
  }

  /** Splitting a row at the separator gives the key and the values back,
      when no key or value holds the separator's first character. */
  lemma RowRoundTrip(key: string, v: TableValue, sep: string)
    requires |sep| > 0 && !v.Other?
    requires sep[0] !in key
    requires v.Str? ==> sep[0] !in v.s
    requires v.Strs? ==> forall k :: 0 <= k < |v.items| ==> sep[0] !in v.items[k]
    ensures Split(TableRow(key, v, sep).value, sep) == RowFields(key, v)
  {
    match v
    case Str(s) =>
      SplitJoin([key, s], sep);
    case Strs(items) =>
      if |items| == 0 {
        SplitJoin([key, ""], sep);
      } else {
        ListRowRoundTrip(key, items, sep);
      }
  }

  lemma ListRowRoundTrip(key: string, items: seq<string>, sep: string)
    requires |sep| > 0 && |items| > 0 && sep[0] !in key
    requires forall k :: 0 <= k < |items| ==> sep[0] !in items[k]
    ensures Split(Join([key, Join(items, sep)], sep), sep) == [key] + items
  {
    var fields := [key] + items;
    JoinCons(key, items, sep);
    assert Join([key, Join(items, sep)], sep) == key + sep + Join(items, sep);
    assert forall k :: 1 <= k < |fields| ==> fields[k] == items[k - 1];
    SplitJoin(fields, sep);
  }
}
