/**
 * What RAxML's parsimony tree builders do before and after building: the
 * random taxon order (`makePermutation`), the filter that drops
 * parsimony-uninformative sites and compacts the site tables in place
 * (`determineUninformativeSites`, `sortInformativeSites`), and the copies
 * of the tables that are restored once the tree is built.
 */
module ParsimonySetup {
  import opened ParsimonyKernels
  import opened ParsimonyTree

  // ---------------------------------------------------------------------
  // makePermutation

  /** The numbers lo, lo + 1, ..., hi - 1. */
  function Range(lo: nat, hi: nat): (r: seq<nat>)
    requires lo <= hi
    ensures |r| == hi - lo && forall k :: 0 <= k < |r| ==> r[k] == lo + k
    decreases hi - lo
  {
    if lo == hi then [] else [lo] + Range(lo + 1, hi)
  }

  /** Every swap of round i stays inside `perm[i..n]`: RAxML asserts
      `i + k <= n` for the k drawn in round i (`ks[i - 1]`). */
  predicate DrawsInRange(n: nat, ks: seq<nat>)
    requires |ks| == n
  {
    forall i :: 1 <= i <= n ==> DrawOk(n, ks, i)
  }

  predicate DrawOk(n: nat, ks: seq<nat>, i: nat)
    requires 1 <= i <= |ks|
  {
    i + ks[i - 1] <= n
  }

  /** `makePermutation(perm, n)`: perm[i] := i, then for i = 1..n, perm[i]
      is swapped with perm[i + k].  The k of round i is `ks[i - 1]`, standing
      for `randomInt(n + 1 - i)` or the seeded float draw; a k that breaks
      RAxML's assertion `i + k <= n` gives `ok == false`.  On success
      perm[1..n] is a permutation of 1..n; perm[0] is left alone. */
  method MakePermutation(perm: array<nat>, n: nat, ks: seq<nat>) returns (ok: bool)
    requires perm.Length == n + 1 && |ks| == n
    modifies perm
    ensures ok <==> DrawsInRange(n, ks)
    ensures ok ==> multiset(perm[1..]) == multiset(Range(1, n + 1))
    ensures perm[0] == old(perm[0])
  {
    for i := 1 to n + 1
      invariant perm[0] == old(perm[0])
      invariant forall j :: 1 <= j < i ==> perm[j] == j
    {
      perm[i] := i;
    }
    assert perm[1..] == Range(1, n + 1);
    ok := Shuffle(perm, n, ks);
  }

  /** The swap loop of `makePermutation`. */
  method Shuffle(perm: array<nat>, n: nat, ks: seq<nat>) returns (ok: bool)
    requires perm.Length == n + 1 && |ks| == n
    modifies perm
    ensures ok <==> DrawsInRange(n, ks)
    ensures ok ==> multiset(perm[1..]) == old(multiset(perm[1..]))
    ensures perm[0] == old(perm[0])
  {
    ghost var all := multiset(perm[..]);
    for i := 1 to n + 1
      invariant perm[0] == old(perm[0])
      invariant multiset(perm[..]) == all
      invariant forall j :: 1 <= j < i ==> DrawOk(n, ks, j)
    {
      var k := ks[i - 1];
      if i + k > n {
        assert !DrawOk(n, ks, i);
        return false;
      }
      SwapEntries(perm, i, i + k);
    }
    ok := true;
    HeadAndRest(perm[..]);
    HeadAndRest(old(perm[..]));
  }

  /** One swap of the shuffle: it moves entries, never changes them. */
  method SwapEntries(perm: array<nat>, i: nat, j: nat)
    requires 0 < i <= j < perm.Length
    modifies perm
    ensures perm[0] == old(perm[0])
    ensures multiset(perm[..]) == old(multiset(perm[..]))
  {
    perm[i], perm[j] := perm[j], perm[i];
  }

  lemma HeadAndRest(s: seq<nat>)
    requires |s| >= 1
    ensures multiset(s[1..]) == multiset(s) - multiset{s[0]}
  {
    assert s == [s[0]] + s[1..];
  }

  /** A permutation of 1..n, as `makeParsimonyTree` and `makeRandomTree`
      use it: every entry is a taxon number and no taxon appears twice. */
  lemma PermutationEntries(perm: seq<nat>, n: nat)
    requires |perm| == n + 1 && multiset(perm[1..]) == multiset(Range(1, n + 1))
    ensures forall i :: 1 <= i <= n ==> 1 <= perm[i] <= n
    ensures forall i, j :: 1 <= i < j <= n ==> perm[i] != perm[j]
  {
    forall i | 1 <= i <= n
      ensures 1 <= perm[i] <= n
    {
      EntryInRange(perm, n, i);
    }
    forall i, j | 1 <= i < j <= n
      ensures perm[i] != perm[j]
    {
      EntriesDiffer(perm, n, i, j);
    }
  }

  lemma EntryInRange(perm: seq<nat>, n: nat, i: nat)
    requires |perm| == n + 1 && multiset(perm[1..]) == multiset(Range(1, n + 1)) && 1 <= i <= n
    ensures 1 <= perm[i] <= n
  {
    var r := Range(1, n + 1);
    assert perm[1..][i - 1] == perm[i];
    assert perm[i] in multiset(r);
    var k :| 0 <= k < |r| && r[k] == perm[i];
  }

  lemma EntriesDiffer(perm: seq<nat>, n: nat, i: nat, j: nat)
    requires |perm| == n + 1 && multiset(perm[1..]) == multiset(Range(1, n + 1)) && 1 <= i < j <= n
    ensures perm[i] != perm[j]
  {
    var t := perm[1..];
    assert t[i - 1] == perm[i] && t[j - 1] == perm[j];
    assert multiset(t)[t[i - 1]] <= 1 by {
      RangeOnce(1, n + 1, perm[i]);
    }
    OnceDistinct(t, i - 1, j - 1);
  }

  /** An entry that occurs once in a sequence is at no second place. */
  lemma OnceDistinct(s: seq<nat>, a: nat, b: nat)
    requires a < b < |s| && multiset(s)[s[a]] <= 1
    ensures s[a] != s[b]
  {
    assert multiset(s) == multiset(s[..b]) + multiset(s[b..]) by {
      assert s == s[..b] + s[b..];
    }
    assert s[..b][a] == s[a] && s[b..][0] == s[b];
  }

  /** No number occurs twice in a range. */
  lemma {:induction false} RangeOnce(lo: nat, hi: nat, x: nat)
    requires lo <= hi
    ensures multiset(Range(lo, hi))[x] <= 1
    decreases hi - lo
  {
    if lo < hi {
      RangeOnce(lo + 1, hi, x);
      if x == lo {
        assert x !in Range(lo + 1, hi);
      }
    }
  }

  // ---------------------------------------------------------------------
  // Informative sites

  /** The codes `determineUninformativeSites` counts for a data type, from
      `CountedLow` to `CountedHigh` inclusive. */
  function CountedLow(dt: DataType): nat
  {
    if dt == AaData then 0 else 1
  }

  function CountedHigh(dt: DataType): nat
  {
    match dt
    case SecondaryData => 254
    case SecondaryData6 => 62
    case SecondaryData7 => 126
    case AaData => 21
    case DnaData => 14
    case BinaryData => 3
  }

  /** The codes RAxML asserts a tip may hold at a site of the data type;
      a secondary-structure code must also have a non-zero entry in the
      state table `sec` (`bitVectorSecondary`). */
  predicate CodeAllowed(dt: DataType, sec: seq<bv32>, c: byte)
  {
    match dt
    case SecondaryData => 0 < c && (c as int) < |sec| && sec[c] != 0
    case SecondaryData6 => 0 < c < 64
    case SecondaryData7 => 0 < c < 128
    case AaData => c < 23
    case DnaData => c < 16
    case BinaryData => 0 < c < 4
  }

  /** How many taxa of a column hold code c. */
  function Occ(col: seq<byte>, c: nat): nat
  {
    if |col| == 0 then 0
    else Occ(col[..|col| - 1], c) + (if col[|col| - 1] as nat == c then 1 else 0)
  }

  /** How many of the codes lo .. hi - 1 occur in the column. */
  function Present(col: seq<byte>, lo: nat, hi: nat): nat
    requires lo <= hi
    decreases hi - lo
  {
    if lo == hi then 0 else Present(col, lo, hi - 1) + (if Occ(col, hi - 1) > 0 then 1 else 0)
  }

  /** Some code among lo .. hi - 1 occurs in two taxa or more. */
  predicate Repeated(col: seq<byte>, lo: nat, hi: nat)
  {
    exists c :: lo <= c < hi && Occ(col, c) >= 2
  }

  /** A site is parsimony-informative when at least two codes of its
      type's counted range occur and one of them occurs in two taxa or
      more. */
  predicate Informative(dt: DataType, col: seq<byte>)
  {
    Present(col, CountedLow(dt), CountedHigh(dt) + 1) >= 2 && Repeated(col, CountedLow(dt), CountedHigh(dt) + 1)
  }

  /** The count of present codes reaches two exactly when two different
      codes of the range occur. */
  lemma {:induction false} PresentTwo(col: seq<byte>, lo: nat, hi: nat)
    requires lo <= hi
    ensures Present(col, lo, hi) >= 2 <==>
              exists c, d :: lo <= c < d < hi && Occ(col, c) > 0 && Occ(col, d) > 0
    decreases hi - lo
  {
    if lo < hi {
      PresentTwo(col, lo, hi - 1);
      PresentOne(col, lo, hi - 1);
      assert Present(col, lo, hi) == Present(col, lo, hi - 1) + (if Occ(col, hi - 1) > 0 then 1 else 0);
      if Present(col, lo, hi) >= 2 && Present(col, lo, hi - 1) < 2 {
        var c :| lo <= c < hi - 1 && Occ(col, c) > 0;
        assert lo <= c < hi - 1 < hi && Occ(col, hi - 1) > 0;
      }
      if exists c, d :: lo <= c < d < hi && Occ(col, c) > 0 && Occ(col, d) > 0 {
        var c, d :| lo <= c < d < hi && Occ(col, c) > 0 && Occ(col, d) > 0;
        if d < hi - 1 {
          assert lo <= c < d < hi - 1 && Occ(col, c) > 0 && Occ(col, d) > 0;
        } else {
          assert lo <= c < hi - 1 && Occ(col, c) > 0;
        }
      }
    }
  }

  /** The count of present codes is positive exactly when some code of
      the range occurs. */
  lemma {:induction false} PresentOne(col: seq<byte>, lo: nat, hi: nat)
    requires lo <= hi
    ensures Present(col, lo, hi) >= 1 <==> exists c :: lo <= c < hi && Occ(col, c) > 0
    decreases hi - lo
  {
    if lo < hi {
      PresentOne(col, lo, hi - 1);
      if exists c :: lo <= c < hi && Occ(col, c) > 0 {
        var c :| lo <= c < hi && Occ(col, c) > 0;
        if c < hi - 1 {
          assert lo <= c < hi - 1 && Occ(col, c) > 0;
        }
      }
      if Present(col, lo, hi - 1) == 0 && Occ(col, hi - 1) > 0 {
        assert lo <= hi - 1 < hi;
      }
    }
  }

  /** Where row t of an array of rows `ocl` sites long starts, and the
      size of t such rows: t * ocl, written as a sum so that the proofs
      about rows stay linear. */
  function RowStart(ocl: nat, t: nat): nat
  {
    if t == 0 then 0 else RowStart(ocl, t - 1) + ocl
  }

  lemma {:induction false} RowStartIsProduct(ocl: nat, t: nat)
    ensures RowStart(ocl, t) == t * ocl
  {
    if t > 0 {
      RowStartIsProduct(ocl, t - 1);
      assert (t - 1) * ocl + ocl == t * ocl;
    }
  }

  /** The codes of taxa 1..m at site i of the tip array, whose rows are
      `ocl` sites long (`yVector[j][i]` for j = 1..m). */
  function Column(y0: seq<byte>, ocl: nat, n: nat, m: nat, i: nat): (col: seq<byte>)
    requires i < ocl && |y0| == RowStart(ocl, n) && m <= n
    ensures |col| == m
  {
    if m == 0 then []
    else
      RowFits(n, ocl, m - 1, i + 1);
      Column(y0, ocl, n, m - 1, i) + [y0[RowStart(ocl, m - 1) + i]]
  }

  /** Fewer taxa give a prefix of the column. */
  lemma {:induction false} ColumnPrefix(y0: seq<byte>, ocl: nat, n: nat, m: nat, m': nat, i: nat)
    requires i < ocl && |y0| == RowStart(ocl, n) && m <= m' <= n
    ensures Column(y0, ocl, n, m, i) == Column(y0, ocl, n, m', i)[..m]
    decreases m' - m
  {
    if m < m' {
      ColumnPrefix(y0, ocl, n, m, m' - 1, i);
    }
  }

  /** Every code of the column is one RAxML accepts for the data type. */
  predicate ColumnAllowed(dt: DataType, sec: seq<bv32>, col: seq<byte>)
  {
    forall t :: 0 <= t < |col| ==> CodeAllowed(dt, sec, col[t])
  }

  /** The first loop of a site of `determineUninformativeSites`:
      `check[c]` becomes the number of taxa with code c.  A code RAxML's
      assertions reject gives `ok == false`. */
  method CountCodes(y0: seq<byte>, ocl: nat, n: nat, i: nat, dt: DataType, sec: seq<bv32>) returns (check: array<nat>, ok: bool)
    requires i < ocl && |y0| == RowStart(ocl, n)
    ensures ok <==> ColumnAllowed(dt, sec, Column(y0, ocl, n, n, i))
    ensures check.Length == 256
    ensures ok ==> forall c :: 0 <= c < 256 ==> check[c] == Occ(Column(y0, ocl, n, n, i), c)
  {
    check := new nat[256](_ => 0);
    ghost var col: seq<byte> := [];
    for j := 1 to n + 1
      invariant col == Column(y0, ocl, n, j - 1, i)
      invariant forall c :: 0 <= c < 256 ==> check[c] == Occ(col, c)
      invariant ColumnAllowed(dt, sec, col)
    {
      RowFits(n, ocl, j - 1, i + 1);
      RowStartIsProduct(ocl, j - 1);
      var nucleotide := y0[(j - 1) * ocl + i];
      if !CodeAllowed(dt, sec, nucleotide) {
        ColumnPrefix(y0, ocl, n, j, n, i);
        assert Column(y0, ocl, n, n, i)[j - 1] == nucleotide;
        return check, false;
      }
      check[nucleotide] := check[nucleotide] + 1;
      col := col + [nucleotide];
      assert col[..|col| - 1] == col[..j - 1];
    }
    ok := true;
  }

  /** One site of `determineUninformativeSites`: the codes are counted,
      `informativeCounter` counts the codes of the type's range with a
      positive count, and a site with two or more such codes is
      informative when some code's count exceeds one.  A code RAxML's
      assertions reject gives `ok == false`.  On success `inf` holds
      exactly when the site is informative. */
  method SiteInformative(y0: seq<byte>, ocl: nat, n: nat, i: nat, dt: DataType, sec: seq<bv32>) returns (inf: bool, ok: bool)
    requires i < ocl && |y0| == RowStart(ocl, n)
    ensures ok <==> ColumnAllowed(dt, sec, Column(y0, ocl, n, n, i))
    ensures ok ==> (inf <==> Informative(dt, Column(y0, ocl, n, n, i)))
  {
    var check;
    check, ok := CountCodes(y0, ocl, n, i, dt, sec);
    if !ok {
      return false, false;
    }
    ghost var col := Column(y0, ocl, n, n, i);
    var lo, hi := CountedLow(dt), CountedHigh(dt) + 1;
    var counter := 0;
    for j := lo to hi
      invariant counter == Present(col, lo, j)
    {
      if check[j] > 0 {
        counter := counter + 1;
      }
    }
    if counter <= 1 {
      return false, true;
    }
    var isInformative := false;
    var j := lo;
    while j < hi && !isInformative
      invariant lo <= j <= hi
      invariant isInformative <==> Repeated(col, lo, j)
    {
      if check[j] > 1 {
        isInformative := true;
      }
      j := j + 1;
    }
    if isInformative {
      assert Repeated(col, lo, hi) by {
        var c :| lo <= c < j && Occ(col, c) >= 2;
      }
    }
    inf := isInformative;
  }

  /** The four-taxon DNA site A, A, C, G (codes 1, 1, 2, 4) is informative
      by RAxML's test: two codes occur and A occurs twice. */
  lemma AACGIsInformative()
    ensures Informative(DnaData, [1, 1, 2, 4])
  {
    var c0: seq<byte> := [];
    var c1: seq<byte> := [1];
    var c2: seq<byte> := [1, 1];
    var c3: seq<byte> := [1, 1, 2];
    var col: seq<byte> := [1, 1, 2, 4];
    assert c1[..0] == c0 && c2[..1] == c1 && c3[..2] == c2 && col[..3] == c3;
    assert Occ(c1, 1) == 1 && Occ(c2, 1) == 2 && Occ(c3, 1) == 2 && Occ(col, 1) == 2;
    assert Occ(c1, 2) == 0 && Occ(c2, 2) == 0 && Occ(c3, 2) == 1 && Occ(col, 2) == 1;
    PresentTwo(col, 1, 15);
    assert 1 <= 1 < 2 < 15 && Occ(col, 1) > 0 && Occ(col, 2) > 0;
    assert Present(col, 1, 15) >= 2;
    assert Repeated(col, 1, 15) by {
      assert 1 <= 1 < 15 && Occ(col, 1) >= 2;
    }
    assert CountedLow(DnaData) == 1 && CountedHigh(DnaData) + 1 == 15;
  }

  // ---------------------------------------------------------------------
  // Compaction

  /** The entries of s whose mask entry is set, in order. */
  function Filter<T>(s: seq<T>, mask: seq<bool>): (r: seq<T>)
    requires |s| == |mask|
    ensures |r| <= |s|
  {
    if |s| == 0 then []
    else Filter(s[..|s| - 1], mask[..|s| - 1]) + (if mask[|s| - 1] then [s[|s| - 1]] else [])
  }

  /** The positions whose mask entry is set, in increasing order. */
  function Kept(mask: seq<bool>): seq<nat>
  {
    Filter(Range(0, |mask|), mask)
  }

  /** The number of cleared mask entries (`number` in RAxML). */
  function Dropped(mask: seq<bool>): nat
  {
    if |mask| == 0 then 0 else Dropped(mask[..|mask| - 1]) + (if mask[|mask| - 1] then 0 else 1)
  }

  lemma FilterStep<T>(s: seq<T>, mask: seq<bool>, j: nat)
    requires |s| == |mask| && j < |s|
    ensures Filter(s[..j + 1], mask[..j + 1]) == Filter(s[..j], mask[..j]) + (if mask[j] then [s[j]] else [])
  {
    assert s[..j + 1][..j] == s[..j] && mask[..j + 1][..j] == mask[..j];
  }

  /** Filtering any table with one mask takes the entries at the kept
      positions, in order: the compacted tables stay aligned site by
      site.  The kept count and the dropped count add up to the length. */
  lemma {:induction false} FilterAt<T>(s: seq<T>, mask: seq<bool>)
    requires |s| == |mask|
    ensures |Filter(s, mask)| == |Kept(mask)| == |mask| - Dropped(mask)
    ensures forall k :: 0 <= k < |Kept(mask)| ==> Kept(mask)[k] < |s| && Filter(s, mask)[k] == s[Kept(mask)[k]]
  {
    if |s| > 0 {
      var m := |s| - 1;
      FilterAt(s[..m], mask[..m]);
      assert Range(0, |mask|)[..m] == Range(0, m);
    }
  }

  /** The kept positions increase strictly and are exactly the positions
      whose mask entry is set. */
  lemma {:induction false} KeptPositions(mask: seq<bool>)
    ensures forall a, b :: 0 <= a < b < |Kept(mask)| ==> Kept(mask)[a] < Kept(mask)[b]
    ensures forall k :: 0 <= k < |Kept(mask)| ==> Kept(mask)[k] < |mask| && mask[Kept(mask)[k]]
    ensures forall j :: 0 <= j < |mask| && mask[j] ==> j in Kept(mask)
  {
    if |mask| > 0 {
      var m := |mask| - 1;
      KeptPositions(mask[..m]);
      assert Range(0, |mask|)[..m] == Range(0, m);
      assert Kept(mask) == Kept(mask[..m]) + (if mask[m] then [m] else []);
    }
  }

  /** One row of the tip array after compaction: the row's first |mask|
      sites filtered by the mask and written from the start of the row;
      the rest of the array is as before. */
  function ApplyRow(y: seq<byte>, base: nat, mask: seq<bool>): (y': seq<byte>)
    requires base + |mask| <= |y|
    ensures |y'| == |y|
  {
    var f := Filter(y[base..base + |mask|], mask);
    y[..base] + f + y[base + |f|..]
  }

  lemma {:induction false} RowFits(n: nat, ocl: nat, m: nat, e: nat)
    requires m < n && e <= ocl
    ensures RowStart(ocl, m) + e <= RowStart(ocl, n)
    decreases n
  {
    if m + 1 < n {
      RowFits(n - 1, ocl, m, e);
    }
  }

  /** The inner loop of `sortInformativeSites` for one taxon:
      `yPos[l++] = yPos[j]` for every informative site j. */
  method CompactRow(y: seq<byte>, base: nat, mask: seq<bool>) returns (y': seq<byte>)
    requires base + |mask| <= |y|
    ensures y' == ApplyRow(y, base, mask)
  {
    y' := y;
    var l: nat := 0;
    ghost var row := y[base..base + |mask|];
    for j := 0 to |mask|
      invariant l <= j && |y'| == |y|
      invariant y'[..base] == y[..base]
      invariant y'[base..base + l] == Filter(row[..j], mask[..j])
      invariant y'[base + l..] == y[base + l..]
    {
      y', l := CompactSite(y, y', base, l, j, row, mask);
    }
    assert row[..|mask|] == row && mask[..|mask|] == mask;
    RowFromSlices(y, y', base, l, Filter(row, mask));
  }

  /** One site of CompactRow: a kept site moves down to the end of the
      compacted block, a dropped one is skipped. */
  method CompactSite(y: seq<byte>, z: seq<byte>, base: nat, l: nat, j: nat, ghost row: seq<byte>, mask: seq<bool>)
    returns (z': seq<byte>, l': nat)
    requires j < |mask| == |row| && base + |mask| <= |y| && row == y[base..base + |mask|]
    requires l <= j && |z| == |y|
    requires z[..base] == y[..base] && z[base..base + l] == Filter(row[..j], mask[..j]) && z[base + l..] == y[base + l..]
    ensures l' <= j + 1 && |z'| == |y|
    ensures z'[..base] == y[..base] && z'[base..base + l'] == Filter(row[..j + 1], mask[..j + 1]) && z'[base + l'..] == y[base + l'..]
  {
    FilterStep(row, mask, j);
    z', l' := z, l;
    if mask[j] {
      assert z[base + j] == z[base + l..][j - l] == y[base + l..][j - l] == row[j];
      RowCompactStep(y, z, base, l, j, Filter(row[..j], mask[..j]));
      z' := z[base + l := z[base + j]];
      l' := l + 1;
    }
  }

  /** Moving the entry at `base + j` down to `base + l` extends the
      compacted block by it and leaves the rest as it was. */
  lemma RowCompactStep<T>(y: seq<T>, y': seq<T>, base: nat, l: nat, j: nat, f: seq<T>)
    requires l <= j && base + j < |y| == |y'|
    requires y'[..base] == y[..base] && y'[base..base + l] == f && y'[base + l..] == y[base + l..]
    ensures var z := y'[base + l := y'[base + j]];
      z[..base] == y[..base] && z[base..base + l + 1] == f + [y'[base + j]] && z[base + l + 1..] == y[base + l + 1..]
  {
    var z := y'[base + l := y'[base + j]];
    assert z[base..base + l + 1] == z[base..base + l] + [z[base + l]];
    assert z[base..base + l] == y'[base..base + l];
    assert z[base + l + 1..] == y'[base + l..][1..];
    assert y[base + l + 1..] == y[base + l..][1..];
  }

  /** A row that agrees with y before `base` and from `base + l` on, and
      holds f in between, is y with f put in. */
  lemma RowFromSlices<T>(y: seq<T>, y': seq<T>, base: nat, l: nat, f: seq<T>)
    requires base + l <= |y| == |y'|
    requires y'[..base] == y[..base] && y'[base..base + l] == f && y'[base + l..] == y[base + l..]
    ensures y' == y[..base] + f + y[base + l..]
  {
    assert y' == y'[..base] + y'[base..base + l] + y'[base + l..];
  }

  /** Row t (taxon t + 1) of an array of n rows `ocl` sites long. */
  function Row(y: seq<byte>, ocl: nat, n: nat, t: nat): (r: seq<byte>)
    requires |y| == RowStart(ocl, n) && t < n
    ensures |r| == ocl
  {
    RowFits(n, ocl, t, ocl);
    y[RowStart(ocl, t)..RowStart(ocl, t) + ocl]
  }

  /** A table or tip row after compaction in place: its first |mask|
      entries filtered by the mask, then the rest as it was from that point
      on. */
  function Compacted<T>(row: seq<T>, mask: seq<bool>): (r: seq<T>)
    requires |mask| <= |row|
    ensures |r| == |row|
  {
    var f := Filter(row[..|mask|], mask);
    f + row[|f|..]
  }

  lemma {:induction false} RowOrder(ocl: nat, t: nat, u: nat)
    requires t < u
    ensures RowStart(ocl, t) + ocl <= RowStart(ocl, u)
    decreases u
  {
    if t + 1 < u {
      RowOrder(ocl, t, u - 1);
    }
  }

  lemma SliceLeft<T>(A: seq<T>, B: seq<T>, lo: nat, hi: nat)
    requires lo <= hi <= |A|
    ensures (A + B)[lo..hi] == A[lo..hi]
  {
  }

  lemma SliceRight<T>(A: seq<T>, B: seq<T>, lo: nat, hi: nat)
    requires |A| <= lo <= hi <= |A| + |B|
    ensures (A + B)[lo..hi] == B[lo - |A|..hi - |A|]
  {
  }

  /** Compacting row r makes it its compacted row. */
  lemma ApplyRowOwn(y: seq<byte>, ocl: nat, n: nat, r: nat, mask: seq<bool>)
    requires |y| == RowStart(ocl, n) && r < n && |mask| <= ocl
    ensures (RowFits(n, ocl, r, |mask|);
             Row(ApplyRow(y, RowStart(ocl, r), mask), ocl, n, r) == Compacted(Row(y, ocl, n, r), mask))
  {
    RowFits(n, ocl, r, |mask|);
    RowFits(n, ocl, r, ocl);
    var base := RowStart(ocl, r);
    var row := Row(y, ocl, n, r);
    assert row[..|mask|] == y[base..base + |mask|];
    var f := Filter(row[..|mask|], mask);
    var A, B := y[..base], y[base + |f|..];
    assert ApplyRow(y, base, mask) == A + (f + B);
    SliceRight(A, f + B, base, base + ocl);
    assert (f + B)[..ocl] == f + row[|f|..];
  }

  /** Compacting the entries at base.. leaves a slice clear of them alone. */
  lemma ApplyRowOutside(y: seq<byte>, base: nat, mask: seq<bool>, lo: nat, hi: nat)
    requires base + |mask| <= |y| && lo <= hi <= |y|
    requires hi <= base || base + |mask| <= lo
    ensures ApplyRow(y, base, mask)[lo..hi] == y[lo..hi]
  {
    var f := Filter(y[base..base + |mask|], mask);
    var A, B := y[..base], y[base + |f|..];
    if hi <= base {
      assert ApplyRow(y, base, mask) == A + (f + B);
      SliceLeft(A, f + B, lo, hi);
    } else {
      assert ApplyRow(y, base, mask) == (A + f) + B;
      SliceRight(A + f, B, lo, hi);
    }
  }

  /** Compacting row r leaves every other row alone. */
  lemma ApplyRowOther(y: seq<byte>, ocl: nat, n: nat, r: nat, mask: seq<bool>, t: nat)
    requires |y| == RowStart(ocl, n) && r < n && |mask| <= ocl && t < n && t != r
    ensures (RowFits(n, ocl, r, |mask|);
             Row(ApplyRow(y, RowStart(ocl, r), mask), ocl, n, t) == Row(y, ocl, n, t))
  {
    RowFits(n, ocl, r, |mask|);
    RowFits(n, ocl, t, ocl);
    if t < r {
      RowOrder(ocl, t, r);
    } else {
      RowOrder(ocl, r, t);
    }
    ApplyRowOutside(y, RowStart(ocl, r), mask, RowStart(ocl, t), RowStart(ocl, t) + ocl);
  }

  /** The state of a compaction loop after j sites, l of them kept: the
      kept entries are at the front, and from l on the table is as it was. */
  ghost predicate CompactInv<T>(a: seq<T>, A: seq<T>, mask: seq<bool>, j: nat, l: nat)
  {
    l <= j <= |mask| <= |A| == |a| && a[..l] == Filter(A[..j], mask[..j]) && a[l..] == A[l..]
  }

  /** One step of a compaction loop: an informative site j is copied to l. */
  lemma CompactStep<T>(a: seq<T>, A: seq<T>, mask: seq<bool>, j: nat, l: nat)
    requires CompactInv(a, A, mask, j, l) && j < |mask|
    ensures mask[j] ==> CompactInv(a[l := a[j]], A, mask, j + 1, l + 1)
    ensures !mask[j] ==> CompactInv(a, A, mask, j + 1, l)
  {
    FilterStep(A[..|mask|], mask, j);
    assert A[..|mask|][..j + 1] == A[..j + 1] && A[..|mask|][..j] == A[..j];
    assert a[j] == A[j] by {
      assert a[l..][j - l] == A[l..][j - l];
    }
    if mask[j] {
      var a' := a[l := a[j]];
      assert a'[..l + 1] == a[..l] + [A[j]];
      assert a'[l + 1..] == a[l + 1..];
    }
  }

  /** A finished compaction loop leaves the compacted table. */
  lemma CompactDone<T>(a: seq<T>, A: seq<T>, mask: seq<bool>, l: nat)
    requires CompactInv(a, A, mask, |mask|, l)
    ensures a == Compacted(A, mask)
  {
    assert mask[..|mask|] == mask;
    assert a == a[..l] + a[l..];
  }

  /** The three per-site tables of `sortInformativeSites`, compacted in one
      loop: `aliaswgt[l] = aliaswgt[j]`, `model[l] = model[j]` and
      `dataVector[l] = dataVector[j]` for every informative site j. */
  method CompactTables(tr: Tree, mask: seq<bool>)
    requires tr.Shape() && |mask| <= tr.originalCrunchedLength
    modifies tr.aliaswgt, tr.model, tr.dataVector
    ensures tr.aliaswgt[..] == Compacted(old(tr.aliaswgt[..]), mask)
    ensures tr.model[..] == Compacted(old(tr.model[..]), mask)
    ensures tr.dataVector[..] == Compacted(old(tr.dataVector[..]), mask)
  {
    ghost var W, M, D := tr.aliaswgt[..], tr.model[..], tr.dataVector[..];
    var l := 0;
    for j := 0 to |mask|
      invariant CompactInv(tr.aliaswgt[..], W, mask, j, l)
      invariant CompactInv(tr.model[..], M, mask, j, l)
      invariant CompactInv(tr.dataVector[..], D, mask, j, l)
    {
      CompactStep(tr.aliaswgt[..], W, mask, j, l);
      CompactStep(tr.model[..], M, mask, j, l);
      CompactStep(tr.dataVector[..], D, mask, j, l);
      if mask[j] {
        tr.aliaswgt[l] := tr.aliaswgt[j];
        tr.model[l] := tr.model[j];
        tr.dataVector[l] := tr.dataVector[j];
        l := l + 1;
      }
    }
    CompactDone(tr.aliaswgt[..], W, mask, l);
    CompactDone(tr.model[..], M, mask, l);
    CompactDone(tr.dataVector[..], D, mask, l);
  }

  /** The tip array has one row of `originalCrunchedLength` sites per
      taxon, and the sites in use fit in a row. */
  ghost predicate TipArray(tr: Tree)
    reads tr.cdta
  {
    tr.Shape() && |tr.cdta.y0| == RowStart(tr.originalCrunchedLength, tr.mxtips)
    && tr.cdta.endsite <= tr.originalCrunchedLength
  }

  /** `sortInformativeSites(tr, informative)`: every taxon's row of the tip
      array, and then the weight, partition and data-type tables, are
      compacted in place by the one mask `informative`. */
  method SortInformativeSites(tr: Tree, informative: seq<bool>)
    requires TipArray(tr) && |informative| == tr.cdta.endsite
    modifies tr.cdta`y0, tr.aliaswgt, tr.model, tr.dataVector
    ensures TipArray(tr)
    ensures RowsCompacted(old(tr.cdta.y0), tr.cdta.y0, tr.originalCrunchedLength, tr.mxtips, informative)
    ensures tr.aliaswgt[..] == Compacted(old(tr.aliaswgt[..]), informative)
    ensures tr.model[..] == Compacted(old(tr.model[..]), informative)
    ensures tr.dataVector[..] == Compacted(old(tr.dataVector[..]), informative)
  {
    CompactTipRows(tr.cdta, tr.originalCrunchedLength, tr.mxtips, informative);
    CompactTables(tr, informative);
  }

  /** Every taxon's row of y' is its row of y compacted by the mask. */
  ghost predicate RowsCompacted(y: seq<byte>, y': seq<byte>, ocl: nat, n: nat, mask: seq<bool>)
  {
    |y| == |y'| == RowStart(ocl, n) && |mask| <= ocl
    && forall t :: 0 <= t < n ==> Row(y', ocl, n, t) == Compacted(Row(y, ocl, n, t), mask)
  }

  /** The row loop of `sortInformativeSites`: `yPos` runs over the rows of
      taxa 1..mxtips, and each is compacted in turn. */
  method CompactTipRows(cdta: SiteData, ocl: nat, n: nat, informative: seq<bool>)
    requires |cdta.y0| == RowStart(ocl, n) && |informative| <= ocl
    modifies cdta`y0
    ensures RowsCompacted(old(cdta.y0), cdta.y0, ocl, n, informative)
  {
    ghost var Y := cdta.y0;
    for i := 0 to n
      invariant |cdta.y0| == |Y|
      invariant forall t :: 0 <= t < i ==> Row(cdta.y0, ocl, n, t) == Compacted(Row(Y, ocl, n, t), informative)
      invariant forall t :: i <= t < n ==> Row(cdta.y0, ocl, n, t) == Row(Y, ocl, n, t)
    {
      RowFits(n, ocl, i, |informative|);
      RowStartIsProduct(ocl, i);
      ghost var y0 := cdta.y0;
      var y := CompactRow(cdta.y0, i * ocl, informative);
      ApplyRowOwn(y0, ocl, n, i, informative);
      forall t | 0 <= t < n && t != i
        ensures Row(y, ocl, n, t) == Row(y0, ocl, n, t)
      {
        ApplyRowOther(y0, ocl, n, i, informative, t);
      }
      cdta.y0 := y;
    }
  }

  /** Whether each of the first m sites is informative. */
  ghost predicate MaskOf(tr: Tree, mask: seq<bool>, m: nat)
    reads tr.cdta, tr.dataVector
    requires TipArray(tr) && m <= tr.cdta.endsite
  {
    |mask| == m
    && forall i :: 0 <= i < m ==>
         mask[i] == Informative(tr.dataVector[i], Column(tr.cdta.y0, tr.originalCrunchedLength, tr.mxtips, tr.mxtips, i))
  }

  /** Every site in use holds codes RAxML accepts for its data type. */
  ghost predicate CodesAllowed(tr: Tree, m: nat)
    reads tr.cdta, tr.dataVector
    requires TipArray(tr) && m <= tr.cdta.endsite
  {
    forall i :: 0 <= i < m ==>
      ColumnAllowed(tr.dataVector[i], tr.bitVectorSecondary, Column(tr.cdta.y0, tr.originalCrunchedLength, tr.mxtips, tr.mxtips, i))
  }

  /** The site loop of `determineUninformativeSites`: the informative mask
      of the sites in use and `number`, the count of uninformative ones.
      A tip code RAxML's assertions reject gives `ok == false`. */
  method InformativeMask(tr: Tree) returns (informative: seq<bool>, number: nat, ok: bool)
    requires TipArray(tr)
    ensures ok <==> CodesAllowed(tr, tr.cdta.endsite)
    ensures ok ==> MaskOf(tr, informative, tr.cdta.endsite) && number == Dropped(informative)
  {
    informative := [];
    number := 0;
    for i := 0 to tr.cdta.endsite
      invariant MaskOf(tr, informative, i) && number == Dropped(informative) && CodesAllowed(tr, i)
    {
      var inf, okS := SiteInformative(tr.cdta.y0, tr.originalCrunchedLength, tr.mxtips, i, tr.dataVector[i], tr.bitVectorSecondary);
      if !okS {
        return informative, number, false;
      }
      MaskStep(tr, informative, i, inf);
      informative := informative + [inf];
      if !inf {
        number := number + 1;
      }
    }
    ok := true;
  }

  /** One more site of the mask, and of the sites whose codes are checked. */
  lemma MaskStep(tr: Tree, mask: seq<bool>, i: nat, inf: bool)
    requires TipArray(tr) && i < tr.cdta.endsite && MaskOf(tr, mask, i) && CodesAllowed(tr, i)
    requires ColumnAllowed(tr.dataVector[i], tr.bitVectorSecondary, Column(tr.cdta.y0, tr.originalCrunchedLength, tr.mxtips, tr.mxtips, i))
    requires inf == Informative(tr.dataVector[i], Column(tr.cdta.y0, tr.originalCrunchedLength, tr.mxtips, tr.mxtips, i))
    ensures MaskOf(tr, mask + [inf], i + 1) && CodesAllowed(tr, i + 1)
    ensures Dropped(mask + [inf]) == Dropped(mask) + (if inf then 0 else 1)
  {
    assert (mask + [inf])[..i] == mask;
  }

  /** `determineUninformativeSites`: the mask of informative sites, then
      `sortInformativeSites` with it, and `parsimonyLength = endsite -
      number`.  On success the mask says of each site whether it is
      informative, every table is compacted by it, and `parsimonyLength`
      is the number of informative sites; otherwise nothing changes. */
  method DetermineUninformativeSites(tr: Tree) returns (informative: seq<bool>, parsimonyLength: nat, ok: bool)
    requires TipArray(tr)
    modifies tr.cdta`y0, tr.aliaswgt, tr.model, tr.dataVector
    ensures TipArray(tr)
    ensures ok <==> old(CodesAllowed(tr, tr.cdta.endsite))
    ensures ok ==> old(MaskOf(tr, informative, tr.cdta.endsite)) && parsimonyLength == |Kept(informative)|
    ensures ok ==> RowsCompacted(old(tr.cdta.y0), tr.cdta.y0, tr.originalCrunchedLength, tr.mxtips, informative)
    ensures ok ==> tr.aliaswgt[..] == Compacted(old(tr.aliaswgt[..]), informative)
                   && tr.model[..] == Compacted(old(tr.model[..]), informative)
                   && tr.dataVector[..] == Compacted(old(tr.dataVector[..]), informative)
    ensures !ok ==> tr.cdta.y0 == old(tr.cdta.y0) && unchanged(tr.aliaswgt, tr.model, tr.dataVector)
    ensures tr.aliaswgt[tr.cdta.endsite..] == old(tr.aliaswgt[tr.cdta.endsite..])
    ensures tr.model[tr.cdta.endsite..] == old(tr.model[tr.cdta.endsite..])
    ensures tr.dataVector[tr.cdta.endsite..] == old(tr.dataVector[tr.cdta.endsite..])
  {
    ghost var W, M, D := tr.aliaswgt[..], tr.model[..], tr.dataVector[..];
    var number;
    informative, number, ok := InformativeMask(tr);
    if !ok {
      return informative, 0, false;
    }
    SortInformativeSites(tr, informative);
    CompactedTail(W, informative);
    CompactedTail(M, informative);
    CompactedTail(D, informative);
    FilterAt(Range(0, |informative|), informative);
    parsimonyLength := tr.cdta.endsite - number;
  }

  /** Compaction leaves the entries past the mask alone. */
  lemma CompactedTail<T>(A: seq<T>, mask: seq<bool>)
    requires |mask| <= |A|
    ensures Compacted(A, mask)[|mask|..] == A[|mask|..]
  {
    var f := Filter(A[..|mask|], mask);
    assert Compacted(A, mask)[|mask|..] == A[|f|..][|mask| - |f|..];
  }

  /** The copies `makeParsimonyTree` takes before the filter: the first
      `endsite` entries of the three site tables and the whole tip array. */
  datatype SavedSites = SavedSites(aliaswgt: seq<nat>, model: seq<nat>, dataVector: seq<DataType>, y0: seq<byte>)

  /** The tables as the copies hold them. */
  ghost predicate Holds(tr: Tree, saved: SavedSites)
    reads tr.cdta, tr.aliaswgt, tr.model, tr.dataVector
    requires TipArray(tr)
  {
    var e := tr.cdta.endsite;
    (tr.aliaswgt[..e], tr.model[..e], tr.dataVector[..e], tr.cdta.y0)
      == (saved.aliaswgt, saved.model, saved.dataVector, saved.y0)
  }

  /** The repair at the end of `makeParsimonyTree`: the `memcpy`s of the
      saved copies back into the tables.  Entries past `endsite` are not
      touched. */
  method RestoreSites(tr: Tree, saved: SavedSites)
    requires TipArray(tr)
    requires |saved.aliaswgt| == |saved.model| == |saved.dataVector| == tr.cdta.endsite
    requires |saved.y0| == |tr.cdta.y0|
    modifies tr.cdta`y0, tr.aliaswgt, tr.model, tr.dataVector
    ensures TipArray(tr) && Holds(tr, saved)
    ensures tr.aliaswgt[tr.cdta.endsite..] == old(tr.aliaswgt[tr.cdta.endsite..])
    ensures tr.model[tr.cdta.endsite..] == old(tr.model[tr.cdta.endsite..])
    ensures tr.dataVector[tr.cdta.endsite..] == old(tr.dataVector[tr.cdta.endsite..])
  {
    var e := tr.cdta.endsite;
    forall i | 0 <= i < e {
      tr.aliaswgt[i] := saved.aliaswgt[i];
    }
    forall i | 0 <= i < e {
      tr.model[i] := saved.model[i];
    }
    forall i | 0 <= i < e {
      tr.dataVector[i] := saved.dataVector[i];
    }
    tr.cdta.y0 := saved.y0;
    assert tr.aliaswgt[..e] == saved.aliaswgt;
    assert tr.model[..e] == saved.model;
    assert tr.dataVector[..e] == saved.dataVector;
  }

  /** The informative-site stage around a tree build: the copies, the
      filter, and the repair.  The filter touches only the tip array and
      the three site tables, and the repair puts every one of them back
      as it was: after the stage the site data is the data before it. */
  method InformativeSitesRoundTrip(tr: Tree) returns (parsimonyLength: nat, ok: bool)
    requires TipArray(tr)
    modifies tr.cdta`y0, tr.aliaswgt, tr.model, tr.dataVector
    ensures TipArray(tr)
    ensures tr.cdta.y0 == old(tr.cdta.y0) && tr.aliaswgt[..] == old(tr.aliaswgt[..])
    ensures tr.model[..] == old(tr.model[..]) && tr.dataVector[..] == old(tr.dataVector[..])
  {
    var e := tr.cdta.endsite;
    var saved := SavedSites(tr.aliaswgt[..e], tr.model[..e], tr.dataVector[..e], tr.cdta.y0);
    var mask;
    mask, parsimonyLength, ok := DetermineUninformativeSites(tr);
    RestoreSites(tr, saved);
    assert tr.aliaswgt[..] == tr.aliaswgt[..e] + tr.aliaswgt[e..];
    assert tr.model[..] == tr.model[..e] + tr.model[e..];
    assert tr.dataVector[..] == tr.dataVector[..e] + tr.dataVector[e..];
  }
}
