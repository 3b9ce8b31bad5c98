/** The part of `treesapp/placement_trainer.py` that prepares the
    clade-exclusion placement distances for the regression: every rank's
    list of distances is rarefied to the size of the smallest one, and
    `complete_regression` gives up early when a rank has too few samples. */
module PlacementTrainer {
  import opened Wrappers
  import opened Sorting
  import opened Utilities

  /** A dictionary of distance lists indexed by taxonomic rank, as its items
      in insertion order. */
  type RankDistances = seq<(string, seq<real>)>

  /** `min([len(rank_distances[rank]) for rank in rank_distances])`. */
  function MinSamples(ds: RankDistances): (m: nat)
    requires |ds| > 0
    ensures forall i :: 0 <= i < |ds| ==> m <= |ds[i].1|
    ensures exists i :: 0 <= i < |ds| && |ds[i].1| == m
    decreases |ds|
  {
    if |ds| == 1 then |ds[0].1|
    else
      var m := MinSamples(ds[1..]);
      assert forall i :: 1 <= i < |ds| ==> ds[1..][i - 1] == ds[i];
      if |ds[0].1| <= m then |ds[0].1| else m
  }

  /** `slist.pop(j)`: the list without its entry at j. */
  function Pop(s: seq<real>, j: nat): (r: seq<real>)
    requires j < |s|
    ensures |r| == |s| - 1
  {
    s[..j] + s[j + 1..]
  }

  /** Popping an entry removes one occurrence of it. */
  lemma PopMultiset(s: seq<real>, j: nat)
    requires j < |s|
    ensures multiset(Pop(s, j)) + multiset{s[j]} == multiset(s)
  {
    assert s == s[..j] + [s[j]] + s[j + 1..];
  }

  /** v modulo n, by repeated subtraction. */
  function Index(v: nat, n: nat): (j: nat)
    requires n > 0
    ensures j < n
    decreases v
  {
    if v < n then v else Index(v - n, n)
  }

  /** The m entries popped from s, one per draw, where `draw(t)` stands for
      the value of the t-th call of `np.random.randint(0, len(slist))`
      taken modulo the current length, so that every in-range index can
      be drawn. */
  function Drawn(s: seq<real>, m: nat, draw: nat -> nat, t: nat): seq<real>
    requires m <= |s|
    decreases m
  {
    if m == 0 then []
    else
      var j := Index(draw(t), |s|);
      [s[j]] + Drawn(Pop(s, j), m - 1, draw, t + 1)
  }

  /** Drawing m entries from s gives m of its entries, each at most as often
      as s holds it: a sample without replacement. */
  lemma {:induction false} DrawnSample(s: seq<real>, m: nat, draw: nat -> nat, t: nat)
    requires m <= |s|
    ensures |Drawn(s, m, draw, t)| == m
    ensures multiset(Drawn(s, m, draw, t)) <= multiset(s)
    decreases m
  {
    if m > 0 {
      var j := Index(draw(t), |s|);
      DrawnSample(Pop(s, j), m - 1, draw, t + 1);
      PopMultiset(s, j);
    }
  }

  /** The inner `while` loop: m entries popped from a sorted copy. */
  method DrawSamples(slist: seq<real>, m: nat, draw: nat -> nat, t: nat) returns (out: seq<real>, t': nat)
    requires m <= |slist|
    ensures out == Drawn(slist, m, draw, t) && t' == t + m
  {
    var cur := slist;
    out := [];
    t' := t;
    var i := 0;
    while i < m
      invariant 0 <= i <= m && m - i <= |cur| && t' == t + i
      invariant out + Drawn(cur, m - i, draw, t') == Drawn(slist, m, draw, t)
    {
      var j := Index(draw(t'), |cur|);
      ghost var rest := Drawn(Pop(cur, j), m - i - 1, draw, t' + 1);
      assert Drawn(cur, m - i, draw, t') == [cur[j]] + rest;
      assert out + [cur[j]] + rest == out + ([cur[j]] + rest);
      out := out + [cur[j]];
      cur := Pop(cur, j);
      i := i + 1;
      t' := t' + 1;
    }
  }

  /** What becomes of one rank's sorted list: kept when it has min entries,
      replaced by min draws from it otherwise. */
  function Pick(slist: seq<real>, min: nat, draw: nat -> nat, t: nat): seq<real>
    requires min <= |slist|
  {
    if |slist| == min then slist else Drawn(slist, min, draw, t)
  }

  /** The number of draws one rank's list takes. */
  function Uses(s: seq<real>, min: nat): nat
  {
    if |s| == min then 0 else min
  }

  /** A sorted list ends up with exactly min of its own entries, and is
      kept whole when it has min entries. */
  lemma PickShape(slist: seq<real>, min: nat, draw: nat -> nat, t: nat)
    requires min <= |slist|
    ensures |Pick(slist, min, draw, t)| == min
    ensures multiset(Pick(slist, min, draw, t)) <= multiset(slist)
    ensures |slist| == min ==> Pick(slist, min, draw, t) == slist
  {
    if |slist| != min {
      DrawnSample(slist, min, draw, t);
    }
  }

  /** `sorted(rank_distances[rank])` for every rank. */
  function SortAll(ds: RankDistances): (r: RankDistances)
    ensures |r| == |ds| && forall i :: 0 <= i < |ds| ==> |r[i].1| == |ds[i].1|
  {
    seq(|ds|, i requires 0 <= i < |ds| => (ds[i].0, SortReals(ds[i].1)))
  }

  /** The first k sorted ranks rarefied, with the number of draws they
      took. */
  function RarefyUpTo(sorted: RankDistances, k: nat, min: nat, draw: nat -> nat): (r: (RankDistances, nat))
    requires k <= |sorted| && forall j :: 0 <= j < |sorted| ==> min <= |sorted[j].1|
    ensures |r.0| == k
    decreases k
  {
    if k == 0 then ([], 0)
    else
      var p := RarefyUpTo(sorted, k - 1, min, draw);
      (p.0 + [(sorted[k - 1].0, Pick(sorted[k - 1].1, min, draw, p.1))], p.1 + Uses(sorted[k - 1].1, min))
  }

  /** What `rarefy_rank_distances(rank_distances)` returns; `min` of an
      empty list raises ValueError. */
  function Rarefy(ds: RankDistances, draw: nat -> nat): Result<RankDistances>
  {
    if |ds| == 0 then Raise("ValueError") else Ok(RarefyUpTo(SortAll(ds), |ds|, MinSamples(ds), draw).0)
  }

  /** The body of the loop over the ranks: rank i appended to the ranks
      before it. */
  method RarefyRank(ghost sorted: RankDistances, i: nat, rank: string, slist: seq<real>, min: nat, draw: nat -> nat,
                    rarefied: RankDistances, t: nat)
    returns (rarefied': RankDistances, t': nat)
    requires i < |sorted| && sorted[i] == (rank, slist) && forall j :: 0 <= j < |sorted| ==> min <= |sorted[j].1|
    requires (rarefied, t) == RarefyUpTo(sorted, i, min, draw)
    ensures (rarefied', t') == RarefyUpTo(sorted, i + 1, min, draw)
  {
    var here;
    if |slist| == min {
      here, t' := slist, t;
    } else {
      here, t' := DrawSamples(slist, min, draw, t);
    }
    rarefied' := rarefied + [(rank, here)];
  }

  /** `slist = sorted(rank_distances[rank])`. */
  method SortRank(ds: RankDistances, i: nat) returns (slist: seq<real>)
    requires i < |ds|
    ensures slist == SortAll(ds)[i].1
  {
    slist := SortReals(ds[i].1);
  }

  /** `rarefy_rank_distances(rank_distances)`. */
  method RarefyRankDistances(ds: RankDistances, draw: nat -> nat) returns (r: Result<RankDistances>)
    ensures r == Rarefy(ds, draw)
  {
    if |ds| == 0 {
      return Raise("ValueError");
    }
    var minSamples := MinSamples(ds);
    ghost var sorted := SortAll(ds);
    var rarefied: RankDistances := [];
    var t := 0;
    for i := 0 to |ds|
      invariant (rarefied, t) == RarefyUpTo(sorted, i, minSamples, draw)
    {
      var slist := SortRank(ds, i);
      rarefied, t := RarefyRank(sorted, i, ds[i].0, slist, minSamples, draw, rarefied, t);
    }
    return Ok(rarefied);
  }

  /** Rank j comes out as its own sorted list rarefied, with the draws
      numbered on from those the ranks before it took. */
  lemma {:induction false} RarefyUpToAt(sorted: RankDistances, k: nat, min: nat, draw: nat -> nat, j: nat)
    requires j < k <= |sorted| && forall i :: 0 <= i < |sorted| ==> min <= |sorted[i].1|
    ensures RarefyUpTo(sorted, k, min, draw).0[j]
      == (sorted[j].0, Pick(sorted[j].1, min, draw, RarefyUpTo(sorted, j, min, draw).1))
    decreases k
  {
    if j < k - 1 {
      RarefyUpToAt(sorted, k - 1, min, draw, j);
    }
  }

  /** Every rank keeps its name and its place, and its list has exactly min
      entries drawn from its own list; a list already of length min comes
      back sorted with the same entries. */
  lemma RarefyShape(ds: RankDistances, min: nat, draw: nat -> nat)
    requires forall j :: 0 <= j < |ds| ==> min <= |ds[j].1|
    ensures var r := RarefyUpTo(SortAll(ds), |ds|, min, draw).0;
      forall j :: 0 <= j < |ds| ==>
        r[j].0 == ds[j].0 && |r[j].1| == min && multiset(r[j].1) <= multiset(ds[j].1)
        && (|ds[j].1| == min ==> SortedBy(r[j].1, RealLe) && multiset(r[j].1) == multiset(ds[j].1))
  {
    var sorted := SortAll(ds);
    var r := RarefyUpTo(sorted, |ds|, min, draw).0;
    forall j | 0 <= j < |ds|
      ensures r[j].0 == ds[j].0 && |r[j].1| == min && multiset(r[j].1) <= multiset(ds[j].1)
        && (|ds[j].1| == min ==> SortedBy(r[j].1, RealLe) && multiset(r[j].1) == multiset(ds[j].1))
    {
      RarefyUpToAt(sorted, |ds|, min, draw, j);
      PickShape(sorted[j].1, min, draw, RarefyUpTo(sorted, j, min, draw).1);
      assert sorted[j].1 == SortReals(ds[j].1);
    }
  }

  /** Rarefaction fails exactly on an empty dictionary; otherwise it keeps
      the ranks in order and makes every list as long as the shortest
      input list, each drawn from its own rank's list. */
  lemma RarefyProperties(ds: RankDistances, draw: nat -> nat)
    ensures Rarefy(ds, draw).Ok? <==> |ds| > 0
    ensures Rarefy(ds, draw).Ok? ==>
      var r := Rarefy(ds, draw).value;
      |r| == |ds| && (exists i :: 0 <= i < |ds| && |r[i].1| == |ds[i].1|)
      && forall i :: 0 <= i < |ds| ==>
        r[i].0 == ds[i].0 && |r[i].1| <= |ds[i].1| && |r[i].1| == |r[0].1|
        && multiset(r[i].1) <= multiset(ds[i].1)
  {
    if |ds| > 0 {
      var m := MinSamples(ds);
      RarefyShape(ds, m, draw);
      var i :| 0 <= i < |ds| && |ds[i].1| == m;
      assert |Rarefy(ds, draw).value[i].1| == |ds[i].1|;
    }
  }

  // ---------------------------------------------------------------------
  // complete_regression
  // ---------------------------------------------------------------------

  /** A rank `complete_regression` gives up on: 3 or fewer samples, or none
      left once `cull_outliers` has removed the outliers. */
  predicate Unfit(s: seq<real>, cull: seq<real> -> seq<real>)
  {
    |s| <= 3 || |cull(s)| == 0
  }

  /** Every rank's list with its outliers culled. */
  function Culled(ds: RankDistances, cull: seq<real> -> seq<real>): (r: RankDistances)
    ensures |r| == |ds|
  {
    seq(|ds|, i requires 0 <= i < |ds| => (ds[i].0, cull(ds[i].1)))
  }

  /** The guards of `complete_regression`: None stands for the `[]` it
      returns, Some for the rarefied distances it hands to `regress_ranks`.
      It gives up exactly when there are no ranks or some rank is unfit. */
  method CompleteRegression(ds: RankDistances, cull: seq<real> -> seq<real>, draw: nat -> nat)
    returns (r: Option<RankDistances>)
    ensures r.None? <==> |ds| == 0 || exists i :: 0 <= i < |ds| && Unfit(ds[i].1, cull)
    ensures r.Some? ==> Rarefy(Culled(ds, cull), draw) == Ok(r.value)
  {
    if |ds| == 0 {
      return None;
    }
    var filtered: RankDistances := [];
    for i := 0 to |ds|
      invariant filtered == Culled(ds[..i], cull)
      invariant forall j :: 0 <= j < i ==> !Unfit(ds[j].1, cull)
    {
      if |ds[i].1| <= 3 {
        assert Unfit(ds[i].1, cull);
        return None;
      }
      var culled := cull(ds[i].1);
      filtered := filtered + [(ds[i].0, culled)];
      if |culled| == 0 {
        assert Unfit(ds[i].1, cull);
        return None;
      }
    }
    assert ds[..|ds|] == ds;
    var rarefied := RarefyRankDistances(filtered, draw);
    return Some(rarefied.value);
  }

  /** The guard after rarefaction never fires: once every culled list is
      non-empty, every rarefied list is non-empty too. */
  lemma RarefiedNeverEmpty(ds: RankDistances, cull: seq<real> -> seq<real>, draw: nat -> nat)
    requires |ds| > 0 && forall i :: 0 <= i < |ds| ==> !Unfit(ds[i].1, cull)
    ensures Rarefy(Culled(ds, cull), draw).Ok?
    ensures |Rarefy(Culled(ds, cull), draw).value| == |ds|
    ensures forall i :: 0 <= i < |ds| ==> |Rarefy(Culled(ds, cull), draw).value[i].1| > 0
  {
    var c := Culled(ds, cull);
    var m := MinSamples(c);
    RarefyShape(c, m, draw);
    var j :| 0 <= j < |c| && |c[j].1| == m;
    assert !Unfit(ds[j].1, cull);
  }
}
