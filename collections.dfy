/** Lists as Python builds them: a filtered copy, a concatenation of lists,
    and the items of a dictionary (pairs with distinct keys, in insertion
    order). */
module Collections {

  /** The items of a dictionary have distinct keys. */
  predicate DistinctKeys<K(==), V>(items: seq<(K, V)>)
  {
    forall j, k :: 0 <= j < k < |items| ==> items[j].0 != items[k].0
  }

  /** `[x for x in s if p(x)]`. */
  function Filter<T(!new)>(s: seq<T>, p: T -> bool): (r: seq<T>)
    ensures |r| <= |s|
    ensures forall x {:trigger x in r} :: x in r <==> x in s && p(x)
    decreases |s|
  {
    if |s| == 0 then []
    else
      var n := |s| - 1;
      assert forall x :: x in s <==> x in s[..n] || x == s[n] by {
        assert s == s[..n] + [s[n]];
      }
      Filter(s[..n], p) + (if p(s[n]) then [s[n]] else [])
  }

  /** Filtering a non-empty sequence filters its front and then its last entry. */
  lemma FilterSnoc<T(!new)>(s: seq<T>, p: T -> bool)
    requires |s| > 0
    ensures Filter(s, p) == Filter(s[..|s| - 1], p) + (if p(s[|s| - 1]) then [s[|s| - 1]] else [])
  {
  }

  /** Filtering keeps everything exactly when every entry passes. */
  lemma {:induction false} FilterAll<T(!new)>(s: seq<T>, p: T -> bool)
    ensures (Filter(s, p) == s) <==> forall x :: x in s ==> p(x)
    decreases |s|
  {
    if |s| > 0 {
      var n := |s| - 1;
      assert s == s[..n] + [s[n]];
      FilterAll(s[..n], p);
      if !p(s[n]) {
        assert |Filter(s, p)| < |s| by {
          assert |Filter(s[..n], p)| <= n;
        }
      }
    }
  }

  /** A list whose every entry passes is its own filter. */
  lemma {:induction false} FilterKeeps<T(!new)>(s: seq<T>, p: T -> bool)
    requires forall i :: 0 <= i < |s| ==> p(s[i])
    ensures Filter(s, p) == s
    decreases |s|
  {
    if |s| > 0 {
      var n := |s| - 1;
      FilterKeeps(s[..n], p);
      assert s == s[..n] + [s[n]];
    }
  }

  /** A list whose only failing entry is the first filters to its tail. */
  lemma FilterDropsFirst<T(!new)>(s: seq<T>, p: T -> bool)
    requires |s| > 0 && !p(s[0])
    requires forall i :: 1 <= i < |s| ==> p(s[i])
    ensures Filter(s, p) == s[1..]
  {
    var rest := s[1..];
    assert s == [s[0]] + rest;
    FilterConcat([s[0]], rest, p);
    FilterKeeps(rest, p);
    assert Filter([s[0]], p) == [] by {
      assert [s[0]][..0] == [];
    }
  }

  /** Putting the failing first entry back gives the list again. */
  lemma FilterRestoresFirst<T(!new)>(s: seq<T>, p: T -> bool)
    requires |s| > 0 && !p(s[0])
    requires forall i :: 1 <= i < |s| ==> p(s[i])
    ensures [s[0]] + Filter(s, p) == s
  {
    FilterDropsFirst(s, p);
    assert s == [s[0]] + s[1..];
  }

  /** Filtering distributes over concatenation. */
  lemma {:induction false} FilterConcat<T(!new)>(a: seq<T>, b: seq<T>, p: T -> bool)
    ensures Filter(a + b, p) == Filter(a, p) + Filter(b, p)
    decreases |b|
  {
    if |b| == 0 {
      assert a + b == a;
    } else {
      var n := |b| - 1;
      FilterConcatLast(a, b, p);
      FilterConcat(a, b[..n], p);
      var last := if p(b[n]) then [b[n]] else [];
      assert Filter(a, p) + Filter(b[..n], p) + last == Filter(a, p) + (Filter(b[..n], p) + last);
    }
  }

  /** The last entry of a concatenation is filtered after the rest. */
  lemma FilterConcatLast<T(!new)>(a: seq<T>, b: seq<T>, p: T -> bool)
    requires |b| > 0
    ensures Filter(a + b, p) == Filter(a + b[..|b| - 1], p) + if p(b[|b| - 1]) then [b[|b| - 1]] else []
  {
    var n := |b| - 1;
    assert (a + b)[..|a| + n] == a + b[..n];
    assert (a + b)[|a| + n] == b[n];
  }

  /** A filter of a list of items with distinct keys has distinct keys. */
  lemma {:induction false} FilterDistinctKeys<K(!new), V(!new)>(s: seq<(K, V)>, p: ((K, V)) -> bool)
    requires DistinctKeys(s)
    ensures DistinctKeys(Filter(s, p))
    decreases |s|
  {
    if |s| > 0 {
      var n := |s| - 1;
      assert DistinctKeys(s[..n]);
      FilterDistinctKeys(s[..n], p);
      forall x | x in Filter(s[..n], p)
        ensures x.0 != s[n].0
      {
        var j :| 0 <= j < n && s[..n][j] == x;
      }
    }
  }

  /** `[x for l in ls for x in l]`. */
  function Flatten<T>(ls: seq<seq<T>>): seq<T>
    decreases |ls|
  {
    if |ls| == 0 then []
    else
      var n := |ls| - 1;
      Flatten(ls[..n]) + ls[n]
  }

  /** An entry of the concatenation is an entry of one of the lists. */
  lemma {:induction false} FlattenMembers<T(!new)>(ls: seq<seq<T>>)
    ensures forall x :: x in Flatten(ls) <==> exists i :: 0 <= i < |ls| && x in ls[i]
    decreases |ls|
  {
    if |ls| > 0 {
      var n := |ls| - 1;
      FlattenMembers(ls[..n]);
      assert forall i :: 0 <= i < n ==> ls[..n][i] == ls[i];
    }
  }

  /** Slicing facts for loops that append one entry at a time. */
  lemma SnocSlice<T>(a: seq<T>, b: seq<T>, j: nat)
    requires j < |b|
    ensures a + b[..j + 1] == a + b[..j] + [b[j]]
  {
    assert b[..j + 1] == b[..j] + [b[j]];
  }

  lemma PrefixSnoc<T>(s: seq<T>, k: nat)
    requires k < |s|
    ensures s[..k + 1][..k] == s[..k] && s[..k + 1] == s[..k] + [s[k]]
  {
  }

  lemma PrefixMembers<T>(s: seq<T>, k: nat)
    requires k < |s|
    ensures forall x :: x in s[..k + 1] <==> x in s[..k] || x == s[k]
  {
    assert s[..k + 1] == s[..k] + [s[k]];
  }

  lemma TakeAll<T>(s: seq<T>)
    ensures s[..|s|] == s
  {
  }

  lemma MultisetSnoc<T>(s: seq<T>)
    requires |s| > 0
    ensures multiset(s) == multiset(s[..|s| - 1]) + multiset{s[|s| - 1]}
  {
    assert s == s[..|s| - 1] + [s[|s| - 1]];
  }

  lemma AppendTake<T>(a: seq<T>, x: T)
    ensures (a + [x])[..|a|] == a && (a + [x])[|a|] == x
  {
  }

  /** No entry occurs twice. */
  predicate Distinct<T(==)>(s: seq<T>)
  {
    forall i, j :: 0 <= i < j < |s| ==> s[i] != s[j]
  }

  /** A list without repeats counts each entry at most once. */
  lemma {:induction false} DistinctCounts<T>(s: seq<T>)
    requires Distinct(s)
    ensures forall x :: multiset(s)[x] <= 1
    decreases |s|
  {
    if |s| > 0 {
      var n := |s| - 1;
      assert s == s[..n] + [s[n]];
      assert Distinct(s[..n]);
      DistinctCounts(s[..n]);
      assert s[n] !in s[..n];
    }
  }
}
