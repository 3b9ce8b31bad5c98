/** Python's `sorted(xs, key=…)`: a stable sort by a total preorder `le`
    (`le(a, b)` when a's key is at most b's). */
module Sorting {
  import opened PyStrings

  /** `le` compares every pair and is transitive. */
  ghost predicate TotalPreorder<T(!new)>(le: (T, T) -> bool)
  {
    (forall a, b :: le(a, b) || le(b, a))
    && (forall a, b, c :: le(a, b) && le(b, c) ==> le(a, c))
  }

  predicate SortedBy<T(!new)>(s: seq<T>, le: (T, T) -> bool)
  {
    forall i, j :: 0 <= i < j < |s| ==> le(s[i], s[j])
  }

  /** x inserted before the first entry it is at most. */
  function Insert<T(!new)>(x: T, s: seq<T>, le: (T, T) -> bool): (r: seq<T>)
    requires TotalPreorder(le) && SortedBy(s, le)
    ensures multiset(r) == multiset(s) + multiset{x}
    ensures SortedBy(r, le)
  {
    if |s| == 0 then [x]
    else if le(x, s[0]) then [x] + s
    else
      var t := Insert(x, s[1..], le);
      assert multiset(s) == multiset{s[0]} + multiset(s[1..]) by {
        assert s == [s[0]] + s[1..];
      }
      assert forall e :: e in multiset(t) ==> le(s[0], e) by {
        forall e | e in multiset(t)
          ensures le(s[0], e)
        {
          assert e == x || e in multiset(s[1..]);
          if e != x {
            var k :| 0 <= k < |s[1..]| && s[1..][k] == e;
            assert s[k + 1] == e;
          }
        }
      }
      assert forall k :: 0 <= k < |t| ==> le(s[0], t[k]) by {
        forall k | 0 <= k < |t|
          ensures le(s[0], t[k])
        {
          assert t[k] in multiset(t);
        }
      }
      [s[0]] + t
  }

  /** `sorted(s, key=…)`: each entry inserted, from the last to the first,
      before the first already placed entry it is at most, so entries of
      equal key keep their order. */
  function Sort<T(!new)>(s: seq<T>, le: (T, T) -> bool): (r: seq<T>)
    requires TotalPreorder(le)
    ensures multiset(r) == multiset(s) && |r| == |s|
    ensures SortedBy(r, le)
  {
    if |s| == 0 then []
    else
      assert multiset(s) == multiset{s[0]} + multiset(s[1..]) by {
        assert s == [s[0]] + s[1..];
      }
      Insert(s[0], Sort(s[1..], le), le)
  }

  /** Python's `<=` on strings is a total preorder. */
  lemma StrLePreorder()
    ensures TotalPreorder(StrLe)
  {
    forall a, b
      ensures StrLe(a, b) || StrLe(b, a)
    {
      StrLeTotal(a, b);
    }
    forall a, b, c | StrLe(a, b) && StrLe(b, c)
      ensures StrLe(a, c)
    {
      StrLeTrans(a, b, c);
    }
  }

  /** Items of a dictionary ordered by key (`sorted(d)` then `d[k]`). */
  predicate KeyLe<V>(a: (string, V), b: (string, V))
  {
    StrLe(a.0, b.0)
  }

  lemma KeyLePreorder<V(!new)>()
    ensures TotalPreorder(KeyLe<V>)
  {
    forall a: (string, V), b: (string, V)
      ensures KeyLe(a, b) || KeyLe(b, a)
    {
      StrLeTotal(a.0, b.0);
    }
    forall a: (string, V), b: (string, V), c: (string, V) | KeyLe(a, b) && KeyLe(b, c)
      ensures KeyLe(a, c)
    {
      StrLeTrans(a.0, b.0, c.0);
    }
  }

  /** `sorted(names)` for a list of strings. */
  function SortStrings(s: seq<string>): (r: seq<string>)
    ensures multiset(r) == multiset(s) && SortedBy(r, StrLe)
  {
    StrLePreorder();
    Sort(s, StrLe)
  }

  /** The items of a dictionary in the order of `sorted(d)`. */
  function SortItems<V(!new)>(s: seq<(string, V)>): (r: seq<(string, V)>)
    ensures multiset(r) == multiset(s) && SortedBy(r, KeyLe<V>)
  {
    KeyLePreorder<V>();
    Sort(s, KeyLe<V>)
  }

  /** Items ordered by an integer key (`sorted(d, key=int)`). */
  predicate NatKeyLe<V>(a: (nat, V), b: (nat, V))
  {
    a.0 <= b.0
  }

  function SortNatKeys<V(!new)>(s: seq<(nat, V)>): (r: seq<(nat, V)>)
    ensures multiset(r) == multiset(s) && |r| == |s| && SortedBy(r, NatKeyLe<V>)
  {
    Sort(s, NatKeyLe<V>)
  }
}
