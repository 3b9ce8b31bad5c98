/** The parts of Python's `str` that the TreeSAPP modules rely on: `find`,
    `split`, `join`, `startswith`, `lstrip`, `str(n)` of a natural number
    and the ordering `<=` of strings (by code point). */
module PyStrings {
  import opened Wrappers

  /** `s.startswith(p)`. */
  predicate StartsWith(s: string, p: string)
  {
    |p| <= |s| && s[..|p|] == p
  }

  /** `s.endswith(p)`. */
  predicate EndsWith(s: string, p: string)
  {
    |p| <= |s| && s[|s| - |p|..] == p
  }

  /** `sep` occurs in `s` at position i. */
  predicate OccursAt(s: string, sep: string, i: nat)
  {
    i + |sep| <= |s| && s[i..i + |sep|] == sep
  }

  /** `s.find(sep, i)`: the first occurrence of `sep` at or after i. */
  function FindFrom(s: string, sep: string, i: nat): (r: Option<nat>)
    ensures r.Some? ==> i <= r.value && OccursAt(s, sep, r.value)
    ensures r.Some? ==> forall j :: i <= j < r.value ==> !OccursAt(s, sep, j)
    ensures r.None? ==> forall j :: i <= j ==> !OccursAt(s, sep, j)
    decreases |s| - i
  {
    if i + |sep| > |s| then None
    else if OccursAt(s, sep, i) then Some(i)
    else FindFrom(s, sep, i + 1)
  }

  /** `s.split(sep)` for a non-empty separator: the pieces between the
      occurrences of `sep`, found left to right without overlap. */
  function Split(s: string, sep: string): (parts: seq<string>)
    requires |sep| > 0
    ensures |parts| >= 1
    decreases |s|
  {
    var f := FindFrom(s, sep, 0);
    if f.None? then [s] else [s[..f.value]] + Split(s[f.value + |sep|..], sep)
  }

  /** `sep.join(parts)`. */
  function Join(parts: seq<string>, sep: string): string
  {
    if |parts| == 0 then ""
    else if |parts| == 1 then parts[0]
    else parts[0] + sep + Join(parts[1..], sep)
  }

  lemma ConcatAssoc<T>(a: seq<T>, b: seq<T>, c: seq<T>)
    ensures a + b + c == a + (b + c)
  {
  }

  lemma DropConcat<T>(a: seq<T>, b: seq<T>, d: nat)
    requires d <= |a|
    ensures (a + b)[d..] == a[d..] + b
  {
  }

  lemma TakeConcat<T>(a: seq<T>, b: seq<T>, d: nat)
    requires d <= |a|
    ensures (a + b)[..d] == a[..d]
  {
  }

  lemma JoinCons(p: string, parts: seq<string>, sep: string)
    requires |parts| >= 1
    ensures Join([p] + parts, sep) == p + sep + Join(parts, sep)
  {
    assert ([p] + parts)[1..] == parts;
  }

  /** The string around the first occurrence of the separator. */
  lemma SplitFirst(s: string, sep: string, i: nat)
    requires |sep| > 0 && FindFrom(s, sep, 0) == Some(i)
    ensures i + |sep| <= |s|
    ensures Split(s, sep) == [s[..i]] + Split(s[i + |sep|..], sep)
    ensures s == s[..i] + (sep + s[i + |sep|..])
  {
    SplitAt(s, sep, i);
    SeparatorAt(s, sep, i);
  }

  lemma SplitAt(s: string, sep: string, i: nat)
    requires |sep| > 0 && FindFrom(s, sep, 0) == Some(i)
    ensures Split(s, sep) == [s[..i]] + Split(s[i + |sep|..], sep)
  {
  }

  lemma SeparatorAt(s: string, sep: string, i: nat)
    requires OccursAt(s, sep, i)
    ensures s == s[..i] + (sep + s[i + |sep|..])
  {
    SliceAround(s, i, |sep|);
  }

  /** A sequence is its prefix, a slice of length n, and the rest. */
  lemma SliceAround<T>(s: seq<T>, i: nat, n: nat)
    requires i + n <= |s|
    ensures s == s[..i] + (s[i..i + n] + s[i + n..])
  {
    assert s[i..] == s[i..i + n] + s[i + n..];
    assert s == s[..i] + s[i..];
  }

  /** Joining the pieces of a split gives the string back. */
  lemma {:induction false} JoinSplit(s: string, sep: string)
    requires |sep| > 0
    ensures Join(Split(s, sep), sep) == s
    decreases |s|
  {
    var r := FindFrom(s, sep, 0);
    if r.Some? {
      var i := r.value;
      var rest := s[i + |sep|..];
      SplitFirst(s, sep, i);
      JoinSplit(rest, sep);
      JoinCons(s[..i], Split(rest, sep), sep);
      ConcatAssoc(s[..i], sep, rest);
    }
  }

  /** Splitting a join gives the pieces back, when no piece holds the
      separator's first character.  */
  lemma {:induction false} SplitJoin(parts: seq<string>, sep: string)
    requires |parts| >= 1 && |sep| > 0
    requires forall k :: 0 <= k < |parts| ==> sep[0] !in parts[k]
    ensures Split(Join(parts, sep), sep) == parts
    decreases |parts|
  {
    var p := parts[0];
    if |parts| == 1 {
      match FindFrom(p, sep, 0)
      case None =>
      case Some(i) =>
        assert false;
    } else {
      var tail := Join(parts[1..], sep);
      var s := p + sep + tail;
      assert Join(parts, sep) == s;
      assert OccursAt(s, sep, |p|) by {
        assert s[|p|..|p| + |sep|] == sep;
      }
      forall j | 0 <= j < |p|
        ensures !OccursAt(s, sep, j)
      {
        assert s[j] == p[j];
      }
      var r := FindFrom(s, sep, 0);
      assert r == Some(|p|);
      assert s[..|p|] == p;
      assert s[|p| + |sep|..] == tail;
      SplitJoin(parts[1..], sep);
      assert Split(s, sep) == [p] + Split(tail, sep);
    }
  }

  /** Two strings that agree on their first n characters have the same
      occurrences of sep inside them. */
  lemma OccursAgree(s: string, t: string, sep: string, n: nat, j: nat)
    requires j + |sep| <= n <= |s| && n <= |t| && s[..n] == t[..n]
    ensures OccursAt(s, sep, j) == OccursAt(t, sep, j)
  {
    assert s[j..j + |sep|] == s[..n][j..j + |sep|];
    assert t[j..j + |sep|] == t[..n][j..j + |sep|];
  }

  /** The first occurrence, from the facts that characterise it. */
  lemma FirstAt(t: string, sep: string, i: nat)
    requires OccursAt(t, sep, i) && forall j :: 0 <= j < i ==> !OccursAt(t, sep, j)
    ensures FindFrom(t, sep, 0) == Some(i)
  {
    var r := FindFrom(t, sep, 0);
    assert r.Some?;
    assert !(r.value < i);
  }

  /** An occurrence inside a suffix is an occurrence in the whole string,
      shifted by the suffix's start. */
  lemma OccursShift(t: string, sep: string, d: nat, j: nat)
    requires d <= |t|
    ensures OccursAt(t[d..], sep, j) == OccursAt(t, sep, d + j)
  {
    if d + j + |sep| <= |t| {
      assert t[d..][j..j + |sep|] == t[d + j..d + j + |sep|];
    }
  }

  /** Splitting `a + sep + b` gives the pieces of a and then b, when b holds
      no separator and no separator straddles the end of a. */
  lemma {:induction false} SplitSnoc(a: string, b: string, sep: string)
    requires |sep| > 0
    requires forall j :: 0 <= j ==> !OccursAt(b, sep, j)
    requires forall j :: |a| - |sep| < j < |a| && 0 <= j ==> !OccursAt(a + sep + b, sep, j)
    ensures Split(a + sep + b, sep) == Split(a, sep) + [b]
    decreases |a|, 2
  {
    match FindFrom(a, sep, 0)
    case Some(i) => SplitSnocAt(a, b, sep, i);
    case None => SplitSnocLast(a, b, sep);
  }

  /** Split at the first separator, without the decomposition of s. */
  lemma SplitAtFirst(s: string, sep: string, i: nat)
    requires |sep| > 0 && FindFrom(s, sep, 0) == Some(i)
    ensures i + |sep| <= |s|
    ensures Split(s, sep) == [s[..i]] + Split(s[i + |sep|..], sep)
  {
    SplitFirst(s, sep, i);
  }

  /** The case where a holds a separator: the first one is the first of the
      whole string. */
  lemma {:induction false} SplitSnocAt(a: string, b: string, sep: string, i: nat)
    requires |sep| > 0 && FindFrom(a, sep, 0) == Some(i)
    requires forall j :: 0 <= j ==> !OccursAt(b, sep, j)
    requires forall j :: |a| - |sep| < j < |a| && 0 <= j ==> !OccursAt(a + sep + b, sep, j)
    ensures Split(a + sep + b, sep) == Split(a, sep) + [b]
    decreases |a|, 1
  {
    SplitAtFirst(a, sep, i);
    SplitSnocFirst(a, b, sep, i);
    SplitAtFirst(a + sep + b, sep, i);
    SplitSnocRest(a, b, sep, i);
    SplitSnocGlue(a, b, sep, i);
  }

  /** What is left of a after its first separator meets the requirements of
      SplitSnoc. */
  lemma {:induction false} SplitSnocRest(a: string, b: string, sep: string, i: nat)
    requires |sep| > 0 && FindFrom(a, sep, 0) == Some(i)
    requires forall j :: 0 <= j ==> !OccursAt(b, sep, j)
    requires forall j :: |a| - |sep| < j < |a| && 0 <= j ==> !OccursAt(a + sep + b, sep, j)
    ensures i + |sep| <= |a|
    ensures Split(a[i + |sep|..] + sep + b, sep) == Split(a[i + |sep|..], sep) + [b]
    decreases |a|, 0
  {
    SplitAtFirst(a, sep, i);
    var d := i + |sep|;
    SplitSnocShift(a, b, sep, d);
    SplitSnoc(a[d..], b, sep);
  }

  /** The no-straddle requirement carries over to a suffix of a. */
  lemma SplitSnocShift(a: string, b: string, sep: string, d: nat)
    requires d <= |a|
    requires forall j :: |a| - |sep| < j < |a| && 0 <= j ==> !OccursAt(a + sep + b, sep, j)
    ensures forall j :: |a[d..]| - |sep| < j < |a[d..]| && 0 <= j ==> !OccursAt(a[d..] + sep + b, sep, j)
  {
    var t := a + sep + b;
    ConcatAssoc(a, sep, b);
    DropConcat(a, sep + b, d);
    ConcatAssoc(a[d..], sep, b);
    forall j | |a[d..]| - |sep| < j < |a[d..]| && 0 <= j
      ensures !OccursAt(a[d..] + sep + b, sep, j)
    {
      OccursShift(t, sep, d, j);
    }
  }

  /** Both strings split first at i, and the rest of a + sep + b splits as
      the rest of a followed by b. */
  lemma SplitSnocGlue(a: string, b: string, sep: string, i: nat)
    requires |sep| > 0 && i + |sep| <= |a|
    requires Split(a, sep) == [a[..i]] + Split(a[i + |sep|..], sep)
    requires Split(a + sep + b, sep) == [(a + sep + b)[..i]] + Split((a + sep + b)[i + |sep|..], sep)
    requires Split(a[i + |sep|..] + sep + b, sep) == Split(a[i + |sep|..], sep) + [b]
    ensures Split(a + sep + b, sep) == Split(a, sep) + [b]
  {
    var d := i + |sep|;
    ConcatAssoc(a, sep, b);
    TakeConcat(a, sep + b, i);
    DropConcat(a, sep + b, d);
    ConcatAssoc(a[d..], sep, b);
    ConcatAssoc([a[..i]], Split(a[d..], sep), [b]);
  }

  /** The first separator of a is the first of a + sep + b. */
  lemma SplitSnocFirst(a: string, b: string, sep: string, i: nat)
    requires |sep| > 0 && FindFrom(a, sep, 0) == Some(i)
    ensures FindFrom(a + sep + b, sep, 0) == Some(i)
  {
    var t := a + sep + b;
    assert t[..|a|] == a;
    OccursAgree(a, t, sep, |a|, i);
    forall j | 0 <= j < i
      ensures !OccursAt(t, sep, j)
    {
      OccursAgree(a, t, sep, |a|, j);
    }
    FirstAt(t, sep, i);
  }

  /** The case where a holds no separator: the added one is the first. */
  lemma SplitSnocLast(a: string, b: string, sep: string)
    requires |sep| > 0 && FindFrom(a, sep, 0).None?
    requires forall j :: 0 <= j ==> !OccursAt(b, sep, j)
    requires forall j :: |a| - |sep| < j < |a| && 0 <= j ==> !OccursAt(a + sep + b, sep, j)
    ensures Split(a + sep + b, sep) == Split(a, sep) + [b]
  {
    var t := a + sep + b;
    assert t[..|a|] == a;
    forall j | 0 <= j < |a|
      ensures !OccursAt(t, sep, j)
    {
      if j + |sep| <= |a| {
        OccursAgree(a, t, sep, |a|, j);
      }
    }
    assert t[|a|..|a| + |sep|] == sep;
    FirstAt(t, sep, |a|);
    SplitFirst(t, sep, |a|);
    assert t[|a| + |sep|..] == b;
    assert FindFrom(b, sep, 0).None?;
  }

  /** `s.lstrip(chars)`: the leading characters that belong to the set are
      dropped (a set of characters, not a prefix). */
  function LStrip(s: string, chars: set<char>): (r: string)
    ensures |r| <= |s| && r == s[|s| - |r|..]
    ensures |r| > 0 ==> r[0] !in chars
    ensures forall i :: 0 <= i < |s| - |r| ==> s[i] in chars
  {
    if |s| > 0 && s[0] in chars then LStrip(s[1..], chars) else s
  }

  /** `s.rstrip(chars)`: the trailing characters that belong to the set are
      dropped. */
  function RStrip(s: string, chars: set<char>): (r: string)
    ensures |r| <= |s| && r == s[..|r|]
    ensures |r| > 0 ==> r[|r| - 1] !in chars
    ensures forall i :: |r| <= i < |s| ==> s[i] in chars
  {
    if |s| > 0 && s[|s| - 1] in chars then RStrip(s[..|s| - 1], chars) else s
  }

  /** `s.strip(chars)`. */
  function Strip(s: string, chars: set<char>): string
  {
    RStrip(LStrip(s, chars), chars)
  }

  /** The characters of a string, as a set. */
  function Chars(s: string): set<char>
  {
    set c | c in s
  }

  /** The decimal digit d. */
  function DigitChar(d: nat): char
    requires d < 10
  {
    (48 + d) as char
  }

  /** `str(n)` for a natural number: its decimal digits. */
  function NatToString(n: nat): (s: string)
    ensures |s| >= 1
    ensures (n < 10) == (|s| == 1)
  {
    if n < 10 then [DigitChar(n)] else NatToString(n / 10) + [DigitChar(n % 10)]
  }

  /** A decimal string holds decimal digits only. */
  lemma {:induction false} NatToStringDigits(n: nat)
    ensures forall c :: c in NatToString(n) ==> '0' <= c <= '9'
  {
    if n >= 10 {
      NatToStringDigits(n / 10);
    }
  }

  /** Joining one more part puts the separator before it. */
  lemma {:induction false} JoinSnoc(parts: seq<string>, x: string, sep: string)
    requires |parts| >= 1
    ensures Join(parts + [x], sep) == Join(parts, sep) + sep + x
    decreases |parts|
  {
    if |parts| == 1 {
      assert (parts + [x])[1..] == [x];
    } else {
      assert (parts + [x])[1..] == parts[1..] + [x];
      JoinSnoc(parts[1..], x, sep);
      ConcatAssoc(parts[0] + sep, Join(parts[1..], sep), sep + x);
      ConcatAssoc(parts[0] + sep + Join(parts[1..], sep), sep, x);
    }
  }

  /** Different numbers have different decimal strings. */
  lemma {:induction false} NatToStringInjective(m: nat, n: nat)
    requires NatToString(m) == NatToString(n)
    ensures m == n
  {
    if m >= 10 && n >= 10 {
      var sm, sn := NatToString(m), NatToString(n);
      assert sm[|sm| - 1] == DigitChar(m % 10) && sn[|sn| - 1] == DigitChar(n % 10);
      assert sm[..|sm| - 1] == NatToString(m / 10) && sn[..|sn| - 1] == NatToString(n / 10);
      NatToStringInjective(m / 10, n / 10);
    } else if m < 10 && n < 10 {
      assert NatToString(m)[0] == DigitChar(m);
    }
  }

  /** Python's `a <= b` on strings: lexicographic by code point, a proper
      prefix first. */
  predicate StrLe(a: string, b: string)
  {
    |a| == 0 || (|b| > 0 && (a[0] < b[0] || (a[0] == b[0] && StrLe(a[1..], b[1..]))))
  }

  lemma {:induction false} StrLeTotal(a: string, b: string)
    ensures StrLe(a, b) || StrLe(b, a)
  {
    if |a| > 0 && |b| > 0 && a[0] == b[0] {
      StrLeTotal(a[1..], b[1..]);
    }
  }

  lemma {:induction false} StrLeTrans(a: string, b: string, c: string)
    requires StrLe(a, b) && StrLe(b, c)
    ensures StrLe(a, c)
  {
    if |a| > 0 && a[0] == b[0] && b[0] == c[0] {
      StrLeTrans(a[1..], b[1..], c[1..]);
    }
  }

  lemma {:induction false} StrLeAntisymmetric(a: string, b: string)
    requires StrLe(a, b) && StrLe(b, a)
    ensures a == b
  {
    if |a| > 0 {
      StrLeAntisymmetric(a[1..], b[1..]);
      assert a == [a[0]] + a[1..] && b == [b[0]] + b[1..];
    }
  }

  /** Python's `\s` inside a regular expression, restricted to ASCII. */
  predicate IsSpace(c: char)
  {
    c == ' ' || c == '\t' || c == '\n' || c == '\r' || c == '\U{0B}' || c == '\U{0C}'
  }

  /** ASCII lower case, as `re.IGNORECASE` compares ASCII letters. */
  function Lower(c: char): (d: char)
    ensures 'A' <= c <= 'Z' ==> d as int == c as int + 32
    ensures !('A' <= c <= 'Z') ==> d == c
  {
    if 'A' <= c <= 'Z' then (c as int + 32) as char else c
  }
}
