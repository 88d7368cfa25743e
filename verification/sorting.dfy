/** Filtering and sorting of in-memory lists, as `Array.prototype.filter` and
    `Array.prototype.sort` do them. */
module Sorting {

  /** Lexicographic order on character codes: what `Array.prototype.sort()` uses without a
      comparator, and the stand-in for `localeCompare`. */
  predicate StrLe(a: string, b: string)
    decreases |a|
  {
    if |a| == 0 then true
    else if |b| == 0 then false
    else if a[0] != b[0] then a[0] < b[0]
    else StrLe(a[1..], b[1..])
  }

  lemma StrLeTotal(a: string, b: string)
    ensures StrLe(a, b) || StrLe(b, a)
  {
  }

  lemma StrLeTransitive(a: string, b: string, c: string)
    requires StrLe(a, b) && StrLe(b, c)
    ensures StrLe(a, c)
  {
  }

  lemma StrLeAntisymmetric(a: string, b: string)
    requires StrLe(a, b) && StrLe(b, a)
    ensures a == b
  {
  }

  /** `s.filter(keep)`: the elements that pass, in order. */
  function Filter<T>(s: seq<T>, keep: T -> bool): (r: seq<T>)
    ensures |r| <= |s|
    ensures forall i | 0 <= i < |r| :: keep(r[i])
  {
    if |s| == 0 then []
    else (if keep(s[0]) then [s[0]] else []) + Filter(s[1..], keep)
  }

  /** Every value is kept as often as it occurs if it passes, and dropped otherwise. */
  lemma {:induction false} FilterCount<T>(s: seq<T>, keep: T -> bool, x: T)
    ensures multiset(Filter(s, keep))[x] == if keep(x) then multiset(s)[x] else 0
  {
    if |s| > 0 {
      assert s == [s[0]] + s[1..];
      FilterCount(s[1..], keep, x);
    }
  }

  lemma FilterMembers<T>(s: seq<T>, keep: T -> bool, x: T)
    ensures x in Filter(s, keep) <==> x in s && keep(x)
  {
    FilterCount(s, keep, x);
    assert x in Filter(s, keep) <==> x in multiset(Filter(s, keep));
    assert x in s <==> x in multiset(s);
  }

  lemma FilterCons<T>(x: T, s: seq<T>, keep: T -> bool)
    ensures Filter([x] + s, keep) == (if keep(x) then [x] else []) + Filter(s, keep)
  {
    assert ([x] + s)[1..] == s;
  }

  /** Filtering distributes over concatenation. */
  lemma {:induction false} FilterConcat<T>(a: seq<T>, b: seq<T>, keep: T -> bool)
    ensures Filter(a + b, keep) == Filter(a, keep) + Filter(b, keep)
  {
    if |a| == 0 {
      assert a + b == b;
    } else {
      assert a + b == [a[0]] + (a[1..] + b);
      assert a == [a[0]] + a[1..];
      FilterCons(a[0], a[1..] + b, keep);
      FilterCons(a[0], a[1..], keep);
      FilterConcat(a[1..], b, keep);
    }
  }

  /** Two lists with the same multiset have the same members. */
  lemma SameMembers<T>(a: seq<T>, b: seq<T>, x: T)
    requires multiset(a) == multiset(b)
    ensures x in a <==> x in b
  {
    assert x in a <==> x in multiset(a);
    assert x in b <==> x in multiset(b);
  }

  /** `[...new Set(s)]`: the first occurrence of every value, in order. */
  function Dedupe<T(==,!new)>(s: seq<T>): (r: seq<T>)
    ensures forall x :: x in r <==> x in s
    ensures forall x | x in r :: multiset(r)[x] == 1
  {
    if |s| == 0 then []
    else
      var r := Dedupe(s[..|s| - 1]);
      var x := s[|s| - 1];
      assert s == s[..|s| - 1] + [x];
      if x in r then r else r + [x]
  }

  /** Sorted ascending by `key` under StrLe. */
  ghost predicate SortedAsc<T>(s: seq<T>, key: T -> string) {
    forall i, j | 0 <= i < j < |s| :: StrLe(key(s[i]), key(s[j]))
  }

  /** Sorted non-increasing by `score`. */
  ghost predicate SortedDesc<T>(s: seq<T>, score: T -> real) {
    forall i, j | 0 <= i < j < |s| :: score(s[i]) >= score(s[j])
  }

  function InsertAsc<T>(x: T, s: seq<T>, key: T -> string): (r: seq<T>)
    requires SortedAsc(s, key)
    ensures SortedAsc(r, key)
    ensures multiset(r) == multiset(s) + multiset{x}
  {
    if |s| == 0 then [x]
    else if StrLe(key(x), key(s[0])) then
      assert forall j | 0 <= j < |s| :: StrLe(key(x), key(s[j])) by {
        forall j | 0 <= j < |s|
          ensures StrLe(key(x), key(s[j]))
        {
          if j > 0 {
            StrLeTransitive(key(x), key(s[0]), key(s[j]));
          }
        }
      }
      [x] + s
    else
      StrLeTotal(key(x), key(s[0]));
      var t := InsertAsc(x, s[1..], key);
      InsertAscStep(x, s, t, key);
      [s[0]] + t
  }

  /** Putting the head of a sorted list in front of its sorted tail with `x` inserted keeps
      the order, when `x` does not come before the head. */
  lemma InsertAscStep<T>(x: T, s: seq<T>, t: seq<T>, key: T -> string)
    requires |s| > 0 && SortedAsc(s, key) && StrLe(key(s[0]), key(x))
    requires SortedAsc(t, key) && multiset(t) == multiset(s[1..]) + multiset{x}
    ensures SortedAsc([s[0]] + t, key) && multiset([s[0]] + t) == multiset(s) + multiset{x}
  {
    assert s == [s[0]] + s[1..];
    assert forall j | 0 <= j < |s[1..]| :: StrLe(key(s[0]), key(s[1..][j]));
    AllAtLeastAsc(x, s[1..], t, key, key(s[0]));
    ConsSortedAsc(s[0], t, key);
  }

  lemma ConsSortedAsc<T>(h: T, t: seq<T>, key: T -> string)
    requires SortedAsc(t, key) && forall j | 0 <= j < |t| :: StrLe(key(h), key(t[j]))
    ensures SortedAsc([h] + t, key)
  {
    var r := [h] + t;
    forall i, j | 0 <= i < j < |r|
      ensures StrLe(key(r[i]), key(r[j]))
    {
      assert r[j] == t[j - 1];
      if i > 0 {
        assert r[i] == t[i - 1];
      }
    }
  }

  /** A bound below every element of `s` and below `x` is below every element of a
      rearrangement of `s` with `x` added. */
  lemma AllAtLeastAsc<T>(x: T, s: seq<T>, t: seq<T>, key: T -> string, lo: string)
    requires multiset(t) == multiset(s) + multiset{x}
    requires StrLe(lo, key(x)) && forall j | 0 <= j < |s| :: StrLe(lo, key(s[j]))
    ensures forall j | 0 <= j < |t| :: StrLe(lo, key(t[j]))
  {
    forall j | 0 <= j < |t|
      ensures StrLe(lo, key(t[j]))
    {
      assert t[j] in multiset(t);
      if t[j] != x {
        assert t[j] in multiset(s);
        var k :| 0 <= k < |s| && s[k] == t[j];
      }
    }
  }

  /** A stable insertion sort, ascending by `key`. */
  function SortAsc<T>(s: seq<T>, key: T -> string): (r: seq<T>)
    ensures SortedAsc(r, key)
    ensures multiset(r) == multiset(s)
    ensures |r| == |s|
  {
    if |s| == 0 then []
    else
      assert s == [s[0]] + s[1..];
      var r := InsertAsc(s[0], SortAsc(s[1..], key), key);
      assert |r| == |multiset(r)|;
      r
  }

  /** A bound above every element of `s` and above `x` is above every element of a
      rearrangement of `s` with `x` added. */
  lemma AllAtMostDesc<T>(x: T, s: seq<T>, t: seq<T>, score: T -> real, hi: real)
    requires multiset(t) == multiset(s) + multiset{x}
    requires hi >= score(x) && forall j | 0 <= j < |s| :: hi >= score(s[j])
    ensures forall j | 0 <= j < |t| :: hi >= score(t[j])
  {
    forall j | 0 <= j < |t|
      ensures hi >= score(t[j])
    {
      assert t[j] in multiset(t);
      if t[j] != x {
        assert t[j] in multiset(s);
        var k :| 0 <= k < |s| && s[k] == t[j];
      }
    }
  }

  function InsertDesc<T>(x: T, s: seq<T>, score: T -> real): (r: seq<T>)
    requires SortedDesc(s, score)
    ensures SortedDesc(r, score)
    ensures multiset(r) == multiset(s) + multiset{x}
  {
    if |s| == 0 then [x]
    else if score(x) >= score(s[0]) then [x] + s
    else
      var t := InsertDesc(x, s[1..], score);
      InsertDescStep(x, s, t, score);
      [s[0]] + t
  }

  /** Putting the head of a sorted list in front of its sorted tail with `x` inserted keeps
      the order, when `x` scores no higher than the head. */
  lemma InsertDescStep<T>(x: T, s: seq<T>, t: seq<T>, score: T -> real)
    requires |s| > 0 && SortedDesc(s, score) && score(s[0]) >= score(x)
    requires SortedDesc(t, score) && multiset(t) == multiset(s[1..]) + multiset{x}
    ensures SortedDesc([s[0]] + t, score) && multiset([s[0]] + t) == multiset(s) + multiset{x}
  {
    assert s == [s[0]] + s[1..];
    assert forall j | 0 <= j < |s[1..]| :: score(s[0]) >= score(s[1..][j]);
    AllAtMostDesc(x, s[1..], t, score, score(s[0]));
    ConsSortedDesc(s[0], t, score);
  }

  lemma ConsSortedDesc<T>(h: T, t: seq<T>, score: T -> real)
    requires SortedDesc(t, score) && forall j | 0 <= j < |t| :: score(h) >= score(t[j])
    ensures SortedDesc([h] + t, score)
  {
    var r := [h] + t;
    forall i, j | 0 <= i < j < |r|
      ensures score(r[i]) >= score(r[j])
    {
      assert r[j] == t[j - 1];
      if i > 0 {
        assert r[i] == t[i - 1];
      }
    }
  }

  /** A stable insertion sort, highest `score` first (a comparator `score(b) - score(a)`). */
  function SortDesc<T>(s: seq<T>, score: T -> real): (r: seq<T>)
    ensures SortedDesc(r, score)
    ensures multiset(r) == multiset(s)
    ensures |r| == |s|
  {
    if |s| == 0 then []
    else
      assert s == [s[0]] + s[1..];
      var r := InsertDesc(s[0], SortDesc(s[1..], score), score);
      assert |r| == |multiset(r)|;
      r
  }

  /** `s.slice(0, n)` for a non-negative `n`. */
  function Take<T>(s: seq<T>, n: nat): (r: seq<T>)
    ensures |r| == if n < |s| then n else |s|
    ensures r == s[..|r|]
  {
    if n < |s| then s[..n] else s
  }

  /** A prefix of a list sorted highest-first is sorted highest-first. */
  lemma TakeSortedDesc<T>(s: seq<T>, score: T -> real, n: nat)
    requires SortedDesc(s, score)
    ensures SortedDesc(Take(s, n), score)
  {
    var t := Take(s, n);
    assert forall i | 0 <= i < |t| :: t[i] == s[i];
  }

  lemma TakeIsSubMultiset<T>(s: seq<T>, n: nat)
    ensures multiset(Take(s, n)) <= multiset(s)
  {
    var t := Take(s, n);
    assert s == t + s[|t|..];
  }

  /** Elements dropped by a prefix of a list sorted highest-first score no higher than any
      kept element. */
  lemma {:induction false} TakeKeepsHighest<T>(s: seq<T>, score: T -> real, n: nat)
    requires SortedDesc(s, score)
    ensures forall i, y | 0 <= i < |Take(s, n)| && y in multiset(s) - multiset(Take(s, n)) ::
      score(Take(s, n)[i]) >= score(y)
  {
    var t := Take(s, n);
    var m := |t|;
    DroppedAreSuffix(s, m);
    forall i, y | 0 <= i < m && y in multiset(s) - multiset(t)
      ensures score(t[i]) >= score(y)
    {
      var k :| m <= k < |s| && s[k] == y;
      assert t[i] == s[i];
    }
  }

  /** What a prefix of length `m` leaves out of `s` lies at positions `m` and beyond. */
  lemma DroppedAreSuffix<T>(s: seq<T>, m: nat)
    requires m <= |s|
    ensures forall y | y in multiset(s) - multiset(s[..m]) :: exists k | m <= k < |s| :: s[k] == y
  {
    assert s == s[..m] + s[m..];
    assert multiset(s) - multiset(s[..m]) == multiset(s[m..]);
    forall y | y in multiset(s) - multiset(s[..m])
      ensures exists k | m <= k < |s| :: s[k] == y
    {
      assert y in s[m..];
      var j :| 0 <= j < |s| - m && s[m..][j] == y;
      assert s[m + j] == y;
    }
  }
}
