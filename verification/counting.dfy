/** Counting building blocks shared by the commit aggregations: occurrence counts,
    tallies of a list of keys, first-seen de-duplication, ordered key lists and a
    stable by-count ranking, together with the conservation law that ties a tally
    back to the number of records it was built from. */
module Counting {

  /** Number of occurrences of `x` in `xs`. */
  function Count<T(==)>(xs: seq<T>, x: T): nat
  {
    if xs == [] then 0
    else (if xs[0] == x then 1 else 0) + Count(xs[1..], x)
  }

  /** No value occurs twice in `xs`. */
  predicate NoDuplicates<T(==)>(xs: seq<T>)
  {
    forall i, j :: 0 <= i < j < |xs| ==> xs[i] != xs[j]
  }

  /** The first components of a list of pairs. */
  function Keys<K, V>(entries: seq<(K, V)>): seq<K>
  {
    seq(|entries|, i requires 0 <= i < |entries| => entries[i].0)
  }

  /** One `(key, count)` entry per key, in the order of `keys`. */
  function Tally<T(==)>(xs: seq<T>, keys: seq<T>): seq<(T, nat)>
  {
    if keys == [] then []
    else [(keys[0], Count(xs, keys[0]))] + Tally(xs, keys[1..])
  }

  /** Sum of the counts of a list of entries. */
  function Total<T>(entries: seq<(T, nat)>): nat
  {
    if entries == [] then 0 else entries[0].1 + Total(entries[1..])
  }

  /** The recursive count agrees with the multiplicity in the multiset of `xs`. */
  lemma {:induction false} CountIsMultiplicity<T>(xs: seq<T>, x: T)
    ensures Count(xs, x) == multiset(xs)[x]
  {
    if xs != [] {
      assert xs == [xs[0]] + xs[1..];
      CountIsMultiplicity(xs[1..], x);
    }
  }

  /** A value is counted at least once exactly when it occurs. */
  lemma {:induction false} CountPositive<T>(xs: seq<T>, x: T)
    ensures Count(xs, x) > 0 <==> x in xs
  {
    if xs != [] {
      CountPositive(xs[1..], x);
      assert x in xs <==> xs[0] == x || x in xs[1..];
    }
  }

  /** In a list without duplicates every member occurs exactly once. */
  lemma {:induction false} CountOfDistinct<T>(keys: seq<T>, x: T)
    requires NoDuplicates(keys)
    requires x in keys
    ensures Count(keys, x) == 1
  {
    if keys[0] == x {
      assert x !in keys[1..] by {
        forall i | 0 <= i < |keys[1..]|
          ensures keys[1..][i] != x
        {
          assert keys[1..][i] == keys[i + 1];
        }
      }
      CountPositive(keys[1..], x);
    } else {
      assert x in keys[1..];
      CountOfDistinct(keys[1..], x);
    }
  }

  /** The tally lists exactly the given keys, each with its count. */
  lemma {:induction false} TallyEntries<T>(xs: seq<T>, keys: seq<T>)
    ensures |Tally(xs, keys)| == |keys|
    ensures Keys(Tally(xs, keys)) == keys
    ensures forall i :: 0 <= i < |keys| ==> Tally(xs, keys)[i] == (keys[i], Count(xs, keys[i]))
  {
    if keys != [] {
      TallyEntries(xs, keys[1..]);
    }
  }

  /** A tally of no records is all zeros. */
  lemma {:induction false} TallyOfNothing<T>(keys: seq<T>)
    ensures Total(Tally([], keys)) == 0
  {
    if keys != [] {
      TallyOfNothing(keys[1..]);
    }
  }

  /** Adding one record `x` in front raises the total by the number of keys equal to `x`. */
  lemma {:induction false} TallyCons<T>(x: T, rest: seq<T>, keys: seq<T>)
    ensures Total(Tally([x] + rest, keys)) == Total(Tally(rest, keys)) + Count(keys, x)
  {
    if keys != [] {
      assert ([x] + rest)[1..] == rest;
      TallyCons(x, rest, keys[1..]);
    }
  }

  /** Conservation: when every record's key is among `keys` and no key repeats,
      the counts of the tally sum to the number of records. */
  lemma {:induction false} TallyConserves<T>(xs: seq<T>, keys: seq<T>)
    requires NoDuplicates(keys)
    requires forall i :: 0 <= i < |xs| ==> xs[i] in keys
    ensures Total(Tally(xs, keys)) == |xs|
  {
    if xs == [] {
      TallyOfNothing(keys);
    } else {
      assert xs == [xs[0]] + xs[1..];
      TallyCons(xs[0], xs[1..], keys);
      CountOfDistinct(keys, xs[0]);
      TallyConserves(xs[1..], keys);
    }
  }

  /** The total of a concatenation is the sum of the totals. */
  lemma {:induction false} TotalAppend<T>(a: seq<(T, nat)>, b: seq<(T, nat)>)
    ensures Total(a + b) == Total(a) + Total(b)
  {
    if a != [] {
      assert (a + b)[0] == a[0];
      assert (a + b)[1..] == a[1..] + b;
      TotalAppend(a[1..], b);
    } else {
      assert a + b == b;
    }
  }

  /** The values of `xs` in order of first occurrence, each once. */
  function Distinct<T(==,!new)>(xs: seq<T>): (r: seq<T>)
    ensures NoDuplicates(r)
    ensures forall x :: x in r <==> x in xs
  {
    if xs == [] then []
    else
      var d := Distinct(xs[..|xs| - 1]);
      assert xs == xs[..|xs| - 1] + [xs[|xs| - 1]];
      if xs[|xs| - 1] in d then d else d + [xs[|xs| - 1]]
  }

  /** `s` is in strictly ascending order. */
  predicate StrictlyIncreasing(s: seq<int>)
  {
    forall i, j :: 0 <= i < j < |s| ==> s[i] < s[j]
  }

  /** Inserts `x` into an ascending list of distinct values, keeping it ascending and distinct. */
  function InsertAscending(s: seq<int>, x: int): (r: seq<int>)
    requires StrictlyIncreasing(s)
    ensures StrictlyIncreasing(r)
    ensures forall y :: y in r <==> y in s || y == x
  {
    if s == [] then [x]
    else if x < s[0] then [x] + s
    else if x == s[0] then s
    else
      var t := InsertAscending(s[1..], x);
      assert forall j :: 0 <= j < |t| ==> t[j] in s[1..] || t[j] == x;
      [s[0]] + t
  }

  /** The distinct values of `xs` in ascending order. */
  function AscendingKeys(xs: seq<int>): (r: seq<int>)
    ensures StrictlyIncreasing(r)
    ensures forall y :: y in r <==> y in xs
  {
    if xs == [] then []
    else InsertAscending(AscendingKeys(xs[1..]), xs[0])
  }

  /** A strictly ascending list has no duplicates. */
  lemma AscendingIsDistinct(s: seq<int>)
    requires StrictlyIncreasing(s)
    ensures NoDuplicates(s)
  {
  }

  /** The members of `s` that satisfy `p`, in their order in `s`. */
  function Filter<T(!new)>(s: seq<T>, p: T -> bool): (r: seq<T>)
    ensures forall x :: x in r <==> x in s && p(x)
  {
    if s == [] then []
    else
      assert s == [s[0]] + s[1..];
      (if p(s[0]) then [s[0]] else []) + Filter(s[1..], p)
  }

  /** `rank` strictly increases along `s`. */
  predicate RankedBy<T>(s: seq<T>, rank: T -> int)
  {
    forall i, j :: 0 <= i < j < |s| ==> rank(s[i]) < rank(s[j])
  }

  /** Filtering keeps the order of what it keeps. */
  lemma {:induction false} FilterKeepsOrder<T(!new)>(s: seq<T>, p: T -> bool, rank: T -> int)
    requires RankedBy(s, rank)
    ensures RankedBy(Filter(s, p), rank)
  {
    if s != [] {
      var t := Filter(s[1..], p);
      assert RankedBy(s[1..], rank) by {
        forall i, j | 0 <= i < j < |s[1..]|
          ensures rank(s[1..][i]) < rank(s[1..][j])
        {
          assert s[1..][i] == s[i + 1] && s[1..][j] == s[j + 1];
        }
      }
      FilterKeepsOrder(s[1..], p, rank);
      forall k | 0 <= k < |t|
        ensures rank(s[0]) < rank(t[k])
      {
        assert t[k] in s[1..];
        var j :| 0 <= j < |s[1..]| && s[1..][j] == t[k];
        assert s[1..][j] == s[j + 1];
      }
    }
  }

  /** A list along which some rank strictly increases has no duplicates. */
  lemma RankedIsDistinct<T>(s: seq<T>, rank: T -> int)
    requires RankedBy(s, rank)
    ensures NoDuplicates(s)
  {
    forall i, j | 0 <= i < j < |s|
      ensures s[i] != s[j]
    {
      assert rank(s[i]) < rank(s[j]);
    }
  }

  /** Counts never increase along `s`. */
  predicate NonIncreasing<T>(s: seq<(T, nat)>)
  {
    forall i, j :: 0 <= i < j < |s| ==> s[i].1 >= s[j].1
  }

  /** Inserts `e` into a list ranked by count, in front of every entry with a count
      no larger than its own. */
  function InsertByCount<T>(e: (T, nat), s: seq<(T, nat)>): (r: seq<(T, nat)>)
    requires NonIncreasing(s)
    ensures NonIncreasing(r)
    ensures multiset(r) == multiset(s) + multiset{e}
    ensures |r| > 0 && (r[0] == e || (|s| > 0 && r[0] == s[0]))
  {
    if s == [] || e.1 >= s[0].1 then [e] + s
    else
      assert s == [s[0]] + s[1..];
      var t := InsertByCount(e, s[1..]);
      assert s[0].1 >= t[0].1;
      [s[0]] + t
  }

  /** Ranks entries by count, largest first; entries with equal counts keep their
      relative order. The result is a permutation of the input. */
  function RankByCount<T>(s: seq<(T, nat)>): (r: seq<(T, nat)>)
    ensures NonIncreasing(r)
    ensures multiset(r) == multiset(s)
  {
    if s == [] then []
    else
      assert s == [s[0]] + s[1..];
      InsertByCount(s[0], RankByCount(s[1..]))
  }

  /** Two equal entries at different positions are counted twice. */
  lemma {:induction false} CountRepeated<T>(xs: seq<T>, i: nat, j: nat)
    requires i < j < |xs|
    requires xs[i] == xs[j]
    ensures Count(xs, xs[i]) >= 2
  {
    if i == 0 {
      assert xs[1..][j - 1] == xs[j];
      CountPositive(xs[1..], xs[0]);
    } else {
      assert xs[1..][i - 1] == xs[i] && xs[1..][j - 1] == xs[j];
      CountRepeated(xs[1..], i - 1, j - 1);
    }
  }

  /** A permutation of a list without duplicates has no duplicates. */
  lemma PermutationKeepsDistinct<T>(a: seq<T>, b: seq<T>)
    requires multiset(a) == multiset(b)
    requires NoDuplicates(b)
    ensures NoDuplicates(a)
  {
    forall i, j | 0 <= i < j < |a|
      ensures a[i] != a[j]
    {
      if a[i] == a[j] {
        CountRepeated(a, i, j);
        CountIsMultiplicity(a, a[i]);
        CountIsMultiplicity(b, a[i]);
        assert a[i] in b by {
          assert a[i] in multiset(a);
        }
        CountOfDistinct(b, a[i]);
        assert false;
      }
    }
  }

  /** A permutation of a list of entries with distinct keys has distinct keys. */
  lemma PermutationKeepsKeysDistinct<T>(a: seq<(T, nat)>, b: seq<(T, nat)>)
    requires multiset(a) == multiset(b)
    requires NoDuplicates(Keys(b))
    ensures NoDuplicates(Keys(a))
  {
    assert NoDuplicates(b) by {
      forall i, j | 0 <= i < j < |b|
        ensures b[i] != b[j]
      {
        assert Keys(b)[i] == b[i].0 && Keys(b)[j] == b[j].0;
      }
    }
    PermutationKeepsDistinct(a, b);
    forall i, j | 0 <= i < j < |a|
      ensures Keys(a)[i] != Keys(a)[j]
    {
      assert a[i] in multiset(b) && a[j] in multiset(b);
      var p :| 0 <= p < |b| && b[p] == a[i];
      var q :| 0 <= q < |b| && b[q] == a[j];
      assert Keys(b)[p] == a[i].0 && Keys(b)[q] == a[j].0;
      assert p != q ==> Keys(b)[p] != Keys(b)[q];
    }
  }

  /** A prefix of a ranking is a ranking with distinct keys, and every entry beyond
      the prefix counts no more than the prefix's last entry. */
  lemma RankingPrefix<T>(ranked: seq<(T, nat)>, n: nat)
    requires NonIncreasing(ranked) && NoDuplicates(Keys(ranked))
    requires 0 < n <= |ranked|
    ensures NonIncreasing(ranked[..n]) && NoDuplicates(Keys(ranked[..n]))
    ensures forall j :: n <= j < |ranked| ==> ranked[j].1 <= ranked[..n][n - 1].1
    ensures forall x :: x in Keys(ranked) && x !in Keys(ranked[..n]) ==>
              exists j :: n <= j < |ranked| && ranked[j].0 == x
  {
    var r := ranked[..n];
    forall i, j | 0 <= i < j < |r|
      ensures Keys(r)[i] != Keys(r)[j]
    {
      assert Keys(r)[i] == Keys(ranked)[i] && Keys(r)[j] == Keys(ranked)[j];
    }
    forall x | x in Keys(ranked) && x !in Keys(r)
      ensures exists j :: n <= j < |ranked| && ranked[j].0 == x
    {
      assert forall k :: 0 <= k < n ==> Keys(r)[k] == Keys(ranked)[k];
      var j :| 0 <= j < |ranked| && Keys(ranked)[j] == x;
      assert ranked[j].0 == x;
    }
  }
}
