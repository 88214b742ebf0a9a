/** Sequence helpers shared by the model: first-match search, filtering, distinctness. */
module Seqs {

  /** The set of elements of a sequence (LINQ `Distinct()` followed by `Count()` is its size). */
  function Elements<T>(s: seq<T>): set<T>
  {
    set x | x in s
  }

  predicate NoDuplicates<T(==)>(s: seq<T>)
  {
    forall i, j :: 0 <= i < j < |s| ==> s[i] != s[j]
  }

  /** Concatenation is associative. */
  lemma AppendAssoc<T>(a: seq<T>, b: seq<T>, c: seq<T>)
    ensures (a + b) + c == a + (b + c)
  {
  }

  lemma ElementsSnoc<T>(s: seq<T>, x: T)
    ensures Elements(s + [x]) == Elements(s) + {x}
  {
    forall y ensures y in Elements(s + [x]) <==> y in Elements(s) + {x} {
      assert y in s + [x] <==> y in s || y == x;
    }
  }

  /** Without duplicates, the last element does not occur before it. */
  lemma LastNotInInit<T>(s: seq<T>)
    requires NoDuplicates(s) && s != []
    ensures NoDuplicates(s[..|s| - 1]) && s[|s| - 1] !in Elements(s[..|s| - 1])
  {
    var init := s[..|s| - 1];
    forall i | 0 <= i < |init| ensures init[i] != s[|s| - 1] {
      assert init[i] == s[i];
    }
  }

  /** Adding a new element to a set adds one to its intersection with `r` when `r` holds it. */
  lemma IntersectionAddOne<T>(a: set<T>, r: set<T>, x: T)
    requires x !in a
    ensures |(a + {x}) * r| == |a * r| + (if x in r then 1 else 0)
  {
    if x in r {
      assert (a + {x}) * r == a * r + {x};
    } else {
      assert (a + {x}) * r == a * r;
    }
  }

  /** A sequence has as many distinct elements as it has elements exactly when it has no duplicates. */
  lemma {:induction false} DistinctCount<T>(s: seq<T>)
    ensures |Elements(s)| <= |s|
    ensures |Elements(s)| == |s| <==> NoDuplicates(s)
  {
    if s != [] {
      var t := s[1..];
      DistinctCount(t);
      assert s == [s[0]] + t;
      assert Elements(s) == {s[0]} + Elements(t);
      if s[0] in Elements(t) {
        assert Elements(s) == Elements(t);
        var i :| 0 <= i < |t| && t[i] == s[0];
        assert s[0] == s[i + 1];
        assert !NoDuplicates(s);
      } else {
        assert |Elements(s)| == |Elements(t)| + 1;
        if NoDuplicates(t) {
          forall i, j | 0 <= i < j < |s| ensures s[i] != s[j] {
            if i == 0 {
              assert s[j] == t[j - 1];
            } else {
              assert s[i] == t[i - 1] && s[j] == t[j - 1];
            }
          }
        } else {
          var i, j :| 0 <= i < j < |t| && t[i] == t[j];
          assert s[i + 1] == s[j + 1];
        }
      }
    }
  }

  /** Index of the first element satisfying `p`, or -1 (LINQ `FirstOrDefault`, Identity's `FindBy...`). */
  function IndexWhere<T>(s: seq<T>, p: T -> bool): (k: int)
    ensures -1 <= k < |s|
    ensures k >= 0 ==> p(s[k]) && forall j :: 0 <= j < k ==> !p(s[j])
    ensures k == -1 <==> forall j :: 0 <= j < |s| ==> !p(s[j])
  {
    if s == [] then -1
    else if p(s[0]) then 0
    else
      var k := IndexWhere(s[1..], p);
      assert forall j :: 1 <= j < |s| ==> s[j] == s[1..][j - 1];
      if k == -1 then -1 else k + 1
  }

  /** The elements of `s` satisfying `p`, in order (LINQ `Where`). */
  function Filter<T(!new)>(s: seq<T>, p: T -> bool): (r: seq<T>)
    ensures |r| <= |s|
    ensures forall x :: x in r <==> x in s && p(x)
  {
    if s == [] then []
    else if p(s[0]) then [s[0]] + Filter(s[1..], p)
    else Filter(s[1..], p)
  }

  lemma {:induction false} FilterAppend<T(!new)>(a: seq<T>, b: seq<T>, p: T -> bool)
    ensures Filter(a + b, p) == Filter(a, p) + Filter(b, p)
  {
    if a == [] {
      assert a + b == b;
    } else {
      assert (a + b)[0] == a[0];
      assert (a + b)[1..] == a[1..] + b;
      FilterAppend(a[1..], b, p);
    }
  }

  lemma {:induction false} FilterKeepsNoDuplicates<T(!new)>(s: seq<T>, p: T -> bool)
    requires NoDuplicates(s)
    ensures NoDuplicates(Filter(s, p))
  {
    if s != [] {
      assert NoDuplicates(s[1..]);
      FilterKeepsNoDuplicates(s[1..], p);
      assert s[0] !in s[1..];
    }
  }

  lemma {:induction false} FilterAll<T(!new)>(s: seq<T>, p: T -> bool)
    requires forall i :: 0 <= i < |s| ==> p(s[i])
    ensures Filter(s, p) == s
  {
    if s != [] {
      FilterAll(s[1..], p);
      assert s == [s[0]] + s[1..];
    }
  }

  /** `s` is in ascending order of `key`. */
  predicate SortedBy<T>(s: seq<T>, key: T -> int)
  {
    forall i, j :: 0 <= i < j < |s| ==> key(s[i]) <= key(s[j])
  }

  /** A sorted sequence stays sorted when an element no larger than its head is put in front. */
  lemma SortedCons<T>(a: T, rest: seq<T>, key: T -> int)
    requires SortedBy(rest, key) && (rest == [] || key(a) <= key(rest[0]))
    ensures SortedBy([a] + rest, key)
  {
    var s := [a] + rest;
    forall i, j | 0 <= i < j < |s| ensures key(s[i]) <= key(s[j]) {
      if i == 0 && j > 1 {
        assert s[j] == rest[j - 1] && key(rest[0]) <= key(rest[j - 1]);
      }
    }
  }

  lemma SortedTail<T>(s: seq<T>, key: T -> int)
    requires SortedBy(s, key) && s != []
    ensures SortedBy(s[1..], key)
  {
    forall i, j | 0 <= i < j < |s| - 1 ensures key(s[1..][i]) <= key(s[1..][j]) {
      assert s[1..][i] == s[i + 1] && s[1..][j] == s[j + 1];
    }
  }

  /** `x` placed before the first element of larger key. */
  function InsertBy<T>(x: T, s: seq<T>, key: T -> int): (r: seq<T>)
    requires SortedBy(s, key)
    ensures SortedBy(r, key)
    ensures |r| == |s| + 1 && (r[0] == x || (s != [] && r[0] == s[0]))
  {
    if s == [] then [x]
    else if key(x) <= key(s[0]) then
      SortedCons(x, s, key);
      [x] + s
    else
      SortedTail(s, key);
      var rest := InsertBy(x, s[1..], key);
      assert s == [s[0]] + s[1..];
      assert rest[0] == x || key(s[0]) <= key(rest[0]);
      SortedCons(s[0], rest, key);
      [s[0]] + rest
  }

  /** Inserting adds exactly the inserted element. */
  lemma {:induction false} InsertByMultiset<T>(x: T, s: seq<T>, key: T -> int)
    requires SortedBy(s, key)
    ensures multiset(InsertBy(x, s, key)) == multiset(s) + multiset{x}
  {
    if s != [] && key(x) > key(s[0]) {
      SortedTail(s, key);
      InsertByMultiset(x, s[1..], key);
      assert s == [s[0]] + s[1..];
    }
  }

  function SortBy<T>(s: seq<T>, key: T -> int): (r: seq<T>)
    ensures SortedBy(r, key)
    ensures multiset(r) == multiset(s)
  {
    if s == [] then []
    else
      assert s == [s[0]] + s[1..];
      InsertByMultiset(s[0], SortBy(s[1..], key), key);
      InsertBy(s[0], SortBy(s[1..], key), key)
  }

  /** Sorting an already sorted sequence leaves it as it is. */
  lemma {:induction false} SortBySorted<T>(s: seq<T>, key: T -> int)
    requires SortedBy(s, key)
    ensures SortBy(s, key) == s
  {
    if s != [] {
      SortBySorted(s[1..], key);
    }
  }

  /** Filtering keeps ascending order. */
  lemma {:induction false} FilterKeepsSorted<T(!new)>(s: seq<T>, p: T -> bool, key: T -> int)
    requires SortedBy(s, key)
    ensures SortedBy(Filter(s, p), key)
  {
    if s != [] {
      FilterKeepsSorted(s[1..], p, key);
      var rest := Filter(s[1..], p);
      if p(s[0]) {
        forall j | 0 <= j < |rest| ensures key(s[0]) <= key(rest[j]) {
          assert rest[j] in s[1..];
          var k :| 0 <= k < |s[1..]| && s[1..][k] == rest[j];
          assert s[k + 1] == rest[j];
        }
        assert Filter(s, p) == [s[0]] + rest;
      }
    }
  }

  /** Filtering keeps each element's multiplicity when it satisfies `p`, and drops it otherwise. */
  lemma {:induction false} FilterMultiset<T(!new)>(s: seq<T>, p: T -> bool, x: T)
    ensures multiset(Filter(s, p))[x] == if p(x) then multiset(s)[x] else 0
  {
    if s != [] {
      FilterMultiset(s[1..], p, x);
      assert s == [s[0]] + s[1..];
      if p(s[0]) {
        assert Filter(s, p) == [s[0]] + Filter(s[1..], p);
      }
    }
  }

  /** Filtering two permutations of each other gives permutations of each other. */
  lemma FilterOfPermutation<T(!new)>(a: seq<T>, b: seq<T>, p: T -> bool)
    requires multiset(a) == multiset(b)
    ensures multiset(Filter(a, p)) == multiset(Filter(b, p))
  {
    forall x ensures multiset(Filter(a, p))[x] == multiset(Filter(b, p))[x] {
      FilterMultiset(a, p, x);
      FilterMultiset(b, p, x);
    }
  }
}
