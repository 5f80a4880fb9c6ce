/** The `std::sort` applied to a directory listing before it is filtered. Any
    correct sort yields the same sequence, because a sorted permutation under a
    total order is unique; the model uses insertion sort and proves that. */
module Sorting {
  import opened Strings

  /** Every element is at most every later one. */
  predicate Sorted(s: seq<string>)
  {
    forall i, j :: 0 <= i < j < |s| ==> LessOrEqual(s[i], s[j])
  }

  /** Places `x` into the sorted `s` before the first element not below it. */
  function Insert(x: string, s: seq<string>): (r: seq<string>)
    requires Sorted(s)
    ensures Sorted(r)
    ensures multiset(r) == multiset(s) + multiset{x}
  {
    if |s| == 0 then [x]
    else if LessOrEqual(x, s[0]) then
      assert forall j :: 0 < j < |s| ==> LessOrEqual(x, s[j]) by {
        forall j | 0 < j < |s|
          ensures LessOrEqual(x, s[j])
        {
          if x != s[0] && s[0] != s[j] {
            LessTransitive(x, s[0], s[j]);
          }
        }
      }
      [x] + s
    else
      var rest := Insert(x, s[1..]);
      assert s == [s[0]] + s[1..];
      LessTotal(x, s[0]);
      assert forall k :: 0 <= k < |rest| ==> LessOrEqual(s[0], rest[k]) by {
        forall k | 0 <= k < |rest|
          ensures LessOrEqual(s[0], rest[k])
        {
          assert rest[k] in multiset(rest);
          if rest[k] != x {
            assert rest[k] in multiset(s[1..]);
            var j :| 0 <= j < |s[1..]| && s[1..][j] == rest[k];
            assert s[j + 1] == rest[k];
          }
        }
      }
      [s[0]] + rest
  }

  /** Sorts `s` by inserting its head into its sorted tail. */
  function Sort(s: seq<string>): (r: seq<string>)
    ensures Sorted(r)
    ensures multiset(r) == multiset(s)
    ensures |r| == |s|
  {
    if |s| == 0 then []
    else
      assert s == [s[0]] + s[1..];
      var r := Insert(s[0], Sort(s[1..]));
      assert |r| == |multiset(r)|;
      r
  }

  /** Two sorted sequences holding the same elements start with the same one. */
  lemma SortedSameHead(a: seq<string>, b: seq<string>)
    requires Sorted(a) && Sorted(b)
    requires multiset(a) == multiset(b)
    requires |a| > 0 && |b| > 0
    ensures a[0] == b[0]
  {
    assert a[0] in multiset(b);
    var j :| 0 <= j < |b| && b[j] == a[0];
    assert b[0] in multiset(a);
    var i :| 0 <= i < |a| && a[i] == b[0];
    assert LessOrEqual(a[0], b[0]) && LessOrEqual(b[0], a[0]);
    if a[0] != b[0] {
      LessAsymmetric(a[0], b[0]);
    }
  }

  /** Removing the same head from both sides keeps two multisets equal. */
  lemma TailsSameElements(a: seq<string>, b: seq<string>)
    requires multiset(a) == multiset(b)
    requires |a| > 0 && |b| > 0 && a[0] == b[0]
    ensures multiset(a[1..]) == multiset(b[1..])
  {
    assert a == [a[0]] + a[1..] && b == [b[0]] + b[1..];
    assert multiset(a[1..]) == multiset(a) - multiset{a[0]};
    assert multiset(b[1..]) == multiset(b) - multiset{b[0]};
  }

  /** Two sorted sequences holding the same elements are equal: the result of
      sorting does not depend on the sorting algorithm. */
  lemma {:induction false} SortedUnique(a: seq<string>, b: seq<string>)
    requires Sorted(a) && Sorted(b)
    requires multiset(a) == multiset(b)
    ensures a == b
    decreases |a|
  {
    assert |b| == |multiset(b)| == |multiset(a)| == |a|;
    if |a| > 0 {
      SortedSameHead(a, b);
      TailsSameElements(a, b);
      SortedUnique(a[1..], b[1..]);
      assert a == [a[0]] + a[1..] && b == [b[0]] + b[1..];
    }
  }

  /** `Sort` agrees with every other correct sort. */
  lemma SortIsTheSortedPermutation(s: seq<string>, t: seq<string>)
    requires Sorted(t) && multiset(t) == multiset(s)
    ensures Sort(s) == t
  {
    SortedUnique(Sort(s), t);
  }
}
