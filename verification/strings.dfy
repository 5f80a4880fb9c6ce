/** String helpers of NBSfM.cpp: the suffix test `EndsWith`, and the order that
    `std::sort` applies to a directory listing. */
module Strings {

  /** `ending` is a suffix of `value`. */
  predicate IsSuffix(ending: string, value: string)
  {
    |ending| <= |value| && value[|value| - |ending|..] == ending
  }

  /** Walks `ending` and `value` back to front in step, as `std::equal` over the
      two reverse iterators does, and reports whether every compared pair agrees. */
  function EqualFromBack(ending: string, value: string): (r: bool)
    requires |ending| <= |value|
    ensures r <==> value[|value| - |ending|..] == ending
    decreases |ending|
  {
    if |ending| == 0 then true
    else
      var e, v := |ending| - 1, |value| - 1;
      assert value[|value| - |ending|..] == value[..v][v - e..] + [value[v]];
      assert ending == ending[..e] + [ending[e]];
      ending[e] == value[v] && EqualFromBack(ending[..e], value[..v])
  }

  /** True iff `value` ends with `ending`; a longer ending is never a suffix and
      the empty ending always is. */
  function EndsWith(value: string, ending: string): (r: bool)
    ensures r <==> IsSuffix(ending, value)
    ensures |ending| > |value| ==> !r
    ensures ending == [] ==> r
  {
    if |ending| > |value| then false
    else EqualFromBack(ending, value)
  }

  /** `a` and `b` agree on their first `k` characters, and at position `k`
      either `a` has ended while `b` goes on, or `a` has the smaller character. */
  predicate FirstDifferenceAt(a: string, b: string, k: nat)
  {
    k <= |a| && k < |b| && a[..k] == b[..k] && (k == |a| || a[k] < b[k])
  }

  /** The strict order `std::string`'s `operator<` induces: lexicographic, with
      characters compared by code, and a proper prefix before its extensions.
      It compares front to back; the contract states the same order through
      the first position where the strings part. */
  predicate Less(a: string, b: string)
    ensures Less(a, b) <==> exists k :: FirstDifferenceAt(a, b, k)
    decreases |a|
  {
    if |b| == 0 then false
    else if |a| == 0 then
      assert FirstDifferenceAt(a, b, 0);
      true
    else if a[0] < b[0] then
      assert FirstDifferenceAt(a, b, 0);
      true
    else if a[0] == b[0] then
      var rest := Less(a[1..], b[1..]);
      FirstDifferenceShift(a, b);
      rest
    else
      assert forall k :: !FirstDifferenceAt(a, b, k) by {
        forall k: nat ensures !FirstDifferenceAt(a, b, k) {
          FirstDifferenceHead(a, b, k);
        }
      }
      false
  }

  /** Where two strings part, the first character of the smaller one is at
      most that of the larger one. */
  lemma FirstDifferenceHead(a: string, b: string, k: nat)
    ensures FirstDifferenceAt(a, b, k) && |a| > 0 ==> a[0] <= b[0]
  {
    if FirstDifferenceAt(a, b, k) && |a| > 0 && k > 0 {
      assert a[..k][0] == b[..k][0];
    }
  }

  /** With equal first characters, the strings part where their tails part,
      one position later. */
  lemma FirstDifferenceShift(a: string, b: string)
    requires |a| > 0 && |b| > 0 && a[0] == b[0]
    ensures (exists k :: FirstDifferenceAt(a, b, k)) <==> (exists k :: FirstDifferenceAt(a[1..], b[1..], k))
  {
    forall k: nat | FirstDifferenceAt(a[1..], b[1..], k)
      ensures FirstDifferenceAt(a, b, k + 1)
    {
      assert a[..k + 1] == [a[0]] + a[1..][..k];
      assert b[..k + 1] == [b[0]] + b[1..][..k];
    }
    forall k: nat | FirstDifferenceAt(a, b, k)
      ensures k > 0 && FirstDifferenceAt(a[1..], b[1..], k - 1)
    {
      if k > 0 {
        assert a[1..][..k - 1] == a[..k][1..];
        assert b[1..][..k - 1] == b[..k][1..];
      }
    }
  }

  /** The reflexive closure of `Less`. */
  predicate LessOrEqual(a: string, b: string)
  {
    a == b || Less(a, b)
  }

  lemma {:induction false} LessIrreflexive(a: string)
    ensures !Less(a, a)
    decreases |a|
  {
    if |a| > 0 {
      LessIrreflexive(a[1..]);
    }
  }

  lemma {:induction false} LessTransitive(a: string, b: string, c: string)
    requires Less(a, b) && Less(b, c)
    ensures Less(a, c)
    decreases |a|
  {
    if |a| > 0 && a[0] == b[0] && b[0] == c[0] {
      LessTransitive(a[1..], b[1..], c[1..]);
    }
  }

  lemma {:induction false} LessTotal(a: string, b: string)
    ensures a == b || Less(a, b) || Less(b, a)
    decreases |a|
  {
    if |a| > 0 && |b| > 0 && a[0] == b[0] {
      LessTotal(a[1..], b[1..]);
      if a[1..] == b[1..] {
        assert a == [a[0]] + a[1..] && b == [b[0]] + b[1..];
      }
    }
  }

  lemma LessAsymmetric(a: string, b: string)
    requires Less(a, b)
    ensures !Less(b, a)
  {
    if Less(b, a) {
      LessTransitive(a, b, a);
      LessIrreflexive(a);
    }
  }

  /** Comparing two strings with a common prefix compares what follows it. */
  lemma {:induction false} LessUnderPrefix(p: string, a: string, b: string)
    requires Less(a, b)
    ensures Less(p + a, p + b)
    decreases |p|
  {
    if |p| > 0 {
      LessUnderPrefix(p[1..], a, b);
      assert (p + a)[0] == p[0] == (p + b)[0];
      assert (p + a)[1..] == p[1..] + a;
      assert (p + b)[1..] == p[1..] + b;
    } else {
      assert p + a == a && p + b == b;
    }
  }
}
