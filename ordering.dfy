/** Name order, as the comparator `a.name > b.name ? 1 : -1` uses it, and the
    in-place sort that both the directory listing and the photo table apply. */
module Ordering {

  /** JavaScript's `a < b` on strings, compared character by character. A string
      is never below itself, and a proper prefix comes first. */
  predicate LexLess(a: string, b: string)
    decreases |a|
    ensures LexLess(a, b) ==> a != b
    ensures |a| < |b| && a == b[..|a|] ==> LexLess(a, b)
  {
    if |a| == 0 then |b| > 0
    else if |b| == 0 then false
    else if a[0] != b[0] then a[0] < b[0]
    else LexLess(a[1..], b[1..])
  }

  /** The order LexLess computes, stated without recursion: `a` comes first when it
      is a proper prefix of `b`, or when at the first position where the two differ
      its character is the smaller one. */
  lemma {:induction false} LexLessFirstDifference(a: string, b: string)
    decreases |a|
    ensures LexLess(a, b) <==>
              || (|a| < |b| && a == b[..|a|])
              || exists k :: 0 <= k < |a| && k < |b| && a[..k] == b[..k] && a[k] < b[k]
  {
    if |a| == 0 || |b| == 0 {
    } else if a[0] != b[0] {
      assert a[..0] == b[..0];
      forall k | 0 < k < |a| && k < |b|
        ensures a[..k] != b[..k]
      {
        assert a[..k][0] != b[..k][0];
      }
    } else {
      LexLessFirstDifference(a[1..], b[1..]);
      if |a| < |b| {
        assert (a == b[..|a|]) <==> (a[1..] == b[1..][..|a| - 1]) by {
          if a[1..] == b[1..][..|a| - 1] {
            assert a == [a[0]] + a[1..] && b[..|a|] == [b[0]] + b[1..][..|a| - 1];
          }
        }
      }
      forall k | 0 < k < |a| && k < |b|
        ensures (a[..k] == b[..k]) <==> (a[1..][..k - 1] == b[1..][..k - 1])
      {
        if a[1..][..k - 1] == b[1..][..k - 1] {
          assert a[..k] == [a[0]] + a[1..][..k - 1] && b[..k] == [b[0]] + b[1..][..k - 1];
        }
      }
      if exists k :: 0 <= k < |a| && k < |b| && a[..k] == b[..k] && a[k] < b[k] {
        var k :| 0 <= k < |a| && k < |b| && a[..k] == b[..k] && a[k] < b[k];
        assert k > 0;
        assert a[1..][k - 1] < b[1..][k - 1];
      }
      if exists k :: 0 <= k < |a| - 1 && k < |b| - 1 && a[1..][..k] == b[1..][..k] && a[1..][k] < b[1..][k] {
        var k :| 0 <= k < |a| - 1 && k < |b| - 1 && a[1..][..k] == b[1..][..k] && a[1..][k] < b[1..][k];
        assert a[..k + 1] == b[..k + 1];
      }
    }
  }

  /** Less than or equal in name order. */
  predicate LexLeq(a: string, b: string) {
    a == b || LexLess(a, b)
  }

  lemma {:induction false} LexLessIrreflexive(a: string)
    ensures !LexLess(a, a)
    decreases |a|
  {
    if |a| > 0 {
      LexLessIrreflexive(a[1..]);
    }
  }

  lemma {:induction false} LexLessAsymmetric(a: string, b: string)
    requires LexLess(a, b)
    ensures !LexLess(b, a)
    decreases |a|
  {
    if |a| > 0 && |b| > 0 && a[0] == b[0] {
      LexLessAsymmetric(a[1..], b[1..]);
    }
  }

  lemma {:induction false} LexLessTransitive(a: string, b: string, c: string)
    requires LexLess(a, b) && LexLess(b, c)
    ensures LexLess(a, c)
    decreases |a|
  {
    if |a| > 0 && |b| > 0 && |c| > 0 && a[0] == b[0] && b[0] == c[0] {
      LexLessTransitive(a[1..], b[1..], c[1..]);
    }
  }

  /** Two different names are always ordered one way or the other. */
  lemma {:induction false} LexLessTotal(a: string, b: string)
    requires a != b
    ensures LexLess(a, b) || LexLess(b, a)
    decreases |a|
  {
    if |a| > 0 && |b| > 0 && a[0] == b[0] {
      assert a == [a[0]] + a[1..] && b == [b[0]] + b[1..];
      LexLessTotal(a[1..], b[1..]);
    }
  }

  /** The sequence lists its elements in ascending key order. */
  ghost predicate SortedBy<T>(s: seq<T>, key: T -> string) {
    forall p, q :: 0 <= p < q < |s| ==> LexLeq(key(s[p]), key(s[q]))
  }

  /** No two elements share a key. */
  ghost predicate DistinctKeys<T>(s: seq<T>, key: T -> string) {
    forall p, q :: 0 <= p < q < |s| ==> key(s[p]) != key(s[q])
  }

  /** Exchanges two elements of the array. */
  method Swap<T>(a: array<T>, i: nat, j: nat)
    requires i < a.Length && j < a.Length
    modifies a
    ensures a[i] == old(a[j]) && a[j] == old(a[i])
    ensures forall k :: 0 <= k < a.Length && k != i && k != j ==> a[k] == old(a[k])
    ensures multiset(a[..]) == multiset(old(a[..]))
  {
    a[i], a[j] := a[j], a[i];
  }

  /** `a.sort((x, y) => key(x) > key(y) ? 1 : -1)`: rearranges the array in place
      into ascending key order. */
  method SortByKey<T>(a: array<T>, key: T -> string)
    modifies a
    ensures SortedBy(a[..], key)
    ensures multiset(a[..]) == multiset(old(a[..]))
  {
    var i := 0;
    while i < a.Length
      invariant 0 <= i <= a.Length
      invariant SortedBy(a[..i], key)
      invariant multiset(a[..]) == multiset(old(a[..]))
    {
      var j := i;
      while j > 0 && LexLess(key(a[j]), key(a[j - 1]))
        invariant 0 <= j <= i < a.Length
        invariant forall p, q :: 0 <= p < q <= i && q != j ==> LexLeq(key(a[p]), key(a[q]))
        invariant forall q :: j < q <= i ==> LexLeq(key(a[j]), key(a[q]))
        invariant multiset(a[..]) == multiset(old(a[..]))
      {
        Swap(a, j - 1, j);
        j := j - 1;
      }
      InsertionClosesGap(a[..], key, j, i);
      i := i + 1;
    }
  }

  /** When the inner loop stops, the element at j is at the front or not below its
      left neighbour, so the prefix up to i is sorted. */
  lemma InsertionClosesGap<T>(s: seq<T>, key: T -> string, j: nat, i: nat)
    requires j <= i < |s|
    requires forall p, q :: 0 <= p < q <= i && q != j ==> LexLeq(key(s[p]), key(s[q]))
    requires forall q :: j < q <= i ==> LexLeq(key(s[j]), key(s[q]))
    requires j > 0 ==> !LexLess(key(s[j]), key(s[j - 1]))
    ensures SortedBy(s[..i + 1], key)
  {
    if j > 0 && key(s[j - 1]) != key(s[j]) {
      LexLessTotal(key(s[j - 1]), key(s[j]));
    }
    forall p, q | 0 <= p < q <= i
      ensures LexLeq(key(s[p]), key(s[q]))
    {
      if q == j && p < j - 1 {
        LeqTransitive(key(s[p]), key(s[j - 1]), key(s[j]));
      }
    }
  }

  lemma LeqTransitive(a: string, b: string, c: string)
    requires LexLeq(a, b) && LexLeq(b, c)
    ensures LexLeq(a, c)
  {
    if a != b && b != c {
      LexLessTransitive(a, b, c);
    }
  }

  /** The multiset of a sequence without its head. */
  lemma MultisetOfTail<T>(s: seq<T>)
    requires |s| > 0
    ensures multiset(s[1..]) == multiset(s) - multiset{s[0]}
  {
    assert s == [s[0]] + s[1..];
  }

  /** With distinct keys, the head of a sorted sequence is the element that
      every other element follows. */
  lemma HeadPrecedesAll<T>(s: seq<T>, key: T -> string, m: nat)
    requires SortedBy(s, key) && DistinctKeys(s, key)
    requires 0 < m < |s|
    ensures LexLess(key(s[0]), key(s[m]))
  {
  }

  /** With distinct keys there is only one sorted arrangement of a collection:
      two sorted sequences holding the same elements are equal, whatever order the
      elements arrived in. */
  lemma {:induction false} SortedArrangementIsUnique<T>(a: seq<T>, b: seq<T>, key: T -> string)
    requires multiset(a) == multiset(b)
    requires SortedBy(a, key) && SortedBy(b, key)
    requires DistinctKeys(a, key) && DistinctKeys(b, key)
    ensures a == b
  {
    if |a| == 0 {
      assert |multiset(b)| == 0;
    } else {
      assert |b| == |multiset(b)| == |multiset(a)| == |a|;
      assert a[0] in multiset(b);
      var k :| 0 <= k < |b| && b[k] == a[0];
      assert b[0] in multiset(a);
      var m :| 0 <= m < |a| && a[m] == b[0];
      if k != 0 && m != 0 {
        HeadPrecedesAll(a, key, m);
        HeadPrecedesAll(b, key, k);
        LexLessAsymmetric(key(a[0]), key(b[0]));
        assert false;
      }
      assert a[0] == b[0];
      MultisetOfTail(a);
      MultisetOfTail(b);
      SortedArrangementIsUnique(a[1..], b[1..], key);
    }
  }

  /** With distinct keys no value occurs twice. */
  lemma {:induction false} DistinctKeysOccurOnce<T>(s: seq<T>, key: T -> string, v: T)
    requires DistinctKeys(s, key)
    ensures multiset(s)[v] <= 1
  {
    if |s| > 0 {
      assert s == [s[0]] + s[1..];
      assert DistinctKeys(s[1..], key);
      DistinctKeysOccurOnce(s[1..], key, v);
      if s[0] == v {
        assert forall k :: 0 <= k < |s| - 1 ==> s[1..][k] != v by {
          forall k | 0 <= k < |s| - 1 ensures s[1..][k] != v {
            assert key(s[0]) != key(s[k + 1]);
          }
        }
        assert v !in s[1..];
      }
    }
  }

  /** A value at two positions occurs at least twice. */
  lemma RepeatedValueCount<T>(s: seq<T>, p: nat, q: nat)
    requires p < q < |s| && s[p] == s[q]
    ensures multiset(s)[s[p]] >= 2
  {
    assert s == s[..q] + s[q..];
    assert s[p] in s[..q];
    assert s[q..][0] == s[q];
  }

  /** Rearranging a sequence keeps its keys distinct. */
  lemma DistinctKeysPermutation<T>(x: seq<T>, y: seq<T>, key: T -> string)
    requires multiset(x) == multiset(y) && DistinctKeys(x, key)
    ensures DistinctKeys(y, key)
  {
    forall p, q | 0 <= p < q < |y|
      ensures key(y[p]) != key(y[q])
    {
      if y[p] == y[q] {
        RepeatedValueCount(y, p, q);
        DistinctKeysOccurOnce(x, key, y[p]);
      } else {
        assert y[p] in multiset(x) && y[q] in multiset(x);
        var p' :| 0 <= p' < |x| && x[p'] == y[p];
        var q' :| 0 <= q' < |x| && x[q'] == y[q];
        assert p' != q';
        if p' < q' {
          assert key(x[p']) != key(x[q']);
        } else {
          assert key(x[q']) != key(x[p']);
        }
      }
    }
  }

  /** Two arrival orders of the same distinctly named elements, each sorted, give the
      same listing: the display order does not depend on the order of arrival. */
  lemma ArrivalOrderDoesNotMatter<T>(x: seq<T>, y: seq<T>, sx: seq<T>, sy: seq<T>, key: T -> string)
    requires multiset(x) == multiset(y) && DistinctKeys(x, key)
    requires multiset(sx) == multiset(x) && SortedBy(sx, key)
    requires multiset(sy) == multiset(y) && SortedBy(sy, key)
    ensures sx == sy
  {
    DistinctKeysPermutation(x, sx, key);
    DistinctKeysPermutation(x, sy, key);
    SortedArrangementIsUnique(sx, sy, key);
  }
}
