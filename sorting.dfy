/** Ascending order of string lists, as `sort.Strings` produces it. */
module Sorting {
  import opened Strings

  predicate Sorted(s: seq<string>) {
    forall i, j :: 0 <= i < j < |s| ==> LessEq(s[i], s[j])
  }

  /** Inserts `x` before the first element it does not sort after. */
  function Insert(x: string, s: seq<string>): (r: seq<string>)
    ensures multiset(r) == multiset(s) + multiset{x}
  {
    if s == [] then [x]
    else if LessEq(x, s[0]) then [x] + s
    else
      assert s == [s[0]] + s[1..];
      [s[0]] + Insert(x, s[1..])
  }

  /** The sorted arrangement of a list of names: the reference the in-place sort is held to. */
  function Sort(s: seq<string>): (r: seq<string>)
    ensures multiset(r) == multiset(s)
  {
    if s == [] then []
    else
      assert s == [s[0]] + s[1..];
      Insert(s[0], Sort(s[1..]))
  }

  lemma {:induction false} InsertSorted(x: string, s: seq<string>)
    requires Sorted(s)
    ensures Sorted(Insert(x, s))
  {
    if s == [] {
    } else if LessEq(x, s[0]) {
      forall j | 0 <= j < |s| ensures LessEq(x, s[j]) {
        LessEqTransitive(x, s[0], s[j]);
      }
    } else {
      LessTotal(x, s[0]);
      var t := Insert(x, s[1..]);
      InsertSorted(x, s[1..]);
      forall k | 0 <= k < |t| ensures LessEq(s[0], t[k]) {
        assert t[k] in multiset(t);
        if t[k] != x {
          assert t[k] in multiset(s[1..]);
          var j :| 0 <= j < |s[1..]| && s[1..][j] == t[k];
          assert s[1 + j] == t[k];
        }
      }
    }
  }

  lemma {:induction false} SortSorted(s: seq<string>)
    ensures Sorted(Sort(s))
  {
    if s != [] {
      SortSorted(s[1..]);
      InsertSorted(s[0], Sort(s[1..]));
    }
  }

  lemma SortedTail(s: seq<string>)
    requires Sorted(s) && |s| > 0
    ensures Sorted(s[1..])
  {
    forall i, j | 0 <= i < j < |s| - 1 ensures LessEq(s[1..][i], s[1..][j]) {
      assert s[1..][i] == s[i + 1] && s[1..][j] == s[j + 1];
    }
  }

  lemma TailMultiset(s: seq<string>)
    requires |s| > 0
    ensures multiset(s[1..]) == multiset(s) - multiset{s[0]}
  {
    assert s == [s[0]] + s[1..];
  }

  /** The first element of a sorted list sorts before every element of the list. */
  lemma SortedHeadLeast(s: seq<string>, x: string)
    requires Sorted(s) && x in multiset(s)
    ensures |s| > 0 && LessEq(s[0], x)
  {
    var k :| 0 <= k < |s| && s[k] == x;
    if k > 0 {
      assert LessEq(s[0], s[k]);
    }
  }

  /** Two sorted lists with the same elements start with the same element. */
  lemma SortedSameHead(a: seq<string>, b: seq<string>)
    requires Sorted(a) && Sorted(b) && multiset(a) == multiset(b) && |a| > 0
    ensures |b| > 0 && a[0] == b[0]
  {
    assert a[0] in multiset(a);
    SortedHeadLeast(b, a[0]);
    SortedHeadLeast(a, b[0]);
    LessEqAntisymmetric(a[0], b[0]);
  }

  /** A sorted permutation is unique: whatever algorithm sorts a list, the result is `Sort` of it. */
  lemma {:induction false} SortedUnique(a: seq<string>, b: seq<string>)
    requires Sorted(a) && Sorted(b) && multiset(a) == multiset(b)
    ensures a == b
  {
    if |a| == 0 {
      assert |multiset(b)| == 0;
    } else {
      SortedSameHead(a, b);
      TailMultiset(a);
      TailMultiset(b);
      SortedTail(a);
      SortedTail(b);
      SortedUnique(a[1..], b[1..]);
      assert a == [a[0]] + a[1..];
      assert b == [b[0]] + b[1..];
    }
  }

  lemma SortIsSortedPermutation(s: seq<string>, r: seq<string>)
    requires Sorted(r) && multiset(r) == multiset(s)
    ensures r == Sort(s)
  {
    SortSorted(s);
    SortedUnique(r, Sort(s));
  }

  /** Moves `a[i]` left past every element that sorts after it, so that `a[..i + 1]` is sorted. */
  method InsertLast(a: array<string>, i: nat)
    requires i < a.Length
    requires forall p, q :: 0 <= p < q < i ==> LessEq(a[p], a[q])
    modifies a
    ensures forall p, q :: 0 <= p < q <= i ==> LessEq(a[p], a[q])
    ensures multiset(a[..i + 1]) == multiset(old(a[..i + 1]))
    ensures a[i + 1..] == old(a[i + 1..])
    ensures multiset(a[..]) == multiset(old(a[..]))
  {
    var j := i;
    while 0 < j && Less(a[j], a[j - 1])
      invariant 0 <= j <= i
      invariant forall p, q :: 0 <= p < q <= i && p != j && q != j ==> LessEq(a[p], a[q])
      invariant forall q :: j < q <= i ==> Less(a[j], a[q])
      invariant multiset(a[..i + 1]) == multiset(old(a[..i + 1]))
      invariant a[i + 1..] == old(a[i + 1..])
    {
      ghost var before := a[..i + 1];
      a[j - 1], a[j] := a[j], a[j - 1];
      assert a[..i + 1] == before[j - 1 := before[j]][j := before[j - 1]];
      j := j - 1;
    }
    assert a[..] == a[..i + 1] + a[i + 1..];
    assert old(a[..]) == old(a[..i + 1]) + old(a[i + 1..]);
    if 0 < j {
      LessTotal(a[j], a[j - 1]);
      forall p | 0 <= p < j - 1 ensures LessEq(a[p], a[j]) {
        LessEqTransitive(a[p], a[j - 1], a[j]);
      }
    }
  }

  /** Insertion sort in place, standing for `sort.Strings` on a slice. */
  method SortInPlace(a: array<string>)
    modifies a
    ensures a[..] == Sort(old(a[..]))
  {
    var i := 0;
    while i < a.Length
      invariant 0 <= i <= a.Length
      invariant forall p, q :: 0 <= p < q < i ==> LessEq(a[p], a[q])
      invariant multiset(a[..]) == multiset(old(a[..]))
    {
      InsertLast(a, i);
      i := i + 1;
    }
    SortIsSortedPermutation(old(a[..]), a[..]);
  }
}
