/** Strings as Go compares them, and the ASCII digit class of the generation pattern. */
module Strings {

  /** The regular-expression class `[0-9]`. */
  predicate IsDigit(c: char) {
    '0' <= c <= '9'
  }

  predicate AllDigits(s: string) {
    forall i :: 0 <= i < |s| ==> IsDigit(s[i])
  }

  /** Go's `<` on strings: lexicographic by element, a proper prefix sorting first.
      Go compares UTF-8 bytes; byte order of UTF-8 equals code-point order, so
      comparing characters gives the same answer. */
  predicate Less(a: string, b: string)
    decreases |a|
  {
    if |a| == 0 then |b| > 0
    else if |b| == 0 then false
    else if a[0] != b[0] then a[0] < b[0]
    else Less(a[1..], b[1..])
  }

  predicate LessEq(a: string, b: string) {
    a == b || Less(a, b)
  }

  lemma {:induction false} LessIrreflexive(a: string)
    ensures !Less(a, a)
  {
    if |a| > 0 {
      LessIrreflexive(a[1..]);
    }
  }

  lemma {:induction false} LessAsymmetric(a: string, b: string)
    requires Less(a, b)
    ensures !Less(b, a)
  {
    if |a| > 0 && |b| > 0 && a[0] == b[0] {
      LessAsymmetric(a[1..], b[1..]);
    }
  }

  lemma {:induction false} LessTransitive(a: string, b: string, c: string)
    requires Less(a, b) && Less(b, c)
    ensures Less(a, c)
  {
    if |a| > 0 && a[0] == b[0] && b[0] == c[0] {
      LessTransitive(a[1..], b[1..], c[1..]);
    }
  }

  /** Any two strings are equal or ordered one way: `sort.Strings` has a total order to work with. */
  lemma {:induction false} LessTotal(a: string, b: string)
    ensures a == b || Less(a, b) || Less(b, a)
  {
    if |a| > 0 && |b| > 0 && a[0] == b[0] {
      LessTotal(a[1..], b[1..]);
      assert a == [a[0]] + a[1..];
      assert b == [b[0]] + b[1..];
    }
  }

  lemma LessEqTransitive(a: string, b: string, c: string)
    requires LessEq(a, b) && LessEq(b, c)
    ensures LessEq(a, c)
  {
    if a != b && b != c {
      LessTransitive(a, b, c);
    }
  }

  lemma LessEqAntisymmetric(a: string, b: string)
    requires LessEq(a, b) && LessEq(b, a)
    ensures a == b
  {
    if a != b {
      LessAsymmetric(a, b);
    }
  }

  /** Comparing two strings that start with blocks of equal width compares the
      blocks first, and the rest only when the blocks are equal. */
  lemma {:induction false} LessConcat(a1: string, a2: string, b1: string, b2: string)
    requires |a1| == |b1|
    ensures Less(a1 + a2, b1 + b2) <==> Less(a1, b1) || (a1 == b1 && Less(a2, b2))
  {
    if |a1| == 0 {
      assert a1 + a2 == a2;
      assert b1 + b2 == b2;
    } else {
      assert (a1 + a2)[1..] == a1[1..] + a2;
      assert (b1 + b2)[1..] == b1[1..] + b2;
      assert a1 == [a1[0]] + a1[1..];
      assert b1 == [b1[0]] + b1[1..];
      LessConcat(a1[1..], a2, b1[1..], b2);
    }
  }
}
