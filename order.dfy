/**
 * Key order used by every sorted structure of the store: Java's
 * String.compareTo, i.e. lexicographic order on char sequences where a
 * proper prefix sorts first.
 */
module Order {

  /** String.compareTo: the difference of the first differing chars, otherwise the difference of the lengths. */
  function CompareTo(a: string, b: string): int
    decreases |a|
  {
    if |a| == 0 || |b| == 0 then |a| - |b|
    else if a[0] != b[0] then a[0] as int - b[0] as int
    else CompareTo(a[1..], b[1..])
  }

  /** a.compareTo(b) <= 0 */
  predicate LexLe(a: string, b: string) {
    CompareTo(a, b) <= 0
  }

  /** a.compareTo(b) < 0 */
  predicate LexLt(a: string, b: string) {
    CompareTo(a, b) < 0
  }

  /** The inclusive range test shared by subMap(start, true, end, true) and readKeyRange. */
  predicate InRange(k: string, start: string, end: string) {
    LexLe(start, k) && LexLe(k, end)
  }

  /** compareTo returns zero exactly on equal strings. */
  lemma {:induction false} CompareToZero(a: string, b: string)
    ensures CompareTo(a, b) == 0 <==> a == b
  {
    if |a| != 0 && |b| != 0 && a[0] == b[0] {
      CompareToZero(a[1..], b[1..]);
      assert a == [a[0]] + a[1..];
      assert b == [b[0]] + b[1..];
    }
  }

  /** compareTo is antisymmetric: swapping the arguments negates the result. */
  lemma {:induction false} CompareToFlip(a: string, b: string)
    ensures CompareTo(b, a) == -CompareTo(a, b)
  {
    if |a| != 0 && |b| != 0 && a[0] == b[0] {
      CompareToFlip(a[1..], b[1..]);
    }
  }

  /** The strict order is transitive. */
  lemma {:induction false} LexLtTransitive(a: string, b: string, c: string)
    requires LexLt(a, b) && LexLt(b, c)
    ensures LexLt(a, c)
  {
    if |a| != 0 && |b| != 0 && |c| != 0 && a[0] == b[0] && b[0] == c[0] {
      LexLtTransitive(a[1..], b[1..], c[1..]);
    }
  }

  /** Two distinct strings are ordered one way or the other, and not both ways. */
  lemma LexLtTrichotomy(a: string, b: string)
    ensures a == b || LexLt(a, b) || LexLt(b, a)
    ensures !(LexLt(a, b) && LexLt(b, a))
    ensures !LexLt(a, a)
  {
    CompareToZero(a, b);
    CompareToFlip(a, b);
    CompareToZero(a, a);
  }

  /** The non-strict order is transitive, so InRange is an interval. */
  lemma LexLeTransitive(a: string, b: string, c: string)
    requires LexLe(a, b) && LexLe(b, c)
    ensures LexLe(a, c)
  {
    CompareToZero(a, b);
    CompareToZero(b, c);
    if a != b && b != c {
      LexLtTransitive(a, b, c);
    }
  }
}
