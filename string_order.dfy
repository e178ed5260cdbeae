/**
 * Kotlin's (and Java's) `String.compareTo`: characters are compared one by one up
 * to the shorter length; the first difference decides, and otherwise the shorter
 * string comes first.  Only the sign of the result is meaningful.
 */
module StringOrder {

  /**
   * A string compares as equal to itself, and a prefix compares below the
   * longer string by the difference of the lengths.
   */
  function CompareTo(a: string, b: string): (r: int)
    ensures a == b ==> r == 0
    ensures |a| <= |b| && a == b[..|a|] ==> r == |a| - |b|
  {
    if |a| == 0 || |b| == 0 then |a| - |b|
    else if a[0] != b[0] then a[0] as int - b[0] as int
    else CompareTo(a[1..], b[1..])
  }

  /** Only equal strings compare as equal. */
  lemma {:induction false} CompareToZero(a: string, b: string)
    ensures CompareTo(a, b) == 0 <==> a == b
  {
    if |a| != 0 && |b| != 0 && a[0] == b[0] {
      CompareToZero(a[1..], b[1..]);
      if a[1..] == b[1..] {
        assert a == [a[0]] + a[1..] && b == [b[0]] + b[1..];
      }
    }
  }

  /** Swapping the operands flips the sign. */
  lemma {:induction false} CompareToFlip(a: string, b: string)
    ensures CompareTo(b, a) == -CompareTo(a, b)
  {
    if |a| != 0 && |b| != 0 && a[0] == b[0] {
      CompareToFlip(a[1..], b[1..]);
    }
  }

  /** "Not after" is transitive, so the order is a total order on strings. */
  lemma {:induction false} CompareToTransitive(a: string, b: string, c: string)
    requires CompareTo(a, b) <= 0 && CompareTo(b, c) <= 0
    ensures CompareTo(a, c) <= 0
  {
    if |a| != 0 && |b| != 0 && |c| != 0 && a[0] == b[0] == c[0] {
      CompareToTransitive(a[1..], b[1..], c[1..]);
    }
  }
}
