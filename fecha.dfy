/**
 * The `fecha` strings both classifiers write, formatted with the pattern
 * "yyyy-MM-dd HH:mm:ss".  Because every field is zero-padded to a fixed width,
 * comparing two such strings with `String.compareTo` orders them by the
 * wall-clock fields they print (local time of the writer, to the second), which
 * is what makes the reports list most-recent-first in that wall-clock time.
 */
module Fecha {
  import opened StringOrder
  import opened Models
  import opened ReportList

  function Pow10(w: nat): nat
  {
    if w == 0 then 1 else 10 * Pow10(w - 1)
  }

  function DigitChar(d: nat): char
    requires d < 10
  {
    (48 + d) as char
  }

  /** `n` in decimal, padded on the left with zeros to `w` digits. */
  function Digits(n: nat, w: nat): (s: string)
    requires n < Pow10(w)
    ensures |s| == w
  {
    if w == 0 then ""
    else Digits(n / 10, w - 1) + [DigitChar(n % 10)]
  }

  /** A date and time, one number per field of the pattern. */
  datatype DateTime = DateTime(year: nat, month: nat, day: nat, hour: nat, minute: nat, second: nat)

  /** Every field fits its width in the pattern (years before 10000). */
  predicate Printable(t: DateTime)
  {
    t.year < 10000 && t.month < 100 && t.day < 100 && t.hour < 100 && t.minute < 100 && t.second < 100
  }

  /** `SimpleDateFormat("yyyy-MM-dd HH:mm:ss").format(t)` */
  function Format(t: DateTime): (s: string)
    requires Printable(t)
    ensures |s| == 19
  {
    Digits(t.year, 4) + ("-" + (Digits(t.month, 2) + ("-" + (Digits(t.day, 2) + (" " +
    (Digits(t.hour, 2) + (":" + (Digits(t.minute, 2) + (":" + Digits(t.second, 2))))))))))
  }

  /** `t1` is strictly before `t2`: the first field where they differ is smaller in `t1`. */
  predicate Earlier(t1: DateTime, t2: DateTime)
  {
    || t1.year < t2.year
    || (t1.year == t2.year && t1.month < t2.month)
    || (t1.year == t2.year && t1.month == t2.month && t1.day < t2.day)
    || (t1.year == t2.year && t1.month == t2.month && t1.day == t2.day && t1.hour < t2.hour)
    || (t1.year == t2.year && t1.month == t2.month && t1.day == t2.day && t1.hour == t2.hour
        && t1.minute < t2.minute)
    || (t1.year == t2.year && t1.month == t2.month && t1.day == t2.day && t1.hour == t2.hour
        && t1.minute == t2.minute && t1.second < t2.second)
  }

  /** Behind equal-length heads, the heads decide unless they are equal. */
  lemma {:induction false} CompareToAfterHead(a: string, b: string, x: string, y: string)
    requires |a| == |b|
    ensures a == b ==> CompareTo(a + x, b + y) == CompareTo(x, y)
    ensures a != b ==> CompareTo(a + x, b + y) == CompareTo(a, b)
  {
    if |a| == 0 {
      assert a + x == x && b + y == y;
    } else {
      assert (a + x)[1..] == a[1..] + x && (b + y)[1..] == b[1..] + y;
      CompareToAfterHead(a[1..], b[1..], x, y);
      if a[0] == b[0] && a[1..] == b[1..] {
        assert a == [a[0]] + a[1..] && b == [b[0]] + b[1..];
      }
    }
  }

  lemma DivModTen(n: nat, w: nat)
    requires w > 0 && n < Pow10(w)
    ensures n / 10 < Pow10(w - 1)
    ensures n == 10 * (n / 10) + n % 10
  {
  }

  /** Zero-padded numbers of one width compare as the numbers do. */
  lemma {:induction false} DigitsOrder(m: nat, n: nat, w: nat)
    requires m < Pow10(w) && n < Pow10(w)
    ensures Digits(m, w) == Digits(n, w) <==> m == n
    ensures CompareTo(Digits(m, w), Digits(n, w)) < 0 <==> m < n
  {
    if w != 0 {
      DivModTen(m, w);
      DivModTen(n, w);
      DigitsOrder(m / 10, n / 10, w - 1);
      var pm, pn := Digits(m / 10, w - 1), Digits(n / 10, w - 1);
      var cm, cn := [DigitChar(m % 10)], [DigitChar(n % 10)];
      CompareToAfterHead(pm, pn, cm, cn);
      if m / 10 == n / 10 {
        assert CompareTo(cm, cn) == (m % 10) - (n % 10) by {
          assert cm[1..] == [] && cn[1..] == [];
        }
        if Digits(m, w) == Digits(n, w) {
          assert Digits(m, w)[w - 1] == cm[0];
        }
      } else {
        CompareToZero(pm, pn);
        CompareToZero(Digits(m, w), Digits(n, w));
      }
    }
  }

  /** One field of the pattern, followed by a separator and the rest. */
  lemma FieldStep(a: nat, b: nat, w: nat, sep: string, x: string, y: string)
    requires a < Pow10(w) && b < Pow10(w)
    ensures a != b ==> CompareTo(Digits(a, w) + (sep + x), Digits(b, w) + (sep + y)) != 0
    ensures a != b ==> (CompareTo(Digits(a, w) + (sep + x), Digits(b, w) + (sep + y)) < 0 <==> a < b)
    ensures a == b ==> CompareTo(Digits(a, w) + (sep + x), Digits(b, w) + (sep + y)) == CompareTo(x, y)
  {
    DigitsOrder(a, b, w);
    CompareToAfterHead(Digits(a, w), Digits(b, w), sep + x, sep + y);
    CompareToAfterHead(sep, sep, x, y);
    if a != b {
      CompareToZero(Digits(a, w), Digits(b, w));
    }
  }

  /**
   * Comparing two formatted fechas as strings is comparing the times: one
   * comes first exactly when its time is earlier, and they are equal exactly
   * when the times are.
   */
  lemma FormatOrder(t1: DateTime, t2: DateTime)
    requires Printable(t1) && Printable(t2)
    ensures CompareTo(Format(t1), Format(t2)) < 0 <==> Earlier(t1, t2)
    ensures Format(t1) == Format(t2) <==> t1 == t2
  {
    var s1 := Digits(t1.second, 2);
    var s2 := Digits(t2.second, 2);
    var mi1 := Digits(t1.minute, 2) + (":" + s1);
    var mi2 := Digits(t2.minute, 2) + (":" + s2);
    var h1 := Digits(t1.hour, 2) + (":" + mi1);
    var h2 := Digits(t2.hour, 2) + (":" + mi2);
    var d1 := Digits(t1.day, 2) + (" " + h1);
    var d2 := Digits(t2.day, 2) + (" " + h2);
    var mo1 := Digits(t1.month, 2) + ("-" + d1);
    var mo2 := Digits(t2.month, 2) + ("-" + d2);
    FieldStep(t1.year, t2.year, 4, "-", mo1, mo2);
    FieldStep(t1.month, t2.month, 2, "-", d1, d2);
    FieldStep(t1.day, t2.day, 2, " ", h1, h2);
    FieldStep(t1.hour, t2.hour, 2, ":", mi1, mi2);
    FieldStep(t1.minute, t2.minute, 2, ":", s1, s2);
    DigitsOrder(t1.second, t2.second, 2);
    CompareToZero(Format(t1), Format(t2));
  }

  /** Two distinct times are ordered one way or the other. */
  lemma EarlierTotal(t1: DateTime, t2: DateTime)
    ensures !Earlier(t1, t2) <==> Earlier(t2, t1) || t1 == t2
  {
  }

  /** One pair of dated items stands in list order exactly when the first is not earlier. */
  lemma NotAfterChronological(x: ReportItem, y: ReportItem, t1: DateTime, t2: DateTime)
    requires Printable(t1) && Printable(t2)
    requires x.fecha == Format(t1) && y.fecha == Format(t2)
    ensures NotAfter(x, y) <==> !Earlier(t1, t2)
  {
    FormatOrder(t2, t1);
    CompareToZero(Format(t2), Format(t1));
    EarlierTotal(t1, t2);
  }

  /**
   * When every item's fecha is the formatted time of the event it reports, the
   * reports list is most recent first exactly when those times never increase
   * along the list.
   */
  lemma SortedIsChronological(s: seq<ReportItem>, ts: seq<DateTime>)
    requires |s| == |ts|
    requires forall i :: 0 <= i < |s| ==> Printable(ts[i]) && s[i].fecha == Format(ts[i])
    ensures Sorted(s) <==> forall i, j :: 0 <= i < j < |s| ==> !Earlier(ts[i], ts[j])
  {
    forall i, j | 0 <= i < j < |s|
      ensures NotAfter(s[i], s[j]) <==> !Earlier(ts[i], ts[j])
    {
      NotAfterChronological(s[i], s[j], ts[i], ts[j]);
    }
  }
}
