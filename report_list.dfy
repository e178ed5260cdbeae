/**
 * The list operations behind the reports screen, as pure functions over
 * sequences: `addReport`, `updateReport` and `removeReport` each compute a new
 * list with `+`, `map`, `filterNot` and `sortedByDescending { it.fecha }`, and
 * the view model then stores that list (see module ReportsViewModel).
 */
module ReportList {
  import opened Models
  import opened StringOrder

  // ---------------------------------------------------------------------------
  // Order by fecha, most recent first
  // ---------------------------------------------------------------------------

  /**
   * The comparator of `sortedByDescending { it.fecha }` lets `x` stand before `y`:
   * `y.fecha` does not come after `x.fecha` in `String.compareTo` order.  It is
   * the mirror of ascending order, and items with the same fecha are tied.
   */
  predicate NotAfter(x: ReportItem, y: ReportItem): (b: bool)
    ensures x.fecha == y.fecha ==> b
  {
    CompareTo(y.fecha, x.fecha) <= 0
  }

  /** The descending comparator is the mirror of ascending `compareTo`. */
  lemma NotAfterMirror(x: ReportItem, y: ReportItem)
    ensures NotAfter(x, y) <==> CompareTo(x.fecha, y.fecha) >= 0
  {
    CompareToFlip(x.fecha, y.fecha);
  }

  /** Every item is at least as recent as every item after it. */
  predicate Sorted(s: seq<ReportItem>)
  {
    forall i, j :: 0 <= i < j < |s| ==> NotAfter(s[i], s[j])
  }

  /** The items whose fecha is `f`, in list order. */
  function WithFecha(s: seq<ReportItem>, f: string): seq<ReportItem>
  {
    if |s| == 0 then []
    else (if s[0].fecha == f then [s[0]] else []) + WithFecha(s[1..], f)
  }

  /**
   * `r` is a stable rearrangement of `s`: items that share a fecha appear in
   * `r` in the order they have in `s`.
   */
  ghost predicate SameGroups(r: seq<ReportItem>, s: seq<ReportItem>)
  {
    forall f :: WithFecha(r, f) == WithFecha(s, f)
  }

  // ---------------------------------------------------------------------------
  // sortedByDescending { it.fecha }, as a stable insertion sort
  // ---------------------------------------------------------------------------

  /**
   * Puts `x` in front of the first item it may stand before; `x` is taken to
   * have come before every item of `t`, so it goes ahead of items with its fecha.
   */
  function Insert(x: ReportItem, t: seq<ReportItem>): (r: seq<ReportItem>)
    ensures multiset(r) == multiset(t) + multiset{x}
  {
    if |t| == 0 || NotAfter(x, t[0]) then [x] + t
    else
      assert t == [t[0]] + t[1..];
      [t[0]] + Insert(x, t[1..])
  }

  /** `sortedByDescending { it.fecha }`: a sorted permutation of `s` (see SortUnique). */
  function SortByFechaDesc(s: seq<ReportItem>): (r: seq<ReportItem>)
    ensures multiset(r) == multiset(s)
    ensures |r| == |s|
  {
    if |s| == 0 then []
    else
      assert s == [s[0]] + s[1..];
      Insert(s[0], SortByFechaDesc(s[1..]))
  }

  // ---------------------------------------------------------------------------
  // The three list updates of the view model
  // ---------------------------------------------------------------------------

  /** `addReport`: append the item, then sort the whole list. */
  function Added(s: seq<ReportItem>, item: ReportItem): (r: seq<ReportItem>)
    ensures |r| == |s| + 1
    ensures multiset(r) == multiset(s) + multiset{item}
  {
    SortByFechaDesc(s + [item])
  }

  /** The `map { if (it.key == key) newItem else it }` step of `updateReport`. */
  function ReplaceByKey(s: seq<ReportItem>, k: string, n: ReportItem): (r: seq<ReportItem>)
    ensures |r| == |s|
    ensures forall i :: 0 <= i < |s| ==> r[i] == (if s[i].key == k then n else s[i])
    ensures forall x :: x in r ==> x == n || (x in s && x.key != k)
    ensures forall x :: x in s && x.key != k ==> x in r
    ensures HasKey(s, k) ==> n in r
    ensures !HasKey(s, k) ==> r == s
  {
    if |s| == 0 then []
    else [if s[0].key == k then n else s[0]] + ReplaceByKey(s[1..], k, n)
  }

  /** `updateReport`: replace every item keyed `k` by `n`, then sort. */
  function Updated(s: seq<ReportItem>, k: string, n: ReportItem): (r: seq<ReportItem>)
    ensures |r| == |s|
  {
    SortByFechaDesc(ReplaceByKey(s, k, n))
  }

  /** `removeReport`: `filterNot { it.key == key }`, with no re-sort. */
  function RemoveByKey(s: seq<ReportItem>, k: string): (r: seq<ReportItem>)
    ensures forall x :: x in r <==> x in s && x.key != k
    ensures |r| <= |s|
  {
    if |s| == 0 then []
    else (if s[0].key == k then [] else [s[0]]) + RemoveByKey(s[1..], k)
  }

  predicate HasKey(s: seq<ReportItem>, k: string)
  {
    exists x :: x in s && x.key == k
  }

  /** No two items share a key (assumed by the list UI, never enforced by the view model). */
  predicate KeysUnique(s: seq<ReportItem>)
  {
    forall i, j :: 0 <= i < j < |s| ==> s[i].key != s[j].key
  }

  // ---------------------------------------------------------------------------
  // Helper facts
  // ---------------------------------------------------------------------------

  lemma SortedCons(a: ReportItem, u: seq<ReportItem>)
    ensures Sorted([a] + u) <==> Sorted(u) && forall y :: y in u ==> NotAfter(a, y)
  {
    var s := [a] + u;
    if Sorted(u) && forall y :: y in u ==> NotAfter(a, y) {
      forall i, j | 0 <= i < j < |s| ensures NotAfter(s[i], s[j]) {
        if i > 0 { assert s[i] == u[i - 1] && s[j] == u[j - 1]; }
        else { assert s[j] in u; }
      }
    }
    if Sorted(s) {
      forall i, j | 0 <= i < j < |u| ensures NotAfter(u[i], u[j]) {
        assert u[i] == s[i + 1] && u[j] == s[j + 1];
      }
      forall y | y in u ensures NotAfter(a, y) {
        var j :| 0 <= j < |u| && u[j] == y;
        assert s[0] == a && s[j + 1] == y;
        assert NotAfter(s[0], s[j + 1]);
      }
    }
  }

  lemma NotAfterTransitive(x: ReportItem, y: ReportItem, z: ReportItem)
    requires NotAfter(x, y) && NotAfter(y, z)
    ensures NotAfter(x, z)
  {
    CompareToTransitive(z.fecha, y.fecha, x.fecha);
  }

  /** Two items that may each stand before the other have the same fecha. */
  lemma NotAfterBoth(x: ReportItem, y: ReportItem)
    requires NotAfter(x, y) && NotAfter(y, x)
    ensures x.fecha == y.fecha
  {
    CompareToFlip(x.fecha, y.fecha);
    CompareToZero(x.fecha, y.fecha);
  }

  /** If `x` may not stand before `y`, then `y` may stand before `x` and their fechas differ. */
  lemma NotAfterStrict(x: ReportItem, y: ReportItem)
    requires !NotAfter(x, y)
    ensures NotAfter(y, x) && x.fecha != y.fecha
  {
    CompareToFlip(x.fecha, y.fecha);
    CompareToZero(x.fecha, y.fecha);
  }

  /** A fecha group holds exactly the items of the list with that fecha. */
  lemma {:induction false} WithFechaMembers(s: seq<ReportItem>, f: string)
    ensures forall x :: x in WithFecha(s, f) <==> x in s && x.fecha == f
  {
    if |s| != 0 {
      WithFechaMembers(s[1..], f);
      assert s == [s[0]] + s[1..];
    }
  }

  lemma {:induction false} WithFechaNone(s: seq<ReportItem>, f: string)
    requires forall y :: y in s ==> y.fecha != f
    ensures WithFecha(s, f) == []
  {
    if |s| != 0 {
      assert s[0] in s;
      forall y | y in s[1..] ensures y.fecha != f { assert y in s; }
      WithFechaNone(s[1..], f);
    }
  }

  lemma {:induction false} WithFechaConcat(a: seq<ReportItem>, b: seq<ReportItem>, f: string)
    ensures WithFecha(a + b, f) == WithFecha(a, f) + WithFecha(b, f)
  {
    if |a| == 0 {
      assert a + b == b;
    } else {
      assert (a + b)[1..] == a[1..] + b;
      WithFechaConcat(a[1..], b, f);
    }
  }

  // ---------------------------------------------------------------------------
  // The sort: sorted, stable, and the only sorted stable rearrangement
  // ---------------------------------------------------------------------------

  lemma {:induction false} InsertSorted(x: ReportItem, t: seq<ReportItem>)
    requires Sorted(t)
    ensures Sorted(Insert(x, t))
  {
    if |t| == 0 {
    } else if NotAfter(x, t[0]) {
      SortedCons(t[0], t[1..]);
      assert t == [t[0]] + t[1..];
      forall y | y in t ensures NotAfter(x, y) {
        if y != t[0] { NotAfterTransitive(x, t[0], y); }
      }
      SortedCons(x, t);
    } else {
      NotAfterStrict(x, t[0]);
      assert t == [t[0]] + t[1..];
      SortedCons(t[0], t[1..]);
      InsertSorted(x, t[1..]);
      var u := Insert(x, t[1..]);
      forall y | y in u ensures NotAfter(t[0], y) {
        assert y in multiset(u);
      }
      SortedCons(t[0], u);
    }
  }

  lemma {:induction false} InsertStable(x: ReportItem, t: seq<ReportItem>, f: string)
    ensures WithFecha(Insert(x, t), f) == WithFecha([x] + t, f)
  {
    if |t| == 0 || NotAfter(x, t[0]) {
    } else {
      NotAfterStrict(x, t[0]);
      assert t == [t[0]] + t[1..];
      InsertStable(x, t[1..], f);
      WithFechaConcat([t[0]], Insert(x, t[1..]), f);
      WithFechaConcat([x], t[1..], f);
      WithFechaConcat([t[0]], [x] + t[1..], f);
      WithFechaConcat([x], t, f);
      WithFechaConcat([t[0]], t[1..], f);
    }
  }

  /** The result of `sortedByDescending` is most-recent-first. */
  lemma {:induction false} SortSorted(s: seq<ReportItem>)
    ensures Sorted(SortByFechaDesc(s))
  {
    if |s| != 0 {
      SortSorted(s[1..]);
      InsertSorted(s[0], SortByFechaDesc(s[1..]));
    }
  }

  /** The sort is stable: items with equal fecha keep their relative order. */
  lemma {:induction false} SortStable(s: seq<ReportItem>)
    ensures SameGroups(SortByFechaDesc(s), s)
  {
    if |s| != 0 {
      SortStable(s[1..]);
      forall f ensures WithFecha(SortByFechaDesc(s), f) == WithFecha(s, f) {
        InsertStable(s[0], SortByFechaDesc(s[1..]), f);
        WithFechaConcat([s[0]], SortByFechaDesc(s[1..]), f);
        WithFechaConcat([s[0]], s[1..], f);
        assert s == [s[0]] + s[1..];
      }
    }
  }

  lemma WithFechaCons(a: ReportItem, u: seq<ReportItem>, f: string)
    ensures WithFecha([a] + u, f) == (if a.fecha == f then [a] else []) + WithFecha(u, f)
  {
    assert ([a] + u)[1..] == u;
  }

  /** The head of a sorted list may stand before every item of the list. */
  lemma SortedHeadFirst(t: seq<ReportItem>, y: ReportItem)
    requires Sorted(t) && y in t
    ensures NotAfter(t[0], y)
  {
    var i :| 0 <= i < |t| && t[i] == y;
    if i != 0 { assert NotAfter(t[0], t[i]); }
    else { CompareToZero(y.fecha, y.fecha); }
  }

  /** Two sorted lists with the same fecha groups have the same head. */
  lemma SameGroupsSameHead(r: seq<ReportItem>, t: seq<ReportItem>)
    requires Sorted(r) && Sorted(t) && SameGroups(r, t)
    requires |r| != 0
    ensures |t| != 0 && r[0] == t[0]
  {
    var f := r[0].fecha;
    WithFechaMembers(r, f);
    WithFechaMembers(t, f);
    WithFechaMembers(r, t[0].fecha);
    WithFechaMembers(t, t[0].fecha);
    assert r[0] in WithFecha(r, f);
    assert WithFecha(r, f) == WithFecha(t, f);
    assert r[0] in t;
    assert t[0] in WithFecha(t, t[0].fecha);
    assert WithFecha(r, t[0].fecha) == WithFecha(t, t[0].fecha);
    assert t[0] in r;
    SortedHeadFirst(t, r[0]);
    SortedHeadFirst(r, t[0]);
    NotAfterBoth(r[0], t[0]);
    assert r == [r[0]] + r[1..] && t == [t[0]] + t[1..];
    WithFechaCons(r[0], r[1..], f);
    WithFechaCons(t[0], t[1..], f);
    assert WithFecha(r, f)[0] == r[0] && WithFecha(t, f)[0] == t[0];
  }

  /** Two sorted lists with the same fecha groups are the same list. */
  lemma {:induction false} SameGroupsEqual(r: seq<ReportItem>, t: seq<ReportItem>)
    requires Sorted(r) && Sorted(t) && SameGroups(r, t)
    ensures r == t
    decreases |r| + |t|
  {
    if |r| != 0 {
      SameGroupsSameHead(r, t);
    } else if |t| != 0 {
      SameGroupsSameHead(t, r);
    }
    if |r| != 0 {
      var a := r[0];
      assert r == [a] + r[1..] && t == [a] + t[1..];
      forall g ensures WithFecha(r[1..], g) == WithFecha(t[1..], g) {
        WithFechaCons(a, r[1..], g);
        WithFechaCons(a, t[1..], g);
        var p := if a.fecha == g then [a] else [];
        assert WithFecha(r, g) == WithFecha(t, g);
        assert WithFecha(r[1..], g) == (p + WithFecha(r[1..], g))[|p|..];
        assert WithFecha(t[1..], g) == (p + WithFecha(t[1..], g))[|p|..];
      }
      SortedCons(a, r[1..]);
      SortedCons(a, t[1..]);
      SameGroupsEqual(r[1..], t[1..]);
    }
  }

  /**
   * Any sorted, stable rearrangement of `s` is exactly SortByFechaDesc(s): the
   * insertion sort here and the JVM's stable sort give the same list.
   */
  lemma SortUnique(s: seq<ReportItem>, r: seq<ReportItem>)
    requires Sorted(r) && SameGroups(r, s)
    ensures r == SortByFechaDesc(s)
  {
    SortSorted(s);
    SortStable(s);
    SameGroupsEqual(r, SortByFechaDesc(s));
  }

  /** Sorting a list that is already most-recent-first changes nothing. */
  lemma SortOfSorted(s: seq<ReportItem>)
    requires Sorted(s)
    ensures SortByFechaDesc(s) == s
  {
    SortUnique(s, s);
  }

  // ---------------------------------------------------------------------------
  // addReport
  // ---------------------------------------------------------------------------

  /** After `addReport` the list is most-recent-first and ties keep their arrival order. */
  lemma AddedSortedStable(s: seq<ReportItem>, item: ReportItem)
    ensures Sorted(Added(s, item))
    ensures SameGroups(Added(s, item), s + [item])
  {
    SortSorted(s + [item]);
    SortStable(s + [item]);
  }

  /** How many leading items of `s` may stand before `item`. */
  function InsertionIndex(s: seq<ReportItem>, item: ReportItem): (i: nat)
    ensures i <= |s|
    ensures forall j :: 0 <= j < i ==> NotAfter(s[j], item)
    ensures i < |s| ==> !NotAfter(s[i], item)
  {
    if |s| == 0 || !NotAfter(s[0], item) then 0
    else 1 + InsertionIndex(s[1..], item)
  }

  lemma SortedConcat(a: seq<ReportItem>, b: seq<ReportItem>)
    requires Sorted(a) && Sorted(b)
    requires forall x, y :: x in a && y in b ==> NotAfter(x, y)
    ensures Sorted(a + b)
  {
    var c := a + b;
    forall i, j | 0 <= i < j < |c| ensures NotAfter(c[i], c[j]) {
      if j < |a| {
        assert c[i] == a[i] && c[j] == a[j];
      } else if i >= |a| {
        assert c[i] == b[i - |a|] && c[j] == b[j - |a|];
      } else {
        assert c[i] in a && c[j] in b;
      }
    }
  }

  lemma SortedSlices(s: seq<ReportItem>, i: nat)
    requires Sorted(s) && i <= |s|
    ensures Sorted(s[..i]) && Sorted(s[i..])
  {
    forall p, q | 0 <= p < q < |s[i..]| ensures NotAfter(s[i..][p], s[i..][q]) {
      assert s[i..][p] == s[i + p] && s[i..][q] == s[i + q];
    }
  }

  /** One fecha group after `addReport`: the old group, then the new item if it belongs. */
  lemma AddedGroup(s: seq<ReportItem>, item: ReportItem, f: string)
    ensures WithFecha(Added(s, item), f) == WithFecha(s, f) + WithFecha([item], f)
  {
    SortStable(s + [item]);
    WithFechaConcat(s, [item], f);
  }

  /** Past the insertion index of a sorted list, every item is strictly older than `item`. */
  lemma AfterInsertionIndex(s: seq<ReportItem>, item: ReportItem, y: ReportItem)
    requires Sorted(s) && y in s[InsertionIndex(s, item)..]
    ensures NotAfter(item, y) && y.fecha != item.fecha
  {
    var i := InsertionIndex(s, item);
    var q :| i <= q < |s| && s[q] == y;
    NotAfterStrict(s[i], item);
    if q != i {
      assert NotAfter(s[i], s[q]);
      NotAfterTransitive(item, s[i], y);
      if y.fecha == item.fecha {
        assert NotAfter(s[i], item);
      }
    }
  }

  lemma InsertionSplitSorted(s: seq<ReportItem>, item: ReportItem)
    requires Sorted(s)
    ensures Sorted(s[..InsertionIndex(s, item)] + [item] + s[InsertionIndex(s, item)..])
  {
    var i := InsertionIndex(s, item);
    var a, b := s[..i] + [item], s[i..];
    SortedSlices(s, i);
    forall x | x in s[..i] ensures NotAfter(x, item) {
      var p :| 0 <= p < i && s[..i][p] == x;
    }
    SortedConcat(s[..i], [item]);
    forall x, y | x in a && y in b ensures NotAfter(x, y) {
      AfterInsertionIndex(s, item, y);
      if x != item {
        var p :| 0 <= p < i && s[..i][p] == x;
        var q :| 0 <= q < |b| && b[q] == y;
        assert s[p] == x && s[i + q] == y;
      }
    }
    SortedConcat(a, b);
  }

  /** Moving `item` in front of items of other fechas leaves every fecha group as it was. */
  lemma MoveAheadGroup(p: seq<ReportItem>, b: seq<ReportItem>, item: ReportItem, f: string)
    requires forall y :: y in b ==> y.fecha != item.fecha
    ensures WithFecha(p + [item] + b, f) == WithFecha(p + b + [item], f)
  {
    WithFechaConcat(p + [item], b, f);
    WithFechaConcat(p, [item], f);
    WithFechaConcat(p + b, [item], f);
    WithFechaConcat(p, b, f);
    if f == item.fecha {
      WithFechaNone(b, f);
    }
  }

  lemma InsertionSplitGroup(s: seq<ReportItem>, item: ReportItem, f: string)
    requires Sorted(s)
    ensures WithFecha(s[..InsertionIndex(s, item)] + [item] + s[InsertionIndex(s, item)..], f)
         == WithFecha(s + [item], f)
  {
    var i := InsertionIndex(s, item);
    forall y | y in s[i..] ensures y.fecha != item.fecha { AfterInsertionIndex(s, item, y); }
    MoveAheadGroup(s[..i], s[i..], item, f);
    assert s == s[..i] + s[i..];
  }

  /**
   * On a most-recent-first list, `addReport` inserts the item right after the
   * items at least as recent as it (so after those with the same fecha) and
   * leaves every other item where it was.
   */
  lemma AddedToSorted(s: seq<ReportItem>, item: ReportItem)
    requires Sorted(s)
    ensures Added(s, item) == s[..InsertionIndex(s, item)] + [item] + s[InsertionIndex(s, item)..]
  {
    var r := s[..InsertionIndex(s, item)] + [item] + s[InsertionIndex(s, item)..];
    InsertionSplitSorted(s, item);
    forall f ensures WithFecha(r, f) == WithFecha(s + [item], f) {
      InsertionSplitGroup(s, item, f);
    }
    SortUnique(s + [item], r);
  }

  /**
   * Items from the two streams may arrive in either order: when their fechas
   * differ, the list ends up the same.
   */
  lemma AddedCommutes(s: seq<ReportItem>, a: ReportItem, b: ReportItem)
    requires a.fecha != b.fecha
    ensures Added(Added(s, a), b) == Added(Added(s, b), a)
  {
    var ab, ba := Added(Added(s, a), b), Added(Added(s, b), a);
    SortSorted(Added(s, a) + [b]);
    SortSorted(Added(s, b) + [a]);
    forall f ensures WithFecha(ab, f) == WithFecha(ba, f) {
      AddedGroup(Added(s, a), b, f);
      AddedGroup(Added(s, b), a, f);
      AddedGroup(s, a, f);
      AddedGroup(s, b, f);
      assert WithFecha([a], f) == [] || WithFecha([b], f) == [];
    }
    SameGroupsEqual(ab, ba);
  }

  // ---------------------------------------------------------------------------
  // Keys
  // ---------------------------------------------------------------------------

  lemma KeysUniqueCons(a: ReportItem, u: seq<ReportItem>)
    ensures KeysUnique([a] + u) <==> KeysUnique(u) && !HasKey(u, a.key)
  {
    var s := [a] + u;
    if KeysUnique(u) && !HasKey(u, a.key) {
      forall i, j | 0 <= i < j < |s| ensures s[i].key != s[j].key {
        if i > 0 { assert s[i] == u[i - 1] && s[j] == u[j - 1]; }
        else { assert s[j] in u; }
      }
    }
    if KeysUnique(s) {
      forall i, j | 0 <= i < j < |u| ensures u[i].key != u[j].key {
        assert u[i] == s[i + 1] && u[j] == s[j + 1];
      }
      forall y | y in u ensures y.key != a.key {
        var j :| 0 <= j < |u| && u[j] == y;
        assert s[0] == a && s[j + 1] == y;
      }
    }
  }

  lemma {:induction false} InsertKeysUnique(x: ReportItem, t: seq<ReportItem>)
    requires KeysUnique(t) && !HasKey(t, x.key)
    ensures KeysUnique(Insert(x, t))
  {
    if |t| == 0 || NotAfter(x, t[0]) {
      KeysUniqueCons(x, t);
    } else {
      assert t == [t[0]] + t[1..];
      KeysUniqueCons(t[0], t[1..]);
      InsertKeysUnique(x, t[1..]);
      var u := Insert(x, t[1..]);
      forall y | y in u ensures y.key != t[0].key {
        assert y in multiset(u);
        assert y == x || y in t[1..];
      }
      KeysUniqueCons(t[0], u);
    }
  }

  lemma {:induction false} SortKeysUnique(s: seq<ReportItem>)
    requires KeysUnique(s)
    ensures KeysUnique(SortByFechaDesc(s))
  {
    if |s| != 0 {
      assert s == [s[0]] + s[1..];
      KeysUniqueCons(s[0], s[1..]);
      SortKeysUnique(s[1..]);
      var t := SortByFechaDesc(s[1..]);
      forall y | y in t ensures y.key != s[0].key {
        assert y in multiset(t);
      }
      InsertKeysUnique(s[0], t);
    }
  }

  /**
   * `addReport` does not deduplicate; but when the new key is absent and the
   * keys were unique, they stay unique.
   */
  lemma AddedKeepsKeysUnique(s: seq<ReportItem>, item: ReportItem)
    requires KeysUnique(s) && !HasKey(s, item.key)
    ensures KeysUnique(Added(s, item))
  {
    var t := s + [item];
    forall i, j | 0 <= i < j < |t| ensures t[i].key != t[j].key {
      if j == |s| { assert t[i] in s; }
      else { assert t[i] == s[i] && t[j] == s[j]; }
    }
    SortKeysUnique(t);
  }

  // ---------------------------------------------------------------------------
  // removeReport
  // ---------------------------------------------------------------------------

  /** Removing an absent key leaves the list exactly as it was. */
  lemma {:induction false} RemoveAbsent(s: seq<ReportItem>, k: string)
    requires !HasKey(s, k)
    ensures RemoveByKey(s, k) == s
  {
    if |s| != 0 {
      assert s[0] in s;
      assert !HasKey(s[1..], k) by {
        forall y | y in s[1..] ensures y.key != k { assert y in s; }
      }
      RemoveAbsent(s[1..], k);
      assert s == [s[0]] + s[1..];
    }
  }

  /** Removing twice is removing once. */
  lemma RemoveIdempotent(s: seq<ReportItem>, k: string)
    ensures RemoveByKey(RemoveByKey(s, k), k) == RemoveByKey(s, k)
  {
    RemoveAbsent(RemoveByKey(s, k), k);
  }

  /** Remove works item by item, so the kept items keep their relative order. */
  lemma {:induction false} RemoveConcat(a: seq<ReportItem>, b: seq<ReportItem>, k: string)
    ensures RemoveByKey(a + b, k) == RemoveByKey(a, k) + RemoveByKey(b, k)
  {
    if |a| == 0 {
      assert a + b == b;
    } else {
      assert (a + b)[1..] == a[1..] + b;
      RemoveConcat(a[1..], b, k);
    }
  }

  /** Remove drops exactly the items keyed `k`, with their multiplicities. */
  lemma {:induction false} RemoveMultiset(s: seq<ReportItem>, k: string, y: ReportItem)
    ensures multiset(RemoveByKey(s, k))[y] == if y.key == k then 0 else multiset(s)[y]
  {
    if |s| != 0 {
      RemoveMultiset(s[1..], k, y);
      assert s == [s[0]] + s[1..];
    }
  }

  /** `removeReport` does not re-sort, yet a most-recent-first list stays so. */
  lemma {:induction false} RemoveSorted(s: seq<ReportItem>, k: string)
    requires Sorted(s)
    ensures Sorted(RemoveByKey(s, k))
  {
    if |s| != 0 {
      assert s == [s[0]] + s[1..];
      SortedCons(s[0], s[1..]);
      RemoveSorted(s[1..], k);
      SortedCons(s[0], RemoveByKey(s[1..], k));
    }
  }

  /** `removeReport` keeps unique keys unique. */
  lemma {:induction false} RemoveKeepsKeysUnique(s: seq<ReportItem>, k: string)
    requires KeysUnique(s)
    ensures KeysUnique(RemoveByKey(s, k))
  {
    if |s| != 0 {
      assert s == [s[0]] + s[1..];
      KeysUniqueCons(s[0], s[1..]);
      RemoveKeepsKeysUnique(s[1..], k);
      KeysUniqueCons(s[0], RemoveByKey(s[1..], k));
    }
  }

  // ---------------------------------------------------------------------------
  // updateReport
  // ---------------------------------------------------------------------------

  /** After `updateReport` the list is most-recent-first, a stable rearrangement of the replaced list. */
  lemma UpdatedSortedStable(s: seq<ReportItem>, k: string, n: ReportItem)
    ensures Sorted(Updated(s, k, n))
    ensures SameGroups(Updated(s, k, n), ReplaceByKey(s, k, n))
    ensures multiset(Updated(s, k, n)) == multiset(ReplaceByKey(s, k, n))
  {
    SortSorted(ReplaceByKey(s, k, n));
    SortStable(ReplaceByKey(s, k, n));
  }

  /** `updateReport` never inserts: with the key absent it only re-sorts. */
  lemma UpdatedAbsentKey(s: seq<ReportItem>, k: string, n: ReportItem)
    requires !HasKey(s, k)
    ensures multiset(Updated(s, k, n)) == multiset(s)
    ensures Sorted(s) ==> Updated(s, k, n) == s
  {
    if Sorted(s) { SortOfSorted(s); }
  }

  lemma {:induction false} RemoveAfterReplace(s: seq<ReportItem>, k: string, n: ReportItem)
    requires n.key == k
    ensures RemoveByKey(ReplaceByKey(s, k, n), k) == RemoveByKey(s, k)
  {
    if |s| != 0 {
      var t := ReplaceByKey(s, k, n);
      assert t[1..] == ReplaceByKey(s[1..], k, n);
      RemoveAfterReplace(s[1..], k, n);
    }
  }

  /** After `updateReport(k, n)` with `n` keyed `k`, the only item keyed `k` is `n`. */
  lemma UpdatedKeyedIsNew(s: seq<ReportItem>, k: string, n: ReportItem)
    requires n.key == k
    ensures forall x :: x in Updated(s, k, n) && x.key == k ==> x == n
  {
    var t := ReplaceByKey(s, k, n);
    UpdatedSortedStable(s, k, n);
    forall x | x in Updated(s, k, n) && x.key == k ensures x == n {
      assert x in multiset(Updated(s, k, n));
      assert x in t;
    }
  }

  /** `n` is in the list after `updateReport(k, n)` exactly when the key was there before. */
  lemma UpdatedHasNew(s: seq<ReportItem>, k: string, n: ReportItem)
    requires n.key == k
    ensures n in Updated(s, k, n) <==> HasKey(s, k)
  {
    var t := ReplaceByKey(s, k, n);
    UpdatedSortedStable(s, k, n);
    if n in Updated(s, k, n) {
      assert n in multiset(Updated(s, k, n));
      assert n in t;
    }
    if HasKey(s, k) {
      assert n in t;
      assert n in multiset(t);
    }
  }

  /**
   * `updateReport(k, n)` for the item keyed `k` (as both listeners call it):
   * every item keyed `k` is now `n`, `n` is there iff the key was, and the
   * items with other keys are the same multiset as before.
   */
  lemma UpdatedReplaces(s: seq<ReportItem>, k: string, n: ReportItem)
    requires n.key == k
    ensures forall x :: x in Updated(s, k, n) && x.key == k ==> x == n
    ensures n in Updated(s, k, n) <==> HasKey(s, k)
    ensures multiset(RemoveByKey(Updated(s, k, n), k)) == multiset(RemoveByKey(s, k))
  {
    UpdatedKeyedIsNew(s, k, n);
    UpdatedHasNew(s, k, n);
    var t := ReplaceByKey(s, k, n);
    var r := Updated(s, k, n);
    UpdatedSortedStable(s, k, n);
    forall y ensures multiset(RemoveByKey(r, k))[y] == multiset(RemoveByKey(s, k))[y] {
      RemoveMultiset(r, k, y);
      RemoveMultiset(t, k, y);
      RemoveAfterReplace(s, k, n);
    }
  }

  /** With `n` keyed `k`, `updateReport` keeps unique keys unique. */
  lemma UpdatedKeepsKeysUnique(s: seq<ReportItem>, k: string, n: ReportItem)
    requires n.key == k && KeysUnique(s)
    ensures KeysUnique(Updated(s, k, n))
  {
    var t := ReplaceByKey(s, k, n);
    assert forall i :: 0 <= i < |s| ==> t[i].key == s[i].key;
    SortKeysUnique(t);
  }

  /**
   * An item re-delivered as "changed" with the payload it was added with does
   * not change the list, when its key was new.
   */
  lemma UpdateAfterAddIsNoop(s: seq<ReportItem>, item: ReportItem)
    requires !HasKey(s, item.key)
    ensures Updated(Added(s, item), item.key, item) == Added(s, item)
  {
    var a := Added(s, item);
    forall i | 0 <= i < |a| ensures ReplaceByKey(a, item.key, item)[i] == a[i] {
      assert a[i] in multiset(a);
      if a[i] != item { assert a[i] in s; }
    }
    assert ReplaceByKey(a, item.key, item) == a;
    AddedSortedStable(s, item);
    SortOfSorted(a);
  }
}
