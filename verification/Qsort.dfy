/** Bentley and McIlroy's quicksort, in place, under any comparator that is a total preorder. Positions
    count elements, not bytes. */
module Qsort {

  type Compare<!T> = (T, T) -> int

  /** What qsort may assume of its comparator: a consistent sign, and a transitive order. */
  ghost predicate Preorder<T(!new)>(cmp: Compare<T>) {
    && (forall x, y :: cmp(x, y) < 0 <==> cmp(y, x) > 0)
    && (forall x, y, z :: cmp(x, y) <= 0 && cmp(y, z) <= 0 ==> cmp(x, z) <= 0)
  }

  lemma Chain<T(!new)>(cmp: Compare<T>, x: T, y: T, z: T)
    requires Preorder(cmp) && cmp(x, y) <= 0 && cmp(y, z) <= 0
    ensures cmp(x, z) <= 0
  {
  }

  lemma Flip<T(!new)>(cmp: Compare<T>, x: T, y: T)
    requires Preorder(cmp)
    ensures cmp(x, y) < 0 <==> cmp(y, x) > 0
    ensures cmp(x, y) == 0 <==> cmp(y, x) == 0
    ensures cmp(x, x) == 0
  {
  }

  // ---- ranges -----------------------------------------------------------------------------------

  ghost predicate Sorted<T(!new)>(s: seq<T>, lo: int, hi: int, cmp: Compare<T>) {
    && 0 <= lo && hi <= |s|
    && forall i, j :: lo <= i < j < hi ==> cmp(s[i], s[j]) <= 0
  }

  /** Every element of the range compares below, level with, or above p. */
  ghost predicate Below<T(!new)>(s: seq<T>, lo: int, hi: int, cmp: Compare<T>, p: T) {
    0 <= lo && hi <= |s| && forall i :: lo <= i < hi ==> cmp(s[i], p) < 0
  }

  ghost predicate Level<T(!new)>(s: seq<T>, lo: int, hi: int, cmp: Compare<T>, p: T) {
    0 <= lo && hi <= |s| && forall i :: lo <= i < hi ==> cmp(s[i], p) == 0
  }

  ghost predicate Above<T(!new)>(s: seq<T>, lo: int, hi: int, cmp: Compare<T>, p: T) {
    0 <= lo && hi <= |s| && forall i :: lo <= i < hi ==> cmp(s[i], p) > 0
  }

  // ---- rearranging ------------------------------------------------------------------------------

  /** t is s with the elements of one range in another order. */
  ghost predicate Rearranged<T>(s: seq<T>, t: seq<T>, lo: int, hi: int) {
    && 0 <= lo <= hi <= |s| == |t|
    && t[..lo] == s[..lo] && t[hi..] == s[hi..]
    && multiset(t[lo..hi]) == multiset(s[lo..hi])
  }

  function Swapped<T>(s: seq<T>, i: int, j: int): (t: seq<T>)
    requires 0 <= i < |s| && 0 <= j < |s|
    ensures |t| == |s|
  {
    s[i := s[j]][j := s[i]]
  }

  lemma SameArrangement<T>(s: seq<T>, lo: int, hi: int)
    requires 0 <= lo <= hi <= |s|
    ensures Rearranged(s, s, lo, hi)
  {
  }

  lemma RearrangedTwice<T>(s: seq<T>, t: seq<T>, u: seq<T>, lo: int, hi: int)
    requires Rearranged(s, t, lo, hi) && Rearranged(t, u, lo, hi)
    ensures Rearranged(s, u, lo, hi)
  {
  }

  lemma RearrangedWider<T>(s: seq<T>, t: seq<T>, x: int, y: int, lo: int, hi: int)
    requires Rearranged(s, t, x, y) && 0 <= lo <= x && y <= hi <= |s|
    ensures Rearranged(s, t, lo, hi)
  {
    assert t[..lo] == t[..x][..lo] && s[..lo] == s[..x][..lo];
    assert t[hi..] == t[y..][hi - y..] && s[hi..] == s[y..][hi - y..];
    assert t[lo..x] == t[..x][lo..] && s[lo..x] == s[..x][lo..];
    assert t[y..hi] == t[y..][..hi - y] && s[y..hi] == s[y..][..hi - y];
    assert t[lo..hi] == t[lo..x] + t[x..y] + t[y..hi];
    assert s[lo..hi] == s[lo..x] + s[x..y] + s[y..hi];
  }

  lemma SwapRearranges<T>(s: seq<T>, i: int, j: int, lo: int, hi: int)
    requires 0 <= lo <= i < hi <= |s| && lo <= j < hi
    ensures Rearranged(s, Swapped(s, i, j), lo, hi)
  {
    var t := Swapped(s, i, j);
    assert t[lo..hi] == Swapped(s[lo..hi], i - lo, j - lo);
    SwapBag(s[lo..hi], i - lo, j - lo);
  }

  lemma SwapBag<T>(s: seq<T>, i: int, j: int)
    requires 0 <= i < |s| && 0 <= j < |s|
    ensures multiset(Swapped(s, i, j)) == multiset(s)
  {
  }

  /** What holds of every element of a range still does when the range is rearranged. */
  lemma StillInside<T>(s: seq<T>, t: seq<T>, lo: int, hi: int, k: int) returns (m: int)
    requires Rearranged(s, t, lo, hi) && lo <= k < hi
    ensures lo <= m < hi && s[m] == t[k]
  {
    assert t[lo..hi][k - lo] in multiset(t[lo..hi]);
    assert t[k] in multiset(s[lo..hi]);
    assert t[k] in s[lo..hi];
    var n :| 0 <= n < hi - lo && s[lo..hi][n] == t[k];
    m := lo + n;
  }

  lemma StillBelow<T(!new)>(s: seq<T>, t: seq<T>, lo: int, hi: int, cmp: Compare<T>, p: T)
    requires Rearranged(s, t, lo, hi) && Below(s, lo, hi, cmp, p)
    ensures Below(t, lo, hi, cmp, p)
  {
    forall k | lo <= k < hi ensures cmp(t[k], p) < 0 {
      var m := StillInside(s, t, lo, hi, k);
    }
  }

  /** Outside the range nothing has moved. */
  lemma StillOutside<T>(s: seq<T>, t: seq<T>, lo: int, hi: int, k: int)
    requires Rearranged(s, t, lo, hi) && 0 <= k < |s| && !(lo <= k < hi)
    ensures t[k] == s[k]
  {
    if k < lo {
      assert t[..lo][k] == s[..lo][k];
    } else {
      assert t[hi..][k - hi] == s[hi..][k - hi];
    }
  }

  // ---- the pieces -------------------------------------------------------------------------------

  method Swap<T>(a: array<T>, i: int, j: int)
    requires 0 <= i < a.Length && 0 <= j < a.Length
    modifies a
    ensures a[..] == Swapped(old(a[..]), i, j)
  {
    a[i], a[j] := a[j], a[i];
  }

  /** A swap inside a range, after other rearrangements of it. */
  method SwapIn<T>(a: array<T>, i: int, j: int, lo: int, hi: int, ghost was: seq<T>)
    requires 0 <= lo <= i < hi <= a.Length && lo <= j < hi && Rearranged(was, a[..], lo, hi)
    modifies a
    ensures a[..] == Swapped(old(a[..]), i, j) && Rearranged(was, a[..], lo, hi)
  {
    hide Rearranged, Swapped;
    SwapRearranges(a[..], i, j, lo, hi);
    RearrangedTwice(was, a[..], Swapped(a[..], i, j), lo, hi);
    Swap(a, i, j);
  }

  /** med3: the position of a median of three. */
  function Med3<T(!new)>(s: seq<T>, a: int, b: int, c: int, cmp: Compare<T>): (m: int)
    requires 0 <= a < |s| && 0 <= b < |s| && 0 <= c < |s|
    ensures m == a || m == b || m == c
  {
    if cmp(s[a], s[b]) < 0 then
      if cmp(s[b], s[c]) < 0 then b else if cmp(s[a], s[c]) < 0 then c else a
    else
      if cmp(s[b], s[c]) > 0 then b else if cmp(s[a], s[c]) < 0 then a else c
  }

  ghost predicate Between<T(!new)>(cmp: Compare<T>, x: T, m: T, y: T) {
    (cmp(x, m) <= 0 && cmp(m, y) <= 0) || (cmp(y, m) <= 0 && cmp(m, x) <= 0)
  }

  lemma Med3IsMedian<T(!new)>(s: seq<T>, a: int, b: int, c: int, cmp: Compare<T>)
    requires Preorder(cmp) && 0 <= a < |s| && 0 <= b < |s| && 0 <= c < |s|
    ensures Med3(s, a, b, c, cmp) == a ==> Between(cmp, s[b], s[a], s[c])
    ensures Med3(s, a, b, c, cmp) == b ==> Between(cmp, s[a], s[b], s[c])
    ensures Med3(s, a, b, c, cmp) == c ==> Between(cmp, s[a], s[c], s[b])
    ensures IsMedian(s, Med3(s, a, b, c, cmp), a, b, c, cmp)
  {
  }

  /** Position m is one of the three, and its element lies between the other two. */
  ghost predicate IsMedian<T(!new)>(s: seq<T>, m: int, a: int, b: int, c: int, cmp: Compare<T>) {
    && 0 <= a < |s| && 0 <= b < |s| && 0 <= c < |s|
    && ((m == a && Between(cmp, s[b], s[a], s[c])) || (m == b && Between(cmp, s[a], s[b], s[c])) || (m == c && Between(cmp, s[a], s[c], s[b])))
  }

  /** A median of the medians of three times three positions, d apart, at the front, in the middle and at the end. */
  ghost predicate IsNinther<T(!new)>(s: seq<T>, m: int, lo: int, n: int, d: int, cmp: Compare<T>) {
    var mid, last := lo + n / 2, lo + n - 1;
    exists x, y, z ::
      IsMedian(s, x, lo, lo + d, lo + 2 * d, cmp) && IsMedian(s, y, mid - d, mid, mid + d, cmp) && IsMedian(s, z, last - 2 * d, last - d, last, cmp)
      && IsMedian(s, m, x, y, z, cmp)
  }

  /** The insertion sort that qsort falls back to. */
  method InsertionSort<T(!new)>(a: array<T>, lo: int, hi: int, cmp: Compare<T>)
    requires Preorder(cmp) && 0 <= lo <= hi <= a.Length
    modifies a
    ensures Rearranged(old(a[..]), a[..], lo, hi) && Sorted(a[..], lo, hi, cmp)
  {
    hide Rearranged;
    SameArrangement(a[..], lo, hi);
    var pm := lo + 1;
    while pm < hi
      invariant lo + 1 <= pm && Rearranged(old(a[..]), a[..], lo, hi) && Sorted(a[..], lo, if pm < hi then pm else hi, cmp)
    {
      ghost var s := a[..];
      Insert(a, lo, pm, hi, cmp);
      RearrangedTwice(old(a[..]), s, a[..], lo, hi);
      pm := pm + 1;
    }
  }

  /** The element at pm moved down to its place among those before it. */
  method Insert<T(!new)>(a: array<T>, lo: int, pm: int, hi: int, cmp: Compare<T>)
    requires Preorder(cmp) && 0 <= lo < pm < hi <= a.Length && Sorted(a[..], lo, pm, cmp)
    modifies a
    ensures Rearranged(old(a[..]), a[..], lo, hi) && Sorted(a[..], lo, pm + 1, cmp)
  {
    hide Rearranged, Sorted, Preorder, SortedBut, Swapped;
    SameArrangement(a[..], lo, hi);
    ghost var was := a[..];
    FitsBut(was, lo, pm, cmp);
    var pl := pm;
    while pl > lo && cmp(a[pl - 1], a[pl]) > 0
      invariant lo <= pl <= pm && Rearranged(was, a[..], lo, hi) && SortedBut(a[..], lo, pm, pl, cmp)
    {
      SunkOne(a[..], lo, pm, pl, cmp);
      SwapIn(a, pl, pl - 1, lo, hi, was);
      pl := pl - 1;
    }
    Sunk(a[..], lo, pm, pl, cmp);
  }

  /** Sorted from lo to pm but for the element at pl, which is below all those behind it. */
  ghost predicate SortedBut<T(!new)>(s: seq<T>, lo: int, pm: int, pl: int, cmp: Compare<T>) {
    && 0 <= lo <= pl <= pm < |s|
    && (forall i, j :: lo <= i < j <= pm && i != pl && j != pl ==> cmp(s[i], s[j]) <= 0)
    && (forall j :: pl < j <= pm ==> cmp(s[pl], s[j]) <= 0)
  }

  lemma FitsBut<T(!new)>(s: seq<T>, lo: int, pm: int, cmp: Compare<T>)
    requires Sorted(s, lo, pm, cmp) && lo < pm < |s|
    ensures SortedBut(s, lo, pm, pm, cmp)
  {
  }

  lemma SunkOne<T(!new)>(s: seq<T>, lo: int, pm: int, pl: int, cmp: Compare<T>)
    requires Preorder(cmp) && SortedBut(s, lo, pm, pl, cmp) && pl > lo && cmp(s[pl - 1], s[pl]) > 0
    ensures SortedBut(Swapped(s, pl, pl - 1), lo, pm, pl - 1, cmp)
  {
    hide Preorder;
    var t := Swapped(s, pl, pl - 1);
    Flip(cmp, s[pl - 1], s[pl]);
    forall i, j | lo <= i < j <= pm && i != pl - 1 && j != pl - 1 ensures cmp(t[i], t[j]) <= 0 {
      if i == pl { assert t[i] == s[pl - 1]; } else if j == pl { assert t[j] == s[pl - 1]; }
    }
  }

  lemma Sunk<T(!new)>(s: seq<T>, lo: int, pm: int, pl: int, cmp: Compare<T>)
    requires Preorder(cmp) && SortedBut(s, lo, pm, pl, cmp) && (pl == lo || cmp(s[pl - 1], s[pl]) <= 0)
    ensures Sorted(s, lo, pm + 1, cmp)
  {
    forall i, j | lo <= i < j < pm + 1 ensures cmp(s[i], s[j]) <= 0 {
      if j == pl && i < pl - 1 {
        Chain(cmp, s[i], s[pl - 1], s[pl]);
      }
    }
  }

  /** The position of the pivot: the middle, a median of three, or a median of three medians. */
  method ChoosePivot<T(!new)>(a: array<T>, lo: int, n: int, cmp: Compare<T>) returns (pm: int)
    requires Preorder(cmp) && 7 <= n && 0 <= lo && lo + n <= a.Length
    ensures lo <= pm < lo + n
    ensures n == 7 ==> pm == lo + 3
    ensures 7 < n <= 40 ==> IsMedian(a[..], pm, lo, lo + n / 2, lo + n - 1, cmp)
    ensures n > 40 ==> IsNinther(a[..], pm, lo, n, n / 8, cmp)
  {
    hide Med3, Between, Preorder, IsMedian, IsNinther;
    pm := lo + n / 2;
    if n > 7 {
      var pl := lo;
      var pn := lo + n - 1;
      if n > 40 {
        pl, pm, pn := Medians(a, lo, n, cmp);
        NintherIs(a[..], pl, pm, pn, lo, n, n / 8, cmp);
      }
      Med3IsMedian(a[..], pl, pm, pn, cmp);
      pm := Med3(a[..], pl, pm, pn, cmp);
    }
  }

  /** The medians at the front, in the middle and at the end. */
  method Medians<T(!new)>(a: array<T>, lo: int, n: int, cmp: Compare<T>) returns (pl: int, pm: int, pn: int)
    requires Preorder(cmp) && 40 < n && 0 <= lo && lo + n <= a.Length
    ensures lo <= pl < lo + n && lo <= pm < lo + n && lo <= pn < lo + n
    ensures var d, mid, last := n / 8, lo + n / 2, lo + n - 1;
      IsMedian(a[..], pl, lo, lo + d, lo + 2 * d, cmp) && IsMedian(a[..], pm, mid - d, mid, mid + d, cmp) && IsMedian(a[..], pn, last - 2 * d, last - d, last, cmp)
  {
    hide Med3, Between, Preorder, IsMedian;
    var d := n / 8;
    pl, pm, pn := lo, lo + n / 2, lo + n - 1;
    Med3IsMedian(a[..], pl, pl + d, pl + 2 * d, cmp);
    Med3IsMedian(a[..], pm - d, pm, pm + d, cmp);
    Med3IsMedian(a[..], pn - 2 * d, pn - d, pn, cmp);
    pl := Med3(a[..], pl, pl + d, pl + 2 * d, cmp);
    pm := Med3(a[..], pm - d, pm, pm + d, cmp);
    pn := Med3(a[..], pn - 2 * d, pn - d, pn, cmp);
  }

  lemma NintherIs<T(!new)>(s: seq<T>, x: int, y: int, z: int, lo: int, n: int, d: int, cmp: Compare<T>)
    requires var mid, last := lo + n / 2, lo + n - 1;
      IsMedian(s, x, lo, lo + d, lo + 2 * d, cmp) && IsMedian(s, y, mid - d, mid, mid + d, cmp) && IsMedian(s, z, last - 2 * d, last - d, last, cmp)
    ensures forall m :: IsMedian(s, m, x, y, z, cmp) ==> IsNinther(s, m, lo, n, d, cmp)
  {
    hide IsMedian;
  }

  /** So among the nine positions looked at, at least four elements are not greater and at least four not less. */
  lemma NintherRank<T(!new)>(s: seq<T>, m: int, lo: int, n: int, d: int, cmp: Compare<T>)
    requires Preorder(cmp) && IsNinther(s, m, lo, n, d, cmp) && 0 <= d
    ensures 0 <= m < |s|
    ensures CountNot(s, Nine(lo, n, d), s[m], cmp, true) >= 4 && CountNot(s, Nine(lo, n, d), s[m], cmp, false) >= 4
  {
    hide Preorder, Side, IsMedian, CountNot, Nine;
    var mid, last := lo + n / 2, lo + n - 1;
    var x, y, z :|
      IsMedian(s, x, lo, lo + d, lo + 2 * d, cmp) && IsMedian(s, y, mid - d, mid, mid + d, cmp) && IsMedian(s, z, last - 2 * d, last - d, last, cmp)
      && IsMedian(s, m, x, y, z, cmp);
    MedianItself(s, m, x, y, z, cmp);
    TripleRank(s, m, x, lo, lo + d, lo + 2 * d, cmp);
    TripleRank(s, m, y, mid - d, mid, mid + d, cmp);
    TripleRank(s, m, z, last - 2 * d, last - d, last, cmp);
    TripleRank(s, m, m, x, y, z, cmp);
    NineCount(s, lo, n, d, s[m], cmp, true);
    NineCount(s, lo, n, d, s[m], cmp, false);
  }

  function Nine(lo: int, n: int, d: int): seq<int> {
    var mid, last := lo + n / 2, lo + n - 1;
    [lo, lo + d, lo + 2 * d, mid - d, mid, mid + d, last - 2 * d, last - d, last]
  }

  /** Not greater than x, or not less. */
  ghost predicate OnSide<T(!new)>(s: seq<T>, k: int, x: T, cmp: Compare<T>, low: bool) {
    0 <= k < |s| && if low then cmp(s[k], x) <= 0 else cmp(x, s[k]) <= 0
  }

  ghost function Side<T(!new)>(s: seq<T>, k: int, x: T, cmp: Compare<T>, low: bool): int {
    if OnSide(s, k, x, cmp, low) then 1 else 0
  }

  /** How many of the positions hold an element on that side of x. */
  ghost function CountNot<T(!new)>(s: seq<T>, ks: seq<int>, x: T, cmp: Compare<T>, low: bool): int {
    if ks == [] then 0 else Side(s, ks[0], x, cmp, low) + CountNot(s, ks[1..], x, cmp, low)
  }

  /** How many of three positions do. */
  ghost function Three<T(!new)>(s: seq<T>, a: int, b: int, c: int, x: T, cmp: Compare<T>, low: bool): int {
    Side(s, a, x, cmp, low) + Side(s, b, x, cmp, low) + Side(s, c, x, cmp, low)
  }

  lemma NineCount<T(!new)>(s: seq<T>, lo: int, n: int, d: int, x: T, cmp: Compare<T>, low: bool)
    ensures var mid, last := lo + n / 2, lo + n - 1;
      CountNot(s, Nine(lo, n, d), x, cmp, low) ==
        Three(s, lo, lo + d, lo + 2 * d, x, cmp, low) + Three(s, mid - d, mid, mid + d, x, cmp, low) + Three(s, last - 2 * d, last - d, last, x, cmp, low)
  {
    hide Side;
    var k := Nine(lo, n, d);
    FirstThree(s, k, x, cmp, low);
    FirstThree(s, k[3..], x, cmp, low);
    FirstThree(s, k[3..][3..], x, cmp, low);
    assert k[3..][3..][3..] == [];
  }

  lemma FirstThree<T(!new)>(s: seq<T>, k: seq<int>, x: T, cmp: Compare<T>, low: bool)
    requires |k| >= 3
    ensures CountNot(s, k, x, cmp, low) == Side(s, k[0], x, cmp, low) + Side(s, k[1], x, cmp, low) + Side(s, k[2], x, cmp, low) + CountNot(s, k[3..], x, cmp, low)
  {
    hide Side;
    var k1, k2 := k[1..], k[1..][1..];
    assert CountNot(s, k1, x, cmp, low) == Side(s, k1[0], x, cmp, low) + CountNot(s, k1[1..], x, cmp, low);
    assert CountNot(s, k2, x, cmp, low) == Side(s, k2[0], x, cmp, low) + CountNot(s, k2[1..], x, cmp, low);
    assert k2[1..] == k[3..];
  }

  lemma MedianItself<T(!new)>(s: seq<T>, m: int, x: int, y: int, z: int, cmp: Compare<T>)
    requires Preorder(cmp) && IsMedian(s, m, x, y, z, cmp)
    ensures 0 <= m < |s| && Side(s, m, s[m], cmp, true) == 1 && Side(s, m, s[m], cmp, false) == 1
    ensures forall k, low :: 0 <= Side(s, k, s[m], cmp, low) <= 1
  {
    assert cmp(s[m], s[m]) <= 0;
  }

  /** If a triple's median is on one side of m's element, two of the triple are. */
  lemma TripleRank<T(!new)>(s: seq<T>, m: int, x: int, a: int, b: int, c: int, cmp: Compare<T>)
    requires Preorder(cmp) && 0 <= m < |s| && IsMedian(s, x, a, b, c, cmp)
    ensures Side(s, x, s[m], cmp, true) == 1 ==> Three(s, a, b, c, s[m], cmp, true) >= 2
    ensures Side(s, x, s[m], cmp, false) == 1 ==> Three(s, a, b, c, s[m], cmp, false) >= 2
  {
  }

  // ---- partition --------------------------------------------------------------------------------

  /** The four regions around the unknown elements from pb to pc: equal, less, greater, equal. */
  ghost predicate Regions<T(!new)>(s: seq<T>, lo: int, pa: int, pb: int, pc: int, pd: int, hi: int, cmp: Compare<T>, p: T) {
    && 0 <= lo < pa <= pb <= pc + 1 <= pd + 1 <= hi <= |s|
    && Level(s, lo, pa, cmp, p) && Below(s, pa, pb, cmp, p)
    && Above(s, pc + 1, pd + 1, cmp, p) && Level(s, pd + 1, hi, cmp, p)
  }

  /** The loop that brings the elements into four regions around the pivot at lo. */
  method Partition<T(!new)>(a: array<T>, lo: int, hi: int, cmp: Compare<T>) returns (pa: int, pb: int, pc: int, pd: int, swapped: bool)
    requires Preorder(cmp) && 0 <= lo && lo + 1 < hi <= a.Length
    modifies a
    ensures Rearranged(old(a[..]), a[..], lo, hi) && pb == pc + 1
    ensures Regions(a[..], lo, pa, pb, pc, pd, hi, cmp, old(a[lo]))
  {
    hide Rearranged, Regions, Preorder;
    ghost var was, p := a[..], a[lo];
    SameArrangement(was, lo, hi);
    pa, pb, pc, pd, swapped := lo + 1, lo + 1, hi - 1, hi - 1, false;
    NoneYet(was, lo, hi, cmp);
    while true
      invariant Rearranged(was, a[..], lo, hi) && Regions(a[..], lo, pa, pb, pc, pd, hi, cmp, p) && a[lo] == p
      decreases pc - pb
    {
      ghost var s := a[..];
      pa, pb, swapped := ScanUp(a, lo, pa, pb, pc, pd, hi, cmp, swapped);
      RearrangedTwice(was, s, a[..], lo, hi);
      RegionBounds(a[..], lo, pa, pb, pc, pd, hi, cmp, p);
      s := a[..];
      pc, pd, swapped := ScanDown(a, lo, pa, pb, pc, pd, hi, cmp, swapped);
      RearrangedTwice(was, s, a[..], lo, hi);
      RegionBounds(a[..], lo, pa, pb, pc, pd, hi, cmp, p);
      if pb > pc {
        break;
      }
      s := a[..];
      SwapIn(a, pb, pc, lo, hi, was);
      Crossed(s, lo, pa, pb, pc, pd, hi, cmp, p);
      swapped := true;
      pb := pb + 1;
      pc := pc - 1;
    }
  }

  lemma NoneYet<T(!new)>(s: seq<T>, lo: int, hi: int, cmp: Compare<T>)
    requires Preorder(cmp) && 0 <= lo && lo + 1 < hi <= |s|
    ensures Regions(s, lo, lo + 1, lo + 1, hi - 1, hi - 1, hi, cmp, s[lo])
  {
    Flip(cmp, s[lo], s[lo]);
  }

  lemma RegionBounds<T(!new)>(s: seq<T>, lo: int, pa: int, pb: int, pc: int, pd: int, hi: int, cmp: Compare<T>, p: T)
    requires Regions(s, lo, pa, pb, pc, pd, hi, cmp, p)
    ensures 0 <= lo < pa <= pb <= pc + 1 <= pd + 1 <= hi <= |s|
  {
  }

  lemma LessUp<T(!new)>(s: seq<T>, lo: int, pa: int, pb: int, pc: int, pd: int, hi: int, cmp: Compare<T>, p: T)
    requires Regions(s, lo, pa, pb, pc, pd, hi, cmp, p) && pb <= pc && cmp(s[pb], p) < 0
    ensures Regions(s, lo, pa, pb + 1, pc, pd, hi, cmp, p)
  {
  }

  lemma EqualUp<T(!new)>(s: seq<T>, lo: int, pa: int, pb: int, pc: int, pd: int, hi: int, cmp: Compare<T>, p: T)
    requires Regions(s, lo, pa, pb, pc, pd, hi, cmp, p) && pb <= pc && cmp(s[pb], p) == 0
    ensures Regions(Swapped(s, pa, pb), lo, pa + 1, pb + 1, pc, pd, hi, cmp, p)
  {
  }

  lemma MoreDown<T(!new)>(s: seq<T>, lo: int, pa: int, pb: int, pc: int, pd: int, hi: int, cmp: Compare<T>, p: T)
    requires Regions(s, lo, pa, pb, pc, pd, hi, cmp, p) && pb <= pc && cmp(s[pc], p) > 0
    ensures Regions(s, lo, pa, pb, pc - 1, pd, hi, cmp, p)
  {
  }

  lemma EqualDown<T(!new)>(s: seq<T>, lo: int, pa: int, pb: int, pc: int, pd: int, hi: int, cmp: Compare<T>, p: T)
    requires Regions(s, lo, pa, pb, pc, pd, hi, cmp, p) && pb <= pc && cmp(s[pc], p) == 0
    ensures Regions(Swapped(s, pc, pd), lo, pa, pb, pc - 1, pd - 1, hi, cmp, p)
  {
  }

  lemma Crossed<T(!new)>(s: seq<T>, lo: int, pa: int, pb: int, pc: int, pd: int, hi: int, cmp: Compare<T>, p: T)
    requires Regions(s, lo, pa, pb, pc, pd, hi, cmp, p) && pb <= pc && cmp(s[pb], p) > 0 && cmp(s[pc], p) < 0
    ensures Regions(Swapped(s, pb, pc), lo, pa, pb + 1, pc - 1, pd, hi, cmp, p)
  {
  }

  /** pb moved up over what is not greater than the pivot, equal elements collected at the bottom. */
  method ScanUp<T(!new)>(a: array<T>, lo: int, pa0: int, pb0: int, pc: int, pd: int, hi: int, cmp: Compare<T>, swapped0: bool)
    returns (pa: int, pb: int, swapped: bool)
    requires hi <= a.Length && 0 <= lo < hi && Regions(a[..], lo, pa0, pb0, pc, pd, hi, cmp, a[lo])
    modifies a
    ensures Rearranged(old(a[..]), a[..], lo, hi) && a[lo] == old(a[lo])
    ensures Regions(a[..], lo, pa, pb, pc, pd, hi, cmp, a[lo]) && pb0 <= pb
    ensures pb <= pc ==> cmp(a[pb], a[lo]) > 0
  {
    hide Rearranged, Regions;
    ghost var was := a[..];
    SameArrangement(was, lo, hi);
    pa, pb, swapped := pa0, pb0, swapped0;
    RegionBounds(a[..], lo, pa, pb, pc, pd, hi, cmp, a[lo]);
    while pb <= pc && cmp(a[pb], a[lo]) <= 0
      invariant Rearranged(was, a[..], lo, hi) && a[lo] == was[lo] && lo < pa <= pb <= pc + 1 <= hi && pb0 <= pb
      invariant Regions(a[..], lo, pa, pb, pc, pd, hi, cmp, a[lo])
      decreases pc - pb
    {
      ghost var s := a[..];
      if cmp(a[pb], a[lo]) == 0 {
        swapped := true;
        SwapIn(a, pa, pb, lo, hi, was);
        EqualUp(s, lo, pa, pb, pc, pd, hi, cmp, a[lo]);
        pa := pa + 1;
      } else {
        LessUp(s, lo, pa, pb, pc, pd, hi, cmp, a[lo]);
      }
      pb := pb + 1;
    }
  }

  /** pc moved down over what is not less than the pivot, equal elements collected at the top. */
  method ScanDown<T(!new)>(a: array<T>, lo: int, pa: int, pb: int, pc0: int, pd0: int, hi: int, cmp: Compare<T>, swapped0: bool)
    returns (pc: int, pd: int, swapped: bool)
    requires hi <= a.Length && 0 <= lo < hi && Regions(a[..], lo, pa, pb, pc0, pd0, hi, cmp, a[lo])
    requires 0 <= pb && pc0 < hi && (pb <= pc0 ==> cmp(a[pb], a[lo]) > 0)
    modifies a
    ensures Rearranged(old(a[..]), a[..], lo, hi) && a[lo] == old(a[lo])
    ensures Regions(a[..], lo, pa, pb, pc, pd, hi, cmp, a[lo]) && pc <= pc0 && pb <= pc + 1
    ensures pb <= pc ==> cmp(a[pb], a[lo]) > 0 && cmp(a[pc], a[lo]) < 0
  {
    hide Rearranged, Regions;
    ghost var was := a[..];
    SameArrangement(was, lo, hi);
    pc, pd, swapped := pc0, pd0, swapped0;
    RegionBounds(a[..], lo, pa, pb, pc, pd, hi, cmp, a[lo]);
    while pb <= pc && cmp(a[pc], a[lo]) >= 0
      invariant Rearranged(was, a[..], lo, hi) && a[lo] == was[lo] && lo < pb <= pc + 1 <= pd + 1 <= hi && pc <= pc0
      invariant pb <= pc ==> cmp(a[pb], a[lo]) > 0
      invariant Regions(a[..], lo, pa, pb, pc, pd, hi, cmp, a[lo])
      decreases pc - pb
    {
      ghost var s := a[..];
      if cmp(a[pc], a[lo]) == 0 {
        swapped := true;
        SwapIn(a, pc, pd, lo, hi, was);
        EqualDown(s, lo, pa, pb, pc, pd, hi, cmp, a[lo]);
        pd := pd - 1;
      } else {
        MoreDown(s, lo, pa, pb, pc, pd, hi, cmp, a[lo]);
      }
      pc := pc - 1;
    }
  }

  // ---- the equal elements to the middle ------------------------------------------------------------

  function Min(x: int, y: int): int { if x < y then x else y }

  /** swapfunc: n elements at i exchanged with n at j. */
  method VecSwap<T>(a: array<T>, i: int, j: int, n: int)
    requires 0 <= i && 0 <= n && i + n <= j && j + n <= a.Length
    modifies a
    ensures a[..] == Exchanged(old(a[..]), i, j, n)
  {
    ghost var s := a[..];
    var k := 0;
    while k < n
      invariant 0 <= k <= n
      invariant a[..] == Exchanged(s, i, j, k)
    {
      Swap(a, i + k, j + k);
      k := k + 1;
    }
  }

  function Exchanged<T>(s: seq<T>, i: int, j: int, n: int): (t: seq<T>)
    requires 0 <= i && 0 <= n && i + n <= j && j + n <= |s|
    ensures |t| == |s|
    decreases n
  {
    if n == 0 then s else Swapped(Exchanged(s, i, j, n - 1), i + n - 1, j + n - 1)
  }

  /** Where the element that an exchange puts at k comes from. */
  function Source(i: int, j: int, n: int, k: int): int {
    if i <= k < i + n then k + (j - i) else if j <= k < j + n then k - (j - i) else k
  }

  lemma {:induction false} ExchangedAt<T>(s: seq<T>, i: int, j: int, n: int)
    requires 0 <= i && 0 <= n && i + n <= j && j + n <= |s|
    ensures var t := Exchanged(s, i, j, n); forall k :: 0 <= k < |s| ==> t[k] == s[Source(i, j, n, k)]
    decreases n
  {
    if n > 0 {
      ExchangedAt(s, i, j, n - 1);
      ExchangedStep(s, i, j, n);
      var u, t := Exchanged(s, i, j, n - 1), Exchanged(s, i, j, n);
      hide Exchanged;
      forall k | 0 <= k < |s| ensures t[k] == s[Source(i, j, n, k)] {
        var m := if k == i + n - 1 then j + n - 1 else if k == j + n - 1 then i + n - 1 else k;
        assert t[k] == u[m] == s[Source(i, j, n - 1, m)];
      }
    }
  }

  lemma ExchangedStep<T>(s: seq<T>, i: int, j: int, n: int)
    requires 0 <= i && 0 < n && i + n <= j && j + n <= |s|
    ensures Exchanged(s, i, j, n) == Swapped(Exchanged(s, i, j, n - 1), i + n - 1, j + n - 1)
  {
  }

  lemma {:induction false} ExchangeRearranges<T>(s: seq<T>, i: int, j: int, n: int, lo: int, hi: int)
    requires 0 <= lo <= i && 0 <= n && i + n <= j && j + n <= hi <= |s|
    ensures Rearranged(s, Exchanged(s, i, j, n), lo, hi)
    decreases n
  {
    hide Rearranged, Exchanged, Swapped;
    if n == 0 {
      NoneExchanged(s, i, j);
      SameArrangement(s, lo, hi);
    } else {
      var t := Exchanged(s, i, j, n - 1);
      ExchangedStep(s, i, j, n);
      ExchangeRearranges(s, i, j, n - 1, lo, hi);
      SwapRearranges(t, i + n - 1, j + n - 1, lo, hi);
      RearrangedTwice(s, t, Exchanged(s, i, j, n), lo, hi);
    }
  }

  /** Less, equal, greater: x is where the equal ones begin, y where they end. */
  ghost predicate Parted<T(!new)>(s: seq<T>, lo: int, x: int, y: int, hi: int, cmp: Compare<T>, p: T) {
    && 0 <= lo <= x < y <= hi <= |s|
    && Below(s, lo, x, cmp, p) && Level(s, x, y, cmp, p) && Above(s, y, hi, cmp, p)
  }

  /** The two exchanges that bring the equal elements from both ends to the middle. */
  method Gather<T(!new)>(a: array<T>, lo: int, pa: int, pb: int, pc: int, pd: int, hi: int, cmp: Compare<T>, ghost p: T)
    requires hi <= a.Length && Regions(a[..], lo, pa, pb, pc, pd, hi, cmp, p) && pb == pc + 1
    modifies a
    ensures Rearranged(old(a[..]), a[..], lo, hi)
    ensures Parted(a[..], lo, lo + (pb - pa), hi - (pd - pc), hi, cmp, p)
  {
    hide Rearranged, Exchanged, Regions, Parted;
    ghost var s := a[..];
    RegionBounds(s, lo, pa, pb, pc, pd, hi, cmp, p);
    var r := Min(pa - lo, pb - pa);
    NoneExchanged(s, lo, pb - r);
    if r > 0 { VecSwap(a, lo, pb - r, r); }
    ghost var t := a[..];
    ExchangeRearranges(s, lo, pb - r, r, lo, hi);
    GatheredLow(s, lo, pa, pb, pc, pd, hi, cmp, p);
    r := Min(pd - pc, hi - pd - 1);
    NoneExchanged(t, pb, hi - r);
    if r > 0 { VecSwap(a, pb, hi - r, r); }
    ExchangeRearranges(t, pb, hi - r, r, lo, hi);
    RearrangedTwice(s, t, a[..], lo, hi);
    GatheredHigh(t, lo, pa, pb, pc, pd, hi, cmp, p);
  }

  lemma NoneExchanged<T>(s: seq<T>, i: int, j: int)
    requires 0 <= i <= j <= |s|
    ensures Exchanged(s, i, j, 0) == s
  {
  }

  lemma GatheredLow<T(!new)>(s: seq<T>, lo: int, pa: int, pb: int, pc: int, pd: int, hi: int, cmp: Compare<T>, p: T)
    requires Regions(s, lo, pa, pb, pc, pd, hi, cmp, p) && pb == pc + 1
    ensures var r := Min(pa - lo, pb - pa); var t := Exchanged(s, lo, pb - r, r);
      && Below(t, lo, lo + (pb - pa), cmp, p) && Level(t, lo + (pb - pa), pb, cmp, p)
      && Above(t, pb, pd + 1, cmp, p) && Level(t, pd + 1, hi, cmp, p)
  {
    hide Exchanged;
    var r := Min(pa - lo, pb - pa);
    ExchangedAt(s, lo, pb - r, r);
  }

  lemma GatheredHigh<T(!new)>(s: seq<T>, lo: int, pa: int, pb: int, pc: int, pd: int, hi: int, cmp: Compare<T>, p: T)
    requires 0 <= lo < pa <= pb == pc + 1 <= pd + 1 <= hi <= |s|
    requires Below(s, lo, lo + (pb - pa), cmp, p) && Level(s, lo + (pb - pa), pb, cmp, p)
    requires Above(s, pb, pd + 1, cmp, p) && Level(s, pd + 1, hi, cmp, p)
    ensures var r := Min(pd - pc, hi - pd - 1); Parted(Exchanged(s, pb, hi - r, r), lo, lo + (pb - pa), hi - (pd - pc), hi, cmp, p)
  {
    hide Exchanged;
    var r := Min(pd - pc, hi - pd - 1);
    ExchangedAt(s, pb, hi - r, r);
  }

  // ---- qsort ------------------------------------------------------------------------------------

  /** Everything before lo is sorted and not above anything from lo on. */
  ghost predicate Settled<T(!new)>(s: seq<T>, from: int, lo: int, hi: int, cmp: Compare<T>) {
    && 0 <= from <= lo <= hi <= |s|
    && Sorted(s, from, lo, cmp)
    && forall i, j :: from <= i < lo <= j < hi ==> cmp(s[i], s[j]) <= 0
  }

  lemma SettledStill<T(!new)>(s: seq<T>, t: seq<T>, from: int, lo: int, hi: int, cmp: Compare<T>)
    requires Settled(s, from, lo, hi, cmp) && Rearranged(s, t, lo, hi)
    ensures Settled(t, from, lo, hi, cmp)
  {
    assert forall i :: 0 <= i < lo ==> t[i] == s[i] by { assert forall i :: 0 <= i < lo ==> t[..lo][i] == s[..lo][i]; }
    forall i, j | from <= i < lo <= j < hi ensures cmp(t[i], t[j]) <= 0 {
      var m := StillInside(s, t, lo, hi, j);
    }
  }

  lemma SettledAll<T(!new)>(s: seq<T>, from: int, lo: int, hi: int, cmp: Compare<T>)
    requires Settled(s, from, lo, hi, cmp) && (Sorted(s, lo, hi, cmp) || hi - lo <= 1)
    ensures Sorted(s, from, hi, cmp)
  {
  }

  lemma PartedStill<T(!new)>(s: seq<T>, t: seq<T>, lo: int, x: int, y: int, hi: int, cmp: Compare<T>, p: T)
    requires Parted(s, lo, x, y, hi, cmp, p) && Rearranged(s, t, lo, x)
    ensures Parted(t, lo, x, y, hi, cmp, p)
  {
    StillBelow(s, t, lo, x, cmp, p);
    assert forall k :: x <= k < hi ==> t[k] == s[k] by {
      forall k | x <= k < hi ensures t[k] == s[k] { StillOutside(s, t, lo, x, k); }
    }
  }

  /** The less part sorted: everything up to the greater part is settled. */
  lemma Advance<T(!new)>(s: seq<T>, from: int, lo: int, x: int, y: int, hi: int, cmp: Compare<T>, p: T)
    requires Preorder(cmp) && Settled(s, from, lo, hi, cmp) && Parted(s, lo, x, y, hi, cmp, p) && (Sorted(s, lo, x, cmp) || x - lo <= 1)
    ensures Settled(s, from, y, hi, cmp)
  {
    hide Preorder;
    forall i, j | from <= i < j < hi && i < y ensures cmp(s[i], s[j]) <= 0 {
      if i >= lo && (i >= x || j >= x) {
        Flip(cmp, p, s[j]);
        Chain(cmp, s[i], p, s[j]);
      }
    }
  }

  lemma NothingSettled<T(!new)>(s: seq<T>, lo: int, hi: int, cmp: Compare<T>)
    requires 0 <= lo <= hi <= |s|
    ensures Settled(s, lo, lo, hi, cmp)
  {
  }

  lemma PartedBounds<T(!new)>(s: seq<T>, lo: int, x: int, y: int, hi: int, cmp: Compare<T>, p: T)
    requires Parted(s, lo, x, y, hi, cmp, p)
    ensures 0 <= lo <= x < y <= hi <= |s|
  {
  }

  /** One turn of qsort: less, equal and greater parts around a pivot, or, if the partition moved nothing, all sorted. */
  method Split<T(!new)>(a: array<T>, lo: int, hi: int, cmp: Compare<T>) returns (less: int, greater: int, sorted: bool, ghost p: T)
    requires Preorder(cmp) && 0 <= lo && lo + 7 <= hi <= a.Length
    modifies a
    ensures Rearranged(old(a[..]), a[..], lo, hi)
    ensures sorted ==> Sorted(a[..], lo, hi, cmp)
    ensures !sorted ==> Parted(a[..], lo, lo + less, hi - greater, hi, cmp, p)
  {
    hide Preorder, Rearranged, Sorted, Parted, Regions, IsMedian, IsNinther;
    ghost var was := a[..];
    SameArrangement(was, lo, hi);
    var pm := ChoosePivot(a, lo, hi - lo, cmp);
    SwapIn(a, lo, pm, lo, hi, was);
    ghost var s := a[..];
    p := a[lo];
    var pa, pb, pc, pd, swapped := Partition(a, lo, hi, cmp);
    RearrangedTwice(was, s, a[..], lo, hi);
    s := a[..];
    less, greater, sorted := pb - pa, pd - pc, !swapped;
    if !swapped {
      InsertionSort(a, lo, hi, cmp);
    } else {
      Gather(a, lo, pa, pb, pc, pd, hi, cmp, p);
    }
    RearrangedTwice(was, s, a[..], lo, hi);
  }

  /** qsort: the n elements from position from on, sorted in place. The greater part of each turn is taken
      up by going round again, the less part by a call. */
  method QSort<T(!new)>(a: array<T>, from: int, n: int, cmp: Compare<T>)
    requires Preorder(cmp) && 0 <= from && 0 <= n && from + n <= a.Length
    modifies a
    ensures Rearranged(old(a[..]), a[..], from, from + n)
    ensures Sorted(a[..], from, from + n, cmp)
    decreases n, 1
  {
    hide Preorder, Rearranged, Sorted, Settled, Parted;
    ghost var was := a[..];
    var lo, hi := from, from + n;
    SameArrangement(was, from, hi);
    NothingSettled(was, from, hi, cmp);
    while true
      invariant from <= lo <= hi
      invariant Rearranged(was, a[..], from, hi) && Settled(a[..], from, lo, hi, cmp)
      decreases hi - lo
    {
      ghost var s := a[..];
      if hi - lo < 7 {
        InsertionSort(a, lo, hi, cmp);
        Went(was, s, a[..], from, lo, hi, lo, hi, cmp);
        SettledAll(a[..], from, lo, hi, cmp);
        return;
      }
      var less, greater, sorted, p := Split(a, lo, hi, cmp);
      Went(was, s, a[..], from, lo, hi, lo, hi, cmp);
      if sorted {
        SettledAll(a[..], from, lo, hi, cmp);
        return;
      }
      PartedBounds(a[..], lo, lo + less, hi - greater, hi, cmp, p);
      SortLess(a, was, from, lo, less, greater, hi, cmp, p);
      if greater <= 1 {
        SettledAll(a[..], from, hi - greater, hi, cmp);
        return;
      }
      lo := hi - greater;
    }
  }

  lemma Went<T(!new)>(was: seq<T>, s: seq<T>, t: seq<T>, from: int, lo: int, hi: int, x: int, y: int, cmp: Compare<T>)
    requires Rearranged(was, s, from, hi) && Settled(s, from, lo, hi, cmp) && Rearranged(s, t, x, y) && lo <= x <= y <= hi && 0 <= from <= lo
    ensures Rearranged(was, t, from, hi) && Settled(t, from, lo, hi, cmp)
  {
    Lengths(was, s, from, hi);
    hide Rearranged, Settled;
    RearrangedWider(s, t, x, y, lo, hi);
    RearrangedWider(s, t, x, y, from, hi);
    RearrangedTwice(was, s, t, from, hi);
    SettledStill(s, t, from, lo, hi, cmp);
  }

  lemma Lengths<T>(s: seq<T>, t: seq<T>, lo: int, hi: int)
    requires Rearranged(s, t, lo, hi)
    ensures 0 <= lo <= hi <= |s| == |t|
  {
  }

  /** The call on the less part. */
  method SortLess<T(!new)>(a: array<T>, ghost was: seq<T>, from: int, lo: int, less: int, greater: int, hi: int, cmp: Compare<T>, ghost p: T)
    requires Preorder(cmp) && 0 <= from <= lo <= hi <= a.Length && 0 <= less < hi - lo
    requires Rearranged(was, a[..], from, hi) && Settled(a[..], from, lo, hi, cmp) && Parted(a[..], lo, lo + less, hi - greater, hi, cmp, p)
    modifies a
    ensures Rearranged(was, a[..], from, hi) && Settled(a[..], from, hi - greater, hi, cmp)
    decreases less, 2
  {
    hide Preorder, Rearranged, Sorted, Settled, Parted;
    ghost var s := a[..];
    if less > 1 {
      QSort(a, lo, less, cmp);
      Went(was, s, a[..], from, lo, hi, lo, lo + less, cmp);
      PartedStill(s, a[..], lo, lo + less, hi - greater, hi, cmp, p);
    }
    Advance(a[..], from, lo, lo + less, hi - greater, hi, cmp, p);
  }
}
