/** Where the nodes of a forest stand among its tokens: a node's children, what lies inside it, and how
    the order of tokens follows the order of the tree. */
module FdtWalk {
  import opened FdtFormat
  import opened FdtTree
  import opened FdtDoc

  /** The number of items that the first k tokens spell out. */
  function Pos(ts: Tokens, strs: Bytes, k: int): (n: int)
    requires 0 <= k <= |ts|
    ensures 0 <= n
  {
    |Items(ts[..k], strs)|
  }

  lemma PosStep(ts: Tokens, strs: Bytes, k: int)
    requires 0 <= k < |ts|
    ensures Pos(ts, strs, k + 1) == Pos(ts, strs, k) + |Item1(ts[k], strs)|
    ensures ts[k].BeginNode? || ts[k].EndNode? || ts[k].Prop? ==> |Item1(ts[k], strs)| == 1
  {
    ItemsStep(ts, k, strs);
  }

  lemma PosGrows(ts: Tokens, strs: Bytes, k: int, m: int)
    requires 0 <= k <= m <= |ts|
    ensures Pos(ts, strs, k) <= Pos(ts, strs, m)
    ensures k < m && IsNode(ts, k) ==> Pos(ts, strs, k) < Pos(ts, strs, m)
  {
    ItemsMonotone(ts, k, m, strs);
    if k < m {
      PosStep(ts, strs, k);
      ItemsMonotone(ts, k + 1, m, strs);
    }
  }

  /** Later nodes have more items before them, and the other way round. */
  lemma PosOrder(ts: Tokens, strs: Bytes, k: int, m: int)
    requires IsNode(ts, k) && IsNode(ts, m)
    ensures k < m <==> Pos(ts, strs, k) < Pos(ts, strs, m)
  {
    if k < m {
      PosGrows(ts, strs, k, m);
    } else {
      PosGrows(ts, strs, m, k);
    }
  }

  /** A node is known by its items, its path or its token: each fixes the others. */
  lemma PathToken(ts: Tokens, strs: Bytes, f: seq<Node>, k: int)
    requires Reads(ts, strs, f) && IsNode(ts, k)
    ensures IsPath(f, PathAt(ts, strs, f, k)) && Pos(ts, strs, k) == |Before(f, PathAt(ts, strs, f, k))|
    ensures |PathAt(ts, strs, f, k)| == Nest(ts, k) + 1 && At(f, PathAt(ts, strs, f, k)).name == ts[k].name
  {
    NodeHere(ts, strs, f, k);
  }

  lemma SamePathSameToken(ts: Tokens, strs: Bytes, f: seq<Node>, k: int, m: int)
    requires Reads(ts, strs, f) && IsNode(ts, k) && IsNode(ts, m) && PathAt(ts, strs, f, k) == PathAt(ts, strs, f, m)
    ensures k == m
  {
    PathToken(ts, strs, f, k);
    PathToken(ts, strs, f, m);
    PosOrder(ts, strs, k, m);
    PosOrder(ts, strs, m, k);
  }

  /** Every node ends. */
  lemma SpanExists(ts: Tokens, strs: Bytes, f: seq<Node>, i: int) returns (j: int)
    requires Reads(ts, strs, f) && IsNode(ts, i)
    ensures Spans(ts, i, j)
  {
    hide Reads, Items, PathAt, IsPath, At, Flat, Before, After;
    NodeHere(ts, strs, f, i);
    ItemsSplit(ts, i, strs);
    var p := PathAt(ts, strs, f, i);
    var n := At(f, p);
    var a, b := Items(ts[..i], strs), Flat(n);
    assert ts[..|ts|] == ts;
    var m := Reach(ts, |a| + |b| - 1, |ts|, strs);
    j := m + 1;
    PosStep(ts, strs, m);
    SpanLevels(ts, strs, n, After(f, p), i, j);
    forall k | i < k < j ensures Nest(ts, k) > Nest(ts, i) {
      PosGrows(ts, strs, i, k);
      PosGrows(ts, strs, k, m);
      SpanLevels(ts, strs, n, After(f, p), i, k);
    }
    if m < i { PosGrows(ts, strs, m, i); }
    assert i < j;
  }

  /** The nesting at a token inside a node is the level of the node's items that come before it. */
  lemma SpanLevels(ts: Tokens, strs: Bytes, n: Node, after: seq<Item>, i: int, k: int)
    requires 0 <= i <= |ts| && 0 <= k <= |ts| && Items(ts[i..], strs) == Flat(n) + after
    requires Pos(ts, strs, i) <= Pos(ts, strs, k) <= Pos(ts, strs, i) + |Flat(n)|
    ensures Pos(ts, strs, i) < Pos(ts, strs, k) < Pos(ts, strs, i) + |Flat(n)| ==> Nest(ts, k) > Nest(ts, i)
    ensures Pos(ts, strs, k) == Pos(ts, strs, i) + |Flat(n)| ==> Nest(ts, k) == Nest(ts, i)
  {
    hide Items, Flat, Level;
    var a, c, l := Items(ts[..i], strs), Items(ts[..k], strs), Pos(ts, strs, k) - Pos(ts, strs, i);
    ItemsSplit(ts, i, strs);
    ItemsSplit(ts, k, strs);
    PrefixCut(a, Flat(n), after, c, Items(ts[k..], strs));
    FlatLevel(n, l);
    LevelAppend(a, Flat(n)[..l]);
    NestLevel(ts, i, strs);
    NestLevel(ts, k, strs);
  }

  lemma PrefixCut<T>(a: seq<T>, b: seq<T>, r: seq<T>, c: seq<T>, s: seq<T>)
    requires a + (b + r) == c + s && |a| <= |c| <= |a| + |b|
    ensures c == a + b[..|c| - |a|]
  {
    var w := a + (b + r);
    assert c == w[..|c|];
  }

  /** Within a node: the items before token k lie inside the node's own exactly when k lies in its span. */
  lemma SpanItems(ts: Tokens, strs: Bytes, f: seq<Node>, i: int, j: int, k: int)
    requires Reads(ts, strs, f) && IsNode(ts, i) && Spans(ts, i, j) && IsNode(ts, k)
    ensures IsPath(f, PathAt(ts, strs, f, i)) && Pos(ts, strs, i) == |Before(f, PathAt(ts, strs, f, i))|
    ensures i < k < j <==> |Before(f, PathAt(ts, strs, f, i))| < Pos(ts, strs, k) < |Before(f, PathAt(ts, strs, f, i))| + |Flat(At(f, PathAt(ts, strs, f, i)))|
  {
    hide Reads, Items, PathAt, IsPath, At, Flat, Before, After;
    NodeHere(ts, strs, f, i);
    NodeSpan(ts, strs, f, i, j);
    PosOrder(ts, strs, i, k);
    if k < j { PosGrows(ts, strs, k, j); } else { PosGrows(ts, strs, j, k); }
  }

  /** The nodes in a node's span are the ones whose paths go through it, one step longer for each level. */
  lemma InSpan(ts: Tokens, strs: Bytes, f: seq<Node>, i: int, j: int, k: int)
    requires Reads(ts, strs, f) && IsNode(ts, i) && Spans(ts, i, j) && IsNode(ts, k)
    ensures i < k < j <==> IsPrefix(PathAt(ts, strs, f, i), PathAt(ts, strs, f, k)) && k != i
    ensures |PathAt(ts, strs, f, k)| == |PathAt(ts, strs, f, i)| + Nest(ts, k) - Nest(ts, i)
  {
    hide Reads, Items, PathAt, IsPath, At, Flat, Before, After;
    SpanItems(ts, strs, f, i, j, k);
    PathToken(ts, strs, f, i);
    PathToken(ts, strs, f, k);
    var p, q := PathAt(ts, strs, f, i), PathAt(ts, strs, f, k);
    if i < k < j {
      ItemHere(ts, strs, f, k);
      PathInside(f, p, Pos(ts, strs, k));
      PathIs(ts, strs, f, k);
    } else if IsPrefix(p, q) && k != i {
      if |q| == |p| {
        assert q[..|p|] == q;
        SamePathSameToken(ts, strs, f, i, k);
      } else {
        assert q == p + q[|p|..];
        PathThrough(f, p, q[|p|..]);
        PathLength(f, p, q[|p|..]);
        KidInside(At(f, p), q[|p|..]);
      }
    }
  }

  lemma PathIs(ts: Tokens, strs: Bytes, f: seq<Node>, k: int)
    requires 0 <= k <= |ts|
    ensures PathAt(ts, strs, f, k) == PathTo(f, Pos(ts, strs, k))
  {
  }

  lemma ItemHere(ts: Tokens, strs: Bytes, f: seq<Node>, k: int)
    requires Reads(ts, strs, f) && IsNode(ts, k)
    ensures Pos(ts, strs, k) < |FlatAll(f)| && FlatAll(f)[Pos(ts, strs, k)] == Open(ts[k].name)
  {
    ItemsSplit(ts, k, strs);
    ItemsStep(ts, k, strs);
  }

  /** The items before a node below n, and that node's own, lie inside n's. */
  lemma KidInside(n: Node, q: Path)
    requires IsPath(n.kids, q)
    ensures 1 + |n.props| + |Before(n.kids, q)| + |Flat(At(n.kids, q))| < |Flat(n)|
  {
    Parts(n.kids, q);
    FlatForm(n);
    hide Flat, FlatAll;
  }

  // ---- children -------------------------------------------------------------------------------

  /** Token k begins a child of the node at i. */
  predicate IsKid(ts: Tokens, i: int, j: int, k: int) {
    0 <= i < k < j && IsNode(ts, k) && Nest(ts, k) == Nest(ts, i) + 1
  }

  lemma KidHere(ts: Tokens, strs: Bytes, f: seq<Node>, i: int, j: int, k: int) returns (c: int)
    requires Reads(ts, strs, f) && IsNode(ts, i) && Spans(ts, i, j) && IsKid(ts, i, j, k)
    ensures IsPath(f, PathAt(ts, strs, f, i)) && IsPath(f, PathAt(ts, strs, f, k))
    ensures 0 <= c < |At(f, PathAt(ts, strs, f, i)).kids| && PathAt(ts, strs, f, k) == PathAt(ts, strs, f, i) + [c]
    ensures At(f, PathAt(ts, strs, f, k)) == At(f, PathAt(ts, strs, f, i)).kids[c]
    ensures ts[k].name == At(f, PathAt(ts, strs, f, i)).kids[c].name
  {
    hide Reads, PathAt, At, Before;
    InSpan(ts, strs, f, i, j, k);
    PathToken(ts, strs, f, i);
    PathToken(ts, strs, f, k);
    var p, q := PathAt(ts, strs, f, i), PathAt(ts, strs, f, k);
    c := q[|p|];
    assert q == p + [c];
    PathThrough(f, p, [c]);
    OneStep(At(f, p).kids, c);
  }

  lemma OneStep(ns: seq<Node>, c: int)
    requires 0 <= c
    ensures IsPath(ns, [c]) <==> c < |ns|
    ensures c < |ns| ==> At(ns, [c]) == ns[c]
  {
  }

  /** Every child has its token. */
  lemma KidToken(ts: Tokens, strs: Bytes, f: seq<Node>, i: int, j: int, c: int) returns (k: int)
    requires Reads(ts, strs, f) && IsNode(ts, i) && Spans(ts, i, j) && IsPath(f, PathAt(ts, strs, f, i))
    requires 0 <= c < |At(f, PathAt(ts, strs, f, i)).kids|
    ensures IsKid(ts, i, j, k) && PathAt(ts, strs, f, k) == PathAt(ts, strs, f, i) + [c]
    ensures ts[k].name == At(f, PathAt(ts, strs, f, i)).kids[c].name
  {
    hide Reads, PathAt, At, Before;
    var p := PathAt(ts, strs, f, i);
    OneStep(At(f, p).kids, c);
    PathThrough(f, p, [c]);
    k := NodeToken(ts, strs, f, p + [c]);
    assert (p + [c])[..|p|] == p;
    InSpan(ts, strs, f, i, j, k);
    PathToken(ts, strs, f, k);
    PathToken(ts, strs, f, i);
  }

  /** Children stand in order. */
  lemma KidOrder(ts: Tokens, strs: Bytes, f: seq<Node>, p: Path, b: int, c: int, k: int, m: int)
    requires Reads(ts, strs, f) && IsNode(ts, k) && IsNode(ts, m) && IsPath(f, p)
    requires 0 <= b && 0 <= c && PathAt(ts, strs, f, k) == p + [b] && PathAt(ts, strs, f, m) == p + [c]
    ensures k < m <==> b < c
  {
    hide Reads, PathAt, At, Before, FlatAll;
    PathToken(ts, strs, f, k);
    PathToken(ts, strs, f, m);
    PosOrder(ts, strs, k, m);
    var ns := At(f, p).kids;
    PathThrough(f, p, [b]);
    PathThrough(f, p, [c]);
    OneStep(ns, b);
    OneStep(ns, c);
    KidBefore(ns, b);
    KidBefore(ns, c);
    if b < c { KidsGrow(ns, b, c); } else { KidsGrow(ns, c, b); }
  }

  lemma KidBefore(ns: seq<Node>, c: int)
    requires 0 <= c < |ns|
    ensures IsPath(ns, [c]) && Before(ns, [c]) == FlatAll(ns[..c])
  {
  }

  lemma {:induction false} KidsGrow(ns: seq<Node>, b: int, c: int)
    requires 0 <= b <= c <= |ns|
    ensures |FlatAll(ns[..b])| <= |FlatAll(ns[..c])| && (b < c ==> |FlatAll(ns[..b])| < |FlatAll(ns[..c])|)
    decreases c - b
  {
    if b < c {
      KidsGrow(ns, b, c - 1);
      assert ns[..c] == ns[..c - 1] + [ns[c - 1]];
      FlatAppend(ns[..c - 1], [ns[c - 1]]);
      FlatOne(ns[c - 1]);
    }
  }

  // ---- children by name -----------------------------------------------------------------------

  const AT_SIGN: int := 64

  /** _fdt_nodename_eq: the name itself, or up to its '@' when the one sought has none. */
  predicate NameEq(name: Bytes, s: Bytes) {
    |s| <= |name| && name[..|s|] == s && (|name| == |s| || (AT_SIGN !in s && name[|s|] == AT_SIGN))
  }

  /** A name answers to itself, and to what stands before its first '@'. */
  lemma NameAnswers(name: Bytes, s: Bytes)
    ensures NameEq(name, s) <==>
      name == s || ('@' as int !in s && |s| < |name| && name[..|s|] == s && name[|s|] == '@' as int)
  {
  }

  lemma UnitAnswers(s: Bytes, unit: Bytes)
    requires '@' as int !in s
    ensures NameEq(s + ['@' as int] + unit, s)
  {
    var n := s + ['@' as int] + unit;
    assert n[..|s|] == s;
    NameAnswers(n, s);
  }

  /** The first child that answers to the name, or -1. */
  function KidNamed(ns: seq<Node>, name: Bytes): (r: int)
    ensures r == -1 || (0 <= r < |ns| && NameEq(ns[r].name, name))
    ensures forall k :: 0 <= k < |ns| && (r < 0 || k < r) ==> !NameEq(ns[k].name, name)
  {
    if ns == [] then -1 else if NameEq(ns[0].name, name) then 0 else
    var r := KidNamed(ns[1..], name);
    assert forall k :: 0 < k < |ns| ==> ns[k] == ns[1..][k - 1];
    if r < 0 then -1 else r + 1
  }

  /** No child of the node at i that begins before token k answers to the name. */
  predicate NoneAnswers(ts: Tokens, i: int, j: int, k: int, name: Bytes) {
    forall m :: i < m < k && IsKid(ts, i, j, m) ==> !NameEq(ts[m].name, name)
  }

  lemma KidAnswers(ts: Tokens, strs: Bytes, f: seq<Node>, i: int, j: int, k: int, name: Bytes)
    requires Reads(ts, strs, f) && IsNode(ts, i) && Spans(ts, i, j) && IsKid(ts, i, j, k)
    requires NoneAnswers(ts, i, j, k, name) && NameEq(ts[k].name, name)
    ensures IsPath(f, PathAt(ts, strs, f, i)) && KidNamed(At(f, PathAt(ts, strs, f, i)).kids, name) >= 0
    ensures PathAt(ts, strs, f, k) == PathAt(ts, strs, f, i) + [KidNamed(At(f, PathAt(ts, strs, f, i)).kids, name)]
  {
    hide Reads, PathAt, At, Spans, NameEq;
    var c := KidHere(ts, strs, f, i, j, k);
    var p, b := PathAt(ts, strs, f, i), KidNamed(At(f, PathAt(ts, strs, f, i)).kids, name);
    var m := KidToken(ts, strs, f, i, j, b);
    KidOrder(ts, strs, f, p, b, c, m, k);
    assert b <= c;
    if b < c {
      assert false;
    }
  }

  lemma NoKidAnswers(ts: Tokens, strs: Bytes, f: seq<Node>, i: int, j: int, name: Bytes)
    requires Reads(ts, strs, f) && IsNode(ts, i) && Spans(ts, i, j) && NoneAnswers(ts, i, j, j, name)
    ensures IsPath(f, PathAt(ts, strs, f, i)) && KidNamed(At(f, PathAt(ts, strs, f, i)).kids, name) == -1
  {
    PathToken(ts, strs, f, i);
    hide Reads, PathAt, At, Spans, NameEq;
    var b := KidNamed(At(f, PathAt(ts, strs, f, i)).kids, name);
    if b >= 0 {
      var m := KidToken(ts, strs, f, i, j, b);
      assert false;
    }
  }

  /** The node reached from another by climbing lies in the same span. */
  lemma ClimbInside(ts: Tokens, i: int, j: int, k: int, d: int)
    requires Spans(ts, i, j) && Climbs(ts, i, k, d)
    ensures i <= k < j && d == Nest(ts, k) - Nest(ts, i)
  {
    assert k + 1 < j;
  }

  // ---- neighbours -----------------------------------------------------------------------------

  /** The first node inside a node is its first child. */
  lemma FirstKid(ts: Tokens, strs: Bytes, f: seq<Node>, i: int, j: int, k: int)
    requires Reads(ts, strs, f) && IsNode(ts, i) && Spans(ts, i, j) && IsKid(ts, i, j, k) && forall x :: i < x < k ==> !IsNode(ts, x)
    ensures IsPath(f, PathAt(ts, strs, f, i)) && At(f, PathAt(ts, strs, f, i)).kids != []
    ensures PathAt(ts, strs, f, k) == PathAt(ts, strs, f, i) + [0]
  {
    hide Reads, PathAt, At, Spans;
    var c := KidHere(ts, strs, f, i, j, k);
    var m := KidToken(ts, strs, f, i, j, 0);
    KidOrder(ts, strs, f, PathAt(ts, strs, f, i), 0, c, m, k);
  }

  lemma NoKids(ts: Tokens, strs: Bytes, f: seq<Node>, i: int, j: int)
    requires Reads(ts, strs, f) && IsNode(ts, i) && Spans(ts, i, j) && forall x :: i < x < j ==> !IsNode(ts, x)
    ensures IsPath(f, PathAt(ts, strs, f, i)) && At(f, PathAt(ts, strs, f, i)).kids == []
  {
    PathToken(ts, strs, f, i);
    hide Reads, PathAt, At, Spans;
    if At(f, PathAt(ts, strs, f, i)).kids != [] {
      var m := KidToken(ts, strs, f, i, j, 0);
      assert false;
    }
  }

  /** The first node of all is the first root. */
  lemma FirstRoot(ts: Tokens, strs: Bytes, f: seq<Node>, k: int)
    requires Reads(ts, strs, f) && IsNode(ts, k) && forall x :: 0 <= x < k ==> !IsNode(ts, x)
    ensures Nest(ts, k) == 0 && f != [] && PathAt(ts, strs, f, k) == [0]
  {
    hide Reads, PathAt, At, Before;
    NoRise(ts, 0, k);
    Shallowest(ts, strs, f, k);
    PathToken(ts, strs, f, k);
    var p := PathAt(ts, strs, f, k);
    var c := p[0];
    assert p == [c] && Nest(ts, 0) == 0;
    OneStep(f, c);
    OneStep(f, 0);
    var m := NodeToken(ts, strs, f, [0]);
    PathToken(ts, strs, f, m);
    PosOrder(ts, strs, k, m);
    KidBefore(f, 0);
    KidBefore(f, c);
    KidsGrow(f, 0, c);
  }

  lemma NoRoots(ts: Tokens, strs: Bytes, f: seq<Node>)
    requires Reads(ts, strs, f) && forall x :: 0 <= x < |ts| ==> !IsNode(ts, x)
    ensures f == []
  {
    hide Reads, PathAt;
    if f != [] {
      OneStep(f, 0);
      var m := NodeToken(ts, strs, f, [0]);
      assert false;
    }
  }

  /** The nodes that share a parent, or the roots. */
  function Siblings(f: seq<Node>, pp: Path): seq<Node>
    requires pp == [] || IsPath(f, pp)
  {
    if pp == [] then f else At(f, pp).kids
  }

  lemma SiblingPath(f: seq<Node>, pp: Path, c: int)
    requires (pp == [] || IsPath(f, pp)) && 0 <= c
    ensures IsPath(f, pp + [c]) <==> c < |Siblings(f, pp)|
  {
    if pp == [] {
      assert pp + [c] == [c];
      OneStep(f, c);
    } else {
      PathThrough(f, pp, [c]);
      OneStep(At(f, pp).kids, c);
    }
  }

  lemma SiblingOrder(f: seq<Node>, pp: Path, b: int, c: int)
    requires (pp == [] || IsPath(f, pp)) && 0 <= b && 0 <= c && IsPath(f, pp + [b]) && IsPath(f, pp + [c])
    ensures |Before(f, pp + [b])| < |Before(f, pp + [c])| <==> b < c
  {
    SiblingPath(f, pp, b);
    SiblingPath(f, pp, c);
    hide FlatAll, Before, At;
    var ns := Siblings(f, pp);
    KidBefore(ns, b);
    KidBefore(ns, c);
    if b < c { KidsGrow(ns, b, c); } else { KidsGrow(ns, c, b); }
    if pp == [] {
      assert pp + [b] == [b] && pp + [c] == [c];
    } else {
      PathThrough(f, pp, [b]);
      PathThrough(f, pp, [c]);
    }
  }

  lemma {:induction false} ParentPath(f: seq<Node>, p: Path)
    requires IsPath(f, p)
    ensures |p| > 1 ==> IsPath(f, p[..|p| - 1])
    ensures p == p[..|p| - 1] + [p[|p| - 1]]
    decreases |p|
  {
    if |p| > 1 {
      ParentPath(f[p[0]].kids, p[1..]);
      var h := p[..|p| - 1];
      assert h[1..] == p[1..][..|p[1..]| - 1];
    }
  }

  // ---- the next sibling -------------------------------------------------------------------------

  /** The next node on the same level, if nothing left the parent before it, is the next sibling. */
  lemma NextIs(ts: Tokens, strs: Bytes, f: seq<Node>, i: int, k: int)
    requires Reads(ts, strs, f) && IsNode(ts, i) && IsNode(ts, k) && i < k && Nest(ts, k) == Nest(ts, i)
    requires forall m :: i < m <= k ==> Nest(ts, m) >= Nest(ts, i)
    requires forall m :: i < m < k && IsNode(ts, m) ==> Nest(ts, m) > Nest(ts, i)
    ensures IsPath(f, PathAt(ts, strs, f, i)) && IsPath(f, PathAt(ts, strs, f, k))
    ensures var p := PathAt(ts, strs, f, i); PathAt(ts, strs, f, k) == p[..|p| - 1] + [p[|p| - 1] + 1]
  {
    hide Reads, PathAt, At, Before, IsPath;
    PathToken(ts, strs, f, i);
    PathToken(ts, strs, f, k);
    var p, q := PathAt(ts, strs, f, i), PathAt(ts, strs, f, k);
    ParentPath(f, p);
    ParentPath(f, q);
    var pp, c, b := p[..|p| - 1], p[|p| - 1], q[|q| - 1];
    SameParent(ts, strs, f, i, k);
    PosOrder(ts, strs, i, k);
    SiblingOrder(f, pp, c, b);
    if b > c + 1 {
      SiblingPath(f, pp, c + 1);
      SiblingPath(f, pp, b);
      var m := NodeToken(ts, strs, f, pp + [c + 1]);
      PathToken(ts, strs, f, m);
      SiblingOrder(f, pp, c, c + 1);
      SiblingOrder(f, pp, c + 1, b);
      PosOrder(ts, strs, i, m);
      PosOrder(ts, strs, m, k);
      assert false;
    }
  }

  lemma SameParent(ts: Tokens, strs: Bytes, f: seq<Node>, i: int, k: int)
    requires Reads(ts, strs, f) && IsNode(ts, i) && IsNode(ts, k) && i < k && Nest(ts, k) == Nest(ts, i)
    requires forall m :: i < m <= k ==> Nest(ts, m) >= Nest(ts, i)
    ensures var p, q := PathAt(ts, strs, f, i), PathAt(ts, strs, f, k); |p| == |q| > 0 && q[..|p| - 1] == p[..|p| - 1]
  {
    hide Reads, PathAt, At, Before, IsPath;
    PathToken(ts, strs, f, i);
    PathToken(ts, strs, f, k);
    var p := PathAt(ts, strs, f, i);
    if |p| > 1 {
      var pi, pj := ParentSpan(ts, strs, f, i);
      assert pj > k;
      InSpan(ts, strs, f, pi, pj, k);
    }
  }

  /** The parent's token and the end of its span. */
  lemma ParentSpan(ts: Tokens, strs: Bytes, f: seq<Node>, i: int) returns (pi: int, pj: int)
    requires Reads(ts, strs, f) && IsNode(ts, i) && |PathAt(ts, strs, f, i)| > 1
    ensures IsNode(ts, pi) && Spans(ts, pi, pj) && pi < i < pj && Nest(ts, pi) == Nest(ts, i) - 1
    ensures var p := PathAt(ts, strs, f, i); PathAt(ts, strs, f, pi) == p[..|p| - 1]
  {
    hide Reads, PathAt, At, Before, IsPath;
    PathToken(ts, strs, f, i);
    var p := PathAt(ts, strs, f, i);
    ParentPath(f, p);
    pi := NodeToken(ts, strs, f, p[..|p| - 1]);
    PathToken(ts, strs, f, pi);
    pj := SpanExists(ts, strs, f, pi);
    InSpan(ts, strs, f, pi, pj, i);
  }

  /** When the parent ends, or the tokens do, before another node on the same level begins, there is no next sibling. */
  lemma NoNext(ts: Tokens, strs: Bytes, f: seq<Node>, i: int, e: int)
    requires Reads(ts, strs, f) && IsNode(ts, i) && i < e <= |ts| && (e == |ts| || Nest(ts, e) < Nest(ts, i))
    requires forall m :: i < m < e && IsNode(ts, m) ==> Nest(ts, m) > Nest(ts, i)
    ensures IsPath(f, PathAt(ts, strs, f, i))
    ensures var p := PathAt(ts, strs, f, i); !IsPath(f, p[..|p| - 1] + [p[|p| - 1] + 1])
  {
    hide Reads, PathAt, At, Before, IsPath;
    PathToken(ts, strs, f, i);
    var p := PathAt(ts, strs, f, i);
    ParentPath(f, p);
    var pp, c := p[..|p| - 1], p[|p| - 1];
    var q := pp + [c + 1];
    if IsPath(f, q) {
      var m := NodeToken(ts, strs, f, q);
      PathToken(ts, strs, f, m);
      SiblingOrder(f, pp, c, c + 1);
      PosOrder(ts, strs, i, m);
      NextInParent(ts, strs, f, i, m, e);
      assert false;
    }
  }

  /** A node that shares the parent of the one at i begins before the parent ends. */
  lemma NextInParent(ts: Tokens, strs: Bytes, f: seq<Node>, i: int, m: int, e: int)
    requires Reads(ts, strs, f) && IsNode(ts, i) && IsNode(ts, m) && i < e <= |ts| && (e == |ts| || Nest(ts, e) < Nest(ts, i))
    requires var p, q := PathAt(ts, strs, f, i), PathAt(ts, strs, f, m); |q| == |p| > 0 && q[..|p| - 1] == p[..|p| - 1]
    ensures m < e
  {
    hide Reads, PathAt, At, Before, IsPath;
    var p := PathAt(ts, strs, f, i);
    PathToken(ts, strs, f, i);
    if |p| > 1 {
      var pi, pj := ParentSpan(ts, strs, f, i);
      PathToken(ts, strs, f, m);
      InSpan(ts, strs, f, pi, pj, m);
      if e < |ts| { SpanOver(ts, strs, f, pi, pj, e); }
    } else {
      Shallowest(ts, strs, f, e);
    }
  }

  lemma SpanOver(ts: Tokens, strs: Bytes, f: seq<Node>, i: int, j: int, e: int)
    requires Spans(ts, i, j) && i < e <= |ts| && Nest(ts, e) <= Nest(ts, i)
    ensures j <= e
  {
  }

  lemma Shallowest(ts: Tokens, strs: Bytes, f: seq<Node>, e: int)
    requires Reads(ts, strs, f) && 0 <= e <= |ts|
    ensures Nest(ts, e) >= 0
  {
    if e == |ts| { NestBounds(ts, strs, f, e - 1); } else { NestBounds(ts, strs, f, e); }
  }

  // ---- ancestors --------------------------------------------------------------------------------

  /** The last node at that depth before a node, itself included, is the one its path goes through there. */
  lemma LastAtDepth(ts: Tokens, strs: Bytes, f: seq<Node>, i: int, a: int, d: int)
    requires Reads(ts, strs, f) && IsNode(ts, i) && IsNode(ts, a) && a <= i && Nest(ts, a) == d && 0 <= d <= Nest(ts, i)
    requires forall m :: a < m <= i && IsNode(ts, m) ==> Nest(ts, m) != d
    ensures |PathAt(ts, strs, f, i)| > d && PathAt(ts, strs, f, a) == PathAt(ts, strs, f, i)[..d + 1]
  {
    hide Reads, PathAt, At, Before, IsPath;
    PathToken(ts, strs, f, i);
    PathToken(ts, strs, f, a);
    var p := PathAt(ts, strs, f, i);
    PrefixPath(f, p, d + 1);
    var t := NodeToken(ts, strs, f, p[..d + 1]);
    PathToken(ts, strs, f, t);
    var j := SpanExists(ts, strs, f, t);
    if t != i { InSpan(ts, strs, f, t, j, i); }
    assert t <= i;
    if t < a {
      InSpan(ts, strs, f, t, j, a);
      assert false;
    }
  }

  lemma {:induction false} PrefixPath(f: seq<Node>, p: Path, n: int)
    requires IsPath(f, p) && 0 < n <= |p|
    ensures IsPath(f, p[..n])
    decreases |p| - n
  {
    if n < |p| {
      PrefixPath(f, p, n + 1);
      ParentPath(f, p[..n + 1]);
      assert p[..n + 1][..n] == p[..n];
    } else {
      assert p[..n] == p;
    }
  }

  /** One root, begun by the first token. */
  predicate Rooted(ts: Tokens, f: seq<Node>) {
    IsNode(ts, 0) && |f| == 1
  }

  /** Every other node lies below the root. */
  lemma BelowRoot(ts: Tokens, strs: Bytes, f: seq<Node>, j: int, i: int)
    requires Reads(ts, strs, f) && Rooted(ts, f) && Spans(ts, 0, j) && IsNode(ts, i)
    ensures i < j
  {
    hide Reads, PathAt, At, Before;
    PathToken(ts, strs, f, 0);
    PathToken(ts, strs, f, i);
    var p, q := PathAt(ts, strs, f, 0), PathAt(ts, strs, f, i);
    assert p == [0] && q[..1] == [0];
    InSpan(ts, strs, f, 0, j, i);
  }

  /** Among the nodes before token k, a is the last at depth d; -1 if there is none. */
  predicate LastSeen(ts: Tokens, k: int, a: int, d: int) {
    && -1 <= a < |ts| && 0 <= k <= |ts|
    && (a >= 0 ==> a < k && IsNode(ts, a) && Nest(ts, a) == d)
    && forall m :: a < m < k && IsNode(ts, m) ==> Nest(ts, m) != d
  }

  lemma SeenOn(ts: Tokens, k: int, a: int, d: int, n: int)
    requires LastSeen(ts, k, a, d) && IsNode(ts, k) && k < n <= |ts| && forall m :: k < m < n ==> !IsNode(ts, m)
    ensures LastSeen(ts, n, if Nest(ts, k) == d then k else a, d)
  {
  }

  /** A node at depth d or deeper has an ancestor there, or is there itself, and has met it. */
  lemma Ancestor(ts: Tokens, strs: Bytes, f: seq<Node>, i: int, a: int, d: int)
    requires Reads(ts, strs, f) && IsNode(ts, i) && LastSeen(ts, i, a, d) && 0 <= d <= Nest(ts, i)
    ensures |PathAt(ts, strs, f, i)| > d
    ensures var b := if Nest(ts, i) == d then i else a; b >= 0 && IsNode(ts, b) && PathAt(ts, strs, f, b) == PathAt(ts, strs, f, i)[..d + 1]
  {
    hide Reads, PathAt, At, Before, IsPath;
    PathToken(ts, strs, f, i);
    if Nest(ts, i) == d {
      var p := PathAt(ts, strs, f, i);
      assert p[..d + 1] == p;
    } else {
      AncestorMet(ts, strs, f, i, d);
      LastAtDepth(ts, strs, f, i, a, d);
    }
  }

  lemma AncestorMet(ts: Tokens, strs: Bytes, f: seq<Node>, i: int, d: int)
    requires Reads(ts, strs, f) && IsNode(ts, i) && 0 <= d < Nest(ts, i)
    ensures exists t :: 0 <= t < i && IsNode(ts, t) && Nest(ts, t) == d
  {
    hide Reads, PathAt, At, Before, IsPath;
    PathToken(ts, strs, f, i);
    var p := PathAt(ts, strs, f, i);
    PrefixPath(f, p, d + 1);
    var t := NodeToken(ts, strs, f, p[..d + 1]);
    PathToken(ts, strs, f, t);
    var j := SpanExists(ts, strs, f, t);
    InSpan(ts, strs, f, t, j, i);
  }

  /** The token behind the root's own end. */
  ghost function RootEnd(ts: Tokens): int {
    if j :| Spans(ts, 0, j) then j else |ts|
  }

  lemma RootEndIs(ts: Tokens, j: int)
    requires Spans(ts, 0, j)
    ensures RootEnd(ts) == j
  {
  }

  /** Where a walk from the root goes next: to the next node, or past the end of the root. */
  lemma WalkOn(ts: Tokens, strs: Bytes, f: seq<Node>, k: int)
    requires Reads(ts, strs, f) && Rooted(ts, f) && IsNode(ts, k)
    ensures k + 1 < |ts| && !Scan(ts, k + 1, Nest(ts, k), true).Ended?
    ensures var s := Scan(ts, k + 1, Nest(ts, k), true); k < s.at < |ts| && (forall m :: k < m < s.at ==> !IsNode(ts, m))
    ensures var s := Scan(ts, k + 1, Nest(ts, k), true); s.Found? ==> IsNode(ts, s.at) && s.depth == Nest(ts, s.at)
    ensures var s := Scan(ts, k + 1, Nest(ts, k), true); s.Past? ==> s.depth == -1 && s.at == RootEnd(ts) && (forall m :: k < m < |ts| ==> !IsNode(ts, m))
    ensures k < RootEnd(ts) < |ts| && Spans(ts, 0, RootEnd(ts))
  {
    hide Reads, PathAt, At, Before, IsPath, Scan;
    NotLast(ts, strs, f, k);
    Shallowest(ts, strs, f, k);
    NestBounds(ts, strs, f, |ts| - 1);
    StopLast(ts, strs, f);
    var j := SpanExists(ts, strs, f, 0);
    RootEndIs(ts, j);
    BelowRoot(ts, strs, f, j, k);
    var s, d := Scan(ts, k + 1, Nest(ts, k), true), Nest(ts, k);
    match s {
      case Found(_, _) =>
        ScanFound(ts, k + 1, d, true);
      case Past(_, _) =>
        ScanPast(ts, k + 1, d);
        SpanOver(ts, strs, f, 0, j, s.at);
        assert Nest(ts, 0) == 0;
        forall m | k < m < |ts| ensures !IsNode(ts, m) {
          if IsNode(ts, m) { BelowRoot(ts, strs, f, j, m); }
        }
        assert s.at < |ts|;
      case Ended =>
        ScanEnded(ts, k + 1, d, true);
    }
  }

  lemma StopLast(ts: Tokens, strs: Bytes, f: seq<Node>)
    requires Reads(ts, strs, f)
    ensures ts != [] && StopsOnce(ts) && Nest(ts, |ts|) == Nest(ts, |ts| - 1)
  {
  }
}
