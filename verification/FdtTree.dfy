/** The tree that a structure block stands for: nodes in document order, the paths that name them,
    and what replacing a node does to the sequence of items the block spells out. */
module FdtTree {
  import opened FdtFormat

  datatype Property = Property(name: Bytes, val: Bytes)

  datatype Node = Node(name: Bytes, props: seq<Property>, kids: seq<Node>)

  /** What the tokens say once padding and NOPs are forgotten and property names are looked up. */
  datatype Item = Open(name: Bytes) | Attr(prop: Property) | Close

  // ---- trees as item sequences ----------------------------------------------------------

  function Attrs(ps: seq<Property>): (s: seq<Item>)
    ensures |s| == |ps|
  {
    if ps == [] then [] else [Attr(ps[0])] + Attrs(ps[1..])
  }

  function Flat(n: Node): (s: seq<Item>)
    ensures |s| >= 2
  {
    [Open(n.name)] + Attrs(n.props) + FlatAll(n.kids) + [Close]
  }

  function FlatAll(ns: seq<Node>): seq<Item>
  {
    if ns == [] then [] else Flat(ns[0]) + FlatAll(ns[1..])
  }

  lemma Assoc<T>(a: seq<T>, b: seq<T>, c: seq<T>)
    ensures (a + b) + c == a + (b + c)
  {
  }

  lemma {:induction false} FlatAppend(a: seq<Node>, b: seq<Node>)
    ensures FlatAll(a + b) == FlatAll(a) + FlatAll(b)
  {
    hide Flat;
    if a == [] {
      assert a + b == b;
    } else {
      FlatAppend(a[1..], b);
      assert (a + b)[1..] == a[1..] + b;
      Assoc(Flat(a[0]), FlatAll(a[1..]), FlatAll(b));
    }
  }

  lemma FlatOne(n: Node)
    ensures FlatAll([n]) == Flat(n)
  {
    hide Flat;
    assert FlatAll([n]) == Flat(n) + FlatAll([]);
  }

  lemma FlatAround(ns: seq<Node>, i: int)
    requires 0 <= i < |ns|
    ensures FlatAll(ns) == FlatAll(ns[..i]) + Flat(ns[i]) + FlatAll(ns[i + 1..])
  {
    hide Flat, FlatAll;
    var l, m, r := ns[..i], [ns[i]], ns[i + 1..];
    assert ns == l + (m + r);
    FlatAppend(l, m + r);
    FlatAppend(m, r);
    FlatOne(ns[i]);
    Assoc(FlatAll(l), Flat(ns[i]), FlatAll(r));
  }

  // ---- a block has one reading ----------------------------------------------------------

  predicate Closes(s: seq<Item>) {
    s == [] || s[0].Close?
  }

  lemma AttrsHead(p: seq<Property>, x: seq<Item>)
    requires x == [] || !x[0].Attr?
    ensures p != [] <==> Attrs(p) + x != [] && (Attrs(p) + x)[0].Attr?
    ensures p == [] ==> Attrs(p) + x == x
  {
  }

  lemma {:induction false} AttrsUnique(p: seq<Property>, x: seq<Item>, q: seq<Property>, y: seq<Item>)
    requires Attrs(p) + x == Attrs(q) + y
    requires (x == [] || !x[0].Attr?) && (y == [] || !y[0].Attr?)
    ensures p == q && x == y
  {
    AttrsHead(p, x);
    AttrsHead(q, y);
    if p != [] {
      assert Attrs(p) + x == [Attr(p[0])] + (Attrs(p[1..]) + x);
      assert Attrs(q) + y == [Attr(q[0])] + (Attrs(q[1..]) + y);
      hide Attrs;
      assert (Attrs(p) + x)[0] == (Attrs(q) + y)[0] && (Attrs(p) + x)[1..] == (Attrs(q) + y)[1..];
      AttrsUnique(p[1..], x, q[1..], y);
      assert p == [p[0]] + p[1..] && q == [q[0]] + q[1..];
    }
  }

  lemma FlatHead(a: seq<Node>, x: seq<Item>)
    requires Closes(x)
    ensures a != [] <==> !Closes(FlatAll(a) + x)
    ensures a == [] ==> FlatAll(a) + x == x
  {
  }

  lemma {:induction false} Unique(a: seq<Node>, x: seq<Item>, b: seq<Node>, y: seq<Item>)
    requires FlatAll(a) + x == FlatAll(b) + y && Closes(x) && Closes(y)
    ensures a == b && x == y
    decreases a
  {
    FlatHead(a, x);
    FlatHead(b, y);
    if a != [] {
      UniqueHead(a, x, b, y);
      var m, n := a[0], b[0];
      hide FlatAll;
      var xx, yy := [Close] + (FlatAll(a[1..]) + x), [Close] + (FlatAll(b[1..]) + y);
      Unique(m.kids, xx, n.kids, yy);
      assert xx[1..] == yy[1..];
      assert xx[1..] == FlatAll(a[1..]) + x && yy[1..] == FlatAll(b[1..]) + y;
      Unique(a[1..], x, b[1..], y);
      assert a == [m] + a[1..] && b == [n] + b[1..];
    }
  }

  lemma UniqueHead(a: seq<Node>, x: seq<Item>, b: seq<Node>, y: seq<Item>)
    requires FlatAll(a) + x == FlatAll(b) + y && a != [] && b != []
    ensures a[0].name == b[0].name && a[0].props == b[0].props
    ensures FlatAll(a[0].kids) + ([Close] + (FlatAll(a[1..]) + x)) == FlatAll(b[0].kids) + ([Close] + (FlatAll(b[1..]) + y))
  {
    var s := FlatAll(a) + x;
    var xx, yy := [Close] + (FlatAll(a[1..]) + x), [Close] + (FlatAll(b[1..]) + y);
    HeadForm(a, x);
    HeadForm(b, y);
    assert s[0] == Open(a[0].name) && s[0] == Open(b[0].name);
    assert s[1..] == Attrs(a[0].props) + (FlatAll(a[0].kids) + xx);
    assert s[1..] == Attrs(b[0].props) + (FlatAll(b[0].kids) + yy);
    AttrsUnique(a[0].props, FlatAll(a[0].kids) + xx, b[0].props, FlatAll(b[0].kids) + yy);
  }

  lemma HeadForm(a: seq<Node>, x: seq<Item>)
    requires a != []
    ensures FlatAll(a) + x == [Open(a[0].name)] + (Attrs(a[0].props) + (FlatAll(a[0].kids) + ([Close] + (FlatAll(a[1..]) + x))))
  {
    var o, t, k, c, r := [Open(a[0].name)], Attrs(a[0].props), FlatAll(a[0].kids), [Close], FlatAll(a[1..]);
    assert FlatAll(a) == o + t + k + c + r;
    Assoc5(o, t, k, c, r, x);
  }

  lemma Assoc5<T>(o: seq<T>, t: seq<T>, k: seq<T>, c: seq<T>, r: seq<T>, x: seq<T>)
    ensures (o + t + k + c + r) + x == o + (t + (k + (c + (r + x))))
  {
  }

  lemma {:induction false} AttrsAt(ps: seq<Property>, i: int)
    requires 0 <= i < |ps|
    ensures Attrs(ps)[i] == Attr(ps[i])
  {
    if i > 0 { AttrsAt(ps[1..], i - 1); }
  }

  /** Two forests that spell out the same items are the same forest. */
  lemma OneReading(a: seq<Node>, b: seq<Node>)
    requires FlatAll(a) == FlatAll(b)
    ensures a == b
  {
    assert FlatAll(a) + [] == FlatAll(a) && FlatAll(b) + [] == FlatAll(b);
    Unique(a, [], b, []);
  }

  // ---- paths ----------------------------------------------------------------------------

  /** A node is named by the child numbers that lead to it from the top of the forest. */
  type Path = seq<nat>

  predicate IsPath(ns: seq<Node>, p: Path)
    decreases |p|
  {
    p != [] && p[0] < |ns| && (|p| == 1 || IsPath(ns[p[0]].kids, p[1..]))
  }

  function At(ns: seq<Node>, p: Path): Node
    requires IsPath(ns, p)
    decreases |p|
  {
    if |p| == 1 then ns[p[0]] else At(ns[p[0]].kids, p[1..])
  }

  /** The forest with the node at p replaced by the nodes of put. */
  function Replace(ns: seq<Node>, p: Path, put: seq<Node>): (r: seq<Node>)
    requires IsPath(ns, p)
    decreases |p|
  {
    if |p| == 1 then ns[..p[0]] + put + ns[p[0] + 1..]
    else ns[p[0] := ns[p[0]].(kids := Replace(ns[p[0]].kids, p[1..], put))]
  }

  function Before(ns: seq<Node>, p: Path): seq<Item>
    requires IsPath(ns, p)
    decreases |p|
  {
    FlatAll(ns[..p[0]]) +
      if |p| == 1 then [] else [Open(ns[p[0]].name)] + Attrs(ns[p[0]].props) + Before(ns[p[0]].kids, p[1..])
  }

  function After(ns: seq<Node>, p: Path): seq<Item>
    requires IsPath(ns, p)
    decreases |p|
  {
    (if |p| == 1 then [] else After(ns[p[0]].kids, p[1..]) + [Close]) + FlatAll(ns[p[0] + 1..])
  }

  /** The items of a forest, seen from one of its nodes. */
  lemma {:induction false} Parts(ns: seq<Node>, p: Path)
    requires IsPath(ns, p)
    ensures FlatAll(ns) == Before(ns, p) + Flat(At(ns, p)) + After(ns, p)
    decreases |p|
  {
    var n := ns[p[0]];
    FlatAround(ns, p[0]);
    if |p| > 1 {
      Parts(n.kids, p[1..]);
      var b, f, a := Before(n.kids, p[1..]), Flat(At(n.kids, p[1..])), After(n.kids, p[1..]);
      hide Flat, Before, After, FlatAll;
      assert Flat(n) == [Open(n.name)] + Attrs(n.props) + (b + f + a) + [Close] by { FlatForm(n); }
      PartsStep(FlatAll(ns[..p[0]]), [Open(n.name)] + Attrs(n.props), b, f, a, FlatAll(ns[p[0] + 1..]));
      BeforeAfter(ns, p);
    } else {
      assert Before(ns, p) == FlatAll(ns[..p[0]]);
      assert After(ns, p) == FlatAll(ns[p[0] + 1..]);
    }
  }

  lemma FlatForm(n: Node)
    ensures Flat(n) == [Open(n.name)] + Attrs(n.props) + FlatAll(n.kids) + [Close]
  {
  }

  lemma BeforeAfter(ns: seq<Node>, p: Path)
    requires IsPath(ns, p) && |p| > 1
    ensures Before(ns, p) == FlatAll(ns[..p[0]]) + ([Open(ns[p[0]].name)] + Attrs(ns[p[0]].props) + Before(ns[p[0]].kids, p[1..]))
    ensures After(ns, p) == After(ns[p[0]].kids, p[1..]) + [Close] + FlatAll(ns[p[0] + 1..])
  {
  }

  lemma PartsStep(l: seq<Item>, h: seq<Item>, b: seq<Item>, f: seq<Item>, a: seq<Item>, r: seq<Item>)
    ensures l + (h + (b + f + a) + [Close]) + r == (l + (h + b)) + f + (a + [Close] + r)
  {
  }

  /** Replacing a node changes its own items and no others. */
  lemma {:induction false} ReplaceParts(ns: seq<Node>, p: Path, put: seq<Node>)
    requires IsPath(ns, p)
    ensures FlatAll(Replace(ns, p, put)) == Before(ns, p) + FlatAll(put) + After(ns, p)
    decreases |p|
  {
    var n, i := ns[p[0]], p[0];
    var r := Replace(ns, p, put);
    if |p| > 1 {
      ReplaceParts(n.kids, p[1..], put);
      var b, f, a := Before(n.kids, p[1..]), FlatAll(put), After(n.kids, p[1..]);
      var m := n.(kids := Replace(n.kids, p[1..], put));
      assert r == ns[i := m];
      hide Flat, Before, After, FlatAll, Replace;
      FlatAround(r, i);
      assert r[..i] == ns[..i] && r[i + 1..] == ns[i + 1..] && r[i] == m;
      assert Flat(m) == [Open(n.name)] + Attrs(n.props) + (b + f + a) + [Close] by { FlatForm(m); }
      PartsStep(FlatAll(ns[..i]), [Open(n.name)] + Attrs(n.props), b, f, a, FlatAll(ns[i + 1..]));
      BeforeAfter(ns, p);
    } else {
      FlatAppend(ns[..i] + put, ns[i + 1..]);
      FlatAppend(ns[..i], put);
      assert Before(ns, p) == FlatAll(ns[..i]) && After(ns, p) == FlatAll(ns[i + 1..]);
    }
  }

  // ---- nesting --------------------------------------------------------------------------

  /** Opens minus closes. */
  function Level(s: seq<Item>): int {
    if s == [] then 0 else Level(s[..|s| - 1]) + (match s[|s| - 1] case Open(_) => 1 case Close => -1 case Attr(_) => 0)
  }

  lemma {:induction false} LevelAppend(a: seq<Item>, b: seq<Item>)
    ensures Level(a + b) == Level(a) + Level(b)
    decreases |b|
  {
    if b == [] {
      assert a + b == a;
    } else {
      LevelAppend(a, b[..|b| - 1]);
      assert (a + b)[..|a + b| - 1] == a + b[..|b| - 1];
    }
  }

  lemma {:induction false} AttrsLevel(ps: seq<Property>, k: int)
    requires 0 <= k <= |ps|
    ensures Level(Attrs(ps)[..k]) == 0
  {
    if k > 0 {
      AttrsLevel(ps, k - 1);
      AttrsAt(ps, k - 1);
      assert Attrs(ps)[..k][..k - 1] == Attrs(ps)[..k - 1];
    }
  }

  /** Inside a node's items the level stays above zero, and it comes back to zero at their end. */
  lemma {:induction false} FlatLevel(n: Node, k: int)
    requires 0 <= k <= |Flat(n)|
    ensures 0 < k < |Flat(n)| ==> Level(Flat(n)[..k]) >= 1
    ensures k == |Flat(n)| ==> Level(Flat(n)[..k]) == 0
    decreases n, 0
  {
    FlatForm(n);
    var a, p, f := [Open(n.name)], |n.props|, FlatAll(n.kids);
    var s := Flat(n)[..k];
    assert Level(a) == 1 by { assert a[..0] == []; }
    if k > 0 {
      var q, l := Min(k - 1, p), Min(Max(k - 1 - p, 0), |f|);
      var c: seq<Item> := if k == |Flat(n)| then [Close] else [];
      assert s == a + Attrs(n.props)[..q] + f[..l] + c;
      LevelAppend(a + Attrs(n.props)[..q] + f[..l], c);
      LevelAppend(a + Attrs(n.props)[..q], f[..l]);
      LevelAppend(a, Attrs(n.props)[..q]);
      AttrsLevel(n.props, q);
      FlatAllLevel(n.kids, l);
      assert Level([Close]) == -1 by { assert [Close][..0] == []; }
      assert k == |Flat(n)| ==> l == |f|;
    }
  }

  lemma {:induction false} FlatAllLevel(ns: seq<Node>, k: int)
    requires 0 <= k <= |FlatAll(ns)|
    ensures Level(FlatAll(ns)[..k]) >= 0
    ensures k == |FlatAll(ns)| ==> Level(FlatAll(ns)[..k]) == 0
    decreases ns
  {
    if ns != [] {
      var f, g := Flat(ns[0]), FlatAll(ns[1..]);
      assert FlatAll(ns) == f + g;
      if k <= |f| {
        assert FlatAll(ns)[..k] == f[..k];
        FlatLevel(ns[0], k);
        if k == |FlatAll(ns)| {
          assert Level(f[..k]) == 0;
        }
      } else {
        assert FlatAll(ns)[..k] == f[..|f|] + g[..k - |f|];
        LevelAppend(f[..|f|], g[..k - |f|]);
        FlatLevel(ns[0], |f|);
        FlatAllLevel(ns[1..], k - |f|);
      }
    }
  }

  function Min(x: int, y: int): int { if x < y then x else y }

  function Max(x: int, y: int): int { if x < y then y else x }

  lemma {:induction false} BeforeLevel(ns: seq<Node>, p: Path)
    requires IsPath(ns, p)
    ensures Level(Before(ns, p)) == |p| - 1
    decreases |p|
  {
    var l := FlatAll(ns[..p[0]]);
    FlatAllLevel(ns[..p[0]], |l|);
    assert l[..|l|] == l;
    if |p| == 1 {
      assert Before(ns, p) == l;
    } else {
      var n := ns[p[0]];
      var a, t, b := [Open(n.name)], Attrs(n.props), Before(n.kids, p[1..]);
      BeforeAfter(ns, p);
      BeforeLevel(n.kids, p[1..]);
      hide Before, FlatAll;
      LevelAppend(l, a + t + b);
      LevelAppend(a + t, b);
      LevelAppend(a, t);
      AttrsLevel(n.props, |t|);
      assert t[..|t|] == t && a[..0] == [];
    }
  }

  // ---- items and the paths they open -----------------------------------------------------

  /** The path of the node that item k opens, or [] when item k opens none. */
  function PathTo(ns: seq<Node>, k: int): Path
    decreases ns
  {
    if ns == [] || k < 0 then [] else
    var f := |Flat(ns[0])|;
    if k == 0 then [0]
    else if k < f then
      var q := PathTo(ns[0].kids, k - 1 - |ns[0].props|);
      if q == [] then [] else [0] + q
    else
      var q := PathTo(ns[1..], k - f);
      if q == [] then [] else [q[0] + 1] + q[1..]
  }

  lemma PathRight(ns: seq<Node>, q: Path)
    requires ns != [] && IsPath(ns[1..], q)
    ensures var p := [q[0] + 1] + q[1..]; IsPath(ns, p) && At(ns, p) == At(ns[1..], q) && Before(ns, p) == Flat(ns[0]) + Before(ns[1..], q)
  {
    var p := [q[0] + 1] + q[1..];
    PathRightSame(ns, q, p);
    hide Before, FlatAll, Flat, Below, At, Attrs, IsPath;
    BeforeForm(ns, p);
    BeforeForm(ns[1..], q);
    FirstOf(ns, p[0]);
    Assoc(Flat(ns[0]), FlatAll(ns[1..][..q[0]]), Below(ns, p));
  }

  lemma FirstOf(ns: seq<Node>, i: int)
    requires 0 < i <= |ns|
    ensures FlatAll(ns[..i]) == Flat(ns[0]) + FlatAll(ns[1..][..i - 1])
  {
    hide Flat;
    assert ns[..i][1..] == ns[1..][..i - 1];
  }

  lemma PathRightSame(ns: seq<Node>, q: Path, p: Path)
    requires ns != [] && IsPath(ns[1..], q) && p == [q[0] + 1] + q[1..]
    ensures IsPath(ns, p) && q[0] < |ns[1..]| && p[0] < |ns| && At(ns, p) == At(ns[1..], q) && Below(ns, p) == Below(ns[1..], q)
  {
    hide Before;
    assert p[1..] == q[1..] && ns[p[0]] == ns[1..][q[0]];
  }

  function Below(ns: seq<Node>, p: Path): seq<Item>
    requires IsPath(ns, p)
  {
    if |p| == 1 then [] else [Open(ns[p[0]].name)] + Attrs(ns[p[0]].props) + Before(ns[p[0]].kids, p[1..])
  }

  lemma BeforeForm(ns: seq<Node>, p: Path)
    requires IsPath(ns, p)
    ensures Before(ns, p) == FlatAll(ns[..p[0]]) + Below(ns, p)
  {
  }

  lemma PathDown(ns: seq<Node>, q: Path)
    requires ns != [] && IsPath(ns[0].kids, q)
    ensures var p := [0] + q; IsPath(ns, p) && At(ns, p) == At(ns[0].kids, q)
    ensures Before(ns, [0] + q) == [Open(ns[0].name)] + Attrs(ns[0].props) + Before(ns[0].kids, q)
  {
    var p := [0] + q;
    assert p[1..] == q && ns[..0] == [];
  }

  lemma FlatIndex(n: Node, k: int)
    requires 0 <= k < |Flat(n)|
    ensures Flat(n)[k].Open? <==> k == 0 || (0 <= k - 1 - |n.props| < |FlatAll(n.kids)| && FlatAll(n.kids)[k - 1 - |n.props|].Open?)
  {
    hide FlatAll;
    FlatForm(n);
    if 0 < k <= |n.props| { AttrsAt(n.props, k - 1); }
  }

  lemma {:induction false} PathToFinds(ns: seq<Node>, k: int)
    requires 0 <= k < |FlatAll(ns)|
    ensures FlatAll(ns)[k].Open? <==> PathTo(ns, k) != []
    ensures PathTo(ns, k) != [] ==> IsPath(ns, PathTo(ns, k)) && |Before(ns, PathTo(ns, k))| == k
    decreases ns
  {
    var f, g, p := Flat(ns[0]), FlatAll(ns[1..]), PathTo(ns, k);
    assert FlatAll(ns) == f + g;
    if k == 0 {
      HeadForm(ns, []);
      assert FlatAll(ns) + [] == FlatAll(ns);
      assert ns[..0] == [];
    } else if k < |f| {
      FlatIndex(ns[0], k);
      var l := k - 1 - |ns[0].props|;
      var q := PathTo(ns[0].kids, l);
      hide Flat, FlatAll;
      if 0 <= l < |FlatAll(ns[0].kids)| {
        PathToFinds(ns[0].kids, l);
        if q != [] {
          hide Before;
          PathDown(ns, q);
        }
      } else {
        PathToNone(ns[0].kids, l);
      }
    } else {
      hide Flat, FlatAll;
      PathToFinds(ns[1..], k - |f|);
      var q := PathTo(ns[1..], k - |f|);
      if q != [] {
        hide Before;
        PathRight(ns, q);
      }
    }
  }

  lemma {:induction false} PathToNone(ns: seq<Node>, k: int)
    requires !(0 <= k < |FlatAll(ns)|)
    ensures PathTo(ns, k) == []
    decreases ns
  {
    if ns != [] && k >= 0 {
      PathToNone(ns[1..], k - |Flat(ns[0])|);
    }
  }

  /** The items before a node tell which node it is. */
  lemma {:induction false} PathToBefore(ns: seq<Node>, p: Path)
    requires IsPath(ns, p)
    ensures PathTo(ns, |Before(ns, p)|) == p
    decreases ns
  {
    hide Flat, FlatAll, Before, At;
    if p[0] > 0 {
      var q := [p[0] - 1] + p[1..];
      LeftPath(ns, p);
      PathRight(ns, q);
      PathToBefore(ns[1..], q);
      assert [q[0] + 1] + q[1..] == p;
    } else if |p| == 1 {
      FirstPath(ns, p);
    } else {
      assert p == [0] + p[1..];
      PathDown(ns, p[1..]);
      Parts(ns[0].kids, p[1..]);
      PathToBefore(ns[0].kids, p[1..]);
      FlatForm(ns[0]);
      PathToDown(ns, |Before(ns, p)|);
    }
  }

  lemma LeftPath(ns: seq<Node>, p: Path)
    requires IsPath(ns, p) && p[0] > 0
    ensures ns != [] && IsPath(ns[1..], [p[0] - 1] + p[1..])
  {
    var q := [p[0] - 1] + p[1..];
    assert ns[1..][q[0]] == ns[p[0]] && q[1..] == p[1..];
  }

  lemma FirstPath(ns: seq<Node>, p: Path)
    requires IsPath(ns, p) && p == [0]
    ensures Before(ns, p) == [] && PathTo(ns, 0) == p
  {
    assert ns[..0] == [];
  }

  lemma PathToDown(ns: seq<Node>, k: int)
    requires ns != [] && 0 < k < |Flat(ns[0])| && PathTo(ns[0].kids, k - 1 - |ns[0].props|) != []
    ensures PathTo(ns, k) == [0] + PathTo(ns[0].kids, k - 1 - |ns[0].props|)
  {
    hide Flat;
  }

  /** Paths through a node are its own path followed by a path among its children. */
  lemma {:induction false} PathThrough(ns: seq<Node>, p: Path, q: Path)
    requires IsPath(ns, p) && q != []
    ensures IsPath(ns, p + q) <==> IsPath(At(ns, p).kids, q)
    ensures IsPath(ns, p + q) ==> At(ns, p + q) == At(At(ns, p).kids, q)
    ensures IsPath(ns, p + q) ==>
      Before(ns, p + q) == Before(ns, p) + ([Open(At(ns, p).name)] + Attrs(At(ns, p).props) + Before(At(ns, p).kids, q))
    decreases |p|
  {
    assert (p + q)[1..] == p[1..] + q;
    if |p| > 1 {
      PathThrough(ns[p[0]].kids, p[1..], q);
    } else {
      assert p[1..] == [];
    }
  }

  /** The nodes opened inside a node's items are those whose paths go through it. */
  lemma PathInside(ns: seq<Node>, p: Path, k: int)
    requires IsPath(ns, p) && |Before(ns, p)| < k < |Before(ns, p)| + |Flat(At(ns, p))|
    requires k < |FlatAll(ns)| && FlatAll(ns)[k].Open?
    ensures PathTo(ns, k) != [] && |PathTo(ns, k)| > |p| && PathTo(ns, k)[..|p|] == p
  {
    var n, l := At(ns, p), |Before(ns, p)|;
    Parts(ns, p);
    assert FlatAll(ns)[k] == Flat(n)[k - l];
    FlatIndex(n, k - l);
    var m := k - l - 1 - |n.props|;
    PathToFinds(n.kids, m);
    var q := PathTo(n.kids, m);
    hide Flat, Before, PathTo;
    PathThrough(ns, p, q);
    PathToBefore(ns, p + q);
    assert |Before(ns, p + q)| == k by { PathLength(ns, p, q); }
    assert (p + q)[..|p|] == p;
  }

  lemma PathLength(ns: seq<Node>, p: Path, q: Path)
    requires IsPath(ns, p) && q != [] && IsPath(At(ns, p).kids, q)
    ensures IsPath(ns, p + q)
    ensures |Before(ns, p + q)| == |Before(ns, p)| + 1 + |At(ns, p).props| + |Before(At(ns, p).kids, q)|
  {
    PathThrough(ns, p, q);
  }

  // ---- edits of a node ------------------------------------------------------------------

  /** The first property of that name, or -1. */
  function Index(ps: seq<Property>, name: Bytes): (r: int)
    ensures r == -1 || (0 <= r < |ps| && ps[r].name == name)
    ensures forall k :: 0 <= k < |ps| && (r < 0 || k < r) ==> ps[k].name != name
  {
    if ps == [] then -1 else if ps[0].name == name then 0 else
    var r := Index(ps[1..], name);
    assert forall k :: 0 < k < |ps| ==> ps[k] == ps[1..][k - 1];
    if r < 0 then -1 else r + 1
  }

  lemma IndexIs(ps: seq<Property>, name: Bytes, c: int)
    requires 0 <= c <= |ps| && forall k :: 0 <= k < c ==> ps[k].name != name
    ensures c == |ps| ==> Index(ps, name) == -1
    ensures c < |ps| && ps[c].name == name ==> Index(ps, name) == c
  {
  }

  /** The node with the property of that name set: in its old place, or in front if it is new. */
  function PutProp(n: Node, name: Bytes, val: Bytes): Node {
    var c := Index(n.props, name);
    n.(props := if c < 0 then [Property(name, val)] + n.props else n.props[c := Property(name, val)])
  }

  /** The node without the first property of that name. */
  function DropProp(n: Node, name: Bytes): Node
    requires Index(n.props, name) >= 0
  {
    var c := Index(n.props, name);
    n.(props := n.props[..c] + n.props[c + 1..])
  }

  /** The value of the property of that name, or nothing. */
  function ValueOf(n: Node, name: Bytes): Bytes {
    var c := Index(n.props, name);
    if c < 0 then [] else n.props[c].val
  }

  function AddKid(n: Node, name: Bytes): Node {
    n.(kids := [Node(name, [], [])] + n.kids)
  }

  datatype Option<T> = None | Some(value: T)

  /** What fdt_getprop finds. */
  function Lookup(n: Node, name: Bytes): Option<Bytes> {
    var c := Index(n.props, name);
    if c < 0 then None else Some(n.props[c].val)
  }

  /** A property that was set reads back, and no other reads differently. */
  lemma PutPropLookup(n: Node, name: Bytes, val: Bytes, other: Bytes)
    ensures Lookup(PutProp(n, name, val), other) == if other == name then Some(val) else Lookup(n, other)
  {
    var m, c := PutProp(n, name, val), Index(n.props, name);
    if c < 0 {
      assert m.props[1..] == n.props;
    } else if other == name {
      IndexIs(m.props, name, c);
    } else {
      IndexOther(n.props, m.props, c, other);
    }
  }

  lemma IndexOther(ps: seq<Property>, qs: seq<Property>, c: int, other: Bytes)
    requires 0 <= c < |ps| && |qs| == |ps| && qs == ps[c := qs[c]] && ps[c].name != other && qs[c].name != other
    ensures Index(qs, other) == Index(ps, other) && (Index(ps, other) >= 0 ==> qs[Index(ps, other)] == ps[Index(ps, other)])
  {
    var k := Index(ps, other);
    IndexIs(qs, other, if k < 0 then |ps| else k);
  }

  lemma Dropped(n: Node, name: Bytes)
    requires Index(n.props, name) >= 0
    ensures var c, m := Index(n.props, name), DropProp(n, name);
      |m.props| == |n.props| - 1 && forall j :: 0 <= j < |m.props| ==> m.props[j] == n.props[if j < c then j else j + 1]
  {
    hide Index;
  }

  /** Deleting a property changes how no other reads. */
  lemma DropPropOther(n: Node, name: Bytes, other: Bytes)
    requires Index(n.props, name) >= 0 && other != name
    ensures Lookup(DropProp(n, name), other) == Lookup(n, other)
  {
    hide Index, DropProp;
    Dropped(n, name);
    var c, m, k := Index(n.props, name), DropProp(n, name), Index(n.props, other);
    var r := if k < 0 then |m.props| else if k < c then k else k - 1;
    forall j | 0 <= j < r ensures m.props[j].name != other {
      assert m.props[j] == n.props[if j < c then j else j + 1];
    }
    IndexIs(m.props, other, r);
  }

  /** A property that was deleted is gone exactly when the node had only the one of that name. */
  lemma DropPropGone(n: Node, name: Bytes)
    requires Index(n.props, name) >= 0
    ensures Lookup(DropProp(n, name), name) == None <==> forall k :: Index(n.props, name) < k < |n.props| ==> n.props[k].name != name
  {
    hide Index, DropProp;
    Dropped(n, name);
    var c, m := Index(n.props, name), DropProp(n, name);
    assert forall k :: c < k < |n.props| ==> n.props[k] == m.props[k - 1];
  }

  /** Setting the node at p leaves it at p. */
  lemma {:induction false} ReplaceOne(ns: seq<Node>, p: Path, m: Node)
    requires IsPath(ns, p)
    ensures IsPath(Replace(ns, p, [m]), p) && At(Replace(ns, p, [m]), p) == m
    ensures Before(Replace(ns, p, [m]), p) == Before(ns, p)
    decreases |p|
  {
    hide Before, FlatAll;
    var r := Replace(ns, p, [m]);
    if |p| > 1 {
      ReplaceOne(ns[p[0]].kids, p[1..], m);
    }
    assert r[..p[0]] == ns[..p[0]];
    BeforeForm(ns, p);
    BeforeForm(r, p);
  }

  predicate IsPrefix(p: Path, q: Path) {
    |p| <= |q| && q[..|p|] == p
  }

  /** Setting the node at p changes no node that p does not go through and that does not lie below it,
      and of the nodes above it only the children. */
  lemma {:induction false} ReplaceOthers(ns: seq<Node>, p: Path, m: Node, q: Path)
    requires IsPath(ns, p) && IsPath(ns, q) && !IsPrefix(p, q)
    ensures IsPath(Replace(ns, p, [m]), q)
    ensures !IsPrefix(q, p) ==> At(Replace(ns, p, [m]), q) == At(ns, q)
    ensures At(Replace(ns, p, [m]), q).name == At(ns, q).name && At(Replace(ns, p, [m]), q).props == At(ns, q).props
    decreases |p|
  {
    var r := Replace(ns, p, [m]);
    if |p| == 1 {
      assert q[..1] == [q[0]];
    } else if p[0] == q[0] && |q| > 1 {
      assert IsPrefix(p, q) <==> IsPrefix(p[1..], q[1..]) by { assert p == [p[0]] + p[1..] && q == [q[0]] + q[1..]; PrefixTail(p, q); }
      PrefixTail(q, p);
      ReplaceOthers(ns[p[0]].kids, p[1..], m, q[1..]);
    } else if p[0] == q[0] {
      assert q == [q[0]] && p[..1] == q;
    }
  }

  lemma PrefixTail(p: Path, q: Path)
    requires p != [] && q != [] && p[0] == q[0]
    ensures IsPrefix(p, q) <==> IsPrefix(p[1..], q[1..])
  {
    if |p| <= |q| {
      assert q[..|p|] == [q[0]] + q[1..][..|p| - 1] && p == [p[0]] + p[1..];
      assert q[..|p|][1..] == q[1..][..|p| - 1];
    }
  }
}
