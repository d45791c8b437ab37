/** Structure blocks that hold a forest: what their tokens say, where each node and property sits in
    them, and what cutting tokens out or putting tokens in does to the forest. */
module FdtDoc {
  import opened FdtFormat
  import opened FdtTree

  type Tokens = seq<Token>

  // ---- strings --------------------------------------------------------------------------

  /** The C string at offset o of the strings block. */
  function CStr(s: Bytes, o: int): Bytes
    decreases |s| - o
  {
    if 0 <= o < |s| && s[o] != 0 then [s[o]] + CStr(s, o + 1) else []
  }

  /** The strings block ends with a NUL, so every string in it does. */
  predicate Terminated(s: Bytes) {
    s == [] || s[|s| - 1] == 0
  }

  lemma {:induction false} CStrFits(s: Bytes, o: int)
    requires 0 <= o < |s| && Terminated(s)
    ensures o + |CStr(s, o)| < |s| && s[o..o + |CStr(s, o)|] == CStr(s, o) && s[o + |CStr(s, o)|] == 0 && 0 !in CStr(s, o)
    decreases |s| - o
  {
    if s[o] != 0 {
      CStrFits(s, o + 1);
      var c := CStr(s, o + 1);
      assert CStr(s, o) == [s[o]] + c;
      hide CStr;
      assert s[o..o + 1 + |c|] == [s[o]] + s[o + 1..o + 1 + |c|];
    }
  }

  /** A string is what stands before the first NUL. */
  lemma {:induction false} CStrIs(s: Bytes, o: int, name: Bytes)
    requires 0 <= o && o + |name| < |s| && s[o..o + |name|] == name && s[o + |name|] == 0 && 0 !in name
    ensures CStr(s, o) == name
    decreases |name|
  {
    if name != [] {
      assert s[o] == name[0];
      assert s[o + 1..o + 1 + |name[1..]|] == name[1..];
      CStrIs(s, o + 1, name[1..]);
    }
  }

  lemma {:induction false} CStrGrows(s: Bytes, o: int, more: Bytes)
    requires 0 <= o < |s| && Terminated(s)
    ensures CStr(s + more, o) == CStr(s, o)
    decreases |s| - o
  {
    if s[o] != 0 {
      CStrGrows(s, o + 1, more);
    }
  }

  // ---- tokens as items --------------------------------------------------------------------

  function Item1(t: Token, strs: Bytes): seq<Item> {
    match t
    case BeginNode(name, _) => [Open(name)]
    case EndNode => [Close]
    case Prop(nameoff, val, _) => [Attr(Property(CStr(strs, nameoff), val))]
    case _ => []
  }

  function Items(ts: Tokens, strs: Bytes): seq<Item> {
    if ts == [] then [] else Item1(ts[0], strs) + Items(ts[1..], strs)
  }

  lemma {:induction false} ItemsAppend(a: Tokens, b: Tokens, strs: Bytes)
    ensures Items(a + b, strs) == Items(a, strs) + Items(b, strs)
  {
    hide Item1;
    if a == [] {
      assert a + b == b;
    } else {
      ItemsAppend(a[1..], b, strs);
      assert (a + b)[1..] == a[1..] + b;
      Assoc(Item1(a[0], strs), Items(a[1..], strs), Items(b, strs));
    }
  }

  lemma ItemsOne(t: Token, strs: Bytes)
    ensures Items([t], strs) == Item1(t, strs)
  {
    hide Item1;
    assert Items([t], strs) == Item1(t, strs) + Items([], strs);
  }

  lemma ItemsSplit(ts: Tokens, i: int, strs: Bytes)
    requires 0 <= i <= |ts|
    ensures Items(ts, strs) == Items(ts[..i], strs) + Items(ts[i..], strs)
  {
    assert ts == ts[..i] + ts[i..];
    ItemsAppend(ts[..i], ts[i..], strs);
  }

  lemma ItemsStep(ts: Tokens, i: int, strs: Bytes)
    requires 0 <= i < |ts|
    ensures Items(ts[..i + 1], strs) == Items(ts[..i], strs) + Item1(ts[i], strs)
    ensures Items(ts[i..], strs) == Item1(ts[i], strs) + Items(ts[i + 1..], strs)
  {
    hide Item1;
    assert ts[..i + 1] == ts[..i] + [ts[i]] && ts[i..] == [ts[i]] + ts[i + 1..];
    ItemsAppend(ts[..i], [ts[i]], strs);
    ItemsAppend([ts[i]], ts[i + 1..], strs);
    ItemsOne(ts[i], strs);
  }

  predicate Named(ts: Tokens, strs: Bytes) {
    forall i :: 0 <= i < |ts| && ts[i].Prop? ==> ts[i].nameoff < |strs|
  }

  /** Adding strings at the end renames nothing. */
  lemma {:induction false} ItemsGrow(ts: Tokens, strs: Bytes, more: Bytes)
    requires AllFormed(ts) && Named(ts, strs) && Terminated(strs)
    ensures Items(ts, strs + more) == Items(ts, strs)
  {
    if ts != [] {
      if ts[0].Prop? { CStrGrows(strs, ts[0].nameoff, more); }
      ItemsGrow(ts[1..], strs, more);
    }
  }

  // ---- blocks that hold a forest ------------------------------------------------------------

  /** The tokens are well-formed, stop once, at their end, and spell out the forest f. */
  predicate Reads(ts: Tokens, strs: Bytes, f: seq<Node>) {
    && AllFormed(ts) && Named(ts, strs) && Terminated(strs)
    && StopsOnce(ts)
    && Items(ts, strs) == FlatAll(f)
  }

  predicate StopsOnce(ts: Tokens) {
    && ts != []
    && forall i :: 0 <= i < |ts| ==> (ts[i].Stop? <==> i == |ts| - 1)
  }

  /** The forest a block holds is fixed by its bytes. */
  lemma ReadsOneForest(ts: Tokens, strs: Bytes, f: seq<Node>, g: seq<Node>)
    requires Reads(ts, strs, f) && Reads(ts, strs, g)
    ensures f == g
  {
    OneReading(f, g);
  }

  /** Begins minus ends among the first m tokens. */
  function Nest(ts: Tokens, m: int): int
    requires 0 <= m <= |ts|
    decreases m
  {
    if m == 0 then 0 else Nest(ts, m - 1) + Turn(ts[m - 1])
  }

  function Turn(t: Token): int {
    if t.BeginNode? then 1 else if t.EndNode? then -1 else 0
  }

  lemma TurnLevel(t: Token, strs: Bytes)
    ensures Level(Item1(t, strs)) == Turn(t)
  {
    var s := Item1(t, strs);
    assert |s| == 1 ==> s[..0] == [];
  }

  lemma NoLevel(ts: Tokens, strs: Bytes)
    ensures Level(Items(ts[..0], strs)) == 0
  {
    assert ts[..0] == [];
  }

  lemma {:induction false} NestLevel(ts: Tokens, m: int, strs: Bytes)
    requires 0 <= m <= |ts|
    ensures Nest(ts, m) == Level(Items(ts[..m], strs))
  {
    hide Items, Item1, Level, Turn;
    if m == 0 {
      NoLevel(ts, strs);
    } else {
      NestLevel(ts, m - 1, strs);
      ItemsStep(ts, m - 1, strs);
      LevelAppend(Items(ts[..m - 1], strs), Item1(ts[m - 1], strs));
      TurnLevel(ts[m - 1], strs);
    }
  }

  lemma {:induction false} ItemsMonotone(ts: Tokens, i: int, j: int, strs: Bytes)
    requires 0 <= i <= j <= |ts|
    ensures |Items(ts[..i], strs)| <= |Items(ts[..j], strs)|
    decreases j - i
  {
    if i < j {
      ItemsMonotone(ts, i, j - 1, strs);
      ItemsStep(ts, j - 1, strs);
    }
  }

  /** Some token starts at every item. */
  lemma {:induction false} Reach(ts: Tokens, m: int, k: int, strs: Bytes) returns (i: int)
    requires 0 <= k <= |ts| && 0 <= m < |Items(ts[..k], strs)|
    ensures 0 <= i < k && |Items(ts[..i], strs)| == m && |Item1(ts[i], strs)| == 1
    decreases k
  {
    ItemsStep(ts, k - 1, strs);
    if m < |Items(ts[..k - 1], strs)| {
      i := Reach(ts, m, k - 1, strs);
    } else {
      i := k - 1;
    }
  }

  // ---- nodes --------------------------------------------------------------------------------

  /** The path of the node that begins at token i. */
  function PathAt(ts: Tokens, strs: Bytes, f: seq<Node>, i: int): Path
    requires 0 <= i <= |ts|
  {
    PathTo(f, |Items(ts[..i], strs)|)
  }

  predicate IsNode(ts: Tokens, i: int) {
    0 <= i < |ts| && ts[i].BeginNode?
  }

  lemma NodeHere(ts: Tokens, strs: Bytes, f: seq<Node>, i: int)
    requires Reads(ts, strs, f) && IsNode(ts, i)
    ensures IsPath(f, PathAt(ts, strs, f, i)) && |PathAt(ts, strs, f, i)| == Nest(ts, i) + 1
    ensures At(f, PathAt(ts, strs, f, i)).name == ts[i].name
    ensures Items(ts[..i], strs) == Before(f, PathAt(ts, strs, f, i))
    ensures Items(ts[i..], strs) == Flat(At(f, PathAt(ts, strs, f, i))) + After(f, PathAt(ts, strs, f, i))
  {
    var a, b, p := Items(ts[..i], strs), Items(ts[i..], strs), PathAt(ts, strs, f, i);
    ItemsSplit(ts, i, strs);
    ItemsStep(ts, i, strs);
    assert b[0] == Open(ts[i].name);
    NestLevel(ts, i, strs);
    assert FlatAll(f) == a + b;
    hide *;
    NodeAtCut(f, a, b);
  }

  lemma NodeAtCut(f: seq<Node>, a: seq<Item>, b: seq<Item>)
    requires FlatAll(f) == a + b && b != [] && b[0].Open?
    ensures IsPath(f, PathTo(f, |a|)) && |PathTo(f, |a|)| == Level(a) + 1
    ensures At(f, PathTo(f, |a|)).name == b[0].name
    ensures a == Before(f, PathTo(f, |a|)) && b == Flat(At(f, PathTo(f, |a|))) + After(f, PathTo(f, |a|))
  {
    hide FlatAll, Flat, Level, PathTo, Before, After, IsPath, At;
    PathToFinds(f, |a|);
    var p := PathTo(f, |a|);
    Parts(f, p);
    BeforeLevel(f, p);
    Assoc(Before(f, p), Flat(At(f, p)), After(f, p));
    SameCut(a, b, Before(f, p), Flat(At(f, p)) + After(f, p), FlatAll(f));
    FlatStart(At(f, p));
  }

  lemma FlatStart(n: Node)
    ensures Flat(n)[0] == Open(n.name)
  {
  }

  lemma SameCut<T>(a: seq<T>, b: seq<T>, c: seq<T>, d: seq<T>, s: seq<T>)
    requires a + b == s && (c + d == s) && |a| == |c|
    ensures a == c && b == d
  {
    assert a == s[..|a|] && b == s[|a|..];
    assert c == s[..|a|] && d == s[|a|..];
  }

  lemma HeadCut<T>(d: seq<T>, r: seq<T>, x: seq<T>, y: seq<T>)
    requires d + r == x + y && |d| <= |x|
    ensures d == x[..|d|]
  {
    assert d == (d + r)[..|d|] && x[..|d|] == (x + y)[..|d|];
  }

  /** Every node has a token. */
  lemma NodeToken(ts: Tokens, strs: Bytes, f: seq<Node>, p: Path) returns (i: int)
    requires Reads(ts, strs, f) && IsPath(f, p)
    ensures IsNode(ts, i) && PathAt(ts, strs, f, i) == p
  {
    var k := |Before(f, p)|;
    Parts(f, p);
    FlatStart(At(f, p));
    assert FlatAll(f)[k] == Flat(At(f, p))[0];
    hide FlatAll, Flat, Before;
    assert ts[..|ts|] == ts;
    i := Reach(ts, k, |ts|, strs);
    ItemsSplit(ts, i, strs);
    ItemsStep(ts, i, strs);
    PathToBefore(f, p);
    assert Items(ts, strs)[k] == Item1(ts[i], strs)[0];
  }

  /** Tokens i to j are the node that begins at i: j is the first place where the nesting is back where
      it was at i. */
  predicate Spans(ts: Tokens, i: int, j: int) {
    && 0 <= i < j <= |ts| && Nest(ts, j) == Nest(ts, i)
    && forall m :: i < m < j ==> Nest(ts, m) > Nest(ts, i)
  }

  lemma NodeSpan(ts: Tokens, strs: Bytes, f: seq<Node>, i: int, j: int)
    requires Reads(ts, strs, f) && IsNode(ts, i) && Spans(ts, i, j)
    ensures IsPath(f, PathAt(ts, strs, f, i))
    ensures Items(ts[i..j], strs) == Flat(At(f, PathAt(ts, strs, f, i)))
    ensures Items(ts[..j], strs) == Before(f, PathAt(ts, strs, f, i)) + Flat(At(f, PathAt(ts, strs, f, i)))
    ensures Items(ts[j..], strs) == After(f, PathAt(ts, strs, f, i))
  {
    hide Reads, PathAt, IsPath, At, Level, Items;
    var p := PathAt(ts, strs, f, i);
    NodeHere(ts, strs, f, i);
    hide Before, After, Flat;
    var n := At(f, p);
    var a, d, r := Items(ts[..i], strs), Items(ts[i..j], strs), Items(ts[j..], strs);
    assert ts[..j][..i] == ts[..i] && ts[..j][i..] == ts[i..j];
    ItemsSplit(ts[..j], i, strs);
    assert ts[i..][..j - i] == ts[i..j] && ts[i..][j - i..] == ts[j..];
    ItemsSplit(ts[i..], j - i, strs);
    SpanNotShort(ts, strs, n, After(f, p), i, j);
    SpanNotLong(ts, strs, n, After(f, p), i, j);
    SameCut(d, r, Flat(n), After(f, p), Items(ts[i..], strs));
  }

  lemma SpanNotShort(ts: Tokens, strs: Bytes, n: Node, after: seq<Item>, i: int, j: int)
    requires IsNode(ts, i) && Spans(ts, i, j) && Items(ts[i..], strs) == Flat(n) + after
    ensures |Items(ts[i..j], strs)| >= |Flat(n)|
  {
    hide Items, Flat, Level;
    var d := Items(ts[i..j], strs);
    assert ts[i..][..j - i] == ts[i..j] && ts[..j][..i] == ts[..i] && ts[..j][i..] == ts[i..j];
    ItemsSplit(ts[i..], j - i, strs);
    ItemsSplit(ts[..j], i, strs);
    NestLevel(ts, i, strs);
    NestLevel(ts, j, strs);
    LevelAppend(Items(ts[..i], strs), d);
    assert |d| > 0 by { ItemsStep(ts[i..j], 0, strs); assert ts[i..j][0..] == ts[i..j]; }
    if |d| < |Flat(n)| {
      HeadCut(d, Items(ts[i..][j - i..], strs), Flat(n), after);
      FlatLevel(n, |d|);
      assert false;
    }
  }

  lemma SpanNotLong(ts: Tokens, strs: Bytes, n: Node, after: seq<Item>, i: int, j: int)
    requires IsNode(ts, i) && Spans(ts, i, j) && Items(ts[i..], strs) == Flat(n) + after
    ensures |Items(ts[i..j], strs)| <= |Flat(n)|
  {
    hide Items, Flat, Level;
    if |Items(ts[i..j], strs)| > |Flat(n)| {
      var k := Reach(ts[i..j], |Flat(n)|, j - i, strs) by { assert ts[i..j][..j - i] == ts[i..j]; }
      var d := Items(ts[i..i + k], strs);
      assert ts[i..j][..k] == ts[i..i + k];
      assert ts[i..][..k] == ts[i..i + k] && ts[..i + k][..i] == ts[..i] && ts[..i + k][i..] == ts[i..i + k];
      ItemsSplit(ts[i..], k, strs);
      ItemsSplit(ts[..i + k], i, strs);
      HeadCut(d, Items(ts[i..][k..], strs), Flat(n), after);
      assert Flat(n)[..|Flat(n)|] == Flat(n);
      FlatLevel(n, |Flat(n)|);
      LevelAppend(Items(ts[..i], strs), d);
      NestLevel(ts, i, strs);
      NestLevel(ts, i + k, strs);
      assert false;
    }
  }

  // ---- properties -----------------------------------------------------------------------------

  /** Tokens i + 1 to q - 1, behind the begin of a node, are properties and NOPs. */
  predicate PropRun(ts: Tokens, i: int, q: int) {
    && 0 <= i < q <= |ts|
    && forall m :: i < m < q ==> ts[m].Prop? || ts[m].Nop?
  }

  /** How many properties such a run holds. */
  function PropCount(ts: Tokens, i: int, q: int): (c: int)
    requires 0 <= i < q <= |ts|
    ensures 0 <= c
    decreases q
  {
    if q == i + 1 then 0 else PropCount(ts, i, q - 1) + if ts[q - 1].Prop? then 1 else 0
  }

  predicate OnlyAttrs(s: seq<Item>) {
    forall k :: 0 <= k < |s| ==> s[k].Attr?
  }

  lemma RunMore(ts: Tokens, strs: Bytes, i: int, q: int)
    requires PropRun(ts, i, q) && q > i + 1
    ensures Items(ts[i + 1..q], strs) == Items(ts[i + 1..q - 1], strs) + Item1(ts[q - 1], strs)
    ensures if ts[q - 1].Prop? then |Item1(ts[q - 1], strs)| == 1 && Item1(ts[q - 1], strs)[0].Attr? else Item1(ts[q - 1], strs) == []
  {
    hide Items;
    var s := ts[i + 1..q];
    assert s[..|s| - 1] == ts[i + 1..q - 1] && s[..|s|] == s;
    ItemsStep(s, |s| - 1, strs);
  }

  lemma NoItems(ts: Tokens, strs: Bytes)
    requires ts == []
    ensures Items(ts, strs) == []
  {
  }

  lemma {:induction false} RunItems(ts: Tokens, strs: Bytes, i: int, q: int)
    requires PropRun(ts, i, q)
    ensures |Items(ts[i + 1..q], strs)| == PropCount(ts, i, q)
    ensures OnlyAttrs(Items(ts[i + 1..q], strs))
    decreases q
  {
    hide Items;
    if q > i + 1 {
      RunItems(ts, strs, i, q - 1);
      RunMore(ts, strs, i, q);
    } else {
      NoItems(ts[i + 1..q], strs);
    }
  }

  /** The items of a node from its property c on. */
  function Rest(n: Node, c: int): seq<Item>
    requires 0 <= c <= |n.props|
  {
    Attrs(n.props[c..]) + (FlatAll(n.kids) + [Close])
  }

  function Lead(n: Node, c: int): seq<Item>
    requires 0 <= c <= |n.props|
  {
    [Open(n.name)] + Attrs(n.props[..c])
  }

  lemma {:induction false} AttrsAppend(a: seq<Property>, b: seq<Property>)
    ensures Attrs(a + b) == Attrs(a) + Attrs(b)
  {
    if a == [] {
      assert a + b == b;
    } else {
      AttrsAppend(a[1..], b);
      assert (a + b)[1..] == a[1..] + b;
    }
  }

  lemma Assoc4<T>(o: seq<T>, a: seq<T>, b: seq<T>, k: seq<T>, c: seq<T>)
    ensures o + (a + b) + k + c == (o + a) + (b + (k + c))
  {
  }

  lemma LeadRest(n: Node, c: int)
    requires 0 <= c <= |n.props|
    ensures Flat(n) == Lead(n, c) + Rest(n, c)
  {
    hide FlatAll, Attrs, Flat;
    FlatForm(n);
    var a, b := n.props[..c], n.props[c..];
    assert n.props == a + b;
    AttrsAppend(a, b);
    Assoc4([Open(n.name)], Attrs(a), Attrs(b), FlatAll(n.kids), [Close]);
  }

  /** The properties of a node are read in order, and all of them before anything else. */
  lemma PropsRead(ts: Tokens, strs: Bytes, f: seq<Node>, i: int, q: int)
    requires Reads(ts, strs, f) && IsNode(ts, i) && PropRun(ts, i, q)
    ensures IsPath(f, PathAt(ts, strs, f, i)) && PropCount(ts, i, q) <= |At(f, PathAt(ts, strs, f, i)).props|
    ensures var p := PathAt(ts, strs, f, i);
      Items(ts[..q], strs) == Before(f, p) + Lead(At(f, p), PropCount(ts, i, q)) && Items(ts[q..], strs) == Rest(At(f, p), PropCount(ts, i, q)) + After(f, p)
  {
    hide Reads, PathAt, IsPath, At, Items, PropCount, Attrs, Before, After, Flat;
    var p, c := PathAt(ts, strs, f, i), PropCount(ts, i, q);
    NodeHere(ts, strs, f, i);
    var n := At(f, p);
    RunItems(ts, strs, i, q);
    var d, r := Items(ts[i + 1..q], strs), Items(ts[q..], strs);
    ItemsStep(ts, i, strs);
    assert ts[i + 1..][..q - i - 1] == ts[i + 1..q] && ts[i + 1..][q - i - 1..] == ts[q..];
    ItemsSplit(ts[i + 1..], q - i - 1, strs);
    assert ts[..q][..i + 1] == ts[..i + 1] && ts[..q][i + 1..] == ts[i + 1..q];
    ItemsSplit(ts[..q], i + 1, strs);
    assert [Open(n.name)] + (d + r) == Flat(n) + After(f, p);
    RunCut(n, d, r, After(f, p));
    Assoc(Before(f, p), [Open(n.name)], d);
  }

  lemma RunCut(n: Node, d: seq<Item>, r: seq<Item>, after: seq<Item>)
    requires [Open(n.name)] + (d + r) == Flat(n) + after
    requires OnlyAttrs(d)
    ensures |d| <= |n.props|
    ensures [Open(n.name)] + d == Lead(n, |d|) && r == Rest(n, |d|) + after
  {
    LeadRest(n, |n.props|);
    var s := Flat(n) + after;
    RestHead(n);
    assert s[1 + |n.props|] == Rest(n, |n.props|)[0];
    if |d| > |n.props| {
      IndexIn(Open(n.name), d, r, |n.props|);
      assert false;
    } else {
      LeadRest(n, |d|);
      SameCut([Open(n.name)] + d, r, Lead(n, |d|), Rest(n, |d|) + after, s);
    }
  }

  lemma IndexIn<T>(o: T, d: seq<T>, r: seq<T>, k: int)
    requires 0 <= k < |d|
    ensures ([o] + (d + r))[1 + k] == d[k]
  {
  }

  lemma RestHead(n: Node)
    ensures Rest(n, |n.props|) != [] && !Rest(n, |n.props|)[0].Attr?
  {
    assert n.props[|n.props|..] == [];
    FlatHead(n.kids, [Close]);
  }

  /** A property token read in the run is the node's next property; any other token but a NOP comes
      after the last of them. */
  lemma PropRead(ts: Tokens, strs: Bytes, f: seq<Node>, i: int, q: int)
    requires Reads(ts, strs, f) && IsNode(ts, i) && PropRun(ts, i, q) && q < |ts| && !ts[q].Nop?
    ensures IsPath(f, PathAt(ts, strs, f, i)) && !ts[q].Stop?
    ensures ts[q].Prop? <==> PropCount(ts, i, q) < |At(f, PathAt(ts, strs, f, i)).props|
    ensures ts[q].Prop? ==>
      At(f, PathAt(ts, strs, f, i)).props[PropCount(ts, i, q)] == Property(CStr(strs, ts[q].nameoff), ts[q].val)
  {
    assert ts[q].Stop? ==> Items(ts[q + 1..], strs) == [];
    PropsRead(ts, strs, f, i, q);
    ItemsStep(ts, q, strs);
    var p := PathAt(ts, strs, f, i);
    hide Reads, PathAt, IsPath, At, Items, PropCount, PropRun, Attrs, Before, After, Flat, Rest;
    RestStart(At(f, p), PropCount(ts, i, q), Item1(ts[q], strs), Items(ts[q + 1..], strs), After(f, p));
  }

  lemma RestStart(n: Node, c: int, x: seq<Item>, y: seq<Item>, after: seq<Item>)
    requires 0 <= c <= |n.props| && x + y == Rest(n, c) + after && |x| <= 1
    ensures x == [] ==> y != []
    ensures |x| == 1 ==> (x[0].Attr? <==> c < |n.props|)
    ensures |x| == 1 && x[0].Attr? ==> c < |n.props| && x[0] == Attr(n.props[c])
  {
    hide FlatAll;
    var s := Rest(n, c) + after;
    if c < |n.props| {
      AttrsAt(n.props[c..], 0);
    } else {
      RestHead(n);
    }
    assert s[0] == Rest(n, c)[0];
    assert |x| == 1 ==> s[0] == x[0];
  }

  // ---- edits ----------------------------------------------------------------------------------

  /** Tokens q to r of ts replaced by put. */
  function Cut(ts: Tokens, q: int, r: int, put: Tokens): Tokens
    requires 0 <= q <= r <= |ts|
  {
    ts[..q] + put + ts[r..]
  }

  predicate Placeable(put: Tokens, strs: Bytes) {
    && AllFormed(put) && Named(put, strs)
    && forall i :: 0 <= i < |put| ==> !put[i].Stop?
  }

  lemma CutFormed(ts: Tokens, strs: Bytes, q: int, r: int, put: Tokens)
    requires AllFormed(ts) && Named(ts, strs) && StopsOnce(ts) && 0 <= q <= r < |ts| && Placeable(put, strs)
    ensures AllFormed(Cut(ts, q, r, put)) && Named(Cut(ts, q, r, put), strs) && StopsOnce(Cut(ts, q, r, put))
  {
    hide WellFormed;
  }

  /** The items u .. v of the node at p become those of ns: the forest has ns in the node's place. */
  lemma Edited(ts: Tokens, strs: Bytes, f: seq<Node>, p: Path, q: int, r: int, put: Tokens, u: seq<Item>, v: seq<Item>, ns: seq<Node>)
    requires Reads(ts, strs, f) && IsPath(f, p) && 0 <= q <= r < |ts| && Placeable(put, strs)
    requires Items(ts[..q], strs) == Before(f, p) + u && Items(ts[r..], strs) == v + After(f, p)
    requires u + Items(put, strs) + v == FlatAll(ns)
    ensures Reads(Cut(ts, q, r, put), strs, Replace(f, p, ns))
  {
    CutFormed(ts, strs, q, r, put);
    hide Items, Before, After, FlatAll, IsPath, Replace, AllFormed, Named, Terminated, StopsOnce;
    ItemsAppend(ts[..q] + put, ts[r..], strs);
    ItemsAppend(ts[..q], put, strs);
    ReplaceParts(f, p, ns);
    EditedItems(Before(f, p), u, Items(put, strs), v, After(f, p));
  }

  lemma EditedItems<T>(b: seq<T>, u: seq<T>, m: seq<T>, v: seq<T>, a: seq<T>)
    ensures (b + u) + m + (v + a) == b + (u + m + v) + a
  {
  }

  /** Putting other property tokens in a node's run changes that stretch of its properties. */
  lemma PropsEdited(ts: Tokens, strs: Bytes, f: seq<Node>, i: int, q: int, r: int, put: Tokens, ps: seq<Property>)
    requires Reads(ts, strs, f) && IsNode(ts, i) && PropRun(ts, i, q) && PropRun(ts, i, r) && q <= r < |ts|
    requires Placeable(put, strs) && Items(put, strs) == Attrs(ps)
    ensures IsPath(f, PathAt(ts, strs, f, i)) && PropCount(ts, i, q) <= |At(f, PathAt(ts, strs, f, i)).props|
    ensures PropCount(ts, i, r) <= |At(f, PathAt(ts, strs, f, i)).props|
    ensures var n := At(f, PathAt(ts, strs, f, i));
      Reads(Cut(ts, q, r, put), strs,
        Replace(f, PathAt(ts, strs, f, i), [n.(props := n.props[..PropCount(ts, i, q)] + ps + n.props[PropCount(ts, i, r)..])]))
  {
    hide Reads, Items, Placeable, PathAt, IsPath, At, Before, After, Flat, FlatAll, Lead, Rest, Cut, Replace;
    PropsRead(ts, strs, f, i, q);
    PropsRead(ts, strs, f, i, r);
    var p, c, e := PathAt(ts, strs, f, i), PropCount(ts, i, q), PropCount(ts, i, r);
    var n := At(f, p);
    var m := n.(props := n.props[..c] + ps + n.props[e..]);
    NewProps(n, c, e, ps);
    FlatOne(m);
    Edited(ts, strs, f, p, q, r, put, Lead(n, c), Rest(n, e), [m]);
  }

  lemma NewProps(n: Node, c: int, e: int, ps: seq<Property>)
    requires 0 <= c <= |n.props| && 0 <= e <= |n.props|
    ensures Lead(n, c) + Attrs(ps) + Rest(n, e) == Flat(n.(props := n.props[..c] + ps + n.props[e..]))
  {
    var m := n.(props := n.props[..c] + ps + n.props[e..]);
    LeadRest(m, c + |ps|);
    assert m.props[..c + |ps|] == n.props[..c] + ps && m.props[c + |ps|..] == n.props[e..];
    AttrsAppend(n.props[..c], ps);
    hide Attrs, FlatAll, Flat;
    Assoc([Open(n.name)], Attrs(n.props[..c]), Attrs(ps));
  }

  /** A node put in behind the properties becomes the first child. */
  lemma KidAdded(ts: Tokens, strs: Bytes, f: seq<Node>, i: int, q: int, name: Bytes, pad: Bytes)
    requires Reads(ts, strs, f) && IsNode(ts, i) && PropRun(ts, i, q) && q < |ts| && !ts[q].Prop? && !ts[q].Nop?
    requires WellFormed(BeginNode(name, pad))
    ensures IsPath(f, PathAt(ts, strs, f, i))
    ensures var n := At(f, PathAt(ts, strs, f, i));
      Reads(Cut(ts, q, q, [BeginNode(name, pad), EndNode]), strs, Replace(f, PathAt(ts, strs, f, i), [n.(kids := [Node(name, [], [])] + n.kids)]))
  {
    var put := [BeginNode(name, pad), EndNode];
    KidTokens(name, pad, strs);
    hide Placeable, Reads, Items, PathAt, IsPath, At, Before, After, Flat, FlatAll, Lead, Rest, Cut, Replace, WellFormed;
    PropsRead(ts, strs, f, i, q);
    PropRead(ts, strs, f, i, q);
    var p, c := PathAt(ts, strs, f, i), PropCount(ts, i, q);
    var n := At(f, p);
    var m := n.(kids := [Node(name, [], [])] + n.kids);
    NewKid(n, name);
    FlatOne(m);
    Edited(ts, strs, f, p, q, q, put, Lead(n, c), Rest(n, c), [m]);
  }

  lemma KidTokens(name: Bytes, pad: Bytes, strs: Bytes)
    requires WellFormed(BeginNode(name, pad))
    ensures Placeable([BeginNode(name, pad), EndNode], strs)
    ensures Items([BeginNode(name, pad), EndNode], strs) == [Open(name), Close]
  {
    var put := [BeginNode(name, pad), EndNode];
    ItemsStep(put, 0, strs);
    ItemsStep(put, 1, strs);
    assert put[0..] == put && put[2..] == [];
    hide Item1;
    assert Items([], strs) == [];
    assert Item1(put[0], strs) == [Open(name)] && Item1(put[1], strs) == [Close] by { Item1Ends(put[0], strs); Item1Ends(put[1], strs); }
  }

  lemma Item1Ends(t: Token, strs: Bytes)
    ensures t.BeginNode? ==> Item1(t, strs) == [Open(t.name)]
    ensures t.EndNode? ==> Item1(t, strs) == [Close]
  {
  }

  lemma NewKid(n: Node, name: Bytes)
    ensures Lead(n, |n.props|) + [Open(name), Close] + Rest(n, |n.props|) == Flat(n.(kids := [Node(name, [], [])] + n.kids))
  {
    var k := Node(name, [], []);
    FlatAppend([k], n.kids);
    FlatOne(k);
    assert Flat(k) == [Open(name), Close];
    LeadRest(n.(kids := [k] + n.kids), |n.props|);
    assert n.props[|n.props|..] == [] && n.props[..|n.props|] == n.props;
    hide Flat, FlatAll;
  }

  /** A node's tokens taken out, or overwritten with NOPs: the forest without that node. */
  lemma NodeCut(ts: Tokens, strs: Bytes, f: seq<Node>, i: int, j: int, put: Tokens)
    requires Reads(ts, strs, f) && IsNode(ts, i) && Spans(ts, i, j)
    requires AllFormed(put) && forall m :: 0 <= m < |put| ==> put[m].Nop?
    ensures j < |ts| && IsPath(f, PathAt(ts, strs, f, i))
    ensures Reads(Cut(ts, i, j, put), strs, Replace(f, PathAt(ts, strs, f, i), []))
  {
    SpanInside(ts, strs, f, i, j);
    NodeHere(ts, strs, f, i);
    NodeSpan(ts, strs, f, i, j);
    NopsSilent(put, strs);
    assert Placeable(put, strs);
    var p := PathAt(ts, strs, f, i);
    assert FlatAll([]) == [];
    hide Reads, Items, PathAt, IsPath, At, Before, After, Flat, FlatAll, Cut, Replace, WellFormed, Placeable;
    Edited(ts, strs, f, p, i, j, put, [], [], []);
  }

  lemma {:induction false} NopsSilent(put: Tokens, strs: Bytes)
    requires forall m :: 0 <= m < |put| ==> put[m].Nop?
    ensures Items(put, strs) == []
  {
    if put != [] { NopsSilent(put[1..], strs); }
  }

  lemma SpanInside(ts: Tokens, strs: Bytes, f: seq<Node>, i: int, j: int)
    requires Reads(ts, strs, f) && IsNode(ts, i) && Spans(ts, i, j)
    ensures j < |ts|
  {
    assert ts[|ts| - 1].Stop?;
    assert Nest(ts, |ts|) == Nest(ts, |ts| - 1);
  }

  lemma NodeRenamed(ts: Tokens, strs: Bytes, f: seq<Node>, i: int, name: Bytes, pad: Bytes)
    requires Reads(ts, strs, f) && IsNode(ts, i) && WellFormed(BeginNode(name, pad))
    ensures i + 1 < |ts| && IsPath(f, PathAt(ts, strs, f, i))
    ensures Reads(Cut(ts, i, i + 1, [BeginNode(name, pad)]), strs, Replace(f, PathAt(ts, strs, f, i), [At(f, PathAt(ts, strs, f, i)).(name := name)]))
  {
    assert i + 1 < |ts|;
    var put := [BeginNode(name, pad)];
    ItemsOne(put[0], strs);
    assert Placeable(put, strs);
    NodeHere(ts, strs, f, i);
    PropsRead(ts, strs, f, i, i + 1);
    hide Reads, Items, PathAt, IsPath, At, Before, After, Flat, FlatAll, Lead, Rest, Cut, Replace, WellFormed, Placeable;
    var p := PathAt(ts, strs, f, i);
    var n := At(f, p);
    var m := n.(name := name);
    FlatOne(m);
    NewName(n, name);
    assert Before(f, p) + [] == Before(f, p);
    Edited(ts, strs, f, p, i, i + 1, put, [], Rest(n, 0), [m]);
  }

  lemma NewName(n: Node, name: Bytes)
    ensures [] + [Open(name)] + Rest(n, 0) == Flat(n.(name := name))
  {
    LeadRest(n.(name := name), 0);
    assert n.props[..0] == [];
    hide Rest, Flat;
  }

  /** New strings at the end of the strings block change nothing that is read. */
  lemma StringsAdded(ts: Tokens, strs: Bytes, f: seq<Node>, more: Bytes)
    requires Reads(ts, strs, f) && Terminated(more)
    ensures Reads(ts, strs + more, f)
  {
    ItemsGrow(ts, strs, more);
    assert more == [] ==> strs + more == strs;
  }

  // ---- scanning ---------------------------------------------------------------------------------

  datatype Step = Found(at: int, depth: int) | Past(at: int, depth: int) | Ended

  /** What fdt_next_node meets from token k on, starting at depth d: the next node, the place where the
      depth falls below zero if that is watched, or the end of the tokens. */
  function Scan(ts: Tokens, k: int, d: int, watch: bool): (s: Step)
    requires 0 <= k <= |ts|
    decreases |ts| - k
  {
    if k >= |ts| || ts[k].Stop? then Ended
    else if ts[k].BeginNode? then Found(k, d + 1)
    else if ts[k].EndNode? && watch && d <= 0 then Past(k + 1, d - 1)
    else Scan(ts, k + 1, d + Turn(ts[k]), watch)
  }

  lemma {:induction false} ScanFound(ts: Tokens, k: int, d: int, watch: bool)
    requires 0 <= k <= |ts| && Scan(ts, k, d, watch).Found?
    ensures var s := Scan(ts, k, d, watch); k <= s.at && IsNode(ts, s.at) && s.depth == d + Nest(ts, s.at + 1) - Nest(ts, k)
    ensures forall m :: k <= m < Scan(ts, k, d, watch).at ==> !IsNode(ts, m)
    ensures watch && d >= 0 ==> forall m :: k <= m <= Scan(ts, k, d, watch).at ==> d + Nest(ts, m) - Nest(ts, k) >= 0
    decreases |ts| - k
  {
    if !ts[k].BeginNode? {
      ScanFound(ts, k + 1, d + Turn(ts[k]), watch);
    }
  }

  lemma {:induction false} ScanPast(ts: Tokens, k: int, d: int)
    requires 0 <= k <= |ts| && 0 <= d && Scan(ts, k, d, true).Past?
    ensures var s := Scan(ts, k, d, true); k < s.at <= |ts| && s.depth == -1 && d + Nest(ts, s.at) - Nest(ts, k) == -1
    ensures forall m :: k <= m < Scan(ts, k, d, true).at ==> !IsNode(ts, m) && d + Nest(ts, m) - Nest(ts, k) >= 0
    decreases |ts| - k
  {
    if !(ts[k].EndNode? && d <= 0) {
      ScanPast(ts, k + 1, d + Turn(ts[k]));
    }
  }

  lemma {:induction false} ScanEnded(ts: Tokens, k: int, d: int, watch: bool)
    requires 0 <= k < |ts| && StopsOnce(ts) && Scan(ts, k, d, watch).Ended?
    ensures forall m :: k <= m < |ts| ==> !IsNode(ts, m)
    ensures watch && d >= 0 ==> forall m :: k <= m < |ts| ==> d + Nest(ts, m) - Nest(ts, k) >= 0
    decreases |ts| - k
  {
    if !ts[k].Stop? {
      ScanEnded(ts, k + 1, d + Turn(ts[k]), watch);
    }
  }

  /** The nesting never falls below zero and is zero at the end. */
  lemma NestBounds(ts: Tokens, strs: Bytes, f: seq<Node>, m: int)
    requires Reads(ts, strs, f) && 0 <= m < |ts|
    ensures Nest(ts, m) >= 0 && (m == |ts| - 1 ==> Nest(ts, m) == 0)
  {
    var a, n := Items(ts[..m], strs), |ts| - 1;
    NestLevel(ts, m, strs);
    ItemsSplit(ts, m, strs);
    ItemsStep(ts, n, strs);
    ItemsSplit(ts, n, strs);
    assert Items(ts[n + 1..], strs) == [];
    assert FlatAll(f)[..|a|] == a;
    FlatAllLevel(f, |a|);
  }

  /** The first property of the run from token q on that has this name, or -1. */
  function FindProp(ts: Tokens, strs: Bytes, q: int, name: Bytes): (r: int)
    requires 0 <= q <= |ts|
    ensures r == -1 || (q <= r < |ts| && ts[r].Prop? && CStr(strs, ts[r].nameoff) == name)
    decreases |ts| - q
  {
    if q >= |ts| then -1
    else if ts[q].Nop? then FindProp(ts, strs, q + 1, name)
    else if !ts[q].Prop? then -1
    else if CStr(strs, ts[q].nameoff) == name then q
    else FindProp(ts, strs, q + 1, name)
  }

  /** The first token from q on that is not a NOP. */
  function NonNop(ts: Tokens, q: int): (r: int)
    requires 0 <= q <= |ts|
    ensures q <= r <= |ts| && (r < |ts| ==> !ts[r].Nop?)
    decreases |ts| - q
  {
    if q < |ts| && ts[q].Nop? then NonNop(ts, q + 1) else q
  }

  lemma {:induction false} NopRun(ts: Tokens, i: int, k: int)
    requires PropRun(ts, i, k)
    ensures PropRun(ts, i, NonNop(ts, k)) && (NonNop(ts, k) < |ts| && ts[NonNop(ts, k)].Prop? ==> PropRun(ts, i, NonNop(ts, k) + 1))
    ensures k < |ts| && ts[|ts| - 1].Stop? ==> NonNop(ts, k) < |ts|
    decreases |ts| - k
  {
    if k < |ts| && ts[k].Nop? { NopRun(ts, i, k + 1); }
  }

  lemma {:induction false} FindPropSkips(ts: Tokens, strs: Bytes, q: int, name: Bytes)
    requires 0 <= q <= |ts|
    ensures FindProp(ts, strs, q, name) == FindProp(ts, strs, NonNop(ts, q), name)
    decreases |ts| - q
  {
    if q < |ts| && ts[q].Nop? { FindPropSkips(ts, strs, q + 1, name); }
  }

  predicate NoneNamed(ps: seq<Property>, c: int, name: Bytes) {
    c <= |ps| && forall k :: 0 <= k < c ==> ps[k].name != name
  }

  /** Token r is the first property of that name among ps, the properties of the node at i; -1 if there is none. */
  predicate IsProp(ts: Tokens, i: int, r: int, ps: seq<Property>, name: Bytes) {
    if r < 0 then Index(ps, name) == -1
    else PropRun(ts, i, r) && PropRun(ts, i, r + 1) && PropCount(ts, i, r) == Index(ps, name) && PropCount(ts, i, r + 1) == PropCount(ts, i, r) + 1
  }

  /** The search through the tokens finds the node's property of that name. */
  lemma {:induction false} FindPropFrom(ts: Tokens, strs: Bytes, f: seq<Node>, i: int, q: int, name: Bytes)
    requires Reads(ts, strs, f) && IsNode(ts, i) && PropRun(ts, i, q) && q < |ts|
    requires IsPath(f, PathAt(ts, strs, f, i)) && NoneNamed(At(f, PathAt(ts, strs, f, i)).props, PropCount(ts, i, q), name)
    ensures IsProp(ts, i, FindProp(ts, strs, q, name), At(f, PathAt(ts, strs, f, i)).props, name)
    decreases |ts| - q
  {
    hide Reads, PathAt, IsPath, At, CStr, Index;
    var ps, c := At(f, PathAt(ts, strs, f, i)).props, PropCount(ts, i, q);
    if ts[q].Nop? {
      NotLast(ts, strs, f, q);
      hide NoneNamed, IsProp;
      FindPropFrom(ts, strs, f, i, q + 1, name);
    } else {
      PropRead(ts, strs, f, i, q);
      IndexIs(ps, name, c);
      if ts[q].Prop? && CStr(strs, ts[q].nameoff) != name {
        NotLast(ts, strs, f, q);
        hide IsProp;
        FindPropFrom(ts, strs, f, i, q + 1, name);
      }
    }
  }

  lemma FindPropIndex(ts: Tokens, strs: Bytes, f: seq<Node>, i: int, name: Bytes)
    requires Reads(ts, strs, f) && IsNode(ts, i)
    ensures i + 1 < |ts| && IsPath(f, PathAt(ts, strs, f, i))
    ensures IsProp(ts, i, FindProp(ts, strs, i + 1, name), At(f, PathAt(ts, strs, f, i)).props, name)
  {
    NodeHere(ts, strs, f, i);
    FindPropFrom(ts, strs, f, i, i + 1, name);
  }

  lemma NotLast(ts: Tokens, strs: Bytes, f: seq<Node>, q: int)
    requires Reads(ts, strs, f) && 0 <= q < |ts| && !ts[q].Stop?
    ensures q + 1 < |ts|
  {
  }

  // ---- finding the end of a node ------------------------------------------------------------------

  /** Between the begins at i and at k the node at i has not ended; d is k's depth below it. */
  predicate Climbs(ts: Tokens, i: int, k: int, d: int) {
    && 0 <= i <= k && IsNode(ts, i) && IsNode(ts, k)
    && d == Nest(ts, k + 1) - Nest(ts, i + 1) && d >= 0
    && forall m :: i < m <= k + 1 ==> Nest(ts, m) > Nest(ts, i)
  }

  lemma ClimbStart(ts: Tokens, i: int)
    requires IsNode(ts, i)
    ensures Climbs(ts, i, i, 0)
  {
  }

  lemma ClimbFound(ts: Tokens, i: int, k: int, d: int)
    requires Climbs(ts, i, k, d) && Scan(ts, k + 1, d, true).Found?
    ensures k < Scan(ts, k + 1, d, true).at && Climbs(ts, i, Scan(ts, k + 1, d, true).at, Scan(ts, k + 1, d, true).depth)
  {
    ScanFound(ts, k + 1, d, true);
    var j := Scan(ts, k + 1, d, true).at;
    hide Scan;
    forall m | i < m <= j + 1 ensures Nest(ts, m) > Nest(ts, i) {
      if k + 1 < m <= j {
        assert d + Nest(ts, m) - Nest(ts, k + 1) >= 0;
      }
    }
  }

  lemma ClimbPast(ts: Tokens, i: int, k: int, d: int)
    requires Climbs(ts, i, k, d) && Scan(ts, k + 1, d, true).Past?
    ensures Spans(ts, i, Scan(ts, k + 1, d, true).at)
  {
    ScanPast(ts, k + 1, d);
    hide Scan;
  }

  lemma ClimbNeverEnds(ts: Tokens, strs: Bytes, f: seq<Node>, i: int, k: int, d: int)
    requires Reads(ts, strs, f) && Climbs(ts, i, k, d)
    ensures k + 1 < |ts| && !Scan(ts, k + 1, d, true).Ended?
  {
    NestBounds(ts, strs, f, |ts| - 1);
    NestBounds(ts, strs, f, i);
    assert k + 1 < |ts|;
    if Scan(ts, k + 1, d, true).Ended? {
      ScanEnded(ts, k + 1, d, true);
      assert false;
    }
  }

  // ---- strings found or added ---------------------------------------------------------------------

  /** The string and its NUL stand at offset o of the strings block. */
  predicate Spells(strs: Bytes, o: int, name: Bytes) {
    0 <= o && o + |name| < |strs| && strs[o..o + |name|] == name && strs[o + |name|] == 0
  }

  lemma SpellsIs(strs: Bytes, o: int, name: Bytes)
    requires Terminated(strs) && 0 <= o < |strs| && 0 !in name
    ensures Spells(strs, o, name) <==> CStr(strs, o) == name
  {
    CStrFits(strs, o);
    if Spells(strs, o, name) { CStrIs(strs, o, name); }
  }

  /** Some place in the strings block spells the name. */
  predicate Spelt(strs: Bytes, name: Bytes) {
    exists o :: 0 <= o < |strs| && CStr(strs, o) == name
  }

  lemma SpellsInside(strs: Bytes, o: int, name: Bytes)
    requires Spells(strs, o, name)
    ensures 0 <= o < |strs|
  {
  }

  lemma SpellsAdded(strs: Bytes, name: Bytes)
    ensures Spells(strs + (name + [0]), |strs|, name) && Terminated(strs + (name + [0]))
  {
  }

  // ---- edits of properties, by name -----------------------------------------------------------------

  lemma OnePlaceable(tok: Token, strs: Bytes)
    requires WellFormed(tok) && tok.Prop? && tok.nameoff < |strs|
    ensures Placeable([tok], strs) && Items([tok], strs) == Attrs([Property(CStr(strs, tok.nameoff), tok.val)])
  {
    hide CStr;
    ItemsOne(tok, strs);
    var pr := Property(CStr(strs, tok.nameoff), tok.val);
    assert Attrs([pr]) == [Attr(pr)] + Attrs([]);
  }

  /** The property of that name given another value. */
  lemma SetAt(ts: Tokens, strs: Bytes, f: seq<Node>, i: int, name: Bytes, q: int, tok: Token)
    requires Reads(ts, strs, f) && IsNode(ts, i) && FindProp(ts, strs, i + 1, name) == q >= 0
    requires WellFormed(tok) && tok.Prop? && tok.nameoff == ts[q].nameoff
    ensures IsPath(f, PathAt(ts, strs, f, i))
    ensures Reads(ts[q := tok], strs, Replace(f, PathAt(ts, strs, f, i), [PutProp(At(f, PathAt(ts, strs, f, i)), name, tok.val)]))
  {
    hide Reads, Items, PathAt, IsPath, At, CStr, Index, Replace, Placeable, Cut, PutProp;
    NameInside(ts, strs, f, q);
    FindPropIndex(ts, strs, f, i, name);
    OnePlaceable(tok, strs);
    NotLast(ts, strs, f, q);
    var n, ps := At(f, PathAt(ts, strs, f, i)), [Property(CStr(strs, tok.nameoff), tok.val)];
    PropsEdited(ts, strs, f, i, q, q + 1, [tok], ps);
    CutOne(ts, q, tok);
    PutInPlace(n, name, tok.val);
  }

  lemma NameInside(ts: Tokens, strs: Bytes, f: seq<Node>, q: int)
    requires Reads(ts, strs, f) && 0 <= q < |ts| && ts[q].Prop?
    ensures ts[q].nameoff < |strs|
  {
  }

  lemma CutOne(ts: Tokens, q: int, tok: Token)
    requires 0 <= q < |ts|
    ensures Cut(ts, q, q + 1, [tok]) == ts[q := tok]
  {
  }

  lemma PutInPlace(n: Node, name: Bytes, val: Bytes)
    requires Index(n.props, name) >= 0
    ensures var c := Index(n.props, name); n.(props := n.props[..c] + [Property(name, val)] + n.props[c + 1..]) == PutProp(n, name, val)
  {
    hide Index;
    var c := Index(n.props, name);
    assert n.props[..c] + [Property(name, val)] + n.props[c + 1..] == n.props[c := Property(name, val)];
  }

  /** A property of a new name put in front. */
  lemma AddAt(ts: Tokens, strs: Bytes, f: seq<Node>, i: int, name: Bytes, tok: Token)
    requires Reads(ts, strs, f) && IsNode(ts, i) && FindProp(ts, strs, i + 1, name) < 0
    requires WellFormed(tok) && tok.Prop? && tok.nameoff < |strs| && CStr(strs, tok.nameoff) == name
    ensures i + 1 < |ts| && IsPath(f, PathAt(ts, strs, f, i))
    ensures Reads(Cut(ts, i + 1, i + 1, [tok]), strs, Replace(f, PathAt(ts, strs, f, i), [PutProp(At(f, PathAt(ts, strs, f, i)), name, tok.val)]))
  {
    hide Reads, Items, PathAt, IsPath, At, CStr, Index, Replace, Cut;
    FindPropIndex(ts, strs, f, i, name);
    OnePlaceable(tok, strs);
    var n, ps := At(f, PathAt(ts, strs, f, i)), [Property(CStr(strs, tok.nameoff), tok.val)];
    PropsEdited(ts, strs, f, i, i + 1, i + 1, [tok], ps);
    assert n.props[..0] + ps + n.props[0..] == ps + n.props;
  }

  /** The property of that name cut out, or overwritten with NOPs. */
  lemma DropAt(ts: Tokens, strs: Bytes, f: seq<Node>, i: int, name: Bytes, q: int, put: Tokens)
    requires Reads(ts, strs, f) && IsNode(ts, i) && FindProp(ts, strs, i + 1, name) == q >= 0
    requires AllFormed(put) && forall m :: 0 <= m < |put| ==> put[m].Nop?
    ensures IsPath(f, PathAt(ts, strs, f, i)) && Index(At(f, PathAt(ts, strs, f, i)).props, name) >= 0
    ensures Reads(Cut(ts, q, q + 1, put), strs, Replace(f, PathAt(ts, strs, f, i), [DropProp(At(f, PathAt(ts, strs, f, i)), name)]))
  {
    hide Reads, Items, PathAt, IsPath, At, CStr, Index, Replace, Cut, AllFormed;
    FindPropIndex(ts, strs, f, i, name);
    NopsSilent(put, strs);
    NotLast(ts, strs, f, q);
    assert Placeable(put, strs);
    var n := At(f, PathAt(ts, strs, f, i));
    var c := Index(n.props, name);
    assert Attrs([]) == [];
    PropsEdited(ts, strs, f, i, q, q + 1, put, []);
    assert n.props[..c] + [] + n.props[c + 1..] == n.props[..c] + n.props[c + 1..];
  }

  /** A node that was edited behind its begin is still found at the same token, under the same path. */
  lemma StillAt(ts: Tokens, strs: Bytes, f: seq<Node>, i: int, us: Tokens, strs': Bytes, m: Node)
    requires Reads(ts, strs, f) && IsNode(ts, i) && i <= |us| && us[..i] == ts[..i]
    requires strs' == strs || exists more :: strs' == strs + more
    ensures IsPath(f, PathAt(ts, strs, f, i))
    ensures PathAt(us, strs', Replace(f, PathAt(ts, strs, f, i), [m]), i) == PathAt(ts, strs, f, i)
  {
    var p := PathAt(ts, strs, f, i);
    NodeHere(ts, strs, f, i);
    if strs' != strs {
      var more :| strs' == strs + more;
      assert AllFormed(ts[..i]) && Named(ts[..i], strs);
      ItemsGrow(ts[..i], strs, more);
    }
    hide Reads, Before, Items, IsPath, Replace, PathTo;
    ReplaceOne(f, p, m);
    PathToBefore(Replace(f, p, [m]), p);
  }

  /** How many bytes a blob grows by when the node at token i gets a value of len bytes for that property. */
  function SetCost(ts: Tokens, strs: Bytes, i: int, name: Bytes, len: int): int
    requires IsNode(ts, i) && 0 <= len
  {
    var q := FindProp(ts, strs, i + 1, name);
    if q >= 0 then Align4(len) - Align4(|ts[q].val|) else AddCost(strs, name, len)
  }

  /** The same for len bytes appended to that property's value. */
  function AppendCost(ts: Tokens, strs: Bytes, i: int, name: Bytes, len: int): int
    requires IsNode(ts, i) && 0 <= len
  {
    var q := FindProp(ts, strs, i + 1, name);
    if q >= 0 then Align4(|ts[q].val| + len) - Align4(|ts[q].val|) else AddCost(strs, name, len)
  }

  function AddCost(strs: Bytes, name: Bytes, len: int): int
    requires 0 <= len
  {
    (if Spelt(strs, name) then 0 else |name| + 1) + 12 + Align4(len)
  }

  lemma {:induction false} NoRise(ts: Tokens, a: int, b: int)
    requires 0 <= a <= b <= |ts| && forall x :: a <= x < b ==> !IsNode(ts, x)
    ensures Nest(ts, b) <= Nest(ts, a)
    decreases b - a
  {
    if a < b {
      assert !IsNode(ts, b - 1);
      NoRise(ts, a, b - 1);
    }
  }
}
