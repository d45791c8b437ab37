/** What callers of libfdt rely on across two calls: a property written is read back, a path text leads
    back to its node, and a finished blob opens as the tree that was written. */
module FdtUse {
  import opened FdtFormat
  import opened FdtTree
  import opened FdtDoc
  import opened FdtWalk
  import opened FdtPath
  import opened FdtBlob
  import opened LibFdt
  import opened FdtWriter

  /** What fdt_getprop reports for a value, or for none. */
  predicate Reported(s: Bytes, v: Option<Bytes>, at: int, len: int) {
    match v
    case None => at == -1 && len == -ERR_NOTFOUND
    case Some(b) => len == |b| && Has(s, at, b)
  }

  /** The node edited is still found at its offset, and it is what the edit made of it. */
  lemma EditSeen(ts: Tokens, strs: Bytes, f: seq<Node>, i: int, us: Tokens, strs': Bytes, g: seq<Node>, m: Node, o: int)
    requires AllFormed(ts) && AllFormed(us) && IsNode(ts, i) && NowReads(ts, strs, f, i, us, strs', g, m) && o == Offset(ts, i)
    ensures NodeTok(us, o) == i && Askable(us, o) && NodeOf(us, strs', g, i) == m
  {
    hide AllFormed, Offset, Reads, PathAt, IsPath, At, Replace;
    ReplaceOne(f, PathAt(ts, strs, f, i), m);
    NodeNow(us, strs', g, i, PathAt(ts, strs, f, i));
  }

  lemma NodeNow(us: Tokens, strs: Bytes, g: seq<Node>, i: int, p: Path)
    requires IsNode(us, i) && PathAt(us, strs, g, i) == p && IsPath(g, p)
    ensures NodeOf(us, strs, g, i) == At(g, p)
  {
  }

  /** fdt_setprop, then fdt_getprop of any property of the node. */
  method SetThenGet(b: Fdt, nodeoffset: int, name: Bytes, val: Bytes, other: Bytes) returns (err: int, at: int, len: int)
    requires b.Valid() && AllFormed(b.ts) && NodeTok(b.ts, nodeoffset) >= 0 && 0 !in name
    modifies b, b.buf
    ensures b.Valid() && AllFormed(b.ts)
    ensures err == 0 ==>
      var n := NodeOf(old(b.ts), old(b.strs), old(b.forest), NodeTok(old(b.ts), nodeoffset));
      Reported(b.buf[..], if other == name then Some(val) else Lookup(n, other), at, len)
  {
    hide AllFormed, Offset, Reads, Replace, NodeTok, PathAt, NodeOf, PutProp, NowReads, Holds, Ordered, Askable;
    ghost var i, ts, strs, f := NodeTok(b.ts, nodeoffset), b.ts, b.strs, b.forest;
    NodeThere(b, nodeoffset);
    at, len := -1, 0;
    err := b.SetProp(nodeoffset, name, val);
    if err == 0 {
      ghost var n := NodeOf(ts, strs, f, i);
      EditSeen(ts, strs, f, i, b.ts, b.strs, b.forest, PutProp(n, name, val), nodeoffset);
      PutPropLookup(n, name, val, other);
      at, len := b.GetProp(nodeoffset, other);
    }
  }

  /** fdt_appendprop, then fdt_getprop. */
  method AppendThenGet(b: Fdt, nodeoffset: int, name: Bytes, val: Bytes, other: Bytes) returns (err: int, at: int, len: int)
    requires b.Valid() && AllFormed(b.ts) && NodeTok(b.ts, nodeoffset) >= 0 && 0 !in name
    modifies b, b.buf
    ensures b.Valid() && AllFormed(b.ts)
    ensures err == 0 ==>
      var n := NodeOf(old(b.ts), old(b.strs), old(b.forest), NodeTok(old(b.ts), nodeoffset));
      Reported(b.buf[..], if other == name then Some(ValueOf(n, name) + val) else Lookup(n, other), at, len)
  {
    hide AllFormed, Offset, Reads, Replace, NodeTok, PathAt, NodeOf, PutProp, NowReads, Holds, Ordered, Askable, ValueOf;
    ghost var i, ts, strs, f := NodeTok(b.ts, nodeoffset), b.ts, b.strs, b.forest;
    NodeThere(b, nodeoffset);
    at, len := -1, 0;
    err := b.AppendProp(nodeoffset, name, val);
    if err == 0 {
      ghost var n := NodeOf(ts, strs, f, i);
      EditSeen(ts, strs, f, i, b.ts, b.strs, b.forest, PutProp(n, name, ValueOf(n, name) + val), nodeoffset);
      PutPropLookup(n, name, ValueOf(n, name) + val, other);
      at, len := b.GetProp(nodeoffset, other);
    }
  }

  /** fdt_delprop, then fdt_getprop: every other property as before, and the one deleted gone unless
      there was a second of its name. */
  method DelThenGet(b: Fdt, nodeoffset: int, name: Bytes, other: Bytes) returns (err: int, at: int, len: int)
    requires b.Valid() && AllFormed(b.ts) && NodeTok(b.ts, nodeoffset) >= 0
    modifies b, b.buf
    ensures b.Valid() && AllFormed(b.ts)
    ensures err == 0 && other != name ==>
      Reported(b.buf[..], Lookup(NodeOf(old(b.ts), old(b.strs), old(b.forest), NodeTok(old(b.ts), nodeoffset)), other), at, len)
    ensures err == 0 && other == name ==>
      var n := NodeOf(old(b.ts), old(b.strs), old(b.forest), NodeTok(old(b.ts), nodeoffset));
      len == -ERR_NOTFOUND <==> forall k :: Index(n.props, name) < k < |n.props| ==> n.props[k].name != name
  {
    hide AllFormed, Offset, Reads, Replace, NodeTok, PathAt, NodeOf, DropProp, NowReads, Holds, Ordered, Askable, Index, Lookup;
    ghost var i, ts, strs, f := NodeTok(b.ts, nodeoffset), b.ts, b.strs, b.forest;
    NodeThere(b, nodeoffset);
    at, len := -1, 0;
    err := b.DelProp(nodeoffset, name);
    if err == 0 {
      ghost var n := NodeOf(ts, strs, f, i);
      EditSeen(ts, strs, f, i, b.ts, b.strs, b.forest, DropProp(n, name), nodeoffset);
      if other != name { DropPropOther(n, name, other); } else { DropPropGone(n, name); }
      at, len := b.GetProp(nodeoffset, other);
    }
  }

  lemma NodeThere(b: Fdt, nodeoffset: int)
    requires b.Valid() && AllFormed(b.ts) && NodeTok(b.ts, nodeoffset) >= 0
    ensures nodeoffset == Offset(b.ts, NodeTok(b.ts, nodeoffset)) && IsNode(b.ts, NodeTok(b.ts, nodeoffset)) && Askable(b.ts, nodeoffset)
  {
    hide AllFormed, Offset, Reads, Holds, Ordered;
    TokenAtFound(b.ts, nodeoffset);
  }

  // ---- paths ------------------------------------------------------------------------------------

  /** Only the root has no name, and no name has a slash. */
  predicate NamedBelow(ts: Tokens) {
    forall k :: 0 <= k < |ts| && IsNode(ts, k) ==> SLASH !in ts[k].name && (ts[k].name == [] <==> k == 0)
  }

  lemma NamedPlain(ts: Tokens)
    requires NamedBelow(ts)
    ensures Plain(ts)
  {
  }

  /** The name of the node at the first n steps of a path is the name of its token. */
  lemma NameToken(ts: Tokens, strs: Bytes, f: seq<Node>, p: Path, n: int) returns (t: int)
    requires Reads(ts, strs, f) && IsPath(f, p) && 0 <= n < |p| && Rooted(ts, f)
    ensures IsNode(ts, t) && ts[t].name == Names(f, p)[n] && (t == 0 <==> n == 0)
  {
    hide Reads, PathAt, At, Names, Before;
    NamesPrefix(f, p, n + 1);
    NamesLast(f, p[..n + 1]);
    assert Names(f, p)[..n + 1][n] == Names(f, p)[n];
    t := NodeToken(ts, strs, f, p[..n + 1]);
    PathToken(ts, strs, f, t);
    PathToken(ts, strs, f, 0);
    RootPath(f, PathAt(ts, strs, f, 0));
    if n == 0 {
      RootPath(f, p[..1]);
      SamePathSameToken(ts, strs, f, t, 0);
    }
  }

  lemma RootPath(f: seq<Node>, p: Path)
    requires IsPath(f, p) && |f| == 1 && |p| == 1
    ensures p == [0]
  {
  }

  lemma NamesFit(ts: Tokens, strs: Bytes, f: seq<Node>, p: Path)
    requires Reads(ts, strs, f) && AllFormed(ts) && IsPath(f, p) && Rooted(ts, f) && NamedBelow(ts)
    ensures Names(f, p)[0] == [] && AllPlain(Names(f, p)[1..]) && forall m :: 0 <= m < |p| ==> 0 !in Names(f, p)[m]
  {
    hide Reads, PathAt, At, Names, AllFormed;
    var c := Names(f, p);
    forall m | 0 <= m < |p| ensures 0 !in c[m] && SLASH !in c[m] && (c[m] == [] <==> m == 0) {
      var t := NameToken(ts, strs, f, p, m);
      NameFormed(ts, t);
    }
    assert forall m :: 0 <= m < |c[1..]| ==> c[1..][m] == c[m + 1];
  }

  lemma NameFormed(ts: Tokens, t: int)
    requires AllFormed(ts) && IsNode(ts, t)
    ensures 0 !in ts[t].name
  {
    assert WellFormed(ts[t]);
  }

  /** The text of a path that begins at an unnamed root begins with a slash and has no NUL. */
  lemma {:induction false} TextFit(names: seq<Bytes>)
    requires names != [] && names[0] == [] && forall m :: 0 <= m < |names| ==> 0 !in names[m]
    ensures Text(names) != [] && Text(names)[0] == SLASH && 0 !in Text(names)
  {
    var h, n := names[..|names| - 1], names[|names| - 1];
    if |names| > 1 {
      TextFit(h);
      assert h[0] == names[0];
    } else {
      assert Text(h) == [];
    }
    assert Text(names) == Text(h) + n + [SLASH];
  }

  lemma PathTextFit(names: seq<Bytes>)
    requires names != [] && names[0] == [] && forall m :: 0 <= m < |names| ==> 0 !in names[m]
    ensures PathText(names) != [] && PathText(names)[0] == SLASH && 0 !in PathText(names)
  {
    hide Text;
    TextFit(names);
  }

  /** fdt_get_path, and fdt_path_offset on its text: it leads back exactly when, on the way down, no
      sibling before the right one answers to the name. */
  method PathAndBack(b: Fdt, nodeoffset: int, out: array<Byte>) returns (r: int)
    requires b.Readable() && AllFormed(b.ts) && Rooted(b.ts, b.forest) && NamedBelow(b.ts) && out != b.buf && NodeTok(b.ts, nodeoffset) >= 0
    modifies out
    ensures var p := PathAt(b.ts, b.strs, b.forest, NodeTok(b.ts, nodeoffset));
      IsPath(b.forest, p)
      && if out.Length < 2 || |Text(Names(b.forest, p))| > out.Length then r == -ERR_NOSPACE else (r == nodeoffset <==> Unshadowed(b.forest, p, 1))
  {
    hide AllFormed, NodeTok, PathAt, IsPath, Names, Text, PathText, Unshadowed, Offset, Resolve, Components, RootEnd, Rooted, NamedBelow, Reads, Holds;
    NamedPlain(b.ts);
    ghost var i := NodeTok(b.ts, nodeoffset);
    ghost var p := PathAt(b.ts, b.strs, b.forest, i);
    PathReady(b.ts, b.strs, b.forest, i, nodeoffset);
    var below;
    r, below := b.GetPath(nodeoffset, out);
    if r != 0 {
      return;
    }
    ghost var text := PathText(Names(b.forest, p));
    TextThere(out[..], text);
    var len := StrLenIn(out, 0, text);
    assert out[..len] == text;
    r := b.PathOffset(out[..len]);
    BackAgain(b.ts, b.strs, b.forest, i, nodeoffset, r);
  }

  lemma TextThere(s: Bytes, text: Bytes)
    requires |text| < |s| && s[..|text|] == text && s[|text|] == 0 && 0 !in text
    ensures IsString(s, 0, text)
  {
  }

  lemma PathReady(ts: Tokens, strs: Bytes, f: seq<Node>, i: int, o: int)
    requires Reads(ts, strs, f) && AllFormed(ts) && Rooted(ts, f) && NamedBelow(ts) && NodeTok(ts, o) == i >= 0
    ensures IsNode(ts, i) && o == Offset(ts, i)
    ensures IsPath(f, PathAt(ts, strs, f, i))
    ensures var p := PathAt(ts, strs, f, i);
      PathText(Names(f, p)) != [] && PathText(Names(f, p))[0] == SLASH && 0 !in PathText(Names(f, p))
      && IsPath(f, p[..1]) && p[..1] == [0] && (Resolve(f, [0], Components(PathText(Names(f, p)))) == Some(p) <==> Unshadowed(f, p, 1))
  {
    hide Reads, AllFormed, PathAt, Names, PathText, Unshadowed, Resolve, Components, Offset;
    TokenAtFound(ts, o);
    PathToken(ts, strs, f, i);
    var p := PathAt(ts, strs, f, i);
    NamesFit(ts, strs, f, p);
    PathTextFit(Names(f, p));
    PathRoundTrip(f, p);
    RootPath(f, p[..1]);
  }

  lemma BackAgain(ts: Tokens, strs: Bytes, f: seq<Node>, i: int, o: int, r: int)
    requires Reads(ts, strs, f) && AllFormed(ts) && IsNode(ts, i) && NodeTok(ts, o) == i && o == Offset(ts, i)
    requires r >= 0 ==> NodeTok(ts, r) >= 0
    ensures r >= 0 && PathAt(ts, strs, f, NodeTok(ts, r)) == PathAt(ts, strs, f, i) <==> r == o
  {
    hide Reads, AllFormed, PathAt;
    OffsetsGrow(ts, 0, i);
    assert ts[..0] == [];
    if r >= 0 {
      TokenAtFound(ts, r);
      if PathAt(ts, strs, f, NodeTok(ts, r)) == PathAt(ts, strs, f, i) {
        SamePathSameToken(ts, strs, f, NodeTok(ts, r), i);
      }
    }
  }

  /** A blob with nothing but the root: of its 16 bytes, the root takes 12, so that fdt_get_path at offset
      12, which is behind it, drops a name below the start of its text. */
  lemma BareRoot()
    ensures var ts := [BeginNode([], [0, 0, 0]), Token.EndNode, Stop];
      Reads(ts, [], [Node([], [], [])]) && Rooted(ts, [Node([], [], [])]) && Plain(ts) && RootEnd(ts) == 2 && Offset(ts, 2) == 12
  {
    var ts := [BeginNode([], [0, 0, 0]), Token.EndNode, Stop];
    BareItems(ts, [Node([], [], [])]);
    BareSpan(ts);
    BareOffset(ts);
  }

  lemma BareSpan(ts: Tokens)
    requires ts == [BeginNode([], [0, 0, 0]), Token.EndNode, Stop]
    ensures RootEnd(ts) == 2
  {
    assert Nest(ts, 1) == 1 && Nest(ts, 2) == 0;
    assert Spans(ts, 0, 2);
    RootEndIs(ts, 2);
  }

  lemma BareOffset(ts: Tokens)
    requires ts == [BeginNode([], [0, 0, 0]), Token.EndNode, Stop]
    ensures AllFormed(ts) && Offset(ts, 2) == 12
  {
    hide Enc;
    assert ts[..0] == [];
    assert Offset(ts, 0) == 0 by { NoBytes(ts[..0]); }
    hide Offset;
    OffsetStep(ts, 0);
    OffsetStep(ts, 1);
  }

  lemma BareItems(ts: Tokens, f: seq<Node>)
    requires ts == [BeginNode([], [0, 0, 0]), Token.EndNode, Stop] && f == [Node([], [], [])]
    ensures Items(ts, []) == FlatAll(f)
  {
    assert ts[1..] == [Token.EndNode, Stop] && ts[1..][1..] == [Stop];
    FlatForm(f[0]);
    FlatOne(f[0]);
    assert Items([Stop], []) == [];
    assert Items(ts[1..], []) == [Close];
    assert Items(ts, []) == [Open([])] + [Close];
    assert Attrs([]) == [] && FlatAll([]) == [];
  }

  // ---- a blob byte by byte ------------------------------------------------------------------------

  /** The tree / { name = "AB"; b { }; }, its structure block and its strings as they stand in a file. */
  const TREE: seq<Node> := [Node([], [Property([110, 97, 109, 101], [65, 66, 0])], [Node([98], [], [])])]
  const TOKENS: Tokens := [BeginNode([], [0, 0, 0]), Prop(4, [65, 66, 0], [0]), BeginNode([98], [0, 0]), Token.EndNode, Token.EndNode, Stop]
  const STRINGS: Bytes := [114, 101, 103, 0, 110, 97, 109, 101, 0]
  const BLOCK: Bytes :=
    [0, 0, 0, 1, 0, 0, 0, 0]
    + ([0, 0, 0, 3, 0, 0, 0, 3, 0, 0, 0, 4, 65, 66, 0, 0]
    + ([0, 0, 0, 1, 98, 0, 0, 0]
    + ([0, 0, 0, 2]
    + ([0, 0, 0, 2]
    + [0, 0, 0, 9]))))

  lemma LiteralBlock()
    ensures AllFormed(TOKENS) && Enc(TOKENS) == BLOCK && Reads(TOKENS, STRINGS, TREE)
    ensures TagAt(BLOCK, 0) == (1, 8) && TagAt(BLOCK, 8) == (3, 24) && TagAt(BLOCK, 24) == (1, 32)
    ensures TagAt(BLOCK, 32) == (2, 36) && TagAt(BLOCK, 36) == (2, 40) && TagAt(BLOCK, 40) == (9, 44)
  {
    hide Enc, TagAt, Items, FlatAll, CStr, Terminated;
    LiteralBytes();
    LiteralItems();
    LiteralString();
    LiteralOffsets();
    TagAtToken(TOKENS, 0);
    TagAtToken(TOKENS, 1);
    TagAtToken(TOKENS, 2);
    TagAtToken(TOKENS, 3);
    TagAtToken(TOKENS, 4);
    TagAtToken(TOKENS, 5);
  }

  lemma LiteralParts()
    ensures TOKENS == [TOKENS[0]] + ([TOKENS[1]] + ([TOKENS[2]] + ([Token.EndNode] + ([Token.EndNode] + [Stop]))))
    ensures AllFormed(TOKENS)
  {
  }

  lemma LiteralBytes()
    ensures AllFormed(TOKENS) && Enc(TOKENS) == BLOCK
  {
    hide Enc, AllFormed;
    var a: Tokens, b: Tokens, c: Tokens := [TOKENS[0]], [TOKENS[1]], [TOKENS[2]];
    var d: Tokens, e: Tokens := [Token.EndNode], [Stop];
    LiteralParts();
    LiteralFormed(a, b, c, d, e);
    EncAppend(d, e);
    EncAppend(d, d + e);
    EncAppend(c, d + (d + e));
    EncAppend(b, c + (d + (d + e)));
    EncAppend(a, b + (c + (d + (d + e))));
    LiteralNodes();
    LiteralProp();
    LiteralEnds();
  }

  lemma LiteralFormed(a: Tokens, b: Tokens, c: Tokens, d: Tokens, e: Tokens)
    requires a == [TOKENS[0]] && b == [TOKENS[1]] && c == [TOKENS[2]] && d == [Token.EndNode] && e == [Stop]
    ensures AllFormed(a) && AllFormed(b) && AllFormed(c) && AllFormed(d) && AllFormed(e) && AllFormed(d + e)
    ensures AllFormed(d + (d + e)) && AllFormed(c + (d + (d + e))) && AllFormed(b + (c + (d + (d + e))))
  {
  }

  lemma LiteralNodes()
    ensures AllFormed([TOKENS[0]]) && Enc([TOKENS[0]]) == [0, 0, 0, 1, 0, 0, 0, 0]
    ensures AllFormed([TOKENS[2]]) && Enc([TOKENS[2]]) == [0, 0, 0, 1, 98, 0, 0, 0]
  {
    LiteralWords();
    EncOne(TOKENS[0]);
    EncOne(TOKENS[2]);
    hide Put32, Enc;
  }

  lemma LiteralProp()
    ensures AllFormed([TOKENS[1]]) && Enc([TOKENS[1]]) == [0, 0, 0, 3, 0, 0, 0, 3, 0, 0, 0, 4, 65, 66, 0, 0]
  {
    LiteralWords();
    EncOne(TOKENS[1]);
    hide Put32, Enc;
  }

  lemma LiteralEnds()
    ensures AllFormed([Token.EndNode]) && Enc([Token.EndNode]) == [0, 0, 0, 2]
    ensures AllFormed([Stop]) && Enc([Stop]) == [0, 0, 0, 9]
  {
    LiteralWords();
    EncOne(Token.EndNode);
    EncOne(Stop);
    hide Put32, Enc;
  }

  lemma LiteralWords()
    ensures Put32(1) == [0, 0, 0, 1] && Put32(2) == [0, 0, 0, 2] && Put32(3) == [0, 0, 0, 3] && Put32(4) == [0, 0, 0, 4] && Put32(9) == [0, 0, 0, 9]
  {
  }

  lemma LiteralOffsets()
    ensures AllFormed(TOKENS) && Offset(TOKENS, 0) == 0 && Offset(TOKENS, 1) == 8 && Offset(TOKENS, 2) == 24 && Offset(TOKENS, 3) == 32
    ensures Offset(TOKENS, 4) == 36 && Offset(TOKENS, 5) == 40 && Offset(TOKENS, 6) == 44
  {
    hide Enc;
    var t := TOKENS;
    assert t[..0] == [];
    assert Offset(t, 0) == 0 by { NoBytes(t[..0]); }
    hide Offset;
    OffsetStep(t, 0);
    OffsetStep(t, 1);
    OffsetStep(t, 2);
    OffsetStep(t, 3);
    OffsetStep(t, 4);
    OffsetStep(t, 5);
  }

  lemma NoBytes(t: Tokens)
    requires t == []
    ensures Enc(t) == []
  {
  }

  lemma LiteralItems()
    ensures Named(TOKENS, STRINGS) && StopsOnce(TOKENS) && Items(TOKENS, STRINGS) == FlatAll(TREE)
  {
    hide Items, FlatAll, CStr;
    var a: Tokens, b: Tokens, c: Tokens := [TOKENS[0]], [TOKENS[1]], [TOKENS[2]];
    var d: Tokens, e: Tokens := [Token.EndNode], [Stop];
    LiteralParts();
    LiteralString();
    LiteralFlat();
    ItemsAppend(d, e, STRINGS);
    ItemsAppend(d, d + e, STRINGS);
    ItemsAppend(c, d + (d + e), STRINGS);
    ItemsAppend(b, c + (d + (d + e)), STRINGS);
    ItemsAppend(a, b + (c + (d + (d + e))), STRINGS);
    ItemsOne(TOKENS[0], STRINGS);
    ItemsOne(TOKENS[1], STRINGS);
    ItemsOne(TOKENS[2], STRINGS);
    ItemsOne(Token.EndNode, STRINGS);
    ItemsOne(Stop, STRINGS);
  }

  lemma LiteralString()
    ensures CStr(STRINGS, 4) == [110, 97, 109, 101] && Terminated(STRINGS)
  {
    assert STRINGS[4..8] == [110, 97, 109, 101];
    CStrIs(STRINGS, 4, [110, 97, 109, 101]);
  }

  lemma LiteralFlat()
    ensures FlatAll(TREE) == [Open([])] + ([Attr(TREE[0].props[0])] + ([Open([98])] + ([Close] + ([Close] + []))))
  {
    var b, r := Node([98], [], []), TREE[0];
    assert TREE == [r] && r.kids == [b];
    FlatOne(r);
    FlatOne(b);
    FlatForm(r);
    FlatForm(b);
    assert Attrs([]) == [] && FlatAll([]) == [] && r.props[1..] == [];
    assert Attrs(r.props) == [Attr(r.props[0])];
    hide FlatAll, Flat;
  }

  // ---- opening again ----------------------------------------------------------------------------

  /** fdt_open_into a buffer, and later again from there into the same buffer with the same size: once it
      was opened it always opens again, and holds what it held. */
  method OpenTwice(mem: array<Byte>, fdt: int, h: Header, buf: int, bufsize: int, ghost rsv: seq<Reserve>, ghost ts: Tokens, ghost strs: Bytes)
    returns (first: int, second: int, g: Header)
    requires HeldAt(mem[..], fdt, h, rsv, ts, strs) && WithinTotal(h, |rsv|, h.totalSize) && OnWord(h.offStruct)
    requires 0 <= fdt && fdt + h.totalSize <= mem.Length && 0 <= buf && 0 <= bufsize && buf + bufsize <= mem.Length
    requires h.magic != FDT_SW_MAGIC && (CheckHeader(h) == 0 ==> h.version >= LAST_VERSION)
    modifies mem
    ensures first == 0 ==> second == 0 && g.totalSize == bufsize && Current(g) && Ordered(g, |rsv|) && Holds(mem[buf..buf + bufsize], g, rsv, ts, strs)
    ensures first != 0 ==> mem[..] == old(mem[..])
  {
    hide BlocksAt, RsvOk, AllFormed, Holds, Ordered, OnWord, WithinTotal;
    first, g := OpenInto(mem, fdt, h, buf, bufsize, rsv, ts, strs);
    second := first;
    if first == 0 {
      OpenedReady(mem[..], buf, bufsize, g, rsv, ts, strs);
      second, g := OpenInto(mem, buf, g, buf, bufsize, rsv, ts, strs);
    }
  }

  lemma OpenedReady(s: Bytes, buf: int, bufsize: int, g: Header, rsv: seq<Reserve>, ts: Tokens, strs: Bytes)
    requires 0 <= buf && 0 <= bufsize && buf + bufsize <= |s| < 0x8000_0000 && g.totalSize == bufsize && Current(g) && Ordered(g, |rsv|)
    requires Holds(s[buf..buf + bufsize], g, rsv, ts, strs)
    ensures HeldAt(s, buf, g, rsv, ts, strs) && WithinTotal(g, |rsv|, bufsize) && OnWord(g.offStruct) && CheckHeader(g) == 0
  {
    hide Enc, RsvBytes, AllFormed, RsvOk, Has;
    HoldsParts(s[buf..buf + bufsize], g, rsv, ts, strs);
    HasOut(s, buf, bufsize, g.offRsv, RsvBytes(rsv));
    HasOut(s, buf, bufsize, g.offStruct, Enc(ts));
    HasOut(s, buf, bufsize, g.offStrings, strs);
  }

  lemma HoldsParts(s: Bytes, g: Header, rsv: seq<Reserve>, ts: Tokens, strs: Bytes)
    requires Holds(s, g, rsv, ts, strs)
    ensures AllWide(rsv) && AllFormed(ts) && 0 <= g.sizeStruct && 0 <= g.sizeStrings && |RsvBytes(rsv)| == 16 * |rsv|
  {
    WideOf(rsv);
  }

  lemma HasOut(s: Bytes, base: int, len: int, o: int, b: Bytes)
    requires 0 <= base && 0 <= len && base + len <= |s| && Has(s[base..base + len], o, b)
    ensures Has(s, base + o, b)
  {
    SliceInside(s, base, s[base..base + len], o, o + |b|);
  }

  // ---- from the writer to the reader ------------------------------------------------------------

  /** fdt_finish, and the blob it leaves as the readers and editors take it. */
  method FinishAndOpen(w: Writer, ghost f: seq<Node>) returns (err: int, b: Option<Fdt>)
    requires w.Valid() && Terminates(w.entries) && w.written == FlatAll(f)
    modifies w.buf, w
    ensures err == if old(w.h).offStruct + old(w.h).sizeStruct + 4 + old(w.h).sizeStrings <= w.buf.Length then 0 else -ERR_NOSPACE
    ensures err == 0 ==> b.Some? && b.value.Valid() && b.value.buf == w.buf && b.value.forest == f && b.value.rsv == UpTo(old(w.entries))
  {
    hide Grown, Spelling, Terminates, FlatAll, Holds, Ordered, Reads, UpTo;
    err := w.Finish();
    if err != 0 {
      return err, None;
    }
    var blob := new Fdt(w.buf, w.h, UpTo(w.entries), w.ts, w.strs, f);
    return 0, Some(blob);
  }
}
