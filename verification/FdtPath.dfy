/** Paths as text: what a node's path spells, how path text is taken apart and followed, and when following
    a node's own path text leads back to the node. */
module FdtPath {
  import opened FdtFormat
  import opened FdtTree
  import opened FdtDoc
  import opened FdtWalk

  const SLASH: int := 47

  /** The names along a path, from the root down. */
  function Names(f: seq<Node>, p: Path): (r: seq<Bytes>)
    requires IsPath(f, p)
    ensures |r| == |p|
    decreases |p|
  {
    [f[p[0]].name] + if |p| == 1 then [] else Names(f[p[0]].kids, p[1..])
  }

  lemma {:induction false} NamesPrefix(f: seq<Node>, p: Path, n: int)
    requires IsPath(f, p) && 0 < n <= |p|
    ensures IsPath(f, p[..n]) && Names(f, p)[..n] == Names(f, p[..n])
    decreases |p|
  {
    if n > 1 {
      NamesPrefix(f[p[0]].kids, p[1..], n - 1);
      assert p[..n][1..] == p[1..][..n - 1];
      assert Names(f, p)[..n] == [f[p[0]].name] + Names(f[p[0]].kids, p[1..])[..n - 1];
    }
  }

  lemma {:induction false} NamesLast(f: seq<Node>, p: Path)
    requires IsPath(f, p)
    ensures Names(f, p)[|p| - 1] == At(f, p).name
    decreases |p|
  {
    if |p| > 1 {
      NamesLast(f[p[0]].kids, p[1..]);
    }
  }

  /** The names, each followed by a slash. */
  function Text(names: seq<Bytes>): Bytes {
    if names == [] then [] else Text(names[..|names| - 1]) + names[|names| - 1] + [SLASH]
  }

  /** The text of a path: without the last slash, unless it is all there is. */
  function PathText(names: seq<Bytes>): Bytes {
    var t := Text(names);
    if |t| > 1 then t[..|t| - 1] else t
  }

  lemma {:induction false} TextGrows(names: seq<Bytes>, n: int)
    requires 0 <= n <= |names|
    ensures |Text(names[..n])| <= |Text(names)|
    ensures n > 0 ==> |Text(names[..n])| > 0 && Text(names[..n])[|Text(names[..n])| - 1] == SLASH
    decreases |names|
  {
    if n < |names| {
      TextGrows(names[..|names| - 1], n);
      assert names[..|names| - 1][..n] == names[..n];
    } else {
      assert names[..n] == names;
    }
  }

  lemma TextMore(names: seq<Bytes>, n: int)
    requires 0 <= n < |names|
    ensures Text(names[..n + 1]) == Text(names[..n]) + names[n] + [SLASH]
  {
    assert names[..n + 1][..n] == names[..n];
  }

  // ---- from node to text ------------------------------------------------------------------------

  /** No node's name has a slash in it. */
  predicate Plain(ts: Tokens) {
    forall k :: 0 <= k < |ts| && IsNode(ts, k) ==> SLASH !in ts[k].name
  }

  /** Two nodes that follow each other share the path down to the second one's parent. */
  lemma NextShares(ts: Tokens, strs: Bytes, f: seq<Node>, k: int, m: int)
    requires Reads(ts, strs, f) && IsNode(ts, k) && IsNode(ts, m) && k < m && forall x :: k < x < m ==> !IsNode(ts, x)
    ensures 0 <= Nest(ts, m) <= Nest(ts, k) + 1
    ensures Nest(ts, m) <= |PathAt(ts, strs, f, k)| && Nest(ts, m) <= |PathAt(ts, strs, f, m)|
    ensures PathAt(ts, strs, f, m)[..Nest(ts, m)] == PathAt(ts, strs, f, k)[..Nest(ts, m)]
  {
    hide Reads, PathAt, At, Before, IsPath;
    PathToken(ts, strs, f, k);
    PathToken(ts, strs, f, m);
    Shallowest(ts, strs, f, m);
    var q, d := PathAt(ts, strs, f, m), Nest(ts, m);
    if d > 0 {
      var pi, pj := ParentSpan(ts, strs, f, m);
      InSpan(ts, strs, f, pi, pj, k);
      if k == pi {
        assert PathAt(ts, strs, f, k)[..d] == PathAt(ts, strs, f, k);
      }
    }
  }

  lemma NamesShared(f: seq<Node>, p: Path, q: Path, d: int)
    requires IsPath(f, p) && IsPath(f, q) && 0 <= d <= |p| && d <= |q| && p[..d] == q[..d]
    ensures Names(f, p)[..d] == Names(f, q)[..d]
  {
    if d > 0 {
      NamesPrefix(f, p, d);
      NamesPrefix(f, q, d);
    }
  }

  /** What fdt_get_path has stored: the longest run of the names that fits the buffer, or what the last
      node had and this one shares. */
  predicate Stored(held: seq<Bytes>, c: seq<Bytes>, room: int) {
    var n := Min(|held|, |c| - 1);
    && c != []
    && held[..n] == c[..n]
    && (|held| < |c| - 1 ==> |Text(c[..|held| + 1])| > room)
  }

  /** As much of the names as fits. */
  predicate Fitted(held: seq<Bytes>, c: seq<Bytes>, room: int) {
    && |held| <= |c| && held == c[..|held|]
    && (|held| < |c| ==> |Text(c[..|held| + 1])| > room)
  }

  lemma FittedNext(held: seq<Bytes>, c: seq<Bytes>, b: seq<Bytes>, room: int)
    requires Fitted(held, c, room) && b != [] && |b| <= |c| + 1 && c[..|b| - 1] == b[..|b| - 1]
    ensures Stored(held, b, room)
  {
    var d := |b| - 1;
    var n := Min(|held|, d);
    assert held[..n] == c[..d][..n] == b[..d][..n];
    if |held| < d {
      assert c[..|held| + 1] == c[..d][..|held| + 1] == b[..d][..|held| + 1] == b[..|held| + 1];
    }
  }

  // ---- from text to node ------------------------------------------------------------------------

  /** The length of the first name in the text. */
  function WordLength(s: Bytes): (n: int)
    ensures 0 <= n <= |s| && SLASH !in s[..n] && (n < |s| ==> s[n] == SLASH)
  {
    if s == [] || s[0] == SLASH then 0 else
    var n := WordLength(s[1..]) + 1;
    assert s[..n] == [s[0]] + s[1..][..n - 1];
    n
  }

  /** The names between the slashes. */
  function Components(s: Bytes): seq<Bytes>
    decreases |s|
  {
    if s == [] then []
    else if s[0] == SLASH then Components(s[1..])
    else [s[..WordLength(s)]] + Components(s[WordLength(s)..])
  }

  /** A path falls apart at every slash, and empty names do not count. */
  lemma {:induction false} ComponentsSplit(a: Bytes, b: Bytes)
    ensures Components(a + ['/' as int] + b) == Components(a) + Components(b)
    decreases |a|
  {
    hide WordLength;
    var s, slash := a + ['/' as int] + b, ['/' as int];
    if a == [] {
      assert s[1..] == b;
    } else if a[0] == SLASH {
      ComponentsSplit(a[1..], b);
      assert s[1..] == a[1..] + slash + b;
    } else {
      var w := WordLength(a);
      WordSome(a);
      WordIs(a[..w], a[w..] + slash + b);
      assert a[..w] + (a[w..] + slash + b) == s;
      ComponentsSplit(a[w..], b);
      assert s[w..] == a[w..] + slash + b && s[..w] == a[..w];
    }
  }

  lemma WordSome(a: Bytes)
    requires a != [] && a[0] != SLASH
    ensures WordLength(a) > 0
  {
  }

  lemma ComponentsOne(s: Bytes)
    requires '/' as int !in s
    ensures Components(s) == if s == [] then [] else [s]
  {
    if s != [] {
      assert s[0] in s;
      WordIs(s, []);
      assert s + [] == s && s[..|s|] == s && s[|s|..] == [];
    }
  }

  /** The node that the names lead to from the node at p, taking the first child that answers each time. */
  function Resolve(f: seq<Node>, p: Path, names: seq<Bytes>): (r: Option<Path>)
    requires IsPath(f, p)
    ensures r.Some? ==> IsPath(f, r.value)
    decreases |names|
  {
    if names == [] then Some(p) else
    var c := KidNamed(At(f, p).kids, names[0]);
    if c < 0 then None else
    KidPath(f, p, c);
    Resolve(f, p + [c], names[1..])
  }

  lemma KidPath(f: seq<Node>, p: Path, c: int)
    requires IsPath(f, p) && 0 <= c < |At(f, p).kids|
    ensures IsPath(f, p + [c]) && At(f, p + [c]) == At(f, p).kids[c]
  {
    PathThrough(f, p, [c]);
    OneStep(At(f, p).kids, c);
  }

  /** At every step of the path below its first n nodes, the child taken is the first that answers to its name. */
  predicate Unshadowed(f: seq<Node>, p: Path, n: int)
    requires IsPath(f, p)
  {
    forall j :: 0 < n <= j < |p| ==> FirstToAnswer(f, p, j)
  }

  predicate FirstToAnswer(f: seq<Node>, p: Path, j: int)
    requires IsPath(f, p) && 0 < j < |p|
  {
    PrefixPath(f, p, j);
    KidNamed(At(f, p[..j]).kids, Names(f, p)[j]) == p[j]
  }

  /** In terms of the siblings: none before the child taken answers to its name. */
  lemma FirstToAnswerIs(f: seq<Node>, p: Path, j: int)
    requires IsPath(f, p) && 0 < j < |p|
    ensures IsPath(f, p[..j]) && p[j] < |At(f, p[..j]).kids| && Names(f, p)[j] == At(f, p[..j]).kids[p[j]].name
    ensures FirstToAnswer(f, p, j) <==> forall k :: 0 <= k < p[j] ==> !NameEq(At(f, p[..j]).kids[k].name, Names(f, p)[j])
  {
    hide Names, At;
    PrefixPath(f, p, j);
    PrefixPath(f, p, j + 1);
    assert p[..j + 1] == p[..j] + [p[j]];
    PathThrough(f, p[..j], [p[j]]);
    OneStep(At(f, p[..j]).kids, p[j]);
    NamesPrefix(f, p, j + 1);
    NamesLast(f, p[..j + 1]);
    var ns, name := At(f, p[..j]).kids, Names(f, p)[j];
    assert Names(f, p)[..j + 1][j] == name;
    assert NameEq(name, name) by { assert name[..|name|] == name; }
  }

  lemma {:induction false} ResolveNames(f: seq<Node>, p: Path, n: int)
    requires IsPath(f, p) && 0 < n <= |p|
    ensures IsPath(f, p[..n])
    ensures Resolve(f, p[..n], Names(f, p)[n..]) == Some(p) <==> Unshadowed(f, p, n)
    decreases |p| - n
  {
    hide Names, At, NameEq, KidNamed;
    PrefixPath(f, p, n);
    if n == |p| {
      assert p[..n] == p && Names(f, p)[n..] == [];
    } else {
      FirstToAnswerIs(f, p, n);
      ResolveNames(f, p, n + 1);
      var rest := Names(f, p)[n..];
      assert rest[1..] == Names(f, p)[n + 1..] && rest[0] == Names(f, p)[n];
      assert p[..n] + [p[n]] == p[..n + 1];
      var c := KidNamed(At(f, p[..n]).kids, rest[0]);
      if c >= 0 && c != p[n] {
        KidPath(f, p[..n], c);
        ResolveThrough(f, p[..n] + [c], rest[1..]);
      }
      assert Unshadowed(f, p, n) <==> c == p[n] && Unshadowed(f, p, n + 1);
    }
  }

  /** Following names only goes down. */
  lemma {:induction false} ResolveThrough(f: seq<Node>, p: Path, names: seq<Bytes>)
    requires IsPath(f, p)
    ensures Resolve(f, p, names).Some? ==> IsPrefix(p, Resolve(f, p, names).value)
    decreases |names|
  {
    if names != [] {
      var c := KidNamed(At(f, p).kids, names[0]);
      if c >= 0 {
        KidPath(f, p, c);
        ResolveThrough(f, p + [c], names[1..]);
        var r := Resolve(f, p + [c], names[1..]);
        if r.Some? { assert r.value[..|p|] == r.value[..|p| + 1][..|p|] == (p + [c])[..|p|] == p; }
      }
    }
  }

  // ---- there and back -----------------------------------------------------------------------------

  /** Each name behind a slash. */
  function Joined(names: seq<Bytes>): Bytes {
    if names == [] then [] else [SLASH] + names[0] + Joined(names[1..])
  }

  lemma {:induction false} JoinedText(names: seq<Bytes>)
    ensures Text([[]] + names) == Joined(names) + [SLASH]
    decreases |names|
  {
    var s := [[]] + names;
    if names == [] {
      assert s[..0] == [];
    } else {
      var h := names[..|names| - 1];
      JoinedText(h);
      assert s[..|s| - 1] == [[]] + h;
      JoinedLast(h, names[|names| - 1]);
      assert names == h + [names[|names| - 1]];
    }
  }

  /** The root's path is a slash alone; every other name stands behind a slash of its own. */
  lemma PathTextGrows(names: seq<Bytes>, name: Bytes)
    ensures PathText([[]]) == ['/' as int]
    ensures PathText([[]] + names + [name]) == (if names == [] then [] else PathText([[]] + names)) + ['/' as int] + name
  {
    hide Text, Joined;
    NothingJoined(names);
    JoinedText([]);
    JoinedText(names);
    JoinedText(names + [name]);
    JoinedLast(names, name);
    assert [[]] + names + [name] == [[]] + (names + [name]);
    var root, none: seq<Bytes> := [[]], [];
    assert root + none == root;
    Trimmed(Joined(names));
    Trimmed(Joined(names + [name]));
  }

  lemma NothingJoined(names: seq<Bytes>)
    ensures Joined([]) == [] && (names != [] ==> Joined(names) != [])
  {
  }

  lemma Trimmed(t: Bytes)
    ensures (t + [SLASH])[..|t + [SLASH]| - 1] == t
  {
  }

  lemma {:induction false} JoinedLast(h: seq<Bytes>, name: Bytes)
    ensures Joined(h + [name]) == Joined(h) + ([SLASH] + name)
  {
    if h != [] {
      JoinedLast(h[1..], name);
      assert (h + [name])[1..] == h[1..] + [name];
      Assoc([SLASH] + h[0], Joined(h[1..]), [SLASH] + name);
    } else {
      assert Joined([name]) == [SLASH] + name + Joined([]);
    }
  }

  predicate AllPlain(names: seq<Bytes>) {
    forall k :: 0 <= k < |names| ==> names[k] != [] && SLASH !in names[k]
  }

  lemma {:induction false} WordIs(name: Bytes, rest: Bytes)
    requires SLASH !in name && (rest == [] || rest[0] == SLASH)
    ensures WordLength(name + rest) == |name|
  {
    if name != [] {
      assert (name + rest)[1..] == name[1..] + rest;
      WordIs(name[1..], rest);
    } else {
      assert name + rest == rest;
    }
  }

  lemma {:induction false} ComponentsJoined(names: seq<Bytes>)
    requires AllPlain(names)
    ensures Components(Joined(names)) == names
  {
    if names != [] {
      var rest := Joined(names[1..]);
      ComponentsJoined(names[1..]);
      assert rest == [] || rest[0] == SLASH;
      assert names[0] != [] && SLASH !in names[0] && names == [names[0]] + names[1..];
      assert Joined(names) == [SLASH] + names[0] + rest;
      hide Joined, Components, WordLength;
      FirstComponent(names[0], rest);
    }
  }

  lemma FirstComponent(name: Bytes, rest: Bytes)
    requires name != [] && SLASH !in name && (rest == [] || rest[0] == SLASH)
    ensures Components([SLASH] + name + rest) == [name] + Components(rest)
  {
    hide WordLength;
    var s := name + rest;
    WordIs(name, rest);
    assert ([SLASH] + name + rest)[1..] == s;
    assert s[0] == name[0] && name[0] in name;
    assert s[..|name|] == name && s[|name|..] == rest;
  }

  lemma PathTextComponents(names: seq<Bytes>)
    requires names != [] && names[0] == [] && AllPlain(names[1..])
    ensures Components(PathText(names)) == names[1..]
  {
    var rest := names[1..];
    assert names == [[]] + rest;
    JoinedText(rest);
    if rest == [] {
      assert Components([SLASH]) == Components([SLASH][1..]);
    } else {
      assert Text(names)[..|Text(names)| - 1] == Joined(rest);
      ComponentsJoined(rest);
    }
  }

  /** The round trip of fdt_get_path and fdt_path_offset: the node's path text leads back to the node exactly
      when, from the root down, no earlier sibling answers to a name on the way. */
  lemma PathRoundTrip(f: seq<Node>, p: Path)
    requires IsPath(f, p) && Names(f, p)[0] == [] && AllPlain(Names(f, p)[1..])
    ensures IsPath(f, p[..1])
    ensures Resolve(f, p[..1], Components(PathText(Names(f, p)))) == Some(p) <==> Unshadowed(f, p, 1)
  {
    PathTextComponents(Names(f, p));
    ResolveNames(f, p, 1);
  }

  // ---- steps of fdt_path_offset ---------------------------------------------------------------------

  lemma SlashSkipped(s: Bytes, p: int)
    requires 0 <= p < |s| && s[p] == SLASH
    ensures Components(s[p..]) == Components(s[p + 1..])
  {
    assert s[p..][1..] == s[p + 1..];
  }

  lemma WordGrows(s: Bytes, q: int)
    requires 0 <= q < |s| && s[q] != SLASH
    ensures WordLength(s[q..]) == 1 + WordLength(s[q + 1..])
  {
    assert s[q..][1..] == s[q + 1..];
  }

  lemma WordEnds(s: Bytes, q: int)
    requires 0 <= q <= |s| && (q < |s| ==> s[q] == SLASH)
    ensures WordLength(s[q..]) == 0
  {
  }

  /** One name of the text followed: to the child that answers, or nowhere. */
  lemma NameFollowed(f: seq<Node>, cur: Path, s: Bytes, p: int, q: int)
    requires IsPath(f, cur) && 0 <= p < q <= |s| && s[p] != SLASH && WordLength(s[p..]) == q - p
    ensures var c := KidNamed(At(f, cur).kids, s[p..q]);
      if c < 0 then Resolve(f, cur, Components(s[p..])) == None
      else IsPath(f, cur + [c]) && Resolve(f, cur, Components(s[p..])) == Resolve(f, cur + [c], Components(s[q..]))
  {
    hide KidNamed, At, WordLength;
    var w := s[p..];
    assert w[..q - p] == s[p..q] && w[q - p..] == s[q..];
    var names := Components(w);
    assert names == [s[p..q]] + Components(s[q..]);
    assert names[1..] == Components(s[q..]);
    var c := KidNamed(At(f, cur).kids, s[p..q]);
    if c >= 0 { KidPath(f, cur, c); }
  }

  lemma NothingLeft(f: seq<Node>, cur: Path, s: Bytes)
    requires IsPath(f, cur)
    ensures Resolve(f, cur, Components(s[|s|..])) == Some(cur)
  {
    assert s[|s|..] == [];
  }

  // ---- steps of fdt_get_path ------------------------------------------------------------------------

  predicate PlainNames(names: seq<Bytes>) {
    forall m :: 0 <= m < |names| ==> SLASH !in names[m]
  }

  /** The names above the node that are held, once deeper ones are dropped. */
  predicate Kept(held: seq<Bytes>, c: seq<Bytes>, room: int) {
    && |held| < |c| && held == c[..|held|]
    && (|held| < |c| - 1 ==> |Text(c[..|held| + 1])| > room)
  }

  lemma NamesPopped(held: seq<Bytes>, c: seq<Bytes>, room: int)
    requires Stored(held, c, room)
    ensures c != [] && Kept(held[..Min(|held|, |c| - 1)], c, room)
  {
  }

  lemma NotPushed(held: seq<Bytes>, c: seq<Bytes>, room: int)
    requires Kept(held, c, room) && |held| < |c| - 1
    ensures Fitted(held, c, room)
  {
  }

  lemma NamePushed(held: seq<Bytes>, c: seq<Bytes>, room: int)
    requires Kept(held, c, room) && |held| == |c| - 1
    ensures c == held + [c[|c| - 1]]
    ensures |Text(c)| == |Text(held)| + |c[|c| - 1]| + 1
    ensures Fitted(c, c, room) && (|Text(c)| > room ==> Fitted(held, c, room))
  {
    assert c[..|c|] == c;
    TextMore(c, |c| - 1);
  }

  lemma FittedWhole(held: seq<Bytes>, c: seq<Bytes>, room: int)
    requires Fitted(held, c, room)
    ensures |held| <= |c|
    ensures |held| < |c| ==> |Text(c)| > room
    ensures |held| == |c| ==> held == c
  {
    assert c[..|c|] == c;
    if |held| < |c| {
      TextGrows(c, |held| + 1);
    }
  }

  lemma TextEnds(names: seq<Bytes>)
    requires names != []
    ensures |Text(names)| >= 1
  {
  }
}
