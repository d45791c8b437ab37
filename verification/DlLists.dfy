/** Linking and unlinking of free chunks: each ring, then the heap as a whole. */
module DlLists {
  import opened DlHeap

  // ---- list surgery -------------------------------------------------------------------

  /** The heads of bins are below the chunks, chunks are 16 bytes apart. */
  ghost predicate Nodes(m: Mem, h: int, l: seq<int>) {
    && 0 <= h && h + 16 <= AV_END <= |m|
    && (forall k :: 0 <= k < |l| ==> AV_END <= l[k] && l[k] + 16 <= |m|)
    && (forall j, k :: 0 <= j < |l| && 0 <= k < |l| && l[j] < l[k] ==> l[j] + 16 <= l[k])
    && Distinct(l)
  }

  /** What `FD->bk = BK; BK->fd = FD` leaves. */
  function Joined(m: Mem, bk: int, fd: int): Mem
    requires 0 <= bk && bk + 12 < |m| && 0 <= fd && fd + 12 < |m|
  {
    m[fd + 12 := Word(bk, false)][bk + 8 := Word(fd, false)]
  }

  lemma JoinedLinks(m: Mem, h: int, l: seq<int>, i: int, j: int, c: int)
    requires Nodes(m, h, l) && -1 <= i <= |l| && -1 <= j <= |l| && -1 <= c <= |l|
    ensures 0 <= At(h, l, i) && At(h, l, i) + 12 < |m| && 0 <= At(h, l, j) && At(h, l, j) + 12 < |m|
    ensures var m' := Joined(m, At(h, l, i), At(h, l, j)); var n := At(h, l, c);
            && Fd(m', n) == (if n == At(h, l, i) then At(h, l, j) else Fd(m, n))
            && Bk(m', n) == (if n == At(h, l, j) then At(h, l, i) else Bk(m, n))
  {
  }

  /** unlink takes the k-th chunk out of its ring. */
  lemma UnlinkRing(m: Mem, h: int, l: seq<int>, k: int)
    requires Ring(m, h, l) && Nodes(m, h, l) && 0 <= k < |l|
    ensures 0 <= Bk(m, l[k]) && Bk(m, l[k]) + 12 < |m| && 0 <= Fd(m, l[k]) && Fd(m, l[k]) + 12 < |m|
    ensures Ring(Joined(m, Bk(m, l[k]), Fd(m, l[k])), h, l[..k] + l[k + 1..])
  {
    hide Fd, Bk, Joined;
    assert l[k] == At(h, l, k);
    assert Bk(m, l[k]) == At(h, l, k - 1) && Fd(m, l[k]) == At(h, l, k + 1);
    JoinedLinks(m, h, l, k - 1, k + 1, k);
    var m', l' := Joined(m, At(h, l, k - 1), At(h, l, k + 1)), l[..k] + l[k + 1..];
    forall j | -1 <= j <= |l'|
      ensures j < |l'| ==> Fd(m', At(h, l', j)) == At(h, l', j + 1)
      ensures 0 <= j ==> Bk(m', At(h, l', j)) == At(h, l', j - 1)
    {
      UnlinkLink(m, h, l, k, j);
    }
  }

  lemma UnlinkLink(m: Mem, h: int, l: seq<int>, k: int, j: int)
    requires Ring(m, h, l) && Nodes(m, h, l) && 0 <= k < |l| && -1 <= j < |l|
    ensures 0 <= At(h, l, k - 1) && At(h, l, k - 1) + 12 < |m| && 0 <= At(h, l, k + 1) && At(h, l, k + 1) + 12 < |m|
    ensures var m', l' := Joined(m, At(h, l, k - 1), At(h, l, k + 1)), l[..k] + l[k + 1..];
            && (j < |l'| ==> Fd(m', At(h, l', j)) == At(h, l', j + 1))
            && (0 <= j ==> Bk(m', At(h, l', j)) == At(h, l', j - 1))
  {
    hide Fd, Bk, Joined, Ring, Nodes, At;
    var i := if j < k then j else j + 1;
    JoinedLinks(m, h, l, k - 1, k + 1, i);
    RemovedAt(h, l, k, j);
    RingAt(m, h, l, i);
    NodeApart(m, h, l, i, k - 1);
    NodeApart(m, h, l, i, k + 1);
  }

  /** Positions before and after a removal. */
  lemma RemovedAt(h: int, l: seq<int>, k: int, j: int)
    requires 0 <= k < |l| && -1 <= j < |l|
    ensures var l' := l[..k] + l[k + 1..];
            && At(h, l', j) == At(h, l, if j < k then j else j + 1)
            && (j < |l'| ==> At(h, l', j + 1) == At(h, l, if j + 1 < k then j + 1 else j + 2))
            && (0 <= j ==> At(h, l', j - 1) == At(h, l, if j - 1 < k then j - 1 else j))
  {
  }

  /** The four stores of frontlink, once BK and FD are known. */
  function Inserted(m: Mem, bk: int, fd: int, p: int): Mem
    requires 0 <= bk && bk + 12 < |m| && 0 <= fd && fd + 12 < |m| && 0 <= p && p + 12 < |m|
  {
    m[p + 12 := Word(bk, false)][p + 8 := Word(fd, false)][fd + 12 := Word(p, false)][bk + 8 := Word(p, false)]
  }

  lemma InsertedLinks(m: Mem, h: int, l: seq<int>, i: int, p: int, c: int)
    requires Nodes(m, h, l) && -1 <= i < |l| && -1 <= c <= |l|
    requires AV_END <= p && p + 16 <= |m| && forall k :: 0 <= k < |l| ==> l[k] + 16 <= p || p + 16 <= l[k]
    ensures 0 <= At(h, l, i) && At(h, l, i) + 12 < |m| && 0 <= At(h, l, i + 1) && At(h, l, i + 1) + 12 < |m|
    ensures var m' := Inserted(m, At(h, l, i), At(h, l, i + 1), p); var n := At(h, l, c);
            && Fd(m', n) == (if n == At(h, l, i) then p else Fd(m, n))
            && Bk(m', n) == (if n == At(h, l, i + 1) then p else Bk(m, n))
            && Fd(m', p) == At(h, l, i + 1) && Bk(m', p) == At(h, l, i)
  {
  }

  /** frontlink puts p between positions k - 1 and k. */
  lemma InsertRing(m: Mem, h: int, l: seq<int>, k: int, p: int)
    requires Ring(m, h, l) && Nodes(m, h, l) && 0 <= k <= |l|
    requires AV_END <= p && p + 16 <= |m| && forall k :: 0 <= k < |l| ==> l[k] + 16 <= p || p + 16 <= l[k]
    ensures 0 <= At(h, l, k - 1) && At(h, l, k - 1) + 12 < |m| && 0 <= At(h, l, k) && At(h, l, k) + 12 < |m|
    ensures Ring(Inserted(m, At(h, l, k - 1), At(h, l, k), p), h, l[..k] + [p] + l[k..])
  {
    hide Fd, Bk, Inserted;
    InsertedLinks(m, h, l, k - 1, p, k);
    var m', l' := Inserted(m, At(h, l, k - 1), At(h, l, k), p), l[..k] + [p] + l[k..];
    forall j | -1 <= j <= |l'|
      ensures j < |l'| ==> Fd(m', At(h, l', j)) == At(h, l', j + 1)
      ensures 0 <= j ==> Bk(m', At(h, l', j)) == At(h, l', j - 1)
    {
      InsertLink(m, h, l, k, p, j);
    }
  }

  lemma InsertLink(m: Mem, h: int, l: seq<int>, k: int, p: int, j: int)
    requires Ring(m, h, l) && Nodes(m, h, l) && 0 <= k <= |l| && -1 <= j <= |l| + 1
    requires AV_END <= p && p + 16 <= |m| && forall k :: 0 <= k < |l| ==> l[k] + 16 <= p || p + 16 <= l[k]
    ensures 0 <= At(h, l, k - 1) && At(h, l, k - 1) + 12 < |m| && 0 <= At(h, l, k) && At(h, l, k) + 12 < |m|
    ensures var m', l' := Inserted(m, At(h, l, k - 1), At(h, l, k), p), l[..k] + [p] + l[k..];
            && (j < |l'| ==> Fd(m', At(h, l', j)) == At(h, l', j + 1))
            && (0 <= j ==> Bk(m', At(h, l', j)) == At(h, l', j - 1))
  {
    hide Fd, Bk, Inserted, Ring, Nodes, At;
    var i := if j <= k then j else j - 1;
    InsertedLinks(m, h, l, k - 1, p, i);
    InsertedAt(h, l, k, p, j);
    RingAt(m, h, l, i);
    if j != k { NodeApart(m, h, l, i, k - 1); NodeApart(m, h, l, i, k); }
  }

  lemma RingAt(m: Mem, h: int, l: seq<int>, i: int)
    requires Ring(m, h, l) && -1 <= i <= |l|
    ensures i < |l| ==> Fd(m, At(h, l, i)) == At(h, l, i + 1)
    ensures 0 <= i ==> Bk(m, At(h, l, i)) == At(h, l, i - 1)
  {
  }

  /** Positions before and after an insertion. */
  lemma InsertedAt(h: int, l: seq<int>, k: int, p: int, j: int)
    requires 0 <= k <= |l| && -1 <= j <= |l| + 1
    ensures var l' := l[..k] + [p] + l[k..];
            && At(h, l', j) == (if j < k then At(h, l, j) else if j == k then p else At(h, l, j - 1))
            && (j <= |l| ==> At(h, l', j + 1) == (if j + 1 < k then At(h, l, j + 1) else if j + 1 == k then p else At(h, l, j)))
            && (0 <= j ==> At(h, l', j - 1) == (if j - 1 < k then At(h, l, j - 1) else if j - 1 == k then p else At(h, l, j - 2)))
  {
  }

  /** Equal nodes are at equal positions, but for the head. */
  lemma NodeApart(m: Mem, h: int, l: seq<int>, i: int, k: int)
    requires Nodes(m, h, l) && -1 <= i <= |l| && -1 <= k <= |l|
    ensures At(h, l, i) == At(h, l, k) <==> i == k || (i in {-1, |l|} && k in {-1, |l|})
  {
  }

  /** m' differs from m in links only: headers, footers, user words and all from top on are kept. */
  ghost predicate Relinked(m: Mem, m': Mem, g: Heap) {
    && |m'| == |m|
    && (forall a :: a in g.chunks ==> W(m', a) == W(m, a) && W(m', a + 4) == W(m, a + 4))
    && (forall a :: a in g.chunks && InUse(m, a) ==> SameUser(m, m', a, Size(m, a)))
    && (forall w :: g.top <= w ==> W(m', w) == W(m, w))
  }

  lemma RelinkedKeeps(m: Mem, m': Mem, g: Heap)
    requires Tiles(m, g) && Relinked(m, m', g)
    ensures forall a :: a in g.chunks ==> Size(m', a) == Size(m, a) && (InUse(m', a) <==> InUse(m, a))
  {
    forall a | a in g.chunks ensures Size(m', a) == Size(m, a) && (InUse(m', a) <==> InUse(m, a)) {
      assert Closed(m, g, a);
    }
  }

  lemma RelinkedTiles(m: Mem, m': Mem, g: Heap)
    requires Tiles(m, g) && Relinked(m, m', g)
    ensures Tiles(m', g)
  {
    RelinkedKeeps(m, m', g);
    forall a | a in g.chunks ensures Closed(m', g, a) && Proper(m', g.top, g.base, a) {
      assert Closed(m, g, a) && Proper(m, g.top, g.base, a);
    }
  }

  lemma RelinkedTags(m: Mem, m': Mem, g: Heap)
    requires Tiles(m, g) && Tags(m, g) && Aligned(m, g) && Relinked(m, m', g)
    ensures Tags(m', g) && Aligned(m', g)
  {
    RelinkedKeeps(m, m', g);
    forall a | a in g.chunks && !InUse(m', a) ensures FreeTagged(m', a) {
      assert Closed(m, g, a) && FreeTagged(m, a);
    }
  }

  lemma BinNodes(m: Mem, g: Heap, i: int)
    requires Ok(m, g) && 1 <= i < NAV
    ensures Nodes(m, 8 * i, g.bins[i])
    ensures g.bins[i] != [] ==> g.top != 0
  {
    hide BinIndex, Ring;
    var l := g.bins[i];
    forall k | 0 <= k < |l| ensures l[k] in g.chunks && !InUse(m, l[k]) {
      assert l[k] in g.bins[i] && Member(m, g, i, l[k]);
    }
    if l != [] { assert l[0] in g.chunks; }
    forall k | 0 <= k < |l| ensures AV_END <= l[k] && l[k] + 16 <= |m| {
      assert Proper(m, g.top, g.base, l[k]);
    }
    forall j, k | 0 <= j < |l| && 0 <= k < |l| && l[j] < l[k] ensures l[j] + 16 <= l[k] {
      assert Proper(m, g.top, g.base, l[j]);
    }
  }

  /** Nodes of different rings do not meet. */
  lemma RingsApart(m: Mem, g: Heap, i: int, k: int, j: int, n: int)
    requires Ok(m, g) && 1 <= i < NAV && 1 <= j < NAV && i != j && -1 <= k <= |g.bins[i]| && -1 <= n <= |g.bins[j]|
    ensures At(8 * i, g.bins[i], k) != At(8 * j, g.bins[j], n)
    ensures At(8 * i, g.bins[i], k) + 8 != At(8 * j, g.bins[j], n) + 12
    ensures At(8 * i, g.bins[i], k) + 12 != At(8 * j, g.bins[j], n) + 8
  {
    hide BinIndex, Ring;
    if 0 <= k < |g.bins[i]| {
      var c := g.bins[i][k];
      assert c in g.bins[i] && Member(m, g, i, c);
      assert Proper(m, g.top, g.base, c);
      if 0 <= n < |g.bins[j]| {
        var d := g.bins[j][n];
        assert d in g.bins[j] && Member(m, g, j, d);
        assert Proper(m, g.top, g.base, d);
      }
    } else if 0 <= n < |g.bins[j]| {
      var d := g.bins[j][n];
      assert d in g.bins[j] && Member(m, g, j, d);
      assert Proper(m, g.top, g.base, d);
    }
  }

  /** After the k-th chunk of bin i was unlinked. */
  ghost function Taken(g: Heap, i: int, k: int): Heap
    requires |g.bins| == NAV && 1 <= i < NAV && 0 <= k < |g.bins[i]|
  {
    g.(bins := g.bins[i := g.bins[i][..k] + g.bins[i][k + 1..]], loose := g.loose + {g.bins[i][k]})
  }

  lemma UnlinkRelinks(m: Mem, g: Heap, i: int, k: int)
    requires Ok(m, g) && 1 <= i < NAV && 0 <= k < |g.bins[i]|
    ensures var p := g.bins[i][k]; 0 <= Bk(m, p) && Bk(m, p) + 12 < |m| && 0 <= Fd(m, p) && Fd(m, p) + 12 < |m|
    ensures Relinked(m, Joined(m, Bk(m, g.bins[i][k]), Fd(m, g.bins[i][k])), g)
  {
    hide BinIndex;
    var l, p := g.bins[i], g.bins[i][k];
    BinNodes(m, g, i);
    UnlinkRing(m, 8 * i, l, k);
    assert p == At(8 * i, l, k);
    assert Bk(m, p) == At(8 * i, l, k - 1) && Fd(m, p) == At(8 * i, l, k + 1);
    NodeWords(m, g, i, k - 1);
    NodeWords(m, g, i, k + 1);
    JoinedWords(m, g, Bk(m, p), Fd(m, p));
  }

  lemma JoinedWords(m: Mem, g: Heap, bk: int, fd: int)
    requires 0 <= bk && bk + 16 <= g.top <= |m| && 0 <= fd && fd + 16 <= g.top
    requires forall a :: a in g.chunks ==> a != bk + 8 && a != bk + 4 && a != fd + 12 && a != fd + 8
    requires forall a :: a in g.chunks && InUse(m, a) ==> bk + 8 < a + 8 || Next(m, a) + 4 <= bk + 8
    requires forall a :: a in g.chunks && InUse(m, a) ==> fd + 12 < a + 8 || Next(m, a) + 4 <= fd + 12
    ensures Relinked(m, Joined(m, bk, fd), g)
  {
  }

  /** The link words of a node are no header, footer or user word. */
  lemma NodeWords(m: Mem, g: Heap, i: int, k: int)
    requires Ok(m, g) && g.top != 0 && 1 <= i < NAV && -1 <= k <= |g.bins[i]|
    ensures var n := At(8 * i, g.bins[i], k);
            && 0 <= n && n + 16 <= g.top
            && (forall a :: a in g.chunks ==> a != n + 4 && a != n + 8 && a != n + 12)
            && (forall a :: a in g.chunks && InUse(m, a) ==> n + 12 < a + 8 || Next(m, a) + 4 <= n + 8)
  {
    hide BinIndex, Ring;
    var n := At(8 * i, g.bins[i], k);
    if 0 <= k < |g.bins[i]| {
      assert n in g.bins[i] && Member(m, g, i, n);
      assert Proper(m, g.top, g.base, n);
    }
    forall a | a in g.chunks
      ensures a != n + 4 && a != n + 8 && a != n + 12
      ensures InUse(m, a) ==> n + 12 < a + 8 || Next(m, a) + 4 <= n + 8
    {
      assert Proper(m, g.top, g.base, a);
    }
  }

  lemma UnlinkRings(m: Mem, g: Heap, i: int, k: int)
    requires Ok(m, g) && 1 <= i < NAV && 0 <= k < |g.bins[i]|
    ensures var p := g.bins[i][k]; 0 <= Bk(m, p) && Bk(m, p) + 12 < |m| && 0 <= Fd(m, p) && Fd(m, p) + 12 < |m|
    ensures Rings(Joined(m, Bk(m, g.bins[i][k]), Fd(m, g.bins[i][k])), Taken(g, i, k).bins)
  {
    hide BinIndex, Tiles, Tags, Members, Sorted, RemainderAlone, LooseFree, Covered, Aligned;
    var l, p := g.bins[i], g.bins[i][k];
    BinNodes(m, g, i);
    UnlinkRing(m, 8 * i, l, k);
    assert p == At(8 * i, l, k);
    assert Bk(m, p) == At(8 * i, l, k - 1) && Fd(m, p) == At(8 * i, l, k + 1);
    var m' := Joined(m, Bk(m, p), Fd(m, p));
    forall j | 1 <= j < NAV && j != i ensures Ring(m', 8 * j, g.bins[j]) {
      forall n | -1 <= n <= |g.bins[j]|
        ensures var c := At(8 * j, g.bins[j], n); Fd(m', c) == Fd(m, c) && Bk(m', c) == Bk(m, c)
      {
        RingsApart(m, g, i, k - 1, j, n);
        RingsApart(m, g, i, k + 1, j, n);
      }
      RingFrame(m, m', 8 * j, g.bins[j]);
    }
  }

  lemma TakenSorted(m: Mem, m': Mem, g: Heap, i: int, k: int)
    requires Ok(m, g) && Relinked(m, m', g) && 1 <= i < NAV && 0 <= k < |g.bins[i]|
    ensures Sorted(m', Taken(g, i, k))
  {
    hide BinIndex, Ring;
    BinNodes(m, g, i);
    RelinkedKeeps(m, m', g);
    var g' := Taken(g, i, k);
    forall j | 1 <= j < NAV ensures Distinct(g'.bins[j]) && Descending(m', g'.bins[j]) {
      forall n | 0 <= n < |g.bins[j]| ensures Size(m', g.bins[j][n]) == Size(m, g.bins[j][n]) {
        assert g.bins[j][n] in g.bins[j] && Member(m, g, j, g.bins[j][n]);
      }
    }
  }

  lemma DropOne(l: seq<int>, k: int)
    requires Distinct(l) && 0 <= k < |l|
    ensures forall c :: c in l[..k] + l[k + 1..] <==> c in l && c != l[k]
  {
    var l' := l[..k] + l[k + 1..];
    forall c | c in l && c != l[k] ensures c in l' {
      var n :| 0 <= n < |l| && l[n] == c;
      assert l'[if n < k then n else n - 1] == c;
    }
  }

  lemma TakenBins(m: Mem, m': Mem, g: Heap, i: int, k: int)
    requires Ok(m, g) && Relinked(m, m', g) && 1 <= i < NAV && 0 <= k < |g.bins[i]|
    ensures var g' := Taken(g, i, k);
            Members(m', g') && RemainderAlone(g') && LooseFree(m', g') && Covered(m', g')
  {
    hide BinIndex, Ring, Tags, Aligned, Distinct, Descending;
    BinNodes(m, g, i);
    RelinkedKeeps(m, m', g);
    hide Relinked, Tiles, Nodes, InUse, Size;
    var g', p, l' := Taken(g, i, k), g.bins[i][k], g.bins[i][..k] + g.bins[i][k + 1..];
    assert p in g.bins[i] && Member(m, g, i, p);
    DropOne(g.bins[i], k);
    forall j, c | 1 <= j < NAV && c in g'.bins[j] ensures Member(m', g', j, c) {
      assert c in g.bins[j] && Member(m, g, j, c);
      if j != i { Apart(m, g, i, j, p, c); }
    }
    forall c | c in g'.chunks && !InUse(m', c) && c !in g'.loose ensures Binned(m', g', c) {
      assert Binned(m, g, c);
    }
  }

  lemma Apart(m: Mem, g: Heap, i: int, j: int, p: int, c: int)
    requires Members(m, g) && RemainderAlone(g) && 1 <= i < NAV && 1 <= j < NAV && i != j
    requires p in g.bins[i] && c in g.bins[j]
    ensures p != c
  {
    hide BinIndex;
    assert Member(m, g, i, p) && Member(m, g, j, c);
  }

  /** unlink keeps everything but the membership of the chunk taken, which is now loose. */
  lemma UnlinkOk(m: Mem, g: Heap, i: int, k: int)
    requires Ok(m, g) && 1 <= i < NAV && 0 <= k < |g.bins[i]|
    ensures var p := g.bins[i][k]; 0 <= Bk(m, p) && Bk(m, p) + 12 < |m| && 0 <= Fd(m, p) && Fd(m, p) + 12 < |m|
    ensures var m' := Joined(m, Bk(m, g.bins[i][k]), Fd(m, g.bins[i][k]));
            Relinked(m, m', g) && Ok(m', Taken(g, i, k))
  {
    hide BinIndex, Ring, Relinked;
    UnlinkRelinks(m, g, i, k);
    UnlinkRings(m, g, i, k);
    var m' := Joined(m, Bk(m, g.bins[i][k]), Fd(m, g.bins[i][k]));
    TakenSorted(m, m', g, i, k);
    TakenBins(m, m', g, i, k);
    BinNodes(m, g, i);
    RelinkedTiles(m, m', g);
    RelinkedTags(m, m', g);
    SameChunks(m', g, Taken(g, i, k));
  }

  lemma SameChunks(m: Mem, g: Heap, g': Heap)
    requires Tiles(m, g) && Tags(m, g) && Aligned(m, g)
    requires g'.base == g.base && g'.top == g.top && g'.brk == g.brk && g'.chunks == g.chunks
    ensures Tiles(m, g') && Tags(m, g') && Aligned(m, g')
  {
    forall a | a in g'.chunks ensures Closed(m, g', a) {
      assert Closed(m, g, a);
    }
  }

  /** Where a loose chunk p may enter bin i: at position k, keeping the order by size. */
  ghost predicate Slot(m: Mem, g: Heap, i: int, k: int, p: int)
    requires |g.bins| == NAV && 1 <= i < NAV
  {
    && p in g.loose && 0 <= k <= |g.bins[i]|
    && (i == 1 ==> g.bins[1] == [])
    && 0 <= Size(m, p) && (i != 1 ==> BinIndex(Size(m, p)) == i)
    && (forall n :: 0 <= n < k ==> Size(m, g.bins[i][n]) >= Size(m, p))
    && (forall n :: k <= n < |g.bins[i]| ==> Size(m, g.bins[i][n]) <= Size(m, p))
  }

  ghost function Put(g: Heap, i: int, k: int, p: int): Heap
    requires |g.bins| == NAV && 1 <= i < NAV && 0 <= k <= |g.bins[i]|
  {
    g.(bins := g.bins[i := g.bins[i][..k] + [p] + g.bins[i][k..]], loose := g.loose - {p})
  }

  lemma LooseUnlisted(m: Mem, g: Heap, p: int)
    requires Ok(m, g) && p in g.loose
    ensures g.top != 0 && p in g.chunks && !InUse(m, p) && Next(m, p) in g.chunks
    ensures AV_END <= p && p + 16 <= Next(m, p) <= g.top && g.top + 16 <= |m|
    ensures forall i :: 1 <= i < NAV ==> p !in g.bins[i]
    ensures forall i, k :: 1 <= i < NAV && 0 <= k < |g.bins[i]| ==> g.bins[i][k] + 16 <= p || p + 16 <= g.bins[i][k]
  {
    hide BinIndex, Ring;
    assert forall i, c :: 1 <= i < NAV && c in g.bins[i] ==> Member(m, g, i, c);
    assert Closed(m, g, p) && Proper(m, g.top, g.base, p);
    forall i, k | 1 <= i < NAV && 0 <= k < |g.bins[i]|
      ensures g.bins[i][k] + 16 <= p || p + 16 <= g.bins[i][k]
    {
      var c := g.bins[i][k];
      assert c in g.bins[i] && Member(m, g, i, c);
      assert Proper(m, g.top, g.base, c);
    }
  }

  lemma InsertedWords(m: Mem, g: Heap, bk: int, fd: int, p: int)
    requires 0 <= bk && bk + 16 <= g.top <= |m| && 0 <= fd && fd + 16 <= g.top && 0 <= p && p + 16 <= g.top
    requires forall a :: a in g.chunks ==> a != bk + 8 && a != bk + 4 && a != fd + 12 && a != fd + 8
    requires forall a :: a in g.chunks ==> a + 16 <= p || a == p || p + 16 <= a
    requires forall a :: a in g.chunks && InUse(m, a) ==> bk + 8 < a + 8 || Next(m, a) + 4 <= bk + 8
    requires forall a :: a in g.chunks && InUse(m, a) ==> fd + 12 < a + 8 || Next(m, a) + 4 <= fd + 12
    requires forall a :: a in g.chunks && InUse(m, a) ==> p + 12 < a + 8 || Next(m, a) + 4 <= p + 8
    ensures Relinked(m, Inserted(m, bk, fd, p), g)
  {
  }

  lemma InsertRelinks(m: Mem, g: Heap, i: int, k: int, p: int)
    requires Ok(m, g) && 1 <= i < NAV && Slot(m, g, i, k, p)
    ensures var bk, fd := At(8 * i, g.bins[i], k - 1), At(8 * i, g.bins[i], k);
            && 0 <= bk && bk + 12 < |m| && 0 <= fd && fd + 12 < |m| && 0 <= p && p + 12 < |m|
            && Relinked(m, Inserted(m, bk, fd, p), g)
  {
    hide BinIndex, Ring;
    LooseUnlisted(m, g, p);
    NodeWords(m, g, i, k - 1);
    NodeWords(m, g, i, k);
    forall a | a in g.chunks ensures a + 16 <= p || a == p || p + 16 <= a
      ensures InUse(m, a) ==> p + 12 < a + 8 || Next(m, a) + 4 <= p + 8
    {
      assert Proper(m, g.top, g.base, a);
    }
    InsertedWords(m, g, At(8 * i, g.bins[i], k - 1), At(8 * i, g.bins[i], k), p);
  }

  lemma InsertRings(m: Mem, g: Heap, i: int, k: int, p: int)
    requires Ok(m, g) && 1 <= i < NAV && Slot(m, g, i, k, p)
    ensures var bk, fd := At(8 * i, g.bins[i], k - 1), At(8 * i, g.bins[i], k);
            && 0 <= bk && bk + 12 < |m| && 0 <= fd && fd + 12 < |m| && 0 <= p && p + 12 < |m|
            && Rings(Inserted(m, bk, fd, p), Put(g, i, k, p).bins)
  {
    hide BinIndex, Tiles, Tags, Members, Sorted, RemainderAlone, LooseFree, Covered, Aligned;
    LooseUnlisted(m, g, p);
    BinNodes(m, g, i);
    InsertRing(m, 8 * i, g.bins[i], k, p);
    var m' := Inserted(m, At(8 * i, g.bins[i], k - 1), At(8 * i, g.bins[i], k), p);
    forall j | 1 <= j < NAV && j != i ensures Ring(m', 8 * j, g.bins[j]) {
      forall n | -1 <= n <= |g.bins[j]|
        ensures var c := At(8 * j, g.bins[j], n); Fd(m', c) == Fd(m, c) && Bk(m', c) == Bk(m, c)
      {
        RingsApart(m, g, i, k - 1, j, n);
        RingsApart(m, g, i, k, j, n);
      }
      RingFrame(m, m', 8 * j, g.bins[j]);
    }
  }

  lemma PutSorted(m: Mem, m': Mem, g: Heap, i: int, k: int, p: int)
    requires Ok(m, g) && Relinked(m, m', g) && 1 <= i < NAV && Slot(m, g, i, k, p)
    ensures Sorted(m', Put(g, i, k, p))
  {
    hide BinIndex, Ring, Descending, Distinct;
    LooseUnlisted(m, g, p);
    RelinkedKeeps(m, m', g);
    var g' := Put(g, i, k, p);
    forall j | 1 <= j < NAV ensures Distinct(g'.bins[j]) && Descending(m', g'.bins[j]) {
      forall n | 0 <= n < |g.bins[j]| ensures g.bins[j][n] != p && Size(m', g.bins[j][n]) == Size(m, g.bins[j][n]) {
        assert g.bins[j][n] in g.bins[j] && Member(m, g, j, g.bins[j][n]);
      }
      if j == i {
        SortedInsert(m, m', g.bins[i], k, p);
      } else {
        SortedSame(m, m', g.bins[j]);
      }
    }
  }

  lemma SortedInsert(m: Mem, m': Mem, l: seq<int>, k: int, p: int)
    requires Distinct(l) && Descending(m, l) && 0 <= k <= |l| && Size(m', p) == Size(m, p)
    requires forall n :: 0 <= n < |l| ==> l[n] != p && Size(m', l[n]) == Size(m, l[n])
    requires (forall n :: 0 <= n < k ==> Size(m, l[n]) >= Size(m, p)) && forall n :: k <= n < |l| ==> Size(m, l[n]) <= Size(m, p)
    ensures Distinct(l[..k] + [p] + l[k..]) && Descending(m', l[..k] + [p] + l[k..])
  {
    hide Size;
    var s := l[..k] + [p] + l[k..];
    assert forall n :: 0 <= n < |s| ==> s[n] == if n < k then l[n] else if n == k then p else l[n - 1];
  }

  lemma SortedSame(m: Mem, m': Mem, l: seq<int>)
    requires Descending(m, l) && forall n :: 0 <= n < |l| ==> Size(m', l[n]) == Size(m, l[n])
    ensures Descending(m', l)
  {
    hide Size;
  }

  lemma PutBins(m: Mem, m': Mem, g: Heap, i: int, k: int, p: int)
    requires Ok(m, g) && Relinked(m, m', g) && 1 <= i < NAV && Slot(m, g, i, k, p)
    ensures var g' := Put(g, i, k, p);
            Members(m', g') && RemainderAlone(g') && LooseFree(m', g') && Covered(m', g')
  {
    hide BinIndex, Ring;
    LooseUnlisted(m, g, p);
    RelinkedKeeps(m, m', g);
    var g', l' := Put(g, i, k, p), g.bins[i][..k] + [p] + g.bins[i][k..];
    assert g.bins[i] == g.bins[i][..k] + g.bins[i][k..];
    assert forall c :: c in l' <==> c in g.bins[i] || c == p;
    forall j, c | 1 <= j < NAV && c in g'.bins[j] ensures Member(m', g', j, c) {
      if c != p { assert c in g.bins[j] && Member(m, g, j, c); }
    }
    forall c | c in g'.chunks && !InUse(m', c) && c !in g'.loose ensures Binned(m', g', c) {
      if c != p { assert Binned(m, g, c); }
    }
  }

  /** Linking a loose chunk into its bin, or as the last remainder, keeps everything. */
  lemma InsertOk(m: Mem, g: Heap, i: int, k: int, p: int)
    requires Ok(m, g) && 1 <= i < NAV && Slot(m, g, i, k, p)
    ensures var bk, fd := At(8 * i, g.bins[i], k - 1), At(8 * i, g.bins[i], k);
            && 0 <= bk && bk + 12 < |m| && 0 <= fd && fd + 12 < |m| && 0 <= p && p + 12 < |m|
            && Relinked(m, Inserted(m, bk, fd, p), g) && Ok(Inserted(m, bk, fd, p), Put(g, i, k, p))
  {
    hide BinIndex, Ring, Relinked;
    InsertRelinks(m, g, i, k, p);
    InsertRings(m, g, i, k, p);
    var m' := Inserted(m, At(8 * i, g.bins[i], k - 1), At(8 * i, g.bins[i], k), p);
    PutSorted(m, m', g, i, k, p);
    PutBins(m, m', g, i, k, p);
    LooseUnlisted(m, g, p);
    RelinkedTiles(m, m', g);
    RelinkedTags(m, m', g);
    SameChunks(m', g, Put(g, i, k, p));
  }

  // ---- finding the neighbour and the bin of a chunk ---------------------------------------

  lemma {:induction false} Predecessor(m: Mem, g: Heap, c: int, p: int) returns (q: int)
    requires Tiles(m, g) && c in g.chunks && c < p && (p in g.chunks || p == g.top)
    ensures q in g.chunks && Next(m, q) == p && c <= q
    decreases p - c
  {
    assert Closed(m, g, c) && Proper(m, g.top, g.base, c);
    if Next(m, c) == p {
      q := c;
    } else {
      q := Predecessor(m, g, Next(m, c), p);
    }
  }

  /** A clear PREV_INUSE bit means that prev_size leads to a free chunk. */
  lemma PrevIsFree(m: Mem, g: Heap, p: int)
    requires g.top != 0 && Ok(m, g) && (p in g.chunks || p == g.top) && !PrevInUse(m, p)
    ensures var q := p - PrevSize(m, p);
            q in g.chunks && Next(m, q) == p && !InUse(m, q) && PrevInUse(m, q) && Size(m, q) == PrevSize(m, p)
  {
    hide Bins;
    if p in g.chunks { assert Proper(m, g.top, g.base, p); }
    var q := Predecessor(m, g, g.base, p);
    assert FreeTagged(m, q);
  }

  /** Where a free chunk is listed; its fd tells the last remainder from the others. */
  lemma FindBin(m: Mem, g: Heap, p: int) returns (i: int, k: int)
    requires Ok(m, g) && p in g.chunks && !InUse(m, p) && p !in g.loose
    ensures 1 <= i < NAV && 0 <= k < |g.bins[i]| && g.bins[i][k] == p
    ensures i == 1 <==> Fd(m, p) == 8
    ensures i != 1 ==> 0 <= Size(m, p) && i == BinIndex(Size(m, p))
  {
    assert Binned(m, g, p) && Proper(m, g.top, g.base, p);
    hide BinIndex;
    i := if p in g.bins[1] then 1 else BinIndex(Size(m, p));
    k :| 0 <= k < |g.bins[i]| && g.bins[i][k] == p;
    assert p == At(8 * i, g.bins[i], k);
    assert Ring(m, 8 * i, g.bins[i]);
    assert Fd(m, p) == At(8 * i, g.bins[i], k + 1);
    NodeWords(m, g, i, k + 1);
    BinNodes(m, g, i);
  }
}
