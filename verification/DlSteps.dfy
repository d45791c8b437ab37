/** The steps allocator calls are made of, each as one change of memory and ghost view. */
module DlSteps {
  import opened DlHeap
  import opened DlLists

  /** set_inuse_bit_at_offset */
  function Marked1(m: Mem, a: int): Mem
    requires 0 <= a && a + 4 < |m|
  {
    m[a + 4 := m[a + 4].(lo := true)]
  }

  lemma ChunkFacts(m: Mem, g: Heap, v: int)
    requires Tiles(m, g) && v in g.chunks
    ensures AV_END <= g.base <= v && v + MINSIZE <= Next(m, v) <= g.top && g.top + MINSIZE <= |m|
    ensures Next(m, v) in g.chunks || Next(m, v) == g.top
    ensures forall a :: a in g.chunks && v < a ==> Next(m, v) <= a
  {
    assert Proper(m, g.top, g.base, v) && Closed(m, g, v);
  }

  lemma LooseFacts(m: Mem, g: Heap, v: int)
    requires Ok(m, g) && v in g.loose
    ensures g.top != 0 && v in g.chunks && !InUse(m, v)
    ensures PrevInUse(m, v) && Next(m, v) in g.chunks && InUse(m, Next(m, v))
    ensures AV_END <= v && v + MINSIZE <= Next(m, v) && Next(m, v) + MINSIZE <= g.top && g.top + MINSIZE <= |m|
  {
    hide BinIndex, Ring;
    LooseUnlisted(m, g, v);
    ChunkFacts(m, g, v);
    ChunkFacts(m, g, Next(m, v));
    assert FreeTagged(m, v);
    assert InUse(m, Next(m, v)) || FreeTagged(m, Next(m, v));
  }

  lemma LooseUnbinned(m: Mem, g: Heap, lo: int, hi: int)
    requires Ok(m, g)
    requires forall a :: a in g.chunks && lo <= a < hi ==> InUse(m, a) || a in g.loose
    ensures Unbinned(g, lo, hi)
  {
    hide BinIndex;
    forall i, c | 1 <= i < NAV && c in g.bins[i] ensures c < lo || hi <= c {
      assert Member(m, g, i, c);
    }
  }

  /** The live blocks after the region lo..hi was cut anew. */
  ghost function LiveAfter(live: map<int, int>, m': Mem, lo: int, mid: int, hi: int): map<int, int> {
    (map a | a in live && (a < lo || hi <= a) :: live[a])
    + (if PrevInUse(m', mid) then map[lo := mid - lo] else map[])
    + (if mid < hi && PrevInUse(m', hi) then map[mid := hi - mid] else map[])
  }

  lemma RetileLiveAt(m: Mem, m': Mem, g: Heap, lo: int, mid: int, hi: int, a: int)
    requires Cut(m, m', g, lo, mid, hi)
    ensures var after := LiveAfter(Live(m, g), m', lo, mid, hi); var live := Live(m', Retiled(m', g, lo, mid, hi));
            (a in live <==> a in after) && (a in live ==> live[a] == after[a])
    ensures a in Live(m, g) && (a < lo || hi <= a) ==> SameUser(m, m', a, Live(m, g)[a])
  {
    hide Extent, AllProper, AllClosed, Ordered, Within, W, SameUser;
    RetileKeeps(m, m', g, lo, mid, hi);
  }

  lemma RetileLive(m: Mem, m': Mem, g: Heap, lo: int, mid: int, hi: int)
    requires Cut(m, m', g, lo, mid, hi)
    ensures Live(m', Retiled(m', g, lo, mid, hi)) == LiveAfter(Live(m, g), m', lo, mid, hi)
    ensures forall a :: a in Live(m, g) && (a < lo || hi <= a) ==> SameUser(m, m', a, Live(m, g)[a])
  {
    hide LiveAfter, Live, Retiled, SameUser;
    forall a
      ensures var after := LiveAfter(Live(m, g), m', lo, mid, hi); var live := Live(m', Retiled(m', g, lo, mid, hi));
              (a in live <==> a in after) && (a in live ==> live[a] == after[a])
      ensures a in Live(m, g) && (a < lo || hi <= a) ==> SameUser(m, m', a, Live(m, g)[a])
    {
      RetileLiveAt(m, m', g, lo, mid, hi, a);
    }
    assert Live(m', Retiled(m', g, lo, mid, hi)).Keys == LiveAfter(Live(m, g), m', lo, mid, hi).Keys;
  }

  /** The set of chunks and of loose chunks when the region was a single loose chunk. */
  lemma RetiledLoose(m: Mem, m': Mem, g: Heap, lo: int, mid: int, hi: int)
    requires Cut(m, m', g, lo, mid, hi) && hi == Next(m, lo)
    ensures Retiled(m', g, lo, mid, hi).chunks == g.chunks + (if mid < hi then {mid} else {})
    ensures g.loose <= g.chunks ==>
      Retiled(m', g, lo, mid, hi).loose
        == g.loose - {lo} + (if !PrevInUse(m', mid) then {lo} else {}) + (if mid < hi && !PrevInUse(m', hi) then {mid} else {})
  {
    ChunkFacts(m, g, lo);
    forall a | a in g.chunks ensures a <= lo || hi <= a { }
  }

  lemma LiveOutside(m: Mem, g: Heap, lo: int)
    requires Tiles(m, g) && lo in g.chunks
    ensures forall a :: a in Live(m, g) && a != lo ==> a < lo || Next(m, lo) <= a
  {
    ChunkFacts(m, g, lo);
  }

  /** m' hands the front v..mid of the loose chunk v to the caller; a rest mid..hi stays free. */
  ghost predicate Handed(m: Mem, m': Mem, g: Heap, v: int, mid: int) {
    && v in g.loose && Within(m, m', v, Next(m, v))
    && v + MINSIZE <= mid && (mid == Next(m, v) || mid + MINSIZE <= Next(m, v)) && mid % 8 == 0
    && Size(m', v) == mid - v && PrevInUse(m', mid)
    && (mid < Next(m, v) ==> Size(m', mid) == Next(m, v) - mid && !PrevInUse(m', Next(m, v)) && PrevSize(m', Next(m, v)) == Next(m, v) - mid)
  }

  ghost function AfterHanding(m: Mem, g: Heap, v: int, mid: int): Heap {
    if mid < Next(m, v) then g.(chunks := g.chunks + {mid}, loose := g.loose - {v} + {mid}) else g.(loose := g.loose - {v})
  }

  lemma HandedCuts(m: Mem, m': Mem, g: Heap, v: int, mid: int)
    requires Ok(m, g) && Handed(m, m', g, v, mid)
    ensures g.top != 0 && Cut(m, m', g, v, mid, Next(m, v)) && Retagged(m, m', g, v, mid, Next(m, v))
    ensures Unbinned(g, v, Next(m, v)) && v !in Live(m, g) && g.loose <= g.chunks
  {
    hide BinIndex, Ring;
    LooseFacts(m, g, v);
    ChunkFacts(m, g, v);
    LooseUnbinned(m, g, v, Next(m, v));
    assert LooseFree(m, g);
    forall c | c in g.loose ensures c in g.chunks {
      assert !InUse(m, c);
    }
  }

  lemma HandedView(m: Mem, m': Mem, g: Heap, v: int, mid: int)
    requires Cut(m, m', g, v, mid, Next(m, v)) && Handed(m, m', g, v, mid) && g.loose <= g.chunks && v !in Live(m, g)
    ensures Retiled(m', g, v, mid, Next(m, v)) == AfterHanding(m, g, v, mid)
    ensures LiveAfter(Live(m, g), m', v, mid, Next(m, v)) == Live(m, g)[v := mid - v]
  {
    hide Extent, AllProper, AllClosed, Ordered, Within;
    RetiledLoose(m, m', g, v, mid, Next(m, v));
    LiveOutside(m, g, v);
    hide W, Live;
  }

  lemma HandOk(m: Mem, m': Mem, g: Heap, v: int, mid: int)
    requires Ok(m, g) && Handed(m, m', g, v, mid)
    ensures Ok(m', AfterHanding(m, g, v, mid))
    ensures v !in Live(m, g) && Live(m', AfterHanding(m, g, v, mid)) == Live(m, g)[v := mid - v]
    ensures Untouched(m, m', Live(m, g))
  {
    hide Ok, Cut, Retagged, Unbinned, Handed, Tiles, Within;
    HandedCuts(m, m', g, v, mid);
    HandedView(m, m', g, v, mid);
    assert mid % 8 == 0 by { HandedAligned(m, m', g, v, mid); }
    RetileOk(m, m', g, v, mid, Next(m, v));
    RetileLive(m, m', g, v, mid, Next(m, v));
    assert Tiles(m, g) && v in g.chunks by { HandedTiles(m, m', g, v, mid); }
    LiveOutside(m, g, v);
    hide Live, InUse, Size, LiveAfter, SameUser;
  }

  lemma HandedAligned(m: Mem, m': Mem, g: Heap, v: int, mid: int)
    requires Handed(m, m', g, v, mid)
    ensures mid % 8 == 0
  {
  }

  lemma HandedTiles(m: Mem, m': Mem, g: Heap, v: int, mid: int)
    requires Cut(m, m', g, v, mid, Next(m, v))
    ensures Tiles(m, g) && v in g.chunks
  {
  }

  /** A loose chunk goes to the caller as a whole. */
  lemma TakeOk(m: Mem, g: Heap, v: int)
    requires Ok(m, g) && v in g.loose
    ensures 0 <= Next(m, v) && Next(m, v) + 4 < |m|
    ensures Handed(m, Marked1(m, Next(m, v)), g, v, Next(m, v))
  {
    hide BinIndex, Ring, Rings, Members;
    LooseFacts(m, g, v);
  }

  /** The headers and the footer written when nb bytes are split off the front of chunk v. */
  function Carved(m: Mem, v: int, nb: int, sz: int): Mem
    requires 0 <= v && 0 <= nb <= sz && v + sz < |m| && v + nb + 4 < |m|
  {
    m[v + 4 := Word(nb, true)][v + nb + 4 := Word(sz - nb, true)][v + sz := Word(sz - nb, false)]
  }

  /** A loose chunk is split: the front goes to the caller, the rest is loose. */
  lemma CarveOk(m: Mem, g: Heap, v: int, nb: int)
    requires Ok(m, g) && v in g.loose
    requires nb % 8 == 0 && MINSIZE <= nb && nb + MINSIZE <= Size(m, v)
    ensures 0 <= v && v + Size(m, v) < |m|
    ensures Handed(m, Carved(m, v, nb, Size(m, v)), g, v, v + nb)
  {
    hide Ok, Bins, Tiles, Tags, Aligned;
    LooseFacts(m, g, v);
    CarveAligned(m, g, v);
  }

  lemma CarveAligned(m: Mem, g: Heap, v: int)
    requires Ok(m, g) && v in g.loose
    ensures v % 8 == 0
  {
    hide Bins, Tags;
    LooseFacts(m, g, v);
  }

  /** The region lo..hi holds the live blocks ps; its other chunks are loose. */
  ghost predicate Around(m: Mem, g: Heap, ps: set<int>, lo: int, hi: int) {
    && (forall p :: p in ps ==> p in g.chunks && InUse(m, p) && lo <= p < hi)
    && forall a :: a in g.chunks && lo <= a < hi ==> a in ps || a in g.loose
  }

  lemma AroundView(m: Mem, g: Heap, ps: set<int>, lo: int, hi: int)
    requires Ok(m, g) && Around(m, g, ps, lo, hi)
    ensures Unbinned(g, lo, hi)
    ensures (map a | a in Live(m, g) && (a < lo || hi <= a) :: Live(m, g)[a]) == Live(m, g) - ps
  {
    hide BinIndex, Ring, Rings, Members, Covered, Sorted;
    LooseUnbinned(m, g, lo, hi);
    assert LooseFree(m, g);
    forall a | a in Live(m, g) && lo <= a < hi ensures a in ps { }
  }

  /** The blocks ps and loose neighbours become one or two other chunks. */
  lemma RegionOk(m: Mem, m': Mem, g: Heap, ps: set<int>, lo: int, mid: int, hi: int)
    requires g.top != 0 && Ok(m, g) && Around(m, g, ps, lo, hi) && mid % 8 == 0
    requires Cut(m, m', g, lo, mid, hi) && Retagged(m, m', g, lo, mid, hi)
    ensures Ok(m', Retiled(m', g, lo, mid, hi))
    ensures Live(m', Retiled(m', g, lo, mid, hi)) ==
            Live(m, g) - ps + (if PrevInUse(m', mid) then map[lo := mid - lo] else map[])
            + (if mid < hi && PrevInUse(m', hi) then map[mid := hi - mid] else map[])
    ensures Untouched(m, m', Live(m, g) - ps)
  {
    hide Ok, Around, Cut, Retagged, Unbinned;
    AroundView(m, g, ps, lo, hi);
    RetileOk(m, m', g, lo, mid, hi);
    RetileLive(m, m', g, lo, mid, hi);
    hide Live, SameUser;
    forall a | a in Live(m, g) - ps ensures SameUser(m, m', a, Live(m, g)[a]) {
      assert a in (map a | a in Live(m, g) && (a < lo || hi <= a) :: Live(m, g)[a]);
    }
  }

  lemma NewFront(m: Mem, m': Mem, g: Heap, lo: int, top': int, brk': int)
    requires CutTop(m, m', g, lo, top', brk')
    ensures lo < top' ==> InUse(m', lo) && Size(m', lo) == top' - lo
  {
  }

  lemma RetopLive(m: Mem, m': Mem, g: Heap, lo: int, top': int, brk': int)
    requires CutTop(m, m', g, lo, top', brk')
    ensures Live(m', Retopped(g, lo, top', brk')) ==
            (map a | a in Live(m, g) && a < lo :: Live(m, g)[a]) + (if lo < top' then map[lo := top' - lo] else map[])
    ensures forall a :: a in Live(m, g) && a < lo ==> SameUser(m, m', a, Live(m, g)[a])
  {
    hide CutTop, W, SameUser, InUse, Size;
    RetopKeeps(m, m', g, lo, top', brk');
    NewFront(m, m', g, lo, top', brk');
    var after := (map a | a in Live(m, g) && a < lo :: Live(m, g)[a]) + (if lo < top' then map[lo := top' - lo] else map[]);
    assert forall a :: a in Live(m', Retopped(g, lo, top', brk')) <==> a in after;
    assert Live(m', Retopped(g, lo, top', brk')) == after;
  }

  /** All chunks from lo on are loose, but for the live block p if there is one. */
  ghost predicate AtEnd(m: Mem, g: Heap, p: int, lo: int) {
    forall a :: a in g.chunks && lo <= a ==> a == p || a in g.loose
  }

  lemma AtEndView(m: Mem, g: Heap, p: int, lo: int)
    requires Ok(m, g) && AtEnd(m, g, p, lo) && (p in g.chunks ==> InUse(m, p) && lo <= p)
    ensures Unbinned(g, lo, |m|)
    ensures (map a | a in Live(m, g) && a < lo :: Live(m, g)[a]) == Live(m, g) - {p}
  {
    hide BinIndex, Ring, Rings, Covered, Sorted;
    assert LooseFree(m, g);
    forall i, c | 1 <= i < NAV && c in g.bins[i] ensures c < lo {
      assert Member(m, g, i, c);
    }
    forall a | a in Live(m, g) && lo <= a ensures a == p { }
  }

  /** The block p, if any, and loose chunks before top are given to top, or the front of it is taken. */
  lemma EndOk(m: Mem, m': Mem, g: Heap, p: int, lo: int, top': int, brk': int)
    requires g.top != 0 && Ok(m, g) && AtEnd(m, g, p, lo) && (p in g.chunks ==> InUse(m, p) && lo <= p)
    requires CutTop(m, m', g, lo, top', brk') && top' % 8 == 0
    ensures Ok(m', Retopped(g, lo, top', brk'))
    ensures Live(m', Retopped(g, lo, top', brk')) == Live(m, g) - {p} + (if lo < top' then map[lo := top' - lo] else map[])
    ensures Untouched(m, m', Live(m, g) - {p})
  {
    hide Ok, AtEnd, CutTop, Unbinned;
    AtEndView(m, g, p, lo);
    RetopOk(m, m', g, lo, top', brk');
    RetopLive(m, m', g, lo, top', brk');
    hide Live, SameUser;
    forall a | a in Live(m, g) - {p} ensures SameUser(m, m', a, Live(m, g)[a]) {
      assert a in (map a | a in Live(m, g) && a < lo :: Live(m, g)[a]);
    }
  }

  // ---- the first top -----------------------------------------------------------------------

  /** The first extension makes all of base..brk the top chunk. */
  lemma FirstTopOk(m: Mem, g: Heap, base: int, brk': int)
    requires Ok(m, g) && g.top == 0 && AV_END <= base && base % 8 == 0 && base + MINSIZE <= brk' <= |m|
    ensures var m' := m[base + 4 := Word(brk' - base, true)]; var g' := g.(base := base, top := base, brk := brk', loose := {});
            Ok(m', g') && Live(m', g') == Live(m, g) == map[]
  {
    hide BinIndex;
    var m' := m[base + 4 := Word(brk' - base, true)];
    forall i | 1 <= i < NAV ensures g.bins[i] == [] {
      BinNodes(m, g, i);
    }
    forall i | 1 <= i < NAV ensures Ring(m', 8 * i, g.bins[i]) {
      assert Ring(m, 8 * i, g.bins[i]);
      RingFrame(m, m', 8 * i, g.bins[i]);
    }
  }

  // ---- what the local invariants say about the whole arena ------------------------------------

  /** The chunks met on the way from a to top, following the sizes. */
  ghost function Walk(m: Mem, g: Heap, a: int): seq<int>
    requires Tiles(m, g) && (a in g.chunks || a == g.top)
    decreases g.top - a
  {
    if a == g.top then [] else
      assert Closed(m, g, a) && Proper(m, g.top, g.base, a);
      [a] + Walk(m, g, Next(m, a))
  }

  ghost function SumSizes(m: Mem, l: seq<int>): int {
    if l == [] then 0 else Size(m, l[0]) + SumSizes(m, l[1..])
  }

  lemma {:induction false} WalkSums(m: Mem, g: Heap, a: int)
    requires Tiles(m, g) && (a in g.chunks || a == g.top)
    ensures SumSizes(m, Walk(m, g, a)) == g.top - a
    decreases g.top - a
  {
    if a != g.top {
      assert Closed(m, g, a) && Proper(m, g.top, g.base, a);
      WalkSums(m, g, Next(m, a));
      assert Walk(m, g, a)[1..] == Walk(m, g, Next(m, a));
    }
  }

  lemma {:induction false} WalkMeets(m: Mem, g: Heap, a: int, c: int)
    requires Tiles(m, g) && (a in g.chunks || a == g.top)
    ensures c in Walk(m, g, a) <==> c in g.chunks && a <= c
    decreases g.top - a
  {
    if a != g.top {
      ChunkFacts(m, g, a);
      WalkMeets(m, g, Next(m, a), c);
      assert c in Walk(m, g, a) <==> c == a || c in Walk(m, g, Next(m, a));
    } else {
      assert c in g.chunks ==> Proper(m, g.top, g.base, c);
    }
  }

  /** Following the sizes from the first chunk meets every chunk once and ends at top; all sizes sum to the arena. */
  lemma TilingExact(m: Mem, g: Heap)
    requires Ok(m, g) && g.top != 0
    ensures forall c :: c in Walk(m, g, g.base) <==> c in g.chunks
    ensures SumSizes(m, Walk(m, g, g.base)) + Size(m, g.top) == g.brk - g.base
  {
    hide Bins;
    WalkSums(m, g, g.base);
    forall c ensures c in Walk(m, g, g.base) <==> c in g.chunks {
      WalkMeets(m, g, g.base, c);
      assert c in g.chunks ==> Proper(m, g.top, g.base, c);
    }
  }

  /** Blocks of callers never share a user word. */
  lemma BlocksApart(m: Mem, g: Heap, a: int, b: int)
    requires Ok(m, g) && a in Live(m, g) && b in Live(m, g) && a != b
    ensures a + Live(m, g)[a] + SIZE_SZ < b + 8 || b + Live(m, g)[b] + SIZE_SZ < a + 8
    ensures a % 8 == 0 && AV_END <= a && a + Live(m, g)[a] + SIZE_SZ <= |m|
  {
    hide Bins;
    ChunkFacts(m, g, a);
    ChunkFacts(m, g, b);
  }
}
