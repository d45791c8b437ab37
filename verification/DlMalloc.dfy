/** dlmalloc 2.6.6 over the bump region of malloc_wrapper.c. */
module DlMalloc {
  import opened DlHeap
  import opened DlLists
  import opened DlSteps

  const PAGESZ: int := 4096
  const TWO31: int := 0x8000_0000
  const TWO32: int := 0x1_0000_0000
  const LAST_REMAINDER: int := 8
  const MAX_SMALLBIN_SIZE: int := 512

  ghost predicate ZeroFrom(m: Mem, a: int) {
    forall w :: a <= w < |m| && 0 <= w ==> m[w] == ZERO
  }

  /** m' is m with a block added to those in use (or none), nothing else disturbed. */
  ghost predicate Preserves(m: Mem, g: Heap, m': Mem, g': Heap) {
    Live(m', g') == Live(m, g) && Untouched(m, m', Live(m, g))
  }

  lemma RelinkedPreserves(m: Mem, m': Mem, g: Heap, g': Heap)
    requires Tiles(m, g) && Relinked(m, m', g) && g'.chunks == g.chunks
    ensures Preserves(m, g, m', g')
  {
    RelinkedKeeps(m, m', g);
    hide Relinked, Tiles;
  }

  lemma RelinkedZero(m: Mem, m': Mem, g: Heap, a: int)
    requires Relinked(m, m', g) && Extent(m, g) && g.brk <= a && ZeroFrom(m, a)
    ensures ZeroFrom(m', a)
  {
    forall w | a <= w < |m'| && 0 <= w ensures m'[w] == ZERO {
      assert W(m', w) == W(m, w);
    }
  }

  lemma UnlinkAll(m: Mem, g: Heap, i: int, k: int, a: int)
    requires Ok(m, g) && 1 <= i < NAV && 0 <= k < |g.bins[i]| && ZeroFrom(m, a) && (g.top != 0 ==> g.brk <= a)
    ensures var p := g.bins[i][k]; var bk, fd, g' := Bk(m, p), Fd(m, p), Taken(g, i, k);
            && 0 <= bk && bk + 12 < |m| && 0 <= fd && fd + 12 < |m| && 0 <= p && p + 12 < |m|
            && (i == 1 ==> bk == fd == LAST_REMAINDER)
            && var m' := Joined(m, bk, fd);
            Relinked(m, m', g) && Ok(m', g') && Preserves(m, g, m', g') && ZeroFrom(m', a)
  {
    BinNodes(m, g, i);
    NodeLinks(m, g, i, k);
    hide Bins, BinIndex, Tags, Aligned, Relinked, AllProper, AllClosed, Ordered;
    UnlinkOk(m, g, i, k);
    var m' := Joined(m, Bk(m, g.bins[i][k]), Fd(m, g.bins[i][k]));
    RelinkedPreserves(m, m', g, Taken(g, i, k));
    RelinkedZero(m, m', g, a);
  }

  lemma UntouchedTrans(m: Mem, m': Mem, m'': Mem, l: map<int, int>, l': map<int, int>)
    requires Untouched(m, m', l) && Untouched(m', m'', l') && forall a :: a in l ==> a in l' && l'[a] == l[a]
    ensures Untouched(m, m'', l)
  {
    forall a | a in l ensures SameUser(m, m'', a, l[a]) {
      assert SameUser(m, m', a, l[a]) && SameUser(m', m'', a, l'[a]);
    }
  }

  lemma InsertAll(m: Mem, g: Heap, i: int, k: int, p: int, a: int)
    requires Ok(m, g) && 1 <= i < NAV && Slot(m, g, i, k, p) && ZeroFrom(m, a) && (g.top != 0 ==> g.brk <= a)
    ensures g.top != 0 && 0 <= k <= |g.bins[i]|
    ensures var bk, fd, g' := At(8 * i, g.bins[i], k - 1), At(8 * i, g.bins[i], k), Put(g, i, k, p);
            && 0 <= bk && bk + 12 < |m| && 0 <= fd && fd + 12 < |m| && 0 <= p && p + 12 < |m|
            && var m' := Inserted(m, bk, fd, p);
            Relinked(m, m', g) && Ok(m', g') && Preserves(m, g, m', g') && ZeroFrom(m', a)
  {
    LooseUnlisted(m, g, p);
    hide Bins, BinIndex, Tags, Aligned, Relinked, AllProper, AllClosed, Ordered;
    InsertOk(m, g, i, k, p);
    var m' := Inserted(m, At(8 * i, g.bins[i], k - 1), At(8 * i, g.bins[i], k), p);
    RelinkedPreserves(m, m', g, Put(g, i, k, p));
    RelinkedZero(m, m', g, a);
  }

  /** smallbin_index is bin_index for small sizes. */
  lemma LooseIndex(m: Mem, g: Heap, p: int)
    requires Ok(m, g) && p in g.loose
    ensures p % 8 == 0 && Size(m, p) % 8 == 0 && MINSIZE <= Size(m, p)
    ensures Size(m, p) < MAX_SMALLBIN_SIZE ==> BinIndex(Size(m, p)) == Size(m, p) / 8
  {
    hide Bins;
    LooseFacts(m, g, p);
  }

  lemma RemainderSlot(m: Mem, g: Heap, p: int)
    requires Ok(m, g) && p in g.loose && g.bins[1] == []
    ensures Slot(m, g, 1, 0, p) && AV_END <= p
    ensures At(8, g.bins[1], -1) == LAST_REMAINDER && At(8, g.bins[1], 0) == LAST_REMAINDER
  {
    hide Bins;
    LooseFacts(m, g, p);
  }

  /** A loose chunk, or its front, becomes a block. */
  lemma HandAll(m: Mem, m': Mem, g: Heap, v: int, mid: int, a: int)
    requires Ok(m, g) && Handed(m, m', g, v, mid) && ZeroFrom(m, a) && g.brk <= a
    ensures Ok(m', AfterHanding(m, g, v, mid)) && ZeroFrom(m', a)
    ensures v !in Live(m, g) && Live(m', AfterHanding(m, g, v, mid)) == Live(m, g)[v := mid - v]
    ensures Untouched(m, m', Live(m, g))
  {
    HandOk(m, m', g, v, mid);
    LooseFacts(m, g, v);
  }

  lemma TakeAll(m: Mem, g: Heap, v: int, a: int)
    requires Ok(m, g) && v in g.loose && ZeroFrom(m, a) && (g.top != 0 ==> g.brk <= a)
    ensures g.top != 0 && 0 <= v && v + 4 < |m| && 0 <= Next(m, v) && Next(m, v) + 4 < |m|
    ensures var m', g' := Marked1(m, Next(m, v)), g.(loose := g.loose - {v});
            && Ok(m', g') && ZeroFrom(m', a) && v !in Live(m, g) && Live(m', g') == Live(m, g)[v := Size(m, v)]
            && Untouched(m, m', Live(m, g))
  {
    TakeOk(m, g, v);
    LooseFacts(m, g, v);
    hide Ok, Handed, ZeroFrom, Live, Untouched;
    HandAll(m, Marked1(m, Next(m, v)), g, v, Next(m, v), a);
  }

  lemma CarveAll(m: Mem, g: Heap, v: int, nb: int, a: int)
    requires Ok(m, g) && v in g.loose && ZeroFrom(m, a) && (g.top != 0 ==> g.brk <= a)
    requires nb % 8 == 0 && MINSIZE <= nb && nb + MINSIZE <= Size(m, v)
    ensures g.top != 0 && 0 <= v && v + Size(m, v) + 4 < |m|
    ensures var m' := Carved(m, v, nb, Size(m, v));
            var g' := g.(chunks := g.chunks + {v + nb}, loose := g.loose - {v} + {v + nb});
            && Ok(m', g') && ZeroFrom(m', a) && v !in Live(m, g) && Live(m', g') == Live(m, g)[v := nb] && Untouched(m, m', Live(m, g))
  {
    hide Ok, Handed, ZeroFrom, Live, Untouched;
    CarveOk(m, g, v, nb);
    LooseFacts(m, g, v);
    HandAll(m, Carved(m, v, nb, Size(m, v)), g, v, v + nb, a);
  }

  predicate Paged(a: int) {
    a % PAGESZ == 0
  }

  lemma PagedMoved(a: int, b: int)
    requires Paged(a) && Paged(b)
    ensures Paged(a + b) && Paged(a - b)
  {
  }

  /** memset(from, 0, to - from) */
  function Cleared(m: Mem, from: int, to: int): (r: Mem)
    ensures |r| == |m|
    ensures forall w :: 0 <= w < |m| ==> r[w] == if from <= w < to then ZERO else m[w]
  {
    seq(|m|, w requires 0 <= w < |m| => if from <= w < to then ZERO else m[w])
  }

  /** The conversion of a size_t to a signed argument. */
  function Signed(x: int): int {
    if x < TWO31 then x else x - TWO32
  }

  function RoundUp(x: int): (r: int)
    ensures x <= r < x + PAGESZ && Paged(r)
  {
    (x + PAGESZ - 1) / PAGESZ * PAGESZ
  }

  /** What aligns the first chunk: MALLOC_ALIGNMENT minus front_misalign. */
  function FrontGap(cur: int): (r: int)
    ensures 0 <= r < 8 && (cur + r) % 8 == 0
  {
    var front := (cur + 8) % 8;
    if front > 0 then 8 - front else 0
  }

  /** The sbrk size of malloc_extend_top: whole pages after the first time. */
  function ExtendSize(nb: int, based: bool): int {
    if based then RoundUp(nb + MINSIZE) else nb + MINSIZE
  }

  /** The least number of whole pages that holds the block and a smallest chunk, or just those bytes. */
  lemma ExtendSizeIs(nb: int, based: bool)
    ensures var n := ExtendSize(nb, based);
      if based then n % 4096 == 0 && nb + 16 <= n < nb + 16 + 4096 else n == nb + 16
  {
  }

  /** The first extension gets its bytes, but not those that align the end of top to a page. */
  predicate Stumbles(brk: int, sbrk_size: int, end: int) {
    brk + sbrk_size <= end < RoundUp(brk + FrontGap(brk) + sbrk_size)
  }

  /** From an 8-byte boundary, in a pool that ends at a page boundary, the second sbrk never fails. */
  lemma NeverStumbles(brk: int, sbrk_size: int, end: int)
    requires brk % 8 == 0 && Paged(end)
    ensures !Stumbles(brk, sbrk_size, end)
  {
    var x := brk + sbrk_size;
    assert FrontGap(brk) == 0;
    if x <= end {
      assert end == end / PAGESZ * PAGESZ;
      assert (x + PAGESZ - 1) / PAGESZ <= (end + PAGESZ - 1) / PAGESZ == end / PAGESZ;
    }
  }

  /** A pool of 2000 bytes inside one page, and the smallest request: the first extension fails half-way. */
  lemma StumblesHere()
    ensures Stumbles(2000, ExtendSize(Request2Size(1), false), 4000)
  {
  }

  function TopSize(top: int, brk: int): int {
    if top == 0 then 0 else brk - top
  }

  /** From a on the memory is zero, but for the header of top. */
  ghost predicate FreshFrom(m: Mem, a: int, top: int) {
    forall w :: a <= w < |m| && 0 <= w && w != top + 4 ==> m[w] == ZERO
  }

  lemma FreshSelf(m: Mem, a: int, top: int)
    requires ZeroFrom(m, a)
    ensures FreshFrom(m, a, top)
  {
  }

  lemma ZeroMono(m: Mem, a: int, b: int)
    requires ZeroFrom(m, a) && a <= b
    ensures ZeroFrom(m, b)
  {
  }

  lemma TopFacts(m: Mem, g: Heap)
    requires Ok(m, g)
    ensures AV_END <= |m| && |g.bins| == NAV
    ensures g.top != 0 ==> AV_END <= g.base <= g.top && g.top % 8 == 0 && g.top + MINSIZE <= g.brk <= |m|
    ensures g.top != 0 ==> Size(m, g.top) == g.brk - g.top && g.top !in g.chunks && g.top !in Live(m, g)
    ensures g.top == 0 ==> g.chunks == {}
  {
    hide Rings, Members, Sorted, Covered;
    assert g.top != 0 ==> forall a :: a in g.chunks ==> Proper(m, g.top, g.base, a);
  }

  lemma ExtendAll(m: Mem, g: Heap, brk': int)
    requires Ok(m, g) && g.top != 0 && g.loose == {} && g.brk <= brk' <= |m| && ZeroFrom(m, g.brk)
    ensures g.top + 4 < |m|
    ensures var m', g' := m[g.top + 4 := Word(brk' - g.top, true)], g.(brk := brk');
            Ok(m', g') && Preserves(m, g, m', g') && ZeroFrom(m', brk') && FreshFrom(m', g.brk, g.top)
  {
    TopFacts(m, g);
    var m', g' := m[g.top + 4 := Word(brk' - g.top, true)], g.(brk := brk');
    assert CutTop(m, m', g, g.top, g.top, brk');
    assert forall a :: a in g.chunks ==> Proper(m, g.top, g.base, a);
    assert AtEnd(m, g, g.top, g.top);
    hide Ok, CutTop, AtEnd, ZeroFrom, FreshFrom, Untouched, Live;
    EndOk(m, m', g, g.top, g.top, g.top, brk');
    assert Retopped(g, g.top, g.top, brk') == g' by { hide Proper; }
    assert ZeroFrom(m', brk') && FreshFrom(m', g.brk, g.top) by { FreshStore(m, g.brk, brk', g.top, Word(brk' - g.top, true)); }
    assert Live(m, g) - {g.top} == Live(m, g);
  }

  lemma FreshStore(m: Mem, a: int, b: int, top: int, v: Word)
    requires ZeroFrom(m, a) && a <= b && 0 <= top && top + 4 < b && top + 4 < |m|
    ensures var m' := m[top + 4 := v]; ZeroFrom(m', b) && FreshFrom(m', a, top)
  {
  }

  lemma FirstAll(m: Mem, g: Heap, base: int, brk': int, a: int)
    requires Ok(m, g) && g.top == 0 && g.loose == {} && AV_END <= base && base % 8 == 0 && base + MINSIZE <= brk' <= |m|
    requires ZeroFrom(m, a) && a <= base
    ensures var m' := m[base + 4 := Word(brk' - base, true)]; var g' := g.(base := base, top := base, brk := brk', loose := {});
            Ok(m', g') && Preserves(m, g, m', g') && ZeroFrom(m', brk') && FreshFrom(m', a, base)
  {
    FirstTopOk(m, g, base, brk');
    hide Ok;
  }

  /** request2size, in the 32-bit arithmetic of the macro. */
  function Request2Size(req: int): int
    requires 0 <= req < TWO32
  {
    var padded := (req + 11) % TWO32;
    if Signed(padded) < MINSIZE + 7 then MINSIZE else padded / 8 * 8
  }

  function TopCarved(m: Mem, top: int, brk: int, nb: int): Mem
    requires 0 <= top && 0 <= nb && top + nb + 4 < |m|
  {
    m[top + 4 := Word(nb, true)][top + nb + 4 := Word(brk - top - nb, true)]
  }

  lemma RequestAligned(req: int)
    requires 0 <= req < TWO32
    ensures Request2Size(req) % 8 == 0 && MINSIZE <= Request2Size(req) < TWO31
  {
  }

  /** A request below 2^31 gets its bytes and the four of overhead, unless the padding wraps its sign. */
  lemma Request2SizeFits(req: int)
    requires 0 <= req < TWO31
    ensures req + SIZE_SZ <= Request2Size(req) <==> req < TWO31 - 11
    ensures req < TWO31 - 11 ==> 16 <= Request2Size(req) && Request2Size(req) % 8 == 0 && (Request2Size(req) == 16 || Request2Size(req) < req + 4 + 8)
  {
  }

  lemma CarveTopCut(m: Mem, g: Heap, nb: int)
    requires Ok(m, g) && g.top != 0 && nb % 8 == 0 && MINSIZE <= nb && nb + MINSIZE <= g.brk - g.top
    ensures AV_END <= g.top && g.top + nb + 4 < g.brk <= |m| && (g.top + nb) % 8 == 0 && g.top % 8 == 0
    ensures var m' := TopCarved(m, g.top, g.brk, nb);
            && CutTop(m, m', g, g.top, g.top + nb, g.brk) && AtEnd(m, g, g.top, g.top)
            && (forall a :: ZeroFrom(m, a) && g.brk <= a ==> ZeroFrom(m', a))
            && (forall a :: FreshFrom(m, a, g.top) && g.top + 4 < a ==> FreshFrom(m', a, g.top + nb))
    ensures Retopped(g, g.top, g.top + nb, g.brk).chunks == g.chunks + {g.top}
    ensures g.top !in g.chunks && g.top !in Live(m, g)
  {
    hide Bins;
    TopFactsTiles(m, g);
  }

  lemma TopFactsTiles(m: Mem, g: Heap)
    requires Tiles(m, g)
    ensures AV_END <= g.base <= g.top && g.top + MINSIZE <= g.brk <= |m| && forall a :: a in g.chunks ==> a < g.top
  {
    assert forall a :: a in g.chunks ==> Proper(m, g.top, g.base, a);
  }

  lemma CarveTop(m: Mem, g: Heap, nb: int)
    requires Ok(m, g) && g.top != 0 && g.loose == {} && nb % 8 == 0 && MINSIZE <= nb && nb + MINSIZE <= g.brk - g.top
    ensures AV_END <= g.top && g.top + nb + 4 < g.brk <= |m| && g.top % 8 == 0
    ensures var m' := TopCarved(m, g.top, g.brk, nb);
            var g' := g.(top := g.top + nb, chunks := g.chunks + {g.top});
            && Ok(m', g') && g.top !in Live(m, g) && Live(m', g') == Live(m, g)[g.top := nb] && Untouched(m, m', Live(m, g))
            && (forall a :: ZeroFrom(m, a) && g.brk <= a ==> ZeroFrom(m', a))
            && (forall a :: FreshFrom(m, a, g.top) && g.top + 4 < a ==> FreshFrom(m', a, g'.top))
  {
    hide Ok, CutTop, AtEnd, Untouched, Live, ZeroFrom, FreshFrom, TopCarved, InUse;
    CarveTopCut(m, g, nb);
    EndOk(m, TopCarved(m, g.top, g.brk, nb), g, g.top, g.top, g.top + nb, g.brk);
    assert Retopped(g, g.top, g.top + nb, g.brk) == g.(top := g.top + nb, chunks := g.chunks + {g.top});
    assert Live(m, g) - {g.top} == Live(m, g);
  }

  /** How much malloc_trim wants to release, in its unsigned arithmetic. */
  function TrimExtra(top_size: int, pad: int): int {
    var x := (top_size - pad - MINSIZE + (PAGESZ - 1)) % TWO32;
    Signed((x / PAGESZ - 1) * PAGESZ % TWO32)
  }

  /** For pads that are not negative as signed numbers, either enough is kept or sbrk will refuse. */
  lemma TrimExtraBound(top_size: int, pad: int)
    requires 0 <= top_size < TWO31 - 2 * PAGESZ && 0 <= pad < TWO31
    ensures var extra := TrimExtra(top_size, pad);
            && -TWO31 <= extra < TWO31 && Paged(extra)
            && (extra >= PAGESZ ==> if top_size < pad + MINSIZE then extra >= TWO31 - 2 * PAGESZ else top_size - extra > pad + MINSIZE)
  {
    var d := top_size - pad - MINSIZE + (PAGESZ - 1);
    if 0 <= d {
      assert d % TWO32 == d;
    } else {
      assert d % TWO32 == d + TWO32;
    }
  }

  /** A pad that wrapped below zero is taken for a small one: the 4096 bytes of top would all go. */
  lemma TrimExtraWraps()
    ensures TrimExtra(4096, TWO32 - 100) == 4096
  {
  }

  /** What is released for a pad of 2^31 or more: it counts as the negative number pad - 2^32. */
  function WrappedExtra(top_size: int, pad: int): int {
    (top_size + (TWO32 - pad) - MINSIZE + (PAGESZ - 1)) / PAGESZ * PAGESZ - PAGESZ
  }

  /** The pad is below 2^31, or the wrapped amount is less than a page, or more than the arena so that
      sbrk refuses. */
  predicate PadSafe(top_size: int, pad: int, arena: int) {
    pad < TWO31 || WrappedExtra(top_size, pad) < PAGESZ || WrappedExtra(top_size, pad) > arena
  }

  /** Whatever sbrk takes back leaves top larger than the pad exactly when the pad is safe. */
  lemma TrimKeepsExactly(top_size: int, pad: int, arena: int)
    requires 0 <= top_size <= arena < TWO31 - 2 * PAGESZ && 0 <= pad < TWO32
    ensures (PAGESZ <= TrimExtra(top_size, pad) <= arena ==> top_size - TrimExtra(top_size, pad) > pad + MINSIZE)
      <==> PadSafe(top_size, pad, arena)
    ensures Paged(TrimExtra(top_size, pad)) && -TWO31 <= TrimExtra(top_size, pad) < TWO31
  {
    if pad < TWO31 {
      TrimExtraBound(top_size, pad);
    } else {
      var d := top_size - pad - MINSIZE + (PAGESZ - 1);
      assert d % TWO32 == d + TWO32;
    }
  }

  /** What is released are the whole pages above the pad but one, or all of the last if that is not whole;
      for a pad of 2^31 or more that is safe, nothing is. */
  lemma TrimExact(top_size: int, pad: int, arena: int)
    requires 0 <= top_size <= arena < TWO31 - 2 * PAGESZ && 0 <= pad < TWO32 && PadSafe(top_size, pad, arena)
    ensures var extra := TrimExtra(top_size, pad);
      (4096 <= extra <= arena <==> pad < TWO31 && top_size > pad + 16 + 4096)
      && (4096 <= extra <= arena ==> pad + 16 < top_size - extra <= pad + 16 + 4096 && extra % 4096 == 0)
  {
    var d := top_size - pad - MINSIZE + (PAGESZ - 1);
    if 0 <= d {
      assert d % TWO32 == d;
    } else {
      assert d % TWO32 == d + TWO32;
    }
  }

  /** Setting the head of top to what it is. */
  lemma RestoreTop(m: Mem, g: Heap)
    requires Ok(m, g) && g.top != 0
    ensures g.top + 4 < |m| && m[g.top + 4 := Word(g.brk - g.top, true)] == m
  {
    TopFacts(m, g);
  }

  lemma TrimAll(m: Mem, m1: Mem, g: Heap, brk': int)
    requires Ok(m, g) && g.top != 0 && g.loose == {} && g.top + MINSIZE <= brk' <= g.brk && ZeroFrom(m, g.brk)
    requires m1 == Cleared(m, brk', g.brk)
    ensures g.top + 4 < |m|
    ensures var m', g' := m1[g.top + 4 := Word(brk' - g.top, true)], g.(brk := brk');
            Ok(m', g') && Preserves(m, g, m', g') && ZeroFrom(m', brk')
  {
    hide Ok, CutTop, AtEnd, ZeroFrom, Untouched, Live, Cleared, Retopped;
    TopFacts(m, g);
    TrimCut(m, m1, g, brk');
    EndOk(m, m1[g.top + 4 := Word(brk' - g.top, true)], g, g.top, g.top, g.top, brk');
    NotIn(Live(m, g), g.top);
  }

  lemma NotIn(l: map<int, int>, k: int)
    requires k !in l
    ensures l - {k} == l && l - {k} + map[] == l
  {
  }

  lemma TrimCut(m: Mem, m1: Mem, g: Heap, brk': int)
    requires Ok(m, g) && g.top != 0 && g.loose == {} && g.top + MINSIZE <= brk' <= g.brk && ZeroFrom(m, g.brk)
    requires m1 == Cleared(m, brk', g.brk)
    ensures g.top + 4 < |m| && |m1| == |m|
    ensures var m' := m1[g.top + 4 := Word(brk' - g.top, true)]; CutTop(m, m', g, g.top, g.top, brk') && ZeroFrom(m', brk')
    ensures AtEnd(m, g, g.top, g.top) && Retopped(g, g.top, g.top, brk') == g.(brk := brk')
  {
    hide Bins;
    TopFacts(m, g);
    assert forall a :: a in g.chunks ==> Proper(m, g.top, g.base, a);
  }

  /** Headers and footers of chunks and the size of top are as before. */
  ghost predicate SameHeads(m: Mem, m': Mem, g: Heap) {
    && (forall a :: a in g.chunks ==>
      Size(m', a) == Size(m, a) && PrevInUse(m', a) == PrevInUse(m, a) && PrevSize(m', a) == PrevSize(m, a) && (InUse(m', a) <==> InUse(m, a)))
    && Size(m', g.top) == Size(m, g.top)
  }

  lemma RelinkedHeads(m: Mem, m': Mem, g: Heap)
    requires Tiles(m, g) && Relinked(m, m', g)
    ensures SameHeads(m, m', g)
  {
    RelinkedKeeps(m, m', g);
  }

  lemma FreedTrans(m: Mem, m1: Mem, m': Mem, l: map<int, int>, p: int)
    requires Untouched(m, m1, l) && Untouched(m1, m', l - {p})
    ensures Untouched(m, m', l - {p})
  {
    assert Untouched(m, m1, l - {p});
    UntouchedTrans(m, m1, m', l - {p}, l - {p});
  }

  const TRIM_THRESHOLD: int := 128 * 1024

  lemma UntouchedSelf(m: Mem, l: map<int, int>)
    ensures Untouched(m, m, l)
  {
  }

  /** Where the free chunk before p starts, if there is one. */
  function Front(m: Mem, p: int): int {
    if PrevInUse(m, p) then p else p - PrevSize(m, p)
  }

  /** Where the free chunk after p ends, if there is one. */
  function Rear(m: Mem, p: int): int {
    if InUse(m, Next(m, p)) then Next(m, p) else Next(m, Next(m, p))
  }

  /** What the tags of block p say about the chunk before it. */
  lemma FrontFacts(m: Mem, g: Heap, p: int)
    requires g.top != 0 && Ok(m, g) && p in g.chunks && InUse(m, p)
    ensures var lo := Front(m, p);
            && lo in g.chunks && AV_END <= lo <= p && PrevInUse(m, lo) && (lo == p || !InUse(m, lo))
            && (lo < p ==> lo + MINSIZE <= p && Size(m, lo) == PrevSize(m, p) && Next(m, lo) == p)
            && (forall a :: a in g.chunks && lo <= a < Next(m, p) ==> a == lo || a == p)
    ensures p + MINSIZE <= Next(m, p) <= g.top && g.top + MINSIZE <= |m|
    ensures Next(m, p) in g.chunks || Next(m, p) == g.top
    ensures Tiles(m, g) && Tags(m, g)
  {
    hide Bins;
    ChunkFacts(m, g, p);
    if !PrevInUse(m, p) {
      PrevIsFree(m, g, p);
    }
    ChunkFacts(m, g, Front(m, p));
  }

  /** What the tags of block p say about the chunk after it. */
  lemma RearFacts(m: Mem, g: Heap, p: int)
    requires g.top != 0 && Ok(m, g) && p in g.chunks && InUse(m, p) && Next(m, p) in g.chunks
    ensures var next, hi := Next(m, p), Rear(m, p);
            && hi in g.chunks && InUse(m, hi) && next <= hi && hi + MINSIZE <= g.top && hi % 8 == 0
            && (next < hi ==> !PrevInUse(m, hi) && next + MINSIZE <= hi && !InUse(m, next))
            && (forall a :: a in g.chunks && next <= a < hi ==> a == next)
  {
    hide Bins;
    var next := Next(m, p);
    ChunkFacts(m, g, p);
    ChunkFacts(m, g, next);
    if !InUse(m, next) {
      assert FreeTagged(m, next);
      ChunkFacts(m, g, Next(m, next));
      assert InUse(m, Next(m, next)) || FreeTagged(m, Next(m, next));
    }
  }

  /** The free neighbours of block p have been detached, and nothing else is loose. */
  ghost predicate Isolated(m: Mem, g: Heap, p: int) {
    && Ok(m, g) && g.top != 0 && p in g.chunks && InUse(m, p)
    && (PrevInUse(m, p) || Front(m, p) in g.loose)
    && (Next(m, p) == g.top || InUse(m, Next(m, p)) || Next(m, p) in g.loose)
    && (forall a :: a in g.loose ==> a == Front(m, p) || a == Next(m, p))
  }

  lemma IsolatedHasTop(m: Mem, g: Heap, p: int)
    requires Isolated(m, g, p)
    ensures g.top != 0
  {
    hide Ok;
  }

  lemma IsolatedTop(m: Mem, g: Heap, p: int)
    requires Isolated(m, g, p) && Next(m, p) == g.top
    ensures AtEnd(m, g, p, Front(m, p))
    ensures g.brk - Front(m, p) == p - Front(m, p) + Size(m, p) + Size(m, g.top)
    ensures forall a :: a in g.loose ==> a in g.chunks && a < g.top && Front(m, p) <= a
    ensures Front(m, p) % 8 == 0
  {
    hide Rings, Members, Covered, Sorted;
    FrontFacts(m, g, p);
    TopFactsTiles(m, g);
    assert LooseFree(m, g);
  }

  lemma MergeTopOk(m: Mem, g: Heap, p: int, lo: int)
    requires g.top != 0 && Ok(m, g) && AtEnd(m, g, p, lo) && (forall a :: a in g.loose ==> lo <= a) && lo % 8 == 0
    requires p in g.chunks && InUse(m, p) && lo <= p && Tiles(m, g) && lo in g.chunks && PrevInUse(m, lo) && ZeroFrom(m, g.brk)
    ensures 0 <= lo && lo + 4 < |m|
    ensures var m' := m[lo + 4 := Word(g.brk - lo, true)]; var g' := Retopped(g, lo, lo, g.brk);
            && Ok(m', g') && g'.loose == {} && Live(m', g') == Live(m, g) - {p}
            && Untouched(m, m', Live(m, g) - {p}) && ZeroFrom(m', g.brk)
  {
    hide Ok, AtEnd, Tiles, ZeroFrom;
    TopCuts(m, g, lo);
    hide CutTop, Untouched, Live;
    EndOk(m, m[lo + 4 := Word(g.brk - lo, true)], g, p, lo, lo, g.brk);
    assert Retopped(g, lo, lo, g.brk).loose == {};
  }

  lemma FreeTopAll(m: Mem, g: Heap, p: int)
    requires Isolated(m, g, p) && Next(m, p) == g.top && ZeroFrom(m, g.brk)
    ensures AV_END <= Front(m, p) && Front(m, p) + 4 < |m|
    ensures var lo := Front(m, p); var m' := m[lo + 4 := Word(g.brk - lo, true)]; var g' := Retopped(g, lo, lo, g.brk);
            && g'.base == g.base && g'.top == lo && g'.brk == g.brk && g'.bins == g.bins
            && Ok(m', g') && g'.loose == {} && Live(m', g') == Live(m, g) - {p}
            && Untouched(m, m', Live(m, g) - {p}) && ZeroFrom(m', g.brk)
    ensures g.brk - Front(m, p) == p - Front(m, p) + Size(m, p) + Size(m, g.top)
  {
    hide Ok, Tiles, Tags, ZeroFrom, Live, Untouched, AtEnd, InUse, PrevInUse;
    IsolatedTop(m, g, p);
    assert Ok(m, g) && g.top != 0 && p in g.chunks && InUse(m, p);
    hide Isolated;
    FrontFacts(m, g, p);
    hide Front, Size;
    MergeTopOk(m, g, p, Front(m, p));
  }

  lemma TopCuts(m: Mem, g: Heap, lo: int)
    requires Tiles(m, g) && lo in g.chunks && PrevInUse(m, lo) && ZeroFrom(m, g.brk)
    ensures 0 <= lo && lo + 4 < |m|
    ensures var m' := m[lo + 4 := Word(g.brk - lo, true)]; CutTop(m, m', g, lo, lo, g.brk) && ZeroFrom(m', g.brk)
  {
    ChunkFacts(m, g, lo);
  }

  /** The stores of free: the status bit after, the new header, the new footer. */
  function Merged(m: Mem, next: int, lo: int, hi: int): Mem
    requires 0 <= lo <= next && next + 4 < |m| && lo + 4 < |m| && 0 <= hi < |m|
  {
    m[next + 4 := Word(Size(m, next), false)][lo + 4 := Word(hi - lo, true)][hi := Word(hi - lo, false)]
  }

  lemma IsolatedBin(m: Mem, g: Heap, p: int)
    requires Isolated(m, g, p) && Next(m, p) in g.chunks
    ensures Around(m, g, {p}, Front(m, p), Rear(m, p))
    ensures forall a :: a in g.loose ==> Front(m, p) <= a < Rear(m, p)
    ensures Rear(m, p) == Front(m, p) + (p - Front(m, p)) + Size(m, p) + (if InUse(m, Next(m, p)) then 0 else Size(m, Next(m, p)))
  {
    hide Rings, Members, Covered, Sorted;
    FrontFacts(m, g, p);
    RearFacts(m, g, p);
    assert LooseFree(m, g);
  }

  lemma MergedCuts(m: Mem, g: Heap, lo: int, next: int, hi: int, a: int)
    requires Tiles(m, g) && Tags(m, g) && lo in g.chunks && hi in g.chunks && InUse(m, hi) && PrevInUse(m, lo)
    requires lo + MINSIZE <= next <= hi && hi + MINSIZE <= g.top <= |m| && 0 <= lo && ZeroFrom(m, a) && g.brk <= a
    requires next < hi ==> !PrevInUse(m, hi) && next + MINSIZE <= hi
    ensures Cut(m, Merged(m, next, lo, hi), g, lo, hi, hi) && Retagged(m, Merged(m, next, lo, hi), g, lo, hi, hi)
    ensures !PrevInUse(Merged(m, next, lo, hi), hi) && Size(Merged(m, next, lo, hi), lo) == hi - lo
    ensures ZeroFrom(Merged(m, next, lo, hi), a)
  {
    assert Extent(m, g);
  }

  lemma MergeOk(m: Mem, g: Heap, p: int, lo: int, next: int, hi: int, a: int)
    requires g.top != 0 && Ok(m, g) && Around(m, g, {p}, lo, hi) && (forall a :: a in g.loose ==> lo <= a < hi) && hi % 8 == 0
    requires Tiles(m, g) && Tags(m, g) && lo in g.chunks && hi in g.chunks && InUse(m, hi) && PrevInUse(m, lo)
    requires lo + MINSIZE <= next <= hi && hi + MINSIZE <= g.top <= |m| && 0 <= lo && ZeroFrom(m, a) && g.brk <= a
    requires next < hi ==> !PrevInUse(m, hi) && next + MINSIZE <= hi
    ensures var m' := Merged(m, next, lo, hi); var g' := Retiled(m', g, lo, hi, hi);
            && g'.base == g.base && g'.top == g.top && g'.brk == g.brk && g'.bins == g.bins
            && Ok(m', g') && g'.loose == {lo} && Size(m', lo) == hi - lo && Live(m', g') == Live(m, g) - {p}
            && Untouched(m, m', Live(m, g) - {p}) && ZeroFrom(m', a)
  {
    hide Ok, Around, Tiles, Tags, ZeroFrom;
    MergedCuts(m, g, lo, next, hi, a);
    var m' := Merged(m, next, lo, hi);
    assert !InUse(m', lo);
    hide Merged, Cut, Retagged, Untouched, Live, W;
    RegionOk(m, m', g, {p}, lo, hi, hi);
    assert Retiled(m', g, lo, hi, hi).loose == {lo};
  }

  lemma FreeBinAll(m: Mem, g: Heap, p: int, a: int)
    requires Isolated(m, g, p) && Next(m, p) in g.chunks && ZeroFrom(m, a) && g.brk <= a
    ensures var lo, next, hi := Front(m, p), Next(m, p), Rear(m, p);
            && AV_END <= lo <= next && next + 4 < |m| && lo + 4 < |m| && 0 <= hi < |m|
            && hi - lo == (p - lo) + Size(m, p) + (if InUse(m, next) then 0 else Size(m, next))
            && var m' := Merged(m, next, lo, hi); var g' := Retiled(m', g, lo, hi, hi);
            && g'.base == g.base && g'.top == g.top && g'.brk == g.brk && g'.bins == g.bins
            && Ok(m', g') && g'.loose == {lo} && Size(m', lo) == hi - lo && Live(m', g') == Live(m, g) - {p}
            && Untouched(m, m', Live(m, g) - {p}) && ZeroFrom(m', a)
  {
    hide Ok, Tiles, Tags, ZeroFrom, Live, Untouched, Around, Merged, Retiled, InUse, PrevInUse;
    IsolatedBin(m, g, p);
    assert Ok(m, g) && g.top != 0 && p in g.chunks && InUse(m, p);
    hide Isolated;
    FrontFacts(m, g, p);
    RearFacts(m, g, p);
    hide Front, Rear;
    MergeOk(m, g, p, Front(m, p), Next(m, p), Rear(m, p), a);
  }

  lemma LiveFacts(m: Mem, g: Heap, p: int)
    requires Ok(m, g) && p in Live(m, g)
    ensures g.top != 0 && p in g.chunks && InUse(m, p) && AV_END <= p && p + MINSIZE <= Next(m, p) <= g.top && g.top + MINSIZE <= |m|
    ensures Next(m, p) in g.chunks || Next(m, p) == g.top
    ensures Next(m, p) in g.chunks ==> Next(m, p) + MINSIZE <= Next(m, Next(m, p)) <= g.top
  {
    hide Bins;
    ChunkFacts(m, g, p);
    if Next(m, p) in g.chunks { ChunkFacts(m, g, Next(m, p)); }
  }

  lemma HeadsIsolate(m: Mem, m1: Mem, g: Heap, g1: Heap, p: int, lo: int)
    requires Ok(m, g) && p in Live(m, g) && Next(m, p) == g.top
    requires Ok(m1, g1) && SameHeads(m, m1, g) && g1.chunks == g.chunks && g1.top == g.top
    requires lo == Front(m, p) && g1.loose == if lo == p then {} else {lo}
    ensures Isolated(m1, g1, p) && Next(m1, p) == g1.top && Front(m1, p) == lo
    ensures Size(m1, p) == Size(m, p) && Size(m1, g.top) == Size(m, g.top)
  {
    hide Bins, Tiles, Tags, Aligned;
    LiveFacts(m, g, p);
    FrontFacts(m, g, p);
  }

  /** The live block p is gone after m1, the others are as in m. */
  lemma FreedAfter(m: Mem, g: Heap, m1: Mem, g1: Heap, m': Mem, g': Heap, p: int)
    requires Preserves(m, g, m1, g1) && Live(m', g') == Live(m1, g1) - {p} && Untouched(m1, m', Live(m1, g1) - {p})
    ensures Live(m', g') == Live(m, g) - {p} && Untouched(m, m', Live(m, g) - {p})
  {
    FreedTrans(m, m1, m', Live(m, g), p);
  }

  lemma SameHeadsSelf(m: Mem, g: Heap)
    ensures SameHeads(m, m, g)
  {
  }

  lemma HeadsAt(m: Mem, m1: Mem, g: Heap, g1: Heap, p: int, lo: int, n: int, nextsz: int)
    requires Ok(m, g) && p in Live(m, g) && n == Next(m, p) && n != g.top && nextsz == Size(m, n)
    requires SameHeads(m, m1, g) && g1.chunks == g.chunks && |m1| == |m|
    requires lo == Front(m, p) && g1.loose == if lo == p then {} else {lo}
    ensures n in g1.chunks && n !in g1.loose && 0 <= n + nextsz && n + nextsz + 4 < |m|
    ensures InUse(m1, n) <==> m1[n + nextsz + 4].lo
    ensures InUse(m1, n) <==> InUse(m, n)
  {
    LiveFacts(m, g, p);
    FrontFacts(m, g, p);
  }

  /** All is set for the stores of free: lo..lo + sz is to become one free chunk. */
  ghost predicate Ready(m: Mem, g: Heap, p: int, lo: int, next: int, nextsz: int, sz: int) {
    && Isolated(m, g, p) && Next(m, p) == next && next in g.chunks
    && lo == Front(m, p) && nextsz == Size(m, next) && lo + sz == Rear(m, p)
  }

  lemma SameHeadsTrans(m: Mem, m1: Mem, m2: Mem, g: Heap, g1: Heap)
    requires SameHeads(m, m1, g) && SameHeads(m1, m2, g1) && g1.chunks == g.chunks && g1.top == g.top
    ensures SameHeads(m, m2, g)
  {
  }

  lemma HeadsIsolateBin(m: Mem, m2: Mem, g: Heap, g2: Heap, p: int, lo: int)
    requires Ok(m, g) && p in Live(m, g) && Next(m, p) != g.top && lo == Front(m, p)
    requires Ok(m2, g2) && SameHeads(m, m2, g) && g2.chunks == g.chunks && g2.top == g.top
    requires g2.loose == (if lo == p then {} else {lo}) + (if InUse(m, Next(m, p)) then {} else {Next(m, p)})
    ensures var n := Next(m, p);
            Ready(m2, g2, p, lo, n, Size(m, n), p - lo + Size(m, p) + (if InUse(m, n) then 0 else Size(m, n)))
  {
    HeadsFacts(m, g, p);
    hide Ok, W, Live;
    assert Next(m2, p) == Next(m, p) && Front(m2, p) == lo && (InUse(m2, Next(m, p)) <==> InUse(m, Next(m, p)));
  }

  lemma HeadsFacts(m: Mem, g: Heap, p: int)
    requires Ok(m, g) && p in Live(m, g)
    ensures g.top != 0 && p in g.chunks && InUse(m, p) && (Next(m, p) in g.chunks || Next(m, p) == g.top)
    ensures (Front(m, p) == p <==> PrevInUse(m, p)) && Front(m, p) <= p < Next(m, p)
  {
    hide Bins;
    LiveFacts(m, g, p);
    FrontFacts(m, g, p);
  }

  // ---- realloc ------------------------------------------------------------------------------

  /** m1 is m but for the user words that the chunks of lo..hi would have as one block. */
  ghost predicate Scribbled(m: Mem, m1: Mem, lo: int, hi: int) {
    |m1| == |m| && forall w :: 0 <= w < |m| && (w < lo + 8 || hi + 4 <= w) ==> m1[w] == m[w]
  }

  /** Where the block kept by realloc ends when lo..hi is available for nb bytes. */
  function Cutoff(lo: int, hi: int, nb: int): int {
    if hi - lo - nb >= MINSIZE then lo + nb else hi
  }

  /** The stores of realloc's split: the head sizes and the status bit at the end. */
  function Resized(m: Mem, lo: int, mid: int, hi: int): Mem
    requires 0 <= lo <= mid <= hi && hi + 4 < |m|
  {
    var m1 := m[lo + 4 := m[lo + 4].(hi := mid - lo)];
    var m2 := if mid < hi then m1[mid + 4 := Word(hi - mid, true)] else m1;
    Marked1(m2, hi)
  }

  /** A region with the live blocks ps and every loose chunk in it. */
  ghost predicate Region(m: Mem, g: Heap, ps: set<int>, lo: int, hi: int) {
    && Ok(m, g) && g.top != 0 && Around(m, g, ps, lo, hi) && (forall a :: a in g.loose ==> lo <= a < hi)
    && lo in g.chunks && (hi in g.chunks || hi == g.top) && lo < hi
  }

  lemma RegionFacts(m: Mem, g: Heap, ps: set<int>, lo: int, hi: int, nb: int)
    requires Region(m, g, ps, lo, hi) && nb % 8 == 0
    ensures AV_END <= lo && hi <= g.top && g.top + MINSIZE <= |m| && Tiles(m, g) && Tags(m, g) && Cutoff(lo, hi, nb) % 8 == 0
  {
    hide Bins;
    RegionAligned(m, g, ps, lo, hi);
    ChunkFacts(m, g, lo);
    TopFactsTiles(m, g);
    if hi in g.chunks { ChunkFacts(m, g, hi); }
    hide Ok, Tiles, Tags;
    CutoffAligned(lo, hi, nb);
  }

  lemma RegionAligned(m: Mem, g: Heap, ps: set<int>, lo: int, hi: int)
    requires Region(m, g, ps, lo, hi)
    ensures lo % 8 == 0 && hi % 8 == 0 && Tiles(m, g) && Tags(m, g)
  {
    hide Bins, Tiles, Tags;
  }

  lemma CutoffAligned(lo: int, hi: int, nb: int)
    requires lo % 8 == 0 && hi % 8 == 0 && nb % 8 == 0
    ensures Cutoff(lo, hi, nb) % 8 == 0
  {
  }

  lemma ResizedCuts(m: Mem, m1: Mem, g: Heap, lo: int, hi: int, nb: int, a: int)
    requires Tiles(m, g) && Tags(m, g) && lo in g.chunks && (hi in g.chunks || hi == g.top) && AV_END <= lo
    requires MINSIZE <= nb <= hi - lo && hi <= g.top && g.top + MINSIZE <= |m| && Scribbled(m, m1, lo, hi) && ZeroFrom(m, a) && g.brk <= a
    ensures |m1| == |m| && lo <= Cutoff(lo, hi, nb) <= hi
    ensures var mid := Cutoff(lo, hi, nb); var m' := Resized(m1, lo, mid, hi);
            && Cut(m, m', g, lo, mid, hi) && Retagged(m, m', g, lo, mid, hi) && PrevInUse(m', mid) && PrevInUse(m', hi)
            && ZeroFrom(m', a)
  {
    assert Extent(m, g);
  }

  lemma ResizeOk(m: Mem, m1: Mem, g: Heap, ps: set<int>, lo: int, hi: int, nb: int, a: int)
    requires Region(m, g, ps, lo, hi) && nb % 8 == 0 && MINSIZE <= nb <= hi - lo
    requires Scribbled(m, m1, lo, hi) && ZeroFrom(m, a) && g.brk <= a
    ensures AV_END <= lo && hi + 4 < |m1|
    ensures var mid := Cutoff(lo, hi, nb); var m' := Resized(m1, lo, mid, hi); var g' := Retiled(m', g, lo, mid, hi);
            && Ok(m', g') && g'.loose == {} && g'.base == g.base && g'.top == g.top && g'.brk == g.brk && g'.bins == g.bins
            && Live(m', g') == (Live(m, g) - ps)[lo := mid - lo] + (if mid < hi then map[mid := hi - mid] else map[])
            && Untouched(m, m', Live(m, g) - ps) && ZeroFrom(m', a)
            && (forall w :: lo + 8 <= w < mid + 4 ==> W(m', w) == W(m1, w))
  {
    hide Ok, Around, Tiles, Tags, ZeroFrom, Scribbled, Cutoff, Cut, Retagged, Untouched, Live, PrevInUse;
    RegionFacts(m, g, ps, lo, hi, nb);
    ResizedCuts(m, m1, g, lo, hi, nb, a);
    var mid := Cutoff(lo, hi, nb);
    ResizedWords(m1, lo, hi, nb);
    var m' := Resized(m1, lo, mid, hi);
    hide Resized, W;
    ResizedView(m, m', g, lo, mid, hi);
    hide Retiled;
    RegionOk(m, m', g, ps, lo, mid, hi);
    MapAdd(Live(m, g) - ps, lo, mid - lo, if mid < hi then map[mid := hi - mid] else map[]);
  }

  lemma MapAdd(l: map<int, int>, k: int, v: int, r: map<int, int>)
    ensures l + map[k := v] + r == l[k := v] + r
  {
    assert l + map[k := v] == l[k := v];
  }

  lemma ResizedView(m: Mem, m': Mem, g: Heap, lo: int, mid: int, hi: int)
    requires Cut(m, m', g, lo, mid, hi) && PrevInUse(m', mid) && PrevInUse(m', hi) && forall a :: a in g.loose ==> lo <= a < hi
    ensures var g' := Retiled(m', g, lo, mid, hi);
            g'.loose == {} && g'.base == g.base && g'.top == g.top && g'.brk == g.brk && g'.bins == g.bins
  {
    hide Tiles, Within;
  }

  lemma ResizedWords(m: Mem, lo: int, hi: int, nb: int)
    requires 0 <= lo && MINSIZE <= nb <= hi - lo && hi + 4 < |m|
    ensures var mid := Cutoff(lo, hi, nb); lo <= mid <= hi && forall w :: lo + 8 <= w < mid + 4 ==> W(Resized(m, lo, mid, hi), w) == W(m, w)
  {
  }

  function Copied(m: Mem, dst: int, src: int, n: int): (r: Mem)
    requires 0 <= dst && 0 <= src && 0 <= n && dst + n <= |m| && src + n <= |m|
    ensures |r| == |m|
    ensures forall w :: 0 <= w < |m| ==> r[w] == if dst <= w < dst + n then m[w - dst + src] else m[w]
  {
    seq(|m|, w requires 0 <= w < |m| => if dst <= w < dst + n then m[w - dst + src] else m[w])
  }

  /** Block q in m' holds in its first n bytes of user words what block p held in m. */
  ghost predicate SameContents(m: Mem, p: int, m': Mem, q: int, n: int) {
    forall w :: q + 8 <= w < q + n + 4 ==> W(m', w) == W(m, w - q + p)
  }

  lemma SameFront(m: Mem, m': Mem, lo: int, mid: int)
    requires forall w :: lo + 8 <= w < mid + 4 ==> W(m', w) == W(m, w)
    ensures SameContents(m, lo, m', lo, mid - lo)
  {
  }

  lemma RegionFresh(m: Mem, g: Heap, ps: set<int>, lo: int, hi: int)
    requires Region(m, g, ps, lo, hi)
    ensures forall a :: lo <= a < hi ==> a !in Live(m, g) - ps
    ensures g.top != 0
  {
    hide Bins;
    AroundView(m, g, ps, lo, hi);
    var outside := map a | a in Live(m, g) && (a < lo || hi <= a) :: Live(m, g)[a];
    assert forall a :: a in outside ==> a < lo || hi <= a;
  }

  lemma SplitDone(m: Mem, m1: Mem, m2: Mem, m': Mem, l: map<int, int>, l2: map<int, int>, lo: int, mid: int, newsize: int)
    requires l2 == l[lo := mid - lo] + map[mid := lo + newsize - mid] && mid !in l && lo != mid
    requires Untouched(m, m2, l) && SameContents(m1, lo, m2, lo, mid - lo) && Untouched(m2, m', l2 - {mid})
    requires lo !in l
    ensures l2 - {mid} == l[lo := mid - lo] && Untouched(m, m', l) && SameContents(m1, lo, m', lo, mid - lo)
  {
    var l3 := l[lo := mid - lo];
    assert l2 - {mid} == l3;
    assert Untouched(m2, m', l) by {
      forall a | a in l ensures SameUser(m2, m', a, l[a]) {
        assert l3[a] == l[a];
      }
    }
    UntouchedTrans(m, m2, m', l, l);
    assert SameUser(m2, m', lo, l3[lo]);
  }

  lemma SplitWhole(l: map<int, int>, lo: int, mid: int, newsize: int)
    ensures l[lo := mid - lo] + map[] == l[lo := mid - lo]
  {
  }

  /** What realloc finds around block p. */
  lemma SidesFacts(m: Mem, g: Heap, p: int, back: bool, fwd: bool)
    requires Ok(m, g) && g.loose == {} && p in Live(m, g) && (back ==> !PrevInUse(m, p))
    requires fwd ==> Next(m, p) != g.top && !InUse(m, Next(m, p))
    ensures 0 <= p && p + 4 < |m| && p in g.chunks && Live(m, g)[p] == Size(m, p) && Size(m, p) == m[p + 4].hi && Next(m, p) == p + Size(m, p)
    ensures fwd ==> var n := Next(m, p); n in g.chunks && !InUse(m, n) && 0 <= n && n + 4 < |m| && Rear(m, p) == n + m[n + 4].hi && n != p && 0 <= m[n + 4].hi
    ensures back ==> var q := Front(m, p); q == p - PrevSize(m, p) && q in g.chunks && !InUse(m, q) && q < p && (fwd ==> q != Next(m, p))
  {
    hide Bins;
    LiveFacts(m, g, p);
    FrontFacts(m, g, p);
    if fwd { RearFacts(m, g, p); }
  }

  lemma SideStays(m: Mem, m1: Mem, g: Heap, g1: Heap, p: int)
    requires SameHeads(m, m1, g) && g1.chunks == g.chunks && p in g.chunks && Front(m, p) in g.chunks && !InUse(m, Front(m, p))
    requires !PrevInUse(m, p) && Front(m, p) !in g1.loose
    ensures var q := p - PrevSize(m1, p); q == Front(m, p) && q in g1.chunks && !InUse(m1, q) && q !in g1.loose
  {
  }

  lemma SidesSpan(m: Mem, g: Heap, p: int, back: bool, fwd: bool)
    requires Ok(m, g) && p in Live(m, g) && (back ==> !PrevInUse(m, p))
    requires fwd ==> Next(m, p) != g.top && !InUse(m, Next(m, p))
    ensures var lo, hi := if back then Front(m, p) else p, if fwd then Rear(m, p) else Next(m, p);
            && g.top != 0 && p in g.chunks && InUse(m, p) && lo in g.chunks && (hi in g.chunks || hi == g.top) && lo <= p < hi
            && (forall a :: a in g.chunks && lo <= a < hi ==> a == p || (back && a == lo) || (fwd && a == Next(m, p)))
            && (fwd ==> lo <= Next(m, p) < hi)
  {
    hide Bins;
    LiveFacts(m, g, p);
    FrontFacts(m, g, p);
    if fwd { RearFacts(m, g, p); }
  }

  lemma SidesRegion(m: Mem, m1: Mem, g: Heap, g1: Heap, p: int, back: bool, fwd: bool)
    requires Ok(m, g) && g.loose == {} && p in Live(m, g) && (back ==> !PrevInUse(m, p))
    requires fwd ==> Next(m, p) != g.top && !InUse(m, Next(m, p))
    requires Ok(m1, g1) && SameHeads(m, m1, g) && g1.chunks == g.chunks && g1.top == g.top
    requires g1.loose == (if back then {Front(m, p)} else {}) + (if fwd then {Next(m, p)} else {})
    ensures Region(m1, g1, {p}, if back then Front(m, p) else p, if fwd then Rear(m, p) else Next(m, p))
  {
    hide Ok, Live;
    SidesSpan(m, g, p, back, fwd);
    hide Front, Rear, Next, W;
    assert InUse(m1, p);
  }

  function Min(x: int, y: int): int { if x < y then x else y }

  /** The bytes realloc can get for block p together with the neighbours it uses. */
  function Extent2(m: Mem, p: int, back: bool, fwd: bool): int {
    (if fwd then Rear(m, p) else Next(m, p)) - (if back then Front(m, p) else p)
  }

  /** Block p became block q of nb bytes or a little more, with its contents; the others are untouched. */
  ghost predicate Regrown(m: Mem, g: Heap, m': Mem, g': Heap, p: int, q: int, nb: int) {
    && p in Live(m, g) && q in Live(m', g') && nb <= Live(m', g')[q] < nb + MINSIZE
    && (q == p || q !in Live(m, g))
    && Live(m', g') == (Live(m, g) - {p})[q := Live(m', g')[q]]
    && Untouched(m, m', Live(m, g) - {p})
    && SameContents(m, p, m', q, Min(Live(m, g)[p], Live(m', g')[q]))
  }

  lemma SameSize(m: Mem, g: Heap, m1: Mem, g1: Heap, p: int)
    requires Preserves(m, g, m1, g1) && p in Live(m, g)
    ensures Size(m1, p) == Size(m, p)
  {
    assert Live(m1, g1)[p] == Live(m, g)[p];
  }

  lemma RegionBounds(m: Mem, g: Heap, ps: set<int>, lo: int, hi: int, p: int)
    requires Region(m, g, ps, lo, hi) && p in ps
    ensures AV_END <= lo <= p && hi + MINSIZE <= |m| && MINSIZE <= Size(m, p) && p + Size(m, p) <= hi
  {
    hide Bins;
    ChunkFacts(m, g, lo);
    ChunkFacts(m, g, p);
    TopFactsTiles(m, g);
    if hi in g.chunks { ChunkFacts(m, g, hi); }
  }

  lemma ExpandDone(m: Mem, g: Heap, m1: Mem, g1: Heap, m2: Mem, m': Mem, g': Heap, p: int, q: int, oldsize: int, nb: int)
    requires Preserves(m, g, m1, g1) && p in Live(m, g) && oldsize == Live(m, g)[p] && q !in Live(m1, g1) - {p}
    requires SameContents(m1, p, m2, q, oldsize)
    requires q in Live(m', g') && nb <= Live(m', g')[q] < nb + MINSIZE
    requires Live(m', g') == (Live(m1, g1) - {p})[q := Live(m', g')[q]] && Untouched(m1, m', Live(m1, g1) - {p})
    requires SameContents(m2, q, m', q, Live(m', g')[q])
    ensures Regrown(m, g, m', g', p, q, nb)
  {
    FreedTrans(m, m1, m', Live(m, g), p);
    hide Live;
    var l, n := Live(m, g), Live(m', g')[q];
    assert SameUser(m, m1, p, l[p]);
    forall w | q + 8 <= w < q + Min(l[p], n) + 4 ensures W(m', w) == W(m, w - q + p) {
      assert W(m', w) == W(m2, w - q + q) == W(m1, w - q + p) == W(m, w - q + p);
    }
  }

  function TopResized(m: Mem, lo: int, nb: int, brk: int): Mem
    requires 0 <= lo && 0 <= nb && lo + nb + 4 < |m|
  {
    var m1 := m[lo + nb + 4 := Word(brk - lo - nb, true)];
    m1[lo + 4 := m1[lo + 4].(hi := nb)]
  }

  lemma TopResizedCuts(m: Mem, m1: Mem, g: Heap, lo: int, nb: int)
    requires Tiles(m, g) && AV_END <= lo && lo in g.chunks && Scribbled(m, m1, lo, g.top) && MINSIZE <= nb && lo + nb + MINSIZE <= g.brk
    requires ZeroFrom(m, g.brk)
    ensures lo + nb + 4 < |m1| && lo < g.top
    ensures var m' := TopResized(m1, lo, nb, g.brk); CutTop(m, m', g, lo, lo + nb, g.brk) && ZeroFrom(m', g.brk)
    ensures forall w :: lo + 8 <= w < lo + nb + 4 ==> W(TopResized(m1, lo, nb, g.brk), w) == W(m1, w)
  {
    ChunkFacts(m, g, lo);
  }

  predicate Mult8(x: int) {
    x % 8 == 0
  }

  lemma RegionAtEnd(m: Mem, g: Heap, p: int, lo: int, nb: int)
    requires Region(m, g, {p}, lo, g.top) && nb % 8 == 0
    ensures AtEnd(m, g, p, lo) && p in g.chunks && InUse(m, p) && lo <= p && Mult8(lo + nb) && AV_END <= lo && lo in g.chunks && Tiles(m, g)
    ensures forall a :: a in g.loose ==> lo <= a
  {
    hide Bins;
    ChunkFacts(m, g, lo);
    TopFactsTiles(m, g);
  }

  lemma RetopBounds(m: Mem, m1: Mem, g: Heap, p: int, lo: int, nb: int)
    requires Region(m, g, {p}, lo, g.top) && MINSIZE <= nb && lo + nb + MINSIZE <= g.brk && |m1| == |m|
    ensures AV_END <= lo && lo + nb + 4 < |m1|
  {
    hide Bins;
    ChunkFacts(m, g, lo);
  }

  lemma RetopAll(m: Mem, m1: Mem, m': Mem, g: Heap, g': Heap, p: int, lo: int, nb: int)
    requires Region(m, g, {p}, lo, g.top) && nb % 8 == 0 && MINSIZE <= nb && 0 <= lo && lo + nb + MINSIZE <= g.brk && lo + nb + 4 < |m1|
    requires Scribbled(m, m1, lo, g.top) && ZeroFrom(m, g.brk)
    requires m' == TopResized(m1, lo, nb, g.brk) && g' == Retopped(g, lo, lo + nb, g.brk)
    ensures g'.loose == {} && g'.base == g.base && g'.top == lo + nb && g'.brk == g.brk && g'.bins == g.bins
    ensures Ok(m', g') && Live(m', g') == (Live(m, g) - {p})[lo := nb] && Untouched(m, m', Live(m, g) - {p}) && ZeroFrom(m', g.brk)
    ensures forall w :: lo + 8 <= w < lo + nb + 4 ==> W(m', w) == W(m1, w)
  {
    hide Tiles, AtEnd, Scribbled, ZeroFrom, Region, TopResized, CutTop, Ok, Untouched, Live, W, Retopped, Mult8;
    RegionAtEnd(m, g, p, lo, nb);
    TopResizedCuts(m, m1, g, lo, nb);
    RetoppedView(g, lo, lo + nb, g.brk);
    RegionOpen(m, g, p, lo, g.top, nb);
    EndOk(m, m', g, p, lo, lo + nb, g.brk);
    MapPut(Live(m, g) - {p}, lo, nb);
  }

  lemma RegionOpen(m: Mem, g: Heap, p: int, lo: int, hi: int, nb: int)
    requires Region(m, g, {p}, lo, hi) && Mult8(lo + nb)
    ensures Ok(m, g) && g.top != 0 && (lo + nb) % 8 == 0
  {
    hide Bins;
  }

  lemma MapPut(l: map<int, int>, k: int, v: int)
    ensures l + map[k := v] == l[k := v]
  {
  }

  lemma RetoppedView(g: Heap, lo: int, top': int, brk': int)
    requires forall a :: a in g.loose ==> lo <= a
    ensures var g' := Retopped(g, lo, top', brk');
            g'.loose == {} && g'.base == g.base && g'.top == top' && g'.brk == brk' && g'.bins == g.bins
  {
  }

  lemma LiveSize(m: Mem, g: Heap, p: int)
    requires p in Live(m, g)
    ensures Live(m, g)[p] == Size(m, p) && p in g.chunks && InUse(m, p)
  {
  }

  /** Whatever a caller writes into the user words of a block, the heap stays as it is. */
  lemma UserWriteOk(m: Mem, m': Mem, g: Heap, p: int, a: int)
    requires Ok(m, g) && g.loose == {} && p in Live(m, g) && |m'| == |m| && ZeroFrom(m, a) && g.brk <= a
    requires forall w :: 0 <= w < |m| && (w < p + 8 || p + Live(m, g)[p] + 4 <= w) ==> m'[w] == m[w]
    ensures Ok(m', g) && Live(m', g) == Live(m, g) && Untouched(m, m', Live(m, g) - {p}) && ZeroFrom(m', a)
  {
    hide Ok, Cut, Retagged, Around, Untouched, ZeroFrom, Live, Retiled, PrevInUse, Next;
    var hi := Next(m, p);
    UserRegion(m, m', g, p);
    UserCut(m, m', g, p, a);
    UserView(m, m', g, p);
    RegionOk(m, m', g, {p}, p, hi, hi);
    PutSame(Live(m, g), p, hi - p);
  }

  lemma PutSame(l: map<int, int>, k: int, v: int)
    requires k in l && l[k] == v
    ensures l - {k} + map[k := v] + map[] == l
  {
  }

  lemma UserRegion(m: Mem, m': Mem, g: Heap, p: int)
    requires Ok(m, g) && p in Live(m, g)
    ensures Around(m, g, {p}, p, Next(m, p)) && g.top != 0 && Next(m, p) % 8 == 0 && Live(m, g)[p] == Next(m, p) - p
  {
    hide Bins;
    ChunkFacts(m, g, p);
  }

  lemma UserCut(m: Mem, m': Mem, g: Heap, p: int, a: int)
    requires Ok(m, g) && p in Live(m, g) && |m'| == |m| && ZeroFrom(m, a) && g.brk <= a
    requires forall w :: 0 <= w < |m| && (w < p + 8 || p + Live(m, g)[p] + 4 <= w) ==> m'[w] == m[w]
    ensures Cut(m, m', g, p, Next(m, p), Next(m, p)) && Retagged(m, m', g, p, Next(m, p), Next(m, p))
    ensures PrevInUse(m', Next(m, p)) && ZeroFrom(m', a) && Size(m', p) == Size(m, p)
  {
    hide Bins;
    ChunkFacts(m, g, p);
    assert Extent(m, g);
  }

  lemma UserView(m: Mem, m': Mem, g: Heap, p: int)
    requires Ok(m, g) && g.loose == {} && p in Live(m, g) && PrevInUse(m', Next(m, p)) && Size(m', p) == Size(m, p)
    ensures Retiled(m', g, p, Next(m, p), Next(m, p)) == g
  {
    hide Bins;
    ChunkFacts(m, g, p);
  }

  lemma GrantedFacts(m: Mem, g: Heap, m1: Mem, g1: Heap, p: int, q: int, nb: int)
    requires Granted(m, g, m1, g1, q, nb) && p in Live(m, g) && Live(m, g)[p] < nb && Ok(m1, g1) && MINSIZE <= nb
    ensures p in Live(m1, g1) && q in Live(m1, g1) && Size(m1, p) == Size(m, p) == Live(m1, g1)[p] && p != q
    ensures Size(m1, q) == Live(m1, g1)[q] && Size(m1, p) < nb <= Size(m1, q) && MINSIZE <= Size(m1, p)
    ensures (p + Size(m1, p) <= q || q + Size(m1, q) <= p) && g1.top != 0
    ensures AV_END <= p && AV_END <= q && p + Size(m1, p) + 12 <= |m1| && q + Size(m1, q) + 12 <= |m1|
  {
    LiveFacts(m1, g1, p);
    LiveFacts(m1, g1, q);
    assert Live(m1, g1)[p] == Live(m, g)[p];
    ChunkFacts(m1, g1, p);
    ChunkFacts(m1, g1, q);
  }

  lemma JoinRegion(m: Mem, g: Heap, p: int, q: int)
    requires Ok(m, g) && g.loose == {} && p in Live(m, g) && q in Live(m, g) && q == Next(m, p)
    ensures Region(m, g, {p, q}, p, q + Size(m, q)) && Scribbled(m, m, p, q + Size(m, q))
  {
    hide Bins;
    ChunkFacts(m, g, p);
    ChunkFacts(m, g, q);
  }

  lemma JoinDone(m: Mem, g: Heap, m1: Mem, g1: Heap, m': Mem, g': Heap, p: int, q: int, nb: int)
    requires Granted(m, g, m1, g1, q, nb) && p in Live(m, g) && Live(m, g)[p] < nb && p in Live(m', g') && nb <= Live(m', g')[p] < nb + MINSIZE
    requires Live(m', g') == (Live(m1, g1) - {p, q})[p := Live(m', g')[p]] && Untouched(m1, m', Live(m1, g1) - {p, q})
    requires SameContents(m1, p, m', p, Live(m', g')[p])
    ensures Regrown(m, g, m', g', p, p, nb)
  {
    var l, n := Live(m, g), Live(m', g')[p];
    assert Live(m1, g1) - {p, q} == l - {p};
    assert Untouched(m, m1, l - {p});
    UntouchedTrans(m, m1, m', l - {p}, l - {p});
    assert SameUser(m, m1, p, l[p]);
    hide Live;
    forall w | p + 8 <= w < p + Min(l[p], n) + 4 ensures W(m', w) == W(m, w - p + p) {
      assert W(m', w) == W(m1, w - p + p);
    }
  }

  lemma MovedContents(m: Mem, m1: Mem, m2: Mem, m': Mem, p: int, q: int, oldsize: int, n: int)
    requires SameUser(m, m1, p, oldsize) && SameUser(m2, m', q, n) && oldsize < n && 4 <= oldsize && 0 <= p && 0 <= q
    requires p + oldsize + 4 <= |m1| && q + oldsize + 4 <= |m1| && m2 == Copied(m1, q + 8, p + 8, oldsize - 4)
    ensures SameContents(m, p, m', q, oldsize)
  {
    forall w | q + 8 <= w < q + oldsize + 4 ensures W(m', w) == W(m, w - q + p) {
      assert W(m', w) == W(m2, w) == W(m1, w - q + p) == W(m, w - q + p);
    }
  }

  lemma MovedOthers(m: Mem, m1: Mem, m2: Mem, m': Mem, l: map<int, int>, l1: map<int, int>, p: int, q: int)
    requires q in l1 && l1 == l[q := l1[q]] && q !in l && p in l
    requires Untouched(m, m1, l) && Untouched(m1, m2, l1 - {q}) && Untouched(m2, m', l1 - {p})
    ensures Untouched(m, m', l - {p}) && l1 - {p} == (l - {p})[q := l1[q]]
    ensures SameUser(m, m1, p, l[p]) && SameUser(m2, m', q, l1[q])
  {
    forall a | a in l - {p} ensures SameUser(m, m', a, l[a]) {
      assert a in l1 - {q} && (l1 - {q})[a] == l[a];
      assert a in l1 - {p} && (l1 - {p})[a] == l[a];
      assert SameUser(m, m1, a, l[a]) && SameUser(m1, m2, a, l[a]) && SameUser(m2, m', a, l[a]);
    }
    assert q in l1 - {p} && (l1 - {p})[q] == l1[q];
  }

  lemma MoveDone(m: Mem, g: Heap, m1: Mem, g1: Heap, m2: Mem, m': Mem, g': Heap, p: int, q: int, nb: int)
    requires Granted(m, g, m1, g1, q, nb) && p in Live(m, g) && 4 <= Live(m, g)[p] < nb && 0 <= p && 0 <= q
    requires p + Live(m, g)[p] + 4 <= |m1| && q + Live(m, g)[p] + 4 <= |m1|
    requires m2 == Copied(m1, q + 8, p + 8, Live(m, g)[p] - 4) && Untouched(m1, m2, Live(m1, g1) - {q})
    requires Live(m', g') == Live(m1, g1) - {p} && Untouched(m2, m', Live(m1, g1) - {p})
    ensures Regrown(m, g, m', g', p, q, nb)
  {
    hide Live, SameUser, Untouched, SameContents;
    MovedOthers(m, m1, m2, m', Live(m, g), Live(m1, g1), p, q);
    MovedContents(m, m1, m2, m', p, q, Live(m, g)[p], Live(m1, g1)[q]);
  }

  lemma WholeRegion(m: Mem, g: Heap, p: int)
    requires Ok(m, g) && g.loose == {} && p in Live(m, g)
    ensures 0 <= p && p + 4 < |m| && Live(m, g)[p] == m[p + 4].hi
    ensures Region(m, g, {p}, p, p + m[p + 4].hi) && Scribbled(m, m, p, p + m[p + 4].hi) && SameContents(m, p, m, p, m[p + 4].hi)
  {
    hide Bins;
    LiveFacts(m, g, p);
    ChunkFacts(m, g, p);
  }

  /** What the header words around block p mean. */
  lemma AroundFacts(m: Mem, g: Heap, p: int)
    requires Ok(m, g) && p in Live(m, g)
    ensures AV_END <= p && p + 12 < |m| && Size(m, p) == m[p + 4].hi && PrevInUse(m, p) == m[p + 4].lo && Next(m, p) == p + m[p + 4].hi
    ensures var n := p + m[p + 4].hi;
            && 0 <= n && n + 12 < |m| && Size(m, n) == m[n + 4].hi && 0 <= n + m[n + 4].hi
            && (n != g.top ==> n + m[n + 4].hi + 4 < |m| && (InUse(m, n) <==> m[n + m[n + 4].hi + 4].lo))
            && (n != g.top && !InUse(m, n) ==> Rear(m, p) == n + m[n + 4].hi)
    ensures Front(m, p) == if m[p + 4].lo then p else p - m[p].hi
    ensures g.top != 0 && AV_END <= Front(m, p)
  {
    LiveFacts(m, g, p);
    FrontFacts(m, g, p);
    hide Bins;
    TopFacts(m, g);
    if Next(m, p) in g.chunks { ChunkFacts(m, g, Next(m, p)); }
  }

  /** The ways of realloc to grow a block in place: backwards, forwards, into top. */
  datatype Way = NoRoom | Room(back: bool, fwd: bool, intoTop: bool)

  /** The space that a way uses is free and large enough for nb bytes. */
  ghost predicate Suits(m: Mem, g: Heap, p: int, nb: int, way: Way) {
    way.Room? ==>
      && (way.back ==> !PrevInUse(m, p))
      && (way.fwd ==> !way.intoTop && Next(m, p) != g.top && !InUse(m, Next(m, p)))
      && (way.intoTop ==> Next(m, p) == g.top)
      && (if way.intoTop then nb + MINSIZE <= Extent2(m, p, way.back, false) + Size(m, g.top)
          else nb <= Extent2(m, p, way.back, way.fwd))
  }

  // ---- memalign -----------------------------------------------------------------------------

  ghost predicate PowerOfTwo(x: int) {
    exists j: nat :: x == Power(j)
  }

  lemma PowerValues()
    ensures Power(0) == 1 && Power(1) == 2 && Power(2) == 4 && Power(3) == 8 && Power(4) == 16
  {
    assert Power(1) == 2 * Power(0);
    assert Power(2) == 2 * Power(1);
    assert Power(3) == 2 * Power(2);
    assert Power(4) == 2 * Power(3);
  }

  lemma PowerMultiple(x: int)
    requires PowerOfTwo(x) && 8 < x
    ensures x % 16 == 0
  {
    var j: nat :| x == Power(j);
    PowerValues();
    if j <= 3 { PowerMonotone(j, 3); }
    PowerSixteen(j - 4);
  }

  lemma PowerSixteen(k: nat)
    ensures Power(k + 4) % 16 == 0
  {
    assert Power(k + 1) == 2 * Power(k);
    assert Power(k + 2) == 2 * Power(k + 1);
    assert Power(k + 3) == 2 * Power(k + 2);
    assert Power(k + 4) == 2 * Power(k + 3);
    var t := Power(k);
    hide Power;
    assert Power(k + 4) == 16 * t;
  }

  lemma SmallAlignment(x: int, r: int)
    requires PowerOfTwo(x) && x <= 8 && r % 8 == 0
    ensures x > 0 && r % x == 0
  {
    var j: nat :| x == Power(j);
    PowerValues();
    PowerMonotone(0, j);
    if 4 <= j { PowerMonotone(4, j); }
  }

  /** The first multiple of the alignment from x on. */
  function AlignUp(x: int, alignment: int): int
    requires 0 < alignment
  {
    (x + alignment - 1) / alignment * alignment
  }

  predicate MultipleOf(x: int, alignment: int)
    requires 0 < alignment
  {
    x % alignment == 0
  }

  lemma AlignUpBounds(x: int, alignment: int)
    requires 0 < alignment && alignment % 16 == 0
    ensures var r := AlignUp(x, alignment);
            x <= r < x + alignment && MultipleOf(r, alignment) && r % 8 == 0 && MultipleOf(r + alignment, alignment) && (r + alignment) % 8 == 0
  {
    var q := (x + alignment - 1) / alignment;
    MultipleMod(q, alignment);
    MultipleMod(q + 1, alignment);
    assert (q + 1) * alignment == q * alignment + alignment;
  }

  lemma MultipleMod(q: int, alignment: int)
    requires 0 < alignment && alignment % 16 == 0
    ensures (q * alignment) % alignment == 0 && (q * alignment) % 8 == 0
  {
    var t := alignment / 16;
    assert q * alignment == (q * t) * 16;
    ModOfProduct(q, alignment);
  }

  lemma ModOfProduct(q: int, d: int)
    requires 0 < d
    ensures (q * d) % d == 0
  {
    var k, r := q * d / d, (q * d) % d;
    assert q * d == k * d + r && 0 <= r < d;
    assert r == (q - k) * d;
    ProductBounds(q - k, d);
  }

  lemma ProductBounds(x: int, d: int)
    requires 0 < d
    ensures (x >= 1 ==> x * d >= d) && (x <= -1 ==> x * d <= -d) && (x == 0 ==> x * d == 0)
  {
  }

  /** memalign's padded request does not wrap: checked before the call, see PadFitsExactly. */
  predicate PadFits(alignment: int, bytes: int)
    requires 0 <= bytes < TWO32
  {
    8 < alignment && bytes < TWO31 ==>
      var s := Request2Size(bytes) + alignment + MINSIZE;
      s < TWO31 - 11 || TWO31 <= s < TWO32
  }

  lemma PadEnough(alignment: int, bytes: int)
    requires 8 < alignment < TWO32 && 0 <= bytes < TWO31 && PadFits(alignment, bytes)
    ensures var s := Request2Size(bytes) + alignment + MINSIZE;
            s % TWO32 == s && (s < TWO31 ==> s + SIZE_SZ <= Request2Size(s))
  {
    RequestAligned(bytes);
    var s := Request2Size(bytes) + alignment + MINSIZE;
    hide Request2Size;
    if s < TWO31 { Request2SizeFits(s); }
  }

  /** A padded request that wraps to 8 bytes. */
  lemma PadWraps()
    ensures (Request2Size(TWO31 - 12) + TWO31 + MINSIZE) % TWO32 == 8 && !PadFits(TWO31, TWO31 - 12)
  {
  }

  /** For every power of two that a size_t can hold: malloc refuses the padded request or serves all
      of it exactly when PadFits holds. */
  lemma PadFitsExactly(alignment: int, bytes: int)
    requires 8 < alignment <= TWO31 && 0 <= bytes < TWO31
    ensures var s := Request2Size(bytes) + alignment + MINSIZE; var padded := s % TWO32;
            (TWO31 <= padded || s + SIZE_SZ <= Request2Size(padded)) <==> PadFits(alignment, bytes)
  {
    RequestAligned(bytes);
    var s := Request2Size(bytes) + alignment + MINSIZE;
    var padded := s % TWO32;
    assert padded == if s < TWO32 then s else s - TWO32;
    hide Request2Size;
    if padded < TWO31 { Request2SizeFits(padded); RequestAligned(padded); SmallRequest(padded); }
  }

  lemma SmallRequest(req: int)
    requires 0 <= req < TWO31
    ensures Request2Size(req) <= req + 20
  {
  }

  lemma LeadStores(m: Mem, p: int, newp: int, hi: int)
    requires 0 <= p < newp < hi && hi + 4 < |m|
    ensures var m1 := Marked1(m[newp + 4 := Word(hi - newp, true)], hi);
            m1[p + 4 := m1[p + 4].(hi := newp - p)] == Resized(m, p, newp, hi)
  {
  }

  lemma LeadAligned(m: Mem, g: Heap, p: int, newp: int)
    requires Ok(m, g) && p in Live(m, g) && newp % 8 == 0
    ensures (newp - p) % 8 == 0 && Size(m, p) == m[p + 4].hi && Next(m, p) == p + m[p + 4].hi
  {
    LiveFacts(m, g, p);
    assert p % 8 == 0;
    hide Ok, Live;
    Gap8(p, newp);
  }

  lemma PutBack(l: map<int, int>, p: int, v: int)
    ensures (l - {p})[p := v] == l[p := v]
  {
  }

  /** As Granted, with no bound on the size of the new block. */
  ghost predicate Gained(m: Mem, g: Heap, m': Mem, g': Heap, v: int) {
    && v !in Live(m, g) && v in Live(m', g')
    && Live(m', g') == Live(m, g)[v := Live(m', g')[v]]
    && Untouched(m, m', Live(m, g))
  }

  lemma GrantedGained(m: Mem, g: Heap, m1: Mem, g1: Heap, p: int, nb: int)
    requires Granted(m, g, m1, g1, p, nb)
    ensures Gained(m, g, m1, g1, p) && nb <= Live(m1, g1)[p]
  {
  }

  lemma GainedIn(m: Mem, g: Heap, m1: Mem, g1: Heap, p: int)
    requires Gained(m, g, m1, g1, p)
    ensures p in Live(m1, g1)
  {
  }

  lemma LeadRoom(p: int, m: int, u: int, q: int, alignment: int)
    requires 16 <= alignment && m == p + 8 && m % 8 == 0 && !MultipleOf(m, alignment) && MultipleOf(u, alignment) && m <= u < m + alignment
    requires u % 8 == 0 && MultipleOf(u + alignment, alignment) && (u + alignment) % 8 == 0
    requires q == if u - m < MINSIZE then u - 8 + alignment else u - 8
    ensures q % 8 == 0 && MultipleOf(q + 8, alignment) && p + MINSIZE <= q <= p + alignment + 8
  {
    hide MultipleOf;
    assert u != m;
    Gap8(m, u);
    Gap8(8, u);
    Gap8(8, u + alignment);
  }

  lemma MemAligned(p: int)
    requires p % 8 == 0
    ensures (p + 8) % 8 == 0
  {
  }

  lemma Gap8(x: int, y: int)
    requires x % 8 == 0 && y % 8 == 0
    ensures (y - x) % 8 == 0 && (x < y ==> x + 8 <= y)
  {
  }

  lemma KeepDone(m: Mem, g: Heap, m1: Mem, g1: Heap, m': Mem, g': Heap, p: int, nb: int)
    requires Gained(m, g, m1, g1, p) && Regrown(m1, g1, m', g', p, p, nb)
    ensures Granted(m, g, m', g', p, nb)
  {
    assert Live(m1, g1) - {p} == Live(m, g);
    UntouchedTrans(m, m1, m', Live(m, g), Live(m, g));
  }

  lemma LeadDone(m: Mem, g: Heap, m1: Mem, g1: Heap, m2: Mem, l2: map<int, int>, m3: Mem, g3: Heap, p: int, q: int, lead: int, rest: int)
    requires Gained(m, g, m1, g1, p) && q !in Live(m1, g1) && p != q
    requires l2 == Live(m1, g1)[p := lead] + map[q := rest] && Untouched(m1, m2, Live(m1, g1) - {p})
    requires Live(m3, g3) == l2 - {p} && Untouched(m2, m3, l2 - {p})
    ensures Gained(m, g, m3, g3, q) && Live(m3, g3)[q] == rest
  {
    LeadMaps(Live(m, g), Live(m1, g1), l2, p, q, lead, rest);
    hide Live, Untouched;
    UntouchedTrans(m, m1, m2, Live(m, g), Live(m, g));
    UntouchedTrans(m, m2, m3, Live(m, g), l2 - {p});
  }

  lemma LeadMaps(l: map<int, int>, l1: map<int, int>, l2: map<int, int>, p: int, q: int, lead: int, rest: int)
    requires p !in l && p in l1 && l1 == l[p := l1[p]] && q !in l1 && p != q && l2 == l1[p := lead] + map[q := rest]
    ensures l1 - {p} == l && l2 - {p} == l[q := rest] && q !in l
    ensures forall a :: a in l ==> a in l2 - {p} && (l2 - {p})[a] == l[a]
  {
    assert forall a :: a in l ==> a != q && l1[a] == l[a];
  }

  // ---- calloc -------------------------------------------------------------------------------

  /** All user words of block p of size n are zero. */
  ghost predicate Zeroed(m: Mem, p: int, n: int) {
    forall w :: p + 8 <= w < p + n + 4 ==> W(m, w) == ZERO
  }

  lemma NewBlock(m: Mem, g: Heap, m1: Mem, g1: Heap, p: int, nb: int)
    requires Granted(m, g, m1, g1, p, nb) && Ok(m1, g1)
    ensures p in Live(m1, g1) && Live(m1, g1)[p] == m1[p + 4].hi && AV_END <= p && MINSIZE <= m1[p + 4].hi
    ensures g1.top != 0 && p + m1[p + 4].hi <= g1.top && g1.top + MINSIZE <= |m1|
  {
    LiveFacts(m1, g1, p);
  }

  /** Clearing only what top was is enough: the rest came from sbrk as zero. */
  lemma ClearedAll(m: Mem, m2: Mem, p: int, size: int, csz: int, brk: int, top: int, oldbrk: int)
    requires m2 == Cleared(m, p + 8, p + 8 + csz - SIZE_SZ) && 0 <= p && MINSIZE <= csz && p + size <= top && top + MINSIZE <= |m|
    requires csz == size || (p + csz == oldbrk && csz < size && FreshFrom(m, oldbrk, top))
    ensures Zeroed(m2, p, size)
  {
  }

  lemma GrantedZeroed(m: Mem, g: Heap, m1: Mem, g1: Heap, m2: Mem, p: int, nb: int)
    requires Granted(m, g, m1, g1, p, nb) && Live(m2, g1) == Live(m1, g1) && Untouched(m1, m2, Live(m1, g1) - {p})
    ensures Granted(m, g, m2, g1, p, nb)
  {
    assert Live(m1, g1) - {p} == Live(m, g);
    UntouchedTrans(m, m1, m2, Live(m, g), Live(m, g));
  }

  class Malloc {
    const mem: array<Word>
    const start: int
    var brk: int
    var top: int
    var binblocks: seq<bool>
    var sbrkBased: bool
    var sbrkedMem: int
    ghost var stumbled: bool
    ghost var heap: Heap

    ghost predicate Core()
      reads this, mem
    {
      CoreAt(mem[..])
    }

    ghost predicate CoreAt(m: Mem)
      reads this
    {
      && AV_END <= start <= brk <= mem.Length <= TWO32 - 2 * PAGESZ && mem.Length - start < TWO31 - 2 * PAGESZ
      && Ok(m, heap) && Marked(heap.bins, binblocks) && heap.top == top
      && ZeroFrom(m, brk)
      && (top != 0 ==> heap.brk == brk && Paged(brk) && start <= heap.base && sbrkBased)
      && Accounted()
    }

    /** A pool that starts at an 8-byte boundary and ends at a page boundary. */
    ghost predicate WellPlaced() {
      start % 8 == 0 && Paged(mem.Length)
    }

    /** sbrked_mem counts the bytes obtained, unless the second sbrk of the first extension failed. */
    ghost predicate Accounted()
      reads `sbrkBased, `sbrkedMem, `stumbled, `brk, `top
    {
      && (WellPlaced() ==> !stumbled)
      && (!sbrkBased ==> brk == start && sbrkedMem == 0 && !stumbled)
      && (!stumbled ==> sbrkedMem == brk - start)
      && (stumbled ==> sbrkedMem > brk - start || (top == 0 && sbrkedMem == brk - start))
      && (sbrkBased && !stumbled ==> top != 0)
    }

    ghost predicate Valid()
      reads this, mem
    {
      Core() && heap.loose == {}
    }

    ghost function Blocks(): map<int, int>
      reads this, mem
    {
      Live(mem[..], heap)
    }

    /** The initial av_, whose bins point at themselves, and dlmalloc_init on the pool from first to the
        end of the memory. */
    constructor (memory: array<Word>, first: int)
      requires AV_END <= first <= memory.Length <= TWO32 - 2 * PAGESZ && memory.Length - first < TWO31 - 2 * PAGESZ
      modifies memory
      ensures Valid() && Blocks() == map[] && mem == memory && start == first
      ensures top == 0 && brk == start && sbrkedMem == 0 && !sbrkBased && !stumbled
    {
      mem, start, brk, top := memory, first, first, 0;
      binblocks, sbrkBased, sbrkedMem, stumbled := seq(32, i => false), false, 0, false;
      heap := NO_CHUNKS;
      new;
      var i := 1;
      while i < NAV
        invariant 1 <= i <= NAV
        invariant forall j :: 1 <= j < i ==> HeadAlone(memory[..], j)
        modifies memory
      {
        ghost var m := memory[..];
        memory[8 * i + 8] := Word(8 * i, false);
        memory[8 * i + 12] := Word(8 * i, false);
        HeadSet(m, i, memory[..]);
        i := i + 1;
      }
      ghost var m := memory[..];
      forall w | first <= w < memory.Length {
        memory[w] := ZERO;
      }
      HeadsKept(m, first, memory[..]);
      NoChunksOk(memory[..]);
    }

    method Store(a: int, v: Word)
      requires 0 <= a < mem.Length
      modifies mem
      ensures mem[..] == old(mem[..])[a := v]
    {
      mem[a] := v;
    }

    method Unlink(p: int, ghost i: int, ghost k: int)
      requires Core() && 1 <= i < NAV && 0 <= k < |heap.bins[i]| && heap.bins[i][k] == p
      modifies mem, `heap
      ensures Core() && heap == Taken(old(heap), i, k)
      ensures Relinked(old(mem[..]), mem[..], old(heap)) && Preserves(old(mem[..]), old(heap), mem[..], heap)
    {
      hide Ok, Relinked, ZeroFrom, Preserves, Accounted, Paged;
      UnlinkAll(mem[..], heap, i, k, brk);
      var bck, fwd := mem[p + 12].hi, mem[p + 8].hi;
      Store(fwd + 12, Word(bck, false));
      Store(bck + 8, Word(fwd, false));
      heap := Taken(heap, i, k);
    }

    /** The four stores that put p into its list, after the place was found. */
    method Link(p: int, bck: int, fwd: int, ghost i: int, ghost k: int)
      requires Core() && 1 <= i < NAV && Slot(mem[..], heap, i, k, p)
      requires i != 1 ==> binblocks[i / 4]
      requires bck == At(8 * i, heap.bins[i], k - 1) && fwd == At(8 * i, heap.bins[i], k)
      modifies mem, `heap
      ensures Core() && heap == Put(old(heap), i, k, p)
      ensures Relinked(old(mem[..]), mem[..], old(heap)) && Preserves(old(mem[..]), old(heap), mem[..], heap)
    {
      hide Ok, Relinked, Slot, ZeroFrom, Preserves, Accounted, Paged;
      InsertAll(mem[..], heap, i, k, p, brk);
      ghost var m' := Inserted(mem[..], bck, fwd, p);
      Store(p + 12, Word(bck, false));
      Store(p + 8, Word(fwd, false));
      Store(fwd + 12, Word(p, false));
      Store(bck + 8, Word(p, false));
      heap := Put(heap, i, k, p);
      assert mem[..] == m';
    }

    /** set_inuse_bit_at_offset */
    method SetInuse(a: int)
      requires 0 <= a && a + 4 < mem.Length
      modifies mem
      ensures mem[..] == Marked1(old(mem[..]), a)
    {
      Store(a + 4, mem[a + 4].(lo := true));
    }

    /** The loose chunk v becomes a block as it is. */
    method Take(v: int)
      requires Core() && v in heap.loose
      modifies mem, `heap
      ensures Core() && heap == old(heap).(loose := old(heap).loose - {v})
      ensures v !in old(Blocks()) && Blocks() == old(Blocks())[v := old(Size(mem[..], v))]
      ensures Untouched(old(mem[..]), mem[..], old(Blocks()))
    {
      hide Ok, ZeroFrom, Live, Untouched, Accounted, Paged, Marked;
      TakeAll(mem[..], heap, v, brk);
      SetInuse(v + mem[v + 4].hi);
      heap := heap.(loose := heap.loose - {v});
    }

    /** The stores that cut chunk v after nb bytes. */
    method CutChunk(v: int, nb: int)
      requires Core() && v in heap.loose
      requires nb % 8 == 0 && MINSIZE <= nb && nb + MINSIZE <= Size(mem[..], v)
      modifies mem, `heap
      ensures Core() && heap == old(heap).(chunks := old(heap).chunks + {v + nb}, loose := old(heap).loose - {v} + {v + nb})
      ensures v !in old(Blocks()) && Blocks() == old(Blocks())[v := nb]
      ensures Untouched(old(mem[..]), mem[..], old(Blocks()))
    {
      hide Ok, ZeroFrom, Live, Untouched, Accounted, Paged;
      CarveAll(mem[..], heap, v, nb, brk);
      var sz := mem[v + 4].hi;
      ghost var m' := Carved(mem[..], v, nb, sz);
      Store(v + 4, Word(nb, true));
      Store(v + nb + 4, Word(sz - nb, true));
      Store(v + nb + (sz - nb), Word(sz - nb, false));
      assert mem[..] == m';
      heap := heap.(chunks := heap.chunks + {v + nb}, loose := heap.loose - {v} + {v + nb});
    }

    /** The front of the loose chunk v becomes a block; the remainder becomes last_remainder. */
    method Split(v: int, nb: int)
      requires Core() && heap.loose == {v} && heap.bins[1] == []
      requires nb % 8 == 0 && MINSIZE <= nb && nb + MINSIZE <= Size(mem[..], v)
      modifies mem, `heap
      ensures Valid() && top == old(top) && brk == old(brk)
      ensures v !in old(Blocks()) && Blocks() == old(Blocks())[v := nb]
      ensures Untouched(old(mem[..]), mem[..], old(Blocks()))
    {
      hide Ok, ZeroFrom, Live, Untouched, Accounted, Paged;
      ghost var m0, l0 := mem[..], Blocks();
      CutChunk(v, nb);
      ghost var m1, l1 := mem[..], Blocks();
      LinkLastRemainder(v + nb);
      UntouchedTrans(m0, m1, mem[..], l0, l1);
    }

    /** link_last_remainder */
    method LinkLastRemainder(p: int)
      requires Core() && p in heap.loose && heap.bins[1] == []
      modifies mem, `heap
      ensures Core() && heap == Put(old(heap), 1, 0, p)
      ensures Preserves(old(mem[..]), old(heap), mem[..], heap)
    {
      hide Ok, Relinked, Slot, ZeroFrom, Preserves, Accounted, Paged, Inserted;
      RemainderSlot(mem[..], heap, p);
      InsertAll(mem[..], heap, 1, 0, p, brk);
      Store(LAST_REMAINDER + 8, Word(p, false));
      Store(LAST_REMAINDER + 12, Word(p, false));
      Store(p + 8, Word(LAST_REMAINDER, false));
      Store(p + 12, Word(LAST_REMAINDER, false));
      InsertedIs(old(mem[..]), LAST_REMAINDER, LAST_REMAINDER, p, mem[..]);
      heap := Put(heap, 1, 0, p);
    }

    lemma InsertedIs(m: Mem, bk: int, fd: int, p: int, m': Mem)
      requires bk == fd == LAST_REMAINDER && AV_END <= p && p + 12 < |m|
      requires m' == m[bk + 8 := Word(p, false)][bk + 12 := Word(p, false)][p + 8 := Word(fd, false)][p + 12 := Word(bk, false)]
      ensures m' == Inserted(m, bk, fd, p)
    {
    }

    /** clear_last_remainder */
    method ClearLastRemainder(ghost v: int)
      requires Core() && heap.bins[1] == [v]
      modifies mem, `heap
      ensures Core() && heap == Taken(old(heap), 1, 0)
      ensures Relinked(old(mem[..]), mem[..], old(heap)) && Preserves(old(mem[..]), old(heap), mem[..], heap)
    {
      hide Ok, Relinked, ZeroFrom, Preserves, Accounted, Paged;
      UnlinkAll(mem[..], heap, 1, 0, brk);
      assert Bk(mem[..], v) == LAST_REMAINDER && Fd(mem[..], v) == LAST_REMAINDER;
      ghost var m0 := mem[..];
      Store(LAST_REMAINDER + 8, Word(LAST_REMAINDER, false));
      Store(LAST_REMAINDER + 12, Word(LAST_REMAINDER, false));
      assert mem[..] == m0[16 := Word(8, false)][20 := Word(8, false)];
      assert mem[..] == Joined(m0, LAST_REMAINDER, LAST_REMAINDER);
      heap := Taken(heap, 1, 0);
    }

    /** The scan of frontlink: past the chunks that are larger than s. */
    method SortedPlace(idx: int, s: int) returns (fwd: int, ghost k: int)
      requires Core() && 1 <= idx < NAV
      ensures 0 <= k <= |heap.bins[idx]| && fwd == At(8 * idx, heap.bins[idx], k)
      ensures forall n :: 0 <= n < k ==> Size(mem[..], heap.bins[idx][n]) > s
      ensures forall n :: k <= n < |heap.bins[idx]| ==> Size(mem[..], heap.bins[idx][n]) <= s
    {
      hide Ring, BinIndex, Rings, Members, Covered, Marked, Distinct, Accounted, Paged;
      ghost var m, l := mem[..], heap.bins[idx];
      NodeLinks(m, heap, idx, -1);
      fwd := mem[8 * idx + 8].hi;
      k := 0;
      NodeLinks(m, heap, idx, 0);
      while fwd != 8 * idx && s < mem[fwd + 4].hi
        invariant 0 <= k <= |l| && fwd == At(8 * idx, l, k) && (fwd == 8 * idx <==> k == |l|)
        invariant forall n :: 0 <= n < k ==> Size(m, l[n]) > s
        invariant 0 <= fwd && fwd + 16 <= mem.Length
        decreases |l| - k
      {
        NodeLinks(m, heap, idx, k);
        fwd := mem[fwd + 8].hi;
        k := k + 1;
        NodeLinks(m, heap, idx, k);
      }
      assert k < |l| ==> Size(m, l[k]) <= s;
    }

    /** frontlink: p goes into its bin by size, ahead of others of the same size. */
    method Frontlink(p: int, s: int) returns (idx: int, ghost k: int)
      requires Core() && p in heap.loose && s == Size(mem[..], p)
      modifies mem, `heap, `binblocks
      ensures Core() && 2 <= idx < NAV && idx == BinIndex(s) && 0 <= k <= |old(heap.bins[idx])|
      ensures heap == Put(old(heap), idx, k, p)
      ensures Relinked(old(mem[..]), mem[..], old(heap)) && Preserves(old(mem[..]), old(heap), mem[..], heap)
    {
      hide Ring, BinIndex, Bins, Relinked, Tiles, Tags, Aligned, Accounted, Paged, ZeroFrom;
      LooseFacts(mem[..], heap, p);
      LooseIndex(mem[..], heap, p);
      idx := if s < MAX_SMALLBIN_SIZE then s / 8 else BinIndex(s);
      NodeLinks(mem[..], heap, idx, -1);
      var bck, fwd := 8 * idx, mem[8 * idx + 8].hi;
      k := 0;
      if s < MAX_SMALLBIN_SIZE {
        binblocks := binblocks[idx / 4 := true];
        SmallBin(mem[..], heap, idx, s);
      } else if fwd == bck {
        binblocks := binblocks[idx / 4 := true];
        EmptyBin(mem[..], heap, idx);
      } else {
        fwd, k := SortedPlace(idx, s);
        NodeLinks(mem[..], heap, idx, k);
        bck := mem[fwd + 12].hi;
        NodeLinks(mem[..], heap, idx, 0);
      }
      Link(p, bck, fwd, idx, k);
    }

    // ---- the search for a chunk -------------------------------------------------------

    /** A walk from the end of bin i towards its front, to the first chunk of nb bytes or more. */
    method ScanBin(i: int, nb: int) returns (victim: int, ghost k: int)
      requires Core() && 1 <= i < NAV
      ensures -1 <= k < |heap.bins[i]| && victim == At(8 * i, heap.bins[i], k) && (victim == 8 * i <==> k == -1)
      ensures forall n :: k < n < |heap.bins[i]| ==> Size(mem[..], heap.bins[i][n]) < nb
      ensures 0 <= k ==> Size(mem[..], heap.bins[i][k]) >= nb && AV_END <= victim && victim + 16 <= mem.Length
    {
      hide Ring, BinIndex, Rings, Members, Covered, Marked, Sorted, Accounted, Paged;
      ghost var m, l := mem[..], heap.bins[i];
      k := |l|;
      NodeLinks(m, heap, i, k);
      victim := mem[8 * i + 12].hi;
      k := k - 1;
      NodeLinks(m, heap, i, k);
      while victim != 8 * i && mem[victim + 4].hi < nb
        invariant -1 <= k < |l| && victim == At(8 * i, l, k) && (victim == 8 * i <==> k == -1)
        invariant forall n :: k < n < |l| ==> Size(m, l[n]) < nb
        invariant 0 <= victim && victim + 16 <= mem.Length
        decreases k
      {
        NodeLinks(m, heap, i, k);
        victim := mem[victim + 12].hi;
        k := k - 1;
        NodeLinks(m, heap, i, k);
      }
      BinNodes(m, heap, i);
    }

    /** The first look of malloc for a small request: the bin of nb and the next one. */
    method ExactSmall(nb: int) returns (victim: int, idx: int, ghost i: int, ghost k: int)
      requires Core() && MINSIZE <= nb < MAX_SMALLBIN_SIZE - 8 && nb % 8 == 0
      ensures victim != 0 ==> Listed(heap, victim, i, k) && nb <= Size(mem[..], victim) < nb + MINSIZE
      ensures victim == 0 ==> Missed(mem[..], heap, idx, nb)
    {
      idx := nb / 8;
      SmallFacts(mem[..], heap, nb, idx);
      hide Ok, Marked, ZeroFrom, Accounted, Paged, BinIndex, Missed;
      var q := idx;
      victim, k := LastOf(q);
      if victim == 8 * q {
        q := q + 1;
        victim, k := LastOf(q);
      }
      i := q;
      if victim == 8 * q {
        victim, idx := 0, idx + 2;
      }
    }

    /** The first look of malloc for a larger request: its bin, from the smallest chunk on. */
    method ExactLarge(nb: int) returns (victim: int, idx: int, ghost i: int, ghost k: int)
      requires Core() && MAX_SMALLBIN_SIZE - 8 <= nb
      ensures victim != 0 ==> Listed(heap, victim, i, k) && nb <= Size(mem[..], victim) < nb + MINSIZE
      ensures victim == 0 ==> Missed(mem[..], heap, idx, nb)
    {
      FitFacts(mem[..], heap, nb);
      idx := BinIndex(nb);
      assert 63 <= idx;
      hide BinIndex, Rings, Members, Covered, Marked, ZeroFrom, Tiles, Tags, Aligned, Accounted, Paged;
      var q := idx;
      i := q;
      victim, k := ScanBin(q, nb);
      if victim != 8 * q {
        if mem[victim + 4].hi - nb < MINSIZE {
          return;
        }
        idx := idx - 1;
        FirstLargest(mem[..], heap, q, k);
      }
      victim, idx := 0, idx + 1;
    }

    /** The second look: the last remainder is split, taken, or put in its bin. */
    method UseRemainder(nb: int, ghost idx: int) returns (victim: int)
      requires Valid() && nb % 8 == 0 && MINSIZE <= nb && Missed(mem[..], heap, idx, nb)
      modifies mem, `heap, `binblocks
      ensures Valid()
      ensures victim != 0 ==> AV_END <= victim && Granted(old(mem[..]), old(heap), mem[..], heap, victim, nb)
      ensures victim == 0 ==> Preserves(old(mem[..]), old(heap), mem[..], heap)
      ensures victim == 0 ==> heap.bins[1] == [] && Missed(mem[..], heap, idx, nb)
      ensures victim == 0 && NoneBelow(mem[..], heap, NAV, nb) ==> NoneBelow(old(mem[..]), old(heap), NAV, nb)
    {
      hide Ok, ZeroFrom, Marked, Relinked, Live, Missed, Untouched, Accounted, Paged, NoneBelow;
      ghost var m0, g0 := mem[..], heap;
      Remainder(m0, g0);
      victim := mem[LAST_REMAINDER + 8].hi;
      if victim == LAST_REMAINDER {
        victim := 0;
        PreservesSelf(m0, g0);
        return;
      }
      var size := mem[victim + 4].hi;
      ClearLastRemainder(victim);
      ghost var m1, g1 := mem[..], heap;
      SizesKept(m0, m1, g0);
      if size - nb >= MINSIZE {
        Split(victim, nb);
        GrantedAfter(m0, g0, m1, g1, mem[..], heap, victim, nb, nb);
        return;
      }
      if size - nb >= 0 {
        Take(victim);
        GrantedAfter(m0, g0, m1, g1, mem[..], heap, victim, size, nb);
        return;
      }
      var bin, k := Frontlink(victim, size);
      MissedAfter(m0, g0, m1, mem[..], heap, idx, nb, victim, bin, k);
      NoneBefore(m0, g0, m1, mem[..], heap, nb, victim, bin, k);
      UntouchedTrans(m0, m1, mem[..], Live(m0, g0), Live(m1, g1));
      victim := 0;
    }

    /** The bins of one block, from bin idx to the end of the block. */
    method ScanBlock(nb: int, start: int) returns (victim: int, idx: int, ghost i: int, ghost k: int)
      requires Core() && 2 <= start < NAV && AllFit(mem[..], heap, start, nb)
      ensures victim != 0 ==> Listed(heap, victim, i, k) && start <= i && EmptyBins(heap, start, i)
      ensures victim != 0 ==> Size(mem[..], victim) >= nb && forall n :: k < n < |heap.bins[i]| ==> Size(mem[..], heap.bins[i][n]) < nb
      ensures victim == 0 ==> idx == start / 4 * 4 + 4 && EmptyBins(heap, start, idx)
    {
      hide Ok, Marked, ZeroFrom, Accounted, Paged;
      idx := start;
      while true
        invariant start <= idx < start / 4 * 4 + 4 && EmptyBins(heap, start, idx)
        decreases NAV - idx
      {
        i := idx;
        victim, k := ScanBin(idx, nb);
        if victim != 8 * idx {
          return;
        }
        idx := idx + 1;
        if idx % 4 == 0 { break; }
      }
      victim := 0;
    }

    /** Clears the bit of a block that was found empty from startidx on, unless an earlier bin of it is not. */
    method ClearBlock(start: int)
      requires Core() && 4 <= start < NAV && EmptyBins(heap, start, start / 4 * 4 + 4)
      modifies `binblocks
      ensures Core()
      ensures |old(binblocks)| == 32 && binblocks == if EmptyBins(heap, start / 4 * 4, start / 4 * 4 + 4) then old(binblocks)[start / 4 := false] else old(binblocks)
    {
      hide Ok, ZeroFrom, Accounted, Paged;
      var startidx := start;
      while true
        invariant startidx / 4 == start / 4 && 4 <= startidx < NAV && EmptyBins(heap, startidx, start / 4 * 4 + 4)
        invariant binblocks == old(binblocks)
        decreases startidx
      {
        if startidx % 4 == 0 {
          binblocks := binblocks[start / 4 := false];
          break;
        }
        startidx := startidx - 1;
        NodeLinks(mem[..], heap, startidx, -1);
        if mem[8 * startidx + 8].hi != 8 * startidx {
          FullBin(mem[..], heap, startidx);
          break;
        }
        EmptyBin(mem[..], heap, startidx);
      }
    }

    /** The third look: blocks of bins in increasing order, through the bitmap. */
    method ScanBlocks(nb: int, idx0: int) returns (victim: int, ghost i: int, ghost k: int)
      requires Core() && Missed(mem[..], heap, idx0, nb)
      modifies `binblocks
      ensures Core()
      ensures victim != 0 ==> Listed(heap, victim, i, k) && BestFit(mem[..], heap, i, k, nb) && Size(mem[..], victim) >= nb
      ensures victim == 0 ==> NoneBelow(mem[..], heap, NAV, nb)
    {
      hide Ok, ZeroFrom, Accounted, Paged, BestFit, NoneBelow;
      ghost var m := mem[..];
      i, k := 0, 0;
      var idx, block := idx0, idx0 / 4;
      if AnyFrom(binblocks, block) {
        if !binblocks[block] {
          SkipBlock(heap, binblocks, block);
          idx, block := idx / 4 * 4 + 4, block + 1;
          idx, block := NextMarked(idx, block);
        }
        while true
          invariant mem[..] == m && heap == old(heap) && Core()
          invariant 4 <= idx0 <= idx < NAV && block == idx / 4 && EmptyBins(heap, idx0, idx)
          modifies `binblocks
          decreases NAV - idx
        {
          var startidx := idx;
          victim, idx, i, k := ScanBlock(nb, startidx);
          if victim != 0 {
            FoundBest(m, heap, idx0, nb, i, k);
            return;
          }
          ClearBlock(startidx);
          block := block + 1;
          if block < 32 && AnyFrom(binblocks, block) {
            idx, block := NextMarked(idx, block);
          } else {
            break;
          }
        }
      }
      Unfit(m, heap, binblocks, idx0, idx, nb);
      victim := 0;
    }

    /** From a block boundary on to the next marked block. */
    method NextMarked(idx0: int, block0: int) returns (idx: int, block: int)
      requires Core() && 4 <= idx0 == 4 * block0 && AnyFrom(binblocks, block0)
      ensures idx0 <= idx < NAV && idx == 4 * block && EmptyBins(heap, idx0, idx)
    {
      hide Ok, ZeroFrom;
      idx, block := idx0, block0;
      while !binblocks[block]
        invariant idx0 <= idx < NAV && idx == 4 * block && EmptyBins(heap, idx0, idx) && AnyFrom(binblocks, block)
        decreases NAV - idx
      {
        SkipBlock(heap, binblocks, block);
        idx, block := idx + 4, block + 1;
      }
    }

    // ---- the end of the arena -----------------------------------------------------------

    /** sbrk of malloc_wrapper.c; released memory is cleared. */
    method Sbrk(size: int) returns (cur: int)
      requires AV_END <= start <= brk <= mem.Length <= TWO32 - 2 * PAGESZ && mem.Length - start < TWO31 - 2 * PAGESZ && -TWO31 <= size < TWO31
      modifies `brk, mem
      ensures cur == -1 <==> !(start <= old(brk) + size <= mem.Length)
      ensures cur == -1 ==> brk == old(brk) && mem[..] == old(mem[..])
      ensures cur != -1 ==> cur == old(brk) && brk == cur + size && mem[..] == Cleared(old(mem[..]), brk, cur)
    {
      var new_brk := (brk + size) % TWO32;
      if new_brk < start || new_brk > mem.Length {
        cur := -1;
        assert old(brk) + size == new_brk || old(brk) + size + TWO32 == new_brk || old(brk) + size - TWO32 == new_brk;
        return;
      }
      cur := brk;
      brk := new_brk;
      var w := brk;
      while w < cur
        invariant brk <= w && (w <= cur || cur <= brk == w)
        invariant mem[..] == Cleared(old(mem[..]), brk, w)
        modifies mem
      {
        mem[w] := ZERO;
        w := w + 1;
      }
    }

    /** malloc_extend_top: the first call makes top, later calls enlarge it. */
    method ExtendTop(nb: int)
      requires Valid() && MINSIZE <= nb < TWO31
      modifies `brk, `top, `sbrkBased, `sbrkedMem, `stumbled, `heap, mem
      ensures Valid() && heap.bins == old(heap).bins && heap.chunks == old(heap).chunks
      ensures forall a :: a in heap.chunks ==> Size(mem[..], a) == old(Size(mem[..], a))
      ensures Preserves(old(mem[..]), old(heap), mem[..], heap)
      ensures old(top) != 0 ==> top == old(top)
      ensures old(brk) <= brk && (old(top) != 0 ==> FreshFrom(mem[..], old(brk), top))
      ensures TopSize(top, brk) < nb + MINSIZE ==> mem.Length < old(brk) + nb + 3 * PAGESZ
      ensures stumbled <==> old(stumbled) || (old(top) == 0 && Stumbles(old(brk), ExtendSize(nb, old(sbrkBased)), mem.Length))
      ensures var n := ExtendSize(nb, old(top) != 0 || old(sbrkBased));
        (old(top) != 0 ==> brk == if old(brk) + n <= mem.Length then old(brk) + n else old(brk))
        && (old(top) == 0 && top != 0 ==> top % 8 == 0 && 0 <= top - old(brk) < 8 && brk % 4096 == 0 && n <= brk - top < n + 4096)
        && (old(top) == 0 && top == 0 ==> brk == if old(brk) + n <= mem.Length then old(brk) + n else old(brk))
    {
      var sbrk_size := nb + MINSIZE;
      if sbrkBased {
        sbrk_size := RoundUp(sbrk_size);
      }
      if top != 0 {
        GrowTop(sbrk_size);
      } else {
        FirstTop(sbrk_size);
      }
    }

    /** The brk == old_end branch: the new bytes are added to top. */
    method GrowTop(sbrk_size: int)
      requires Valid() && top != 0 && 0 <= sbrk_size < TWO31 + 2 * PAGESZ && Paged(sbrk_size)
      modifies `brk, `sbrkedMem, `heap, mem
      ensures Valid() && heap.bins == old(heap).bins && heap.chunks == old(heap).chunks
      ensures forall a :: a in heap.chunks ==> Size(mem[..], a) == old(Size(mem[..], a))
      ensures Preserves(old(mem[..]), old(heap), mem[..], heap)
      ensures FreshFrom(mem[..], old(brk), top)
      ensures brk == if old(brk) + sbrk_size <= mem.Length then old(brk) + sbrk_size else old(brk)
    {
      hide Ok, Marked, ZeroFrom, Preserves, Paged;
      ghost var m0 := mem[..];
      TopFacts(m0, heap);
      PagedMoved(brk, sbrk_size);
      var cur := Sbrk(Signed(sbrk_size));
      PreservesSelf(m0, heap);
      if cur == -1 {
        FreshSelf(m0, brk, top);
        return;
      }
      assert mem[..] == m0;
      sbrkedMem := sbrkedMem + sbrk_size;
      ExtendAll(m0, heap, brk);
      var top_size := sbrk_size + mem[top + 4].hi;
      ghost var m1, g1 := m0[top + 4 := Word(brk - top, true)], heap.(brk := brk);
      Store(top + 4, Word(top_size, true));
      assert mem[..] == m1;
      heap := g1;
    }

    /** The first time through: top starts at an aligned address and ends at a page boundary. */
    method FirstTop(sbrk_size: int)
      requires Valid() && top == 0 && 2 * MINSIZE <= sbrk_size < TWO31 + 2 * PAGESZ
      modifies `brk, `top, `sbrkBased, `sbrkedMem, `stumbled, `heap, mem
      ensures Valid() && heap.bins == old(heap).bins && heap.chunks == old(heap).chunks
      ensures heap.chunks == {}
      ensures Preserves(old(mem[..]), old(heap), mem[..], heap)
      ensures old(brk) <= brk
      ensures top == 0 ==> mem.Length < old(brk) + sbrk_size + PAGESZ + 8
      ensures top != 0 ==> top % 8 == 0 && 0 <= top - old(brk) < 8 && Paged(brk) && sbrk_size <= brk - top < sbrk_size + PAGESZ
      ensures top == 0 ==> brk == if old(brk) + sbrk_size <= mem.Length then old(brk) + sbrk_size else old(brk)
      ensures stumbled <==> old(stumbled) || Stumbles(old(brk), sbrk_size, mem.Length)
    {
      hide Ok, Marked, ZeroFrom, Preserves, FrontGap, RoundUp, FreshFrom, Paged, WellPlaced;
      ghost var m0 := mem[..];
      TopFacts(m0, heap);
      PreservesSelf(m0, heap);
      FreshSelf(m0, brk, top);
      if WellPlaced() { PlacedWell(sbrk_size); }
      var cur := Sbrk(Signed(sbrk_size));
      if cur == -1 {
        return;
      }
      assert mem[..] == m0;
      FirstCount(sbrk_size, cur);
      var correction := FrontGap(cur);
      cur := cur + correction;
      correction := correction + RoundUp(cur + sbrk_size) - (cur + sbrk_size);
      ZeroMono(m0, old(brk), brk);
      PlaceTop(cur, correction, old(brk));
    }

    lemma PlacedWell(sbrk_size: int)
      requires Valid() && top == 0 && WellPlaced()
      ensures !Stumbles(brk, sbrk_size, mem.Length)
    {
      hide Ok, Marked, ZeroFrom;
      NeverStumbles(brk, sbrk_size, mem.Length);
    }

    /** The counting of the first extension. */
    method FirstCount(sbrk_size: int, cur: int)
      requires 0 < cur && top == 0 && start <= cur && brk == cur + sbrk_size && 0 <= sbrk_size
      requires !sbrkBased ==> cur == start && sbrkedMem == 0 && !stumbled
      requires sbrkBased ==> stumbled && sbrkedMem >= cur - start
      modifies `sbrkedMem, `sbrkBased
      ensures sbrkBased && (if stumbled then sbrkedMem > brk - start else sbrkedMem == brk - start)
    {
      sbrkedMem := sbrkedMem + sbrk_size;
      if !sbrkBased {
        sbrkBased := true;
      } else {
        sbrkedMem := sbrkedMem + cur;
      }
    }

    /** The second sbrk of the first extension, and the new top at cur. */
    method PlaceTop(cur: int, correction: int, ghost from: int)
      requires AV_END <= start <= from <= cur && from <= brk <= mem.Length <= TWO32 - 2 * PAGESZ && mem.Length - start < TWO31 - 2 * PAGESZ
      requires Ok(mem[..], heap) && Marked(heap.bins, binblocks) && heap.top == top == 0 && heap.loose == {} && ZeroFrom(mem[..], from)
      requires 0 <= correction < PAGESZ + 8 && cur % 8 == 0 && cur + MINSIZE <= brk + correction && Paged(brk + correction)
      requires sbrkBased && (if stumbled then sbrkedMem > brk - start else sbrkedMem == brk - start)
      requires WellPlaced() ==> !stumbled && brk + correction <= mem.Length
      modifies `brk, `top, `sbrkedMem, `stumbled, `heap, mem
      ensures Valid() && heap.bins == old(heap).bins && heap.chunks == old(heap).chunks
      ensures heap.chunks == {}
      ensures Preserves(old(mem[..]), old(heap), mem[..], heap)
      ensures top != 0 <==> old(brk) + correction <= mem.Length
      ensures top != 0 ==> top == cur && brk == old(brk) + correction && stumbled == old(stumbled)
      ensures top == 0 ==> brk == old(brk) && stumbled
    {
      hide Ok, Marked, ZeroFrom, Preserves, FreshFrom, Paged, WellPlaced;
      ghost var m0 := mem[..];
      TopFacts(m0, heap);
      PreservesSelf(m0, heap);
      ZeroMono(m0, from, brk);
      var new_brk := Sbrk(correction);
      if new_brk == -1 {
        stumbled := true;
        return;
      }
      assert mem[..] == m0;
      sbrkedMem := sbrkedMem + correction;
      FirstAll(m0, heap, cur, brk, from);
      var top_size := new_brk - cur + correction;
      ghost var g1 := heap.(base := cur, top := cur, brk := brk, loose := {});
      ghost var m1 := m0[cur + 4 := Word(brk - cur, true)];
      top := cur;
      Store(top + 4, Word(top_size, true));
      assert mem[..] == m1;
      heap := g1;
    }

    /** The front of top becomes a block. */
    method TakeTop(nb: int) returns (victim: int)
      requires Valid() && top != 0 && nb % 8 == 0 && MINSIZE <= nb && nb + MINSIZE <= brk - top
      modifies `top, `heap, mem
      ensures Valid() && victim == old(top) && Granted(old(mem[..]), old(heap), mem[..], heap, victim, nb)
      ensures AV_END <= victim && victim % 8 == 0 && top == victim + nb
      ensures forall a :: FreshFrom(old(mem[..]), a, old(top)) && old(top) + 4 < a ==> FreshFrom(mem[..], a, top)
    {
      hide Ok, Marked, ZeroFrom, Live, Untouched, FreshFrom, Paged;
      ghost var m0, g0 := mem[..], heap;
      TopFacts(m0, heap);
      CarveTop(m0, heap, nb);
      var remainder_size := mem[top + 4].hi - nb;
      victim := top;
      Store(victim + 4, Word(nb, true));
      top := victim + nb;
      Store(top + 4, Word(remainder_size, true));
      heap := heap.(top := top, chunks := heap.chunks + {victim});
    }

    /** A chunk found in a bin is unlinked, split if it is much too large, and handed out. */
    method HandOut(victim: int, nb: int, ghost i: int, ghost k: int)
      requires Valid() && Listed(heap, victim, i, k) && nb % 8 == 0 && MINSIZE <= nb <= Size(mem[..], victim)
      requires nb + MINSIZE <= Size(mem[..], victim) ==> heap.bins[1] == []
      modifies mem, `heap
      ensures Valid() && victim % 8 == 0 && AV_END <= victim
      ensures Granted(old(mem[..]), old(heap), mem[..], heap, victim, nb) && FreshFrom(mem[..], brk, top)
    {
      hide Ok, ZeroFrom, Marked, Relinked, Live, Untouched, Accounted, Paged, FreshFrom;
      ghost var m0, g0 := mem[..], heap;
      ListedFacts(m0, heap, victim, i, k);
      var size := mem[victim + 4].hi;
      Unlink(victim, i, k);
      ghost var m1, g1 := mem[..], heap;
      SizesKept(m0, m1, g0);
      if size - nb >= MINSIZE {
        Split(victim, nb);
        GrantedAfter(m0, g0, m1, g1, mem[..], heap, victim, nb, nb);
      } else {
        Take(victim);
        GrantedAfter(m0, g0, m1, g1, mem[..], heap, victim, size, nb);
      }
      GrantedAligned(mem[..], heap, m0, g0, victim, nb);
      FreshSelf(mem[..], brk, top);
    }

    /** The looks at bins and last remainder, in the order of malloc. */
    method FromBins(nb: int) returns (victim: int)
      requires Valid() && nb % 8 == 0 && MINSIZE <= nb
      modifies mem, `heap, `binblocks
      ensures Valid()
      ensures victim != 0 ==> victim % 8 == 0 && AV_END <= victim && Granted(old(mem[..]), old(heap), mem[..], heap, victim, nb)
      ensures victim == 0 ==> Preserves(old(mem[..]), old(heap), mem[..], heap)
      ensures victim == 0 ==> heap.bins[1] == [] && NoneBelow(mem[..], heap, NAV, nb) && NoneBelow(old(mem[..]), old(heap), NAV, nb)
    {
      hide Ok, Marked, ZeroFrom, Live, Untouched, Granted, Preserves, Missed, FreshFrom, Listed, Accounted, Paged, BestFit, NoneBelow;
      ghost var m0, g0 := mem[..], heap;
      var idx;
      ghost var i, k;
      if nb < MAX_SMALLBIN_SIZE - 8 {
        victim, idx, i, k := ExactSmall(nb);
      } else {
        victim, idx, i, k := ExactLarge(nb);
      }
      if victim != 0 {
        HandOut(victim, nb, i, k);
        return;
      }
      victim := UseRemainder(nb, idx);
      if victim != 0 {
        GrantedAligned(mem[..], heap, m0, g0, victim, nb);
        return;
      }
      ghost var m1, g1 := mem[..], heap;
      victim, i, k := ScanBlocks(nb, idx);
      if victim != 0 {
        HandOut(victim, nb, i, k);
        GrantedTrans(m0, g0, m1, g1, mem[..], heap, victim, nb);
      }
    }

    /** The last resort: the front of top, which is extended first when it is too small. */
    method FromTop(nb: int) returns (victim: int)
      requires Valid() && nb % 8 == 0 && MINSIZE <= nb < TWO31
      requires heap.bins[1] == [] && NoneBelow(mem[..], heap, NAV, nb)
      modifies `brk, `top, `sbrkBased, `sbrkedMem, `stumbled, `heap, mem
      ensures Valid() && old(brk) <= brk && (old(top) != 0 ==> FreshFrom(mem[..], old(brk), top))
      ensures victim != 0 ==> victim % 8 == 0 && AV_END <= victim && Granted(old(mem[..]), old(heap), mem[..], heap, victim, nb)
      ensures victim == 0 ==> Preserves(old(mem[..]), old(heap), mem[..], heap) && Exhausted(mem[..], heap, nb)
      ensures victim == 0 ==> mem.Length < old(brk) + nb + 3 * PAGESZ
      ensures stumbled <==> old(stumbled) || (old(top) == 0 && Stumbles(old(brk), ExtendSize(nb, old(sbrkBased)), mem.Length))
    {
      hide Ok, Marked, ZeroFrom, Live, Untouched, Granted, Preserves, Exhausted, FreshFrom, Accounted, Paged, NoneBelow;
      ghost var m0, g0 := mem[..], heap;
      TopFacts(m0, g0);
      FreshSelf(m0, brk, top);
      PreservesSelf(m0, g0);
      if TopSize(top, brk) - nb < MINSIZE {
        ExtendTop(nb);
        if TopSize(top, brk) - nb < MINSIZE {
          NoneBelowKept(m0, mem[..], g0, heap, nb);
          TopFacts(mem[..], heap);
          NothingFits(mem[..], heap, nb);
          return 0;
        }
      }
      ghost var m1, g1 := mem[..], heap;
      victim := TakeTop(nb);
      GrantedTrans(m0, g0, m1, g1, mem[..], heap, victim, nb);
    }

    /** malloc: a block of at least the requested bytes, or null only when nothing fits. */
    method Malloc(bytes: int) returns (r: int)
      requires Valid() && 0 <= bytes < TWO32
      modifies this, mem
      ensures Valid()
      ensures r == 0 ==> Preserves(old(mem[..]), old(heap), mem[..], heap)
      ensures r != 0 ==> bytes < TWO31 && r % 8 == 0 && AV_END <= r - 8
      ensures r != 0 ==> Granted(old(mem[..]), old(heap), mem[..], heap, r - 8, Request2Size(bytes))
      ensures r == 0 && bytes < TWO31 ==> Exhausted(mem[..], heap, Request2Size(bytes))
      ensures r == 0 && bytes < TWO31 ==> mem.Length < old(brk) + Request2Size(bytes) + 3 * PAGESZ
      ensures old(brk) <= brk && (old(top) != 0 ==> FreshFrom(mem[..], old(brk), top))
      ensures bytes < TWO31 && !NoneBelow(old(mem[..]), old(heap), NAV, Request2Size(bytes)) ==> r != 0 && top == old(top) && brk == old(brk)
      ensures stumbled && !old(stumbled) ==> bytes < TWO31 && old(top) == 0
      ensures bytes < TWO31 && old(top) == 0 && !old(stumbled) ==>
        (stumbled <==> Stumbles(old(brk), ExtendSize(Request2Size(bytes), old(sbrkBased)), mem.Length))
      ensures old(stumbled) ==> stumbled
    {
      hide Ok, Marked, ZeroFrom, Live, Untouched, Granted, Preserves, Exhausted, FreshFrom, Accounted, Paged, NoneBelow, Stumbles, ExtendSize;
      ghost var m0, g0 := mem[..], heap;
      FreshSelf(m0, brk, top);
      PreservesSelf(m0, g0);
      if bytes >= TWO31 {
        return 0;
      }
      var nb := Request2Size(bytes);
      var victim := FromBins(nb);
      FreshSelf(mem[..], brk, top);
      if victim == 0 {
        ghost var m1, g1 := mem[..], heap;
        victim := FromTop(nb);
        if victim == 0 {
          PreservesTrans(m0, g0, m1, g1, mem[..], heap);
          return 0;
        }
        GrantedTrans(m0, g0, m1, g1, mem[..], heap, victim, nb);
      } else {
        GrantedHasTop(m0, g0, mem[..], heap, victim, nb);
      }
      r := victim + 8;
    }

    // ---- free -----------------------------------------------------------------------------

    /** malloc_trim: whole pages at the end of top go back to sbrk, pad bytes and more are kept. */
    method Trim(pad: int) returns (released: bool)
      requires Valid() && 0 <= pad < TWO32 && PadSafe(TopSize(top, brk), pad, brk - start)
      modifies `brk, `sbrkedMem, `stumbled, `heap, mem
      ensures Valid() && heap.chunks == old(heap).chunks && Preserves(old(mem[..]), old(heap), mem[..], heap)
      ensures released <==> pad < TWO31 && top != 0 && old(TopSize(top, brk)) > pad + 16 + 4096
      ensures released ==> pad + 16 < brk - top <= pad + 16 + 4096 && (old(brk) - brk) % 4096 == 0
      ensures top == old(top) && (!released ==> brk == old(brk))
    {
      hide Ok, Marked, ZeroFrom, Preserves, TrimExtra, Paged, Accounted, PadSafe;
      ghost var m0 := mem[..];
      TopFacts(m0, heap);
      PreservesSelf(m0, heap);
      released := false;
      var top_size := TopSize(top, brk);
      TrimKeepsExactly(top_size, pad, brk - start);
      TrimExact(top_size, pad, brk - start);
      var extra := TrimExtra(top_size, pad);
      if extra >= PAGESZ {
        var current_brk := Sbrk(0);
        assert mem[..] == m0;
        if current_brk == top + top_size && top != 0 {
          released := Release(top_size, extra);
        }
      }
    }

    /** The part of malloc_trim that calls sbrk with a negative argument. */
    method Release(top_size: int, extra: int) returns (released: bool)
      requires Valid() && top != 0 && top_size == brk - top && PAGESZ <= extra < TWO31 && Paged(extra)
      requires extra <= brk - start ==> top_size - extra >= MINSIZE
      modifies `brk, `sbrkedMem, `stumbled, `heap, mem
      ensures Valid() && heap.chunks == old(heap).chunks && Preserves(old(mem[..]), old(heap), mem[..], heap)
      ensures released <==> extra <= old(brk) - start
      ensures brk == old(brk) - (if released then extra else 0)
    {
      hide Ok, Marked, ZeroFrom, Preserves, Paged;
      ghost var m0 := mem[..];
      TopFacts(m0, heap);
      PagedMoved(brk, extra);
      PreservesSelf(m0, heap);
      var new_brk := Sbrk(-extra);
      released := new_brk != -1;
      if !released {
        Recount();
        assert mem[..] == m0;
      } else {
        ghost var m1 := mem[..];
        TrimAll(m0, m1, heap, brk);
        ghost var m2, g2 := m1[top + 4 := Word(brk - top, true)], heap.(brk := brk);
        Store(top + 4, Word(top_size - extra, true));
        assert mem[..] == m2;
        sbrkedMem := sbrkedMem - extra;
        heap := g2;
      }
    }

    /** sbrk refused: find out what the arena is. */
    method Recount()
      requires Valid() && top != 0
      modifies `brk, `sbrkedMem, `stumbled, mem
      ensures Valid() && mem[..] == old(mem[..]) && brk == old(brk) && !stumbled
    {
      hide Ok, Marked, ZeroFrom, Paged;
      ghost var m0 := mem[..];
      TopFacts(m0, heap);
      RestoreTop(m0, heap);
      var current_brk := Sbrk(0);
      assert mem[..] == m0;
      Store(top + 4, Word(current_brk - top, true));
      assert mem[..] == m0;
      sbrkedMem := current_brk - start;
      stumbled := false;
    }

    /** A free chunk is taken from its bin, or from being the last remainder. */
    method Detach(q: int) returns (islr: bool)
      requires Core() && q in heap.chunks && !InUse(mem[..], q) && q !in heap.loose
      modifies mem, `heap
      ensures Core() && heap.chunks == old(heap).chunks && heap.loose == old(heap).loose + {q}
      ensures heap.base == old(heap).base && heap.top == old(heap).top && heap.brk == old(heap).brk
      ensures SameHeads(old(mem[..]), mem[..], old(heap)) && Preserves(old(mem[..]), old(heap), mem[..], heap)
      ensures islr ==> heap.bins[1] == []
      ensures !islr ==> heap.bins[1] == old(heap.bins[1])
    {
      hide Ring, Rings, Members, Sorted, Covered, ZeroFrom, Marked, Relinked, Preserves, Accounted, Paged, SameHeads;
      ghost var m0, g0 := mem[..], heap;
      ghost var i, k := FindBin(mem[..], heap, q);
      BinNodes(mem[..], heap, i);
      assert Tiles(mem[..], heap);
      hide Ok, Tiles;
      if mem[q + 8].hi == LAST_REMAINDER {
        islr := true;
        ClearLastRemainder(q);
      } else {
        islr := false;
        Unlink(q, i, k);
      }
      RelinkedHeads(m0, mem[..], g0);
    }

    /** free: the block is joined with its free neighbours, or with top. */
    method Free(mm: int)
      requires Valid() && (mm != 0 ==> mm - 8 in Blocks())
      modifies this, mem
      ensures Valid()
      ensures Blocks() == if mm == 0 then old(Blocks()) else old(Blocks()) - {mm - 8}
      ensures Untouched(old(mem[..]), mem[..], Blocks())
      ensures mm == 0 || old(Next(mem[..], mm - 8)) != old(top) ==> top == old(top) && brk == old(brk)
      ensures mm != 0 && old(Next(mem[..], mm - 8)) == old(top) ==>
        top == old(Front(mem[..], mm - 8))
        && if old(brk) - top < 131072 then brk == old(brk) else 16 < brk - top <= 16 + 4096 && (old(brk) - brk) % 4096 == 0
    {
      hide Ok, Marked, ZeroFrom, Accounted, Paged, Live, Untouched, Front, Next, Size;
      if mm == 0 {
        UntouchedSelf(mem[..], Blocks());
        return;
      }
      var p := mm - 8;
      BlockEnd(p);
      var next := p + mem[p + 4].hi;
      if next == top {
        FreeIntoTop(p);
      } else {
        FreeIntoBin(p);
      }
    }

    lemma BlockEnd(p: int)
      requires Valid() && p in Blocks()
      ensures 0 <= p && p + 4 < mem.Length && Size(mem[..], p) == mem[p + 4].hi && Next(mem[..], p) == p + mem[p + 4].hi && top != 0
      ensures AV_END <= top && top + 4 < mem.Length && Size(mem[..], top) == mem[top + 4].hi == brk - top
    {
      hide Marked, ZeroFrom, Accounted, Paged, Bins;
      LiveFacts(mem[..], heap, p);
      TopFacts(mem[..], heap);
    }

    /** Backward consolidation. */
    method DetachFront(p: int) returns (lo: int, islr: bool)
      requires Valid() && p in Blocks()
      modifies mem, `heap
      ensures Core() && heap.chunks == old(heap).chunks && lo == old(Front(mem[..], p)) && AV_END <= lo
      ensures heap.loose == if lo == p then {} else {lo}
      ensures heap.base == old(heap).base && heap.top == old(heap).top && heap.brk == old(heap).brk
      ensures SameHeads(old(mem[..]), mem[..], old(heap)) && Preserves(old(mem[..]), old(heap), mem[..], heap)
      ensures islr ==> heap.bins[1] == []
    {
      LiveFacts(mem[..], heap, p);
      FrontFacts(mem[..], heap, p);
      hide Ok, ZeroFrom, Marked, Preserves, Accounted, Paged, Tiles, Tags, Live;
      lo, islr := p, false;
      PreservesSelf(mem[..], heap);
      if !mem[p + 4].lo {
        lo := p - mem[p].hi;
        islr := Detach(lo);
      }
    }

    /** The branch of free for a block that borders top. */
    method FreeIntoTop(p: int)
      requires Valid() && p in Blocks() && Next(mem[..], p) == top
      modifies this, mem
      ensures Valid() && Blocks() == old(Blocks()) - {p} && Untouched(old(mem[..]), mem[..], Blocks())
      ensures top == old(Front(mem[..], p))
      ensures if old(brk) - top < 131072 then brk == old(brk) else 16 < brk - top <= 16 + 4096 && (old(brk) - brk) % 4096 == 0
    {
      hide Ok, Marked, ZeroFrom, Accounted, Paged, Live, Untouched;
      ghost var m0, l0 := mem[..], Blocks();
      var sz := MergeIntoTop(p);
      ghost var m2 := mem[..];
      if sz >= TRIM_THRESHOLD {
        var _ := Trim(0);
        UntouchedTrans(m0, m2, mem[..], l0 - {p}, l0 - {p});
      }
    }

    /** Backward consolidation, and then everything from the front on is top. */
    method MergeIntoTop(p: int) returns (sz: int)
      requires Valid() && p in Blocks() && Next(mem[..], p) == top
      modifies mem, `heap, `top
      ensures Valid() && Blocks() == old(Blocks()) - {p} && Untouched(old(mem[..]), mem[..], Blocks())
      ensures top == old(Front(mem[..], p)) && sz == brk - top && top != 0
    {
      hide Ok, Marked, ZeroFrom, Preserves, Accounted, Paged, Live, Untouched, Isolated, SameHeads, Front;
      BlockEnd(p);
      ghost var m0, g0 := mem[..], heap;
      sz := mem[p + 4].hi + mem[top + 4].hi;
      var lo, _ := DetachFront(p);
      ghost var m1, g1 := mem[..], heap;
      HeadsIsolate(m0, m1, g0, g1, p, lo);
      sz := sz + (p - lo);
      MoveTop(p, lo, sz);
      FreedAfter(m0, g0, m1, g1, mem[..], heap, p);
    }

    method MoveTop(ghost p: int, lo: int, sz: int)
      requires Core() && Isolated(mem[..], heap, p) && Next(mem[..], p) == top && lo == Front(mem[..], p)
      requires sz == p - lo + Size(mem[..], p) + Size(mem[..], top)
      modifies mem, `heap, `top
      ensures Valid() && Blocks() == old(Blocks()) - {p} && Untouched(old(mem[..]), mem[..], Blocks())
      ensures top == lo && sz == brk - lo
    {
      hide Ok, Marked, ZeroFrom, Live, Untouched, Front, Isolated, Paged, Retopped, Size, Next;
      IsolatedHasTop(mem[..], heap, p);
      FreeTopAll(mem[..], heap, p);
      ghost var g1 := Retopped(heap, lo, lo, brk);
      ghost var m1 := mem[..][lo + 4 := Word(heap.brk - lo, true)];
      Store(lo + 4, Word(sz, true));
      assert mem[..] == m1;
      top := lo;
      heap := g1;
    }

    /** The branch of free for all other blocks. */
    method FreeIntoBin(p: int)
      requires Valid() && p in Blocks() && Next(mem[..], p) != top
      modifies mem, `heap, `binblocks
      ensures Valid() && Blocks() == old(Blocks()) - {p} && Untouched(old(mem[..]), mem[..], Blocks())
    {
      hide Ok, Marked, ZeroFrom, Accounted, Paged, Live, Untouched;
      ghost var m0, l0 := mem[..], Blocks();
      var lo, sz, islr := Consolidate(p);
      ghost var m2 := mem[..];
      if islr {
        LinkLastRemainder(lo);
      } else {
        var _, _ := Frontlink(lo, sz);
      }
      UntouchedTrans(m0, m2, mem[..], l0 - {p}, l0 - {p});
    }

    /** The status bit after, the new header and the new footer. */
    method MergeStores(next: int, nextsz: int, lo: int, sz: int)
      requires 0 <= lo <= next && next + 4 < mem.Length && lo + 4 < mem.Length && 0 <= lo + sz < mem.Length
      requires nextsz == Size(mem[..], next)
      modifies mem
      ensures mem[..] == Merged(old(mem[..]), next, lo, lo + sz)
    {
      Store(next + 4, Word(nextsz, false));
      Store(lo + 4, Word(sz, true));
      Store(lo + sz, Word(sz, false));
    }

    /** Both consolidations of free and the stores that make one free chunk of all. */
    method Consolidate(p: int) returns (lo: int, sz: int, islr: bool)
      requires Valid() && p in Blocks() && Next(mem[..], p) != top
      modifies mem, `heap
      ensures Core() && heap.loose == {lo} && sz == Size(mem[..], lo) && (islr ==> heap.bins[1] == [])
      ensures Blocks() == old(Blocks()) - {p} && Untouched(old(mem[..]), mem[..], Blocks())
    {
      LiveFacts(mem[..], heap, p);
      hide Ok, Marked, ZeroFrom, Preserves, Accounted, Paged, Live, Untouched, Ready, Front;
      ghost var m0, g0 := mem[..], heap;
      var next := p + mem[p + 4].hi;
      var nextsz := mem[next + 4].hi;
      lo, sz, islr := DetachBoth(p, next, nextsz);
      ghost var m1, g1 := mem[..], heap;
      MergeAt(p, lo, next, nextsz, sz);
      FreedAfter(m0, g0, m1, g1, mem[..], heap, p);
    }

    method MergeAt(ghost p: int, lo: int, next: int, nextsz: int, sz: int)
      requires Core() && Ready(mem[..], heap, p, lo, next, nextsz, sz)
      modifies mem, `heap
      ensures Core() && heap.loose == {lo} && sz == Size(mem[..], lo) && heap.bins == old(heap).bins
      ensures Blocks() == old(Blocks()) - {p} && Untouched(old(mem[..]), mem[..], Blocks())
    {
      hide Ok, Marked, ZeroFrom, Accounted, Paged, Live, Untouched, Front, Rear, Merged, Retiled;
      FreeBinAll(mem[..], heap, p, brk);
      MergeStores(next, nextsz, lo, sz);
      heap := Retiled(mem[..], heap, lo, lo + sz, lo + sz);
    }

    method DetachBoth(p: int, next: int, nextsz: int) returns (lo: int, sz: int, islr: bool)
      requires Valid() && p in Blocks() && Next(mem[..], p) == next && next != top && nextsz == Size(mem[..], next)
      modifies mem, `heap
      ensures Core() && Ready(mem[..], heap, p, lo, next, nextsz, sz) && (islr ==> heap.bins[1] == [])
      ensures Preserves(old(mem[..]), old(heap), mem[..], heap)
    {
      LiveFacts(mem[..], heap, p);
      var size := mem[p + 4].hi;
      hide Ok, Marked, ZeroFrom, Preserves, Accounted, Paged, Live, Ready, SameHeads, Front, InUse, Size, Next, W;
      ghost var m0, g0 := mem[..], heap;
      lo, islr := DetachFront(p);
      ghost var m1, g1 := mem[..], heap;
      HeadsAt(m0, m1, g0, g1, p, lo, next, nextsz);
      sz := p - lo + size;
      var more, lr := DetachRear(next, nextsz);
      sz, islr := sz + more, islr || lr;
      ghost var m2, g2 := mem[..], heap;
      PreservesTrans(m0, g0, m1, g1, m2, g2);
      SameHeadsTrans(m0, m1, m2, g0, g1);
      HeadsIsolateBin(m0, m2, g0, g2, p, lo);
    }

    /** Forward consolidation. */
    method DetachRear(next: int, nextsz: int) returns (more: int, islr: bool)
      requires Core() && next in heap.chunks && next !in heap.loose && 0 <= next + nextsz && next + nextsz + 4 < mem.Length
      requires InUse(mem[..], next) <==> mem[next + nextsz + 4].lo
      modifies mem, `heap
      ensures Core() && heap.chunks == old(heap).chunks && heap.top == old(heap).top
      ensures heap.loose == old(heap).loose + (if old(InUse(mem[..], next)) then {} else {next})
      ensures SameHeads(old(mem[..]), mem[..], old(heap)) && Preserves(old(mem[..]), old(heap), mem[..], heap)
      ensures more == if old(InUse(mem[..], next)) then 0 else nextsz
      ensures islr || old(heap.bins[1]) == [] ==> heap.bins[1] == []
    {
      hide Ok, Marked, ZeroFrom, Preserves, Accounted, Paged, Live, SameHeads;
      PreservesSelf(mem[..], heap);
      SameHeadsSelf(mem[..], heap);
      more, islr := 0, false;
      if !mem[next + nextsz + 4].lo {
        more := nextsz;
        islr := Detach(next);
      }
    }

    // ---- realloc --------------------------------------------------------------------------

    /** MALLOC_COPY and memcpy copy upwards, so the destination may overlap from below. */
    method CopyUp(dst: int, src: int, n: int)
      requires 0 <= dst && 0 <= src && 0 <= n && dst + n <= mem.Length && src + n <= mem.Length
      requires dst <= src || src + n <= dst
      modifies mem
      ensures mem[..] == Copied(old(mem[..]), dst, src, n)
    {
      ghost var m := mem[..];
      var i := 0;
      while i < n
        invariant 0 <= i <= n
        invariant mem[..] == Copied(m, dst, src, i)
      {
        mem[dst + i] := mem[src + i];
        i := i + 1;
      }
    }

    /** The label split of realloc: spare room at the end is handed to free. */
    method FinishSplit(ghost m0: Mem, ghost ps: set<int>, lo: int, newsize: int, nb: int)
      requires CoreAt(m0) && Region(m0, heap, ps, lo, lo + newsize) && Scribbled(m0, mem[..], lo, lo + newsize)
      requires nb % 8 == 0 && MINSIZE <= nb <= newsize
      modifies this, mem
      ensures Valid() && lo in Blocks() && nb <= Blocks()[lo] < nb + MINSIZE
      ensures Blocks() == (Live(m0, old(heap)) - ps)[lo := Blocks()[lo]]
      ensures Untouched(m0, mem[..], Live(m0, old(heap)) - ps)
      ensures SameContents(old(mem[..]), lo, mem[..], lo, Blocks()[lo])
    {
      hide Ok, Marked, ZeroFrom, Live, Untouched, Accounted, Paged, Region, Scribbled, Resized, Retiled;
      RegionFresh(m0, heap, ps, lo, lo + newsize);
      ghost var l0 := Live(m0, heap) - ps;
      ghost var m1 := mem[..];
      ResizeOk(m0, m1, heap, ps, lo, lo + newsize, nb, brk);
      ghost var mid := Cutoff(lo, lo + newsize, nb);
      var remainder_size := ResizeStores(lo, newsize, nb);
      ghost var m2 := mem[..];
      heap := Retiled(m2, heap, lo, mid, lo + newsize);
      SameFront(m1, m2, lo, mid);
      if remainder_size != 0 {
        ghost var l2 := Blocks();
        Free(lo + nb + 8);
        SplitDone(m0, m1, m2, mem[..], l0, l2, lo, mid, newsize);
      } else {
        SplitWhole(l0, lo, mid, newsize);
      }
    }

    method ResizeStores(lo: int, newsize: int, nb: int) returns (remainder_size: int)
      requires 0 <= lo && MINSIZE <= nb <= newsize && lo + newsize + 4 < mem.Length
      modifies mem
      ensures mem[..] == Resized(old(mem[..]), lo, Cutoff(lo, lo + newsize, nb), lo + newsize)
      ensures remainder_size == lo + newsize - Cutoff(lo, lo + newsize, nb)
    {
      if newsize - nb >= MINSIZE {
        var remainder := lo + nb;
        remainder_size := newsize - nb;
        Store(lo + 4, mem[lo + 4].(hi := nb));
        Store(remainder + 4, Word(remainder_size, true));
        SetInuse(remainder + remainder_size);
      } else {
        remainder_size := 0;
        Store(lo + 4, mem[lo + 4].(hi := newsize));
        SetInuse(lo + newsize);
      }
    }

    /** The free neighbours that realloc is going to use are unlinked, the one after first. */
    method DetachSides(p: int, back: bool, fwd: bool) returns (lo: int, newsize: int)
      requires Valid() && p in Blocks() && (back ==> !PrevInUse(mem[..], p))
      requires fwd ==> Next(mem[..], p) != top && !InUse(mem[..], Next(mem[..], p))
      modifies mem, `heap
      ensures Core() && Region(mem[..], heap, {p}, lo, lo + newsize) && Preserves(old(mem[..]), old(heap), mem[..], heap)
      ensures lo == (if back then old(Front(mem[..], p)) else p) && old(Blocks())[p] <= newsize
      ensures lo + newsize == if fwd then old(Rear(mem[..], p)) else old(Next(mem[..], p))
    {
      hide Marked, ZeroFrom, Preserves, Accounted, Paged, SameHeads, Region, Bins, Tiles, Tags, Aligned;
      ghost var m0, g0 := mem[..], heap;
      SidesFacts(m0, g0, p, back, fwd);
      lo, newsize := p, mem[p + 4].hi;
      hide Ok, InUse, Front, Rear, Next, PrevInUse, Live;
      PreservesSelf(m0, g0);
      SameHeadsSelf(m0, g0);
      if fwd {
        var next := p + mem[p + 4].hi;
        newsize := newsize + mem[next + 4].hi;
        var _ := Detach(next);
      }
      ghost var m1, g1 := mem[..], heap;
      if back {
        SideStays(m0, m1, g0, g1, p);
        lo, newsize := DetachBack(p, newsize);
        PreservesTrans(m0, g0, m1, g1, mem[..], heap);
        SameHeadsTrans(m0, m1, mem[..], g0, g1);
      }
      SidesRegion(m0, mem[..], g0, heap, p, back, fwd);
    }

    method DetachBack(p: int, size: int) returns (lo: int, newsize: int)
      requires Core() && 0 <= p && p + 4 < mem.Length
      requires var q := p - PrevSize(mem[..], p); q in heap.chunks && !InUse(mem[..], q) && q !in heap.loose
      modifies mem, `heap
      ensures Core() && heap.chunks == old(heap).chunks && heap.top == old(heap).top
      ensures lo == p - old(PrevSize(mem[..], p)) && newsize == size + (p - lo) && heap.loose == old(heap).loose + {lo}
      ensures SameHeads(old(mem[..]), mem[..], old(heap)) && Preserves(old(mem[..]), old(heap), mem[..], heap)
    {
      var prevsize := mem[p].hi;
      lo, newsize := p - prevsize, size + prevsize;
      var _ := Detach(lo);
    }

    /** realloc grows block p into the free chunk after it, the one before it, or both. */
    method Expand(p: int, back: bool, fwd: bool, nb: int) returns (lo: int)
      requires Valid() && p in Blocks() && nb % 8 == 0 && MINSIZE <= nb && (back ==> !PrevInUse(mem[..], p))
      requires fwd ==> Next(mem[..], p) != top && !InUse(mem[..], Next(mem[..], p))
      requires nb <= Extent2(mem[..], p, back, fwd)
      modifies this, mem
      ensures Valid() && lo == (if back then old(Front(mem[..], p)) else p)
      ensures Regrown(old(mem[..]), old(heap), mem[..], heap, p, lo, nb)
    {
      hide Ok, Marked, ZeroFrom, Live, Untouched, Accounted, Paged, Region, Front, Rear, Preserves, SameContents;
      ghost var m0, g0 := mem[..], heap;
      SidesFacts(m0, g0, p, back, false);
      var oldsize := mem[p + 4].hi;
      var newsize;
      lo, newsize := DetachSides(p, back, fwd);
      ghost var m1, g1 := mem[..], heap;
      RegionFresh(m1, g1, {p}, lo, lo + newsize);
      RegionBounds(m1, g1, {p}, lo, lo + newsize, p);
      SameSize(m0, g0, m1, g1, p);
      MoveDown(p, lo, newsize, oldsize, back);
      ghost var m2 := mem[..];
      FinishSplit(m1, {p}, lo, newsize, nb);
      ExpandDone(m0, g0, m1, g1, m2, mem[..], heap, p, lo, oldsize, nb);
    }

    /** realloc grows block p into top, and perhaps into the free chunk before it. */
    method ExpandTop(p: int, back: bool, nb: int) returns (lo: int)
      requires Valid() && p in Blocks() && nb % 8 == 0 && MINSIZE <= nb && (back ==> !PrevInUse(mem[..], p))
      requires Next(mem[..], p) == top && nb + MINSIZE <= Extent2(mem[..], p, back, false) + Size(mem[..], top)
      modifies this, mem
      ensures Valid() && lo == (if back then old(Front(mem[..], p)) else p)
      ensures Regrown(old(mem[..]), old(heap), mem[..], heap, p, lo, nb)
    {
      hide Ok, Marked, ZeroFrom, Live, Untouched, Accounted, Paged, Region, Front, Rear, Preserves, SameContents;
      ghost var m0, g0 := mem[..], heap;
      SidesFacts(m0, g0, p, back, false);
      TopFacts(m0, g0);
      var oldsize := mem[p + 4].hi;
      var newsize;
      var topsize := mem[top + 4].hi;
      lo, newsize := DetachSides(p, back, false);
      newsize := newsize + topsize;
      ghost var m1, g1 := mem[..], heap;
      RegionFresh(m1, g1, {p}, lo, top);
      RegionBounds(m1, g1, {p}, lo, top, p);
      SameSize(m0, g0, m1, g1, p);
      MoveDown(p, lo, top - lo, oldsize, back);
      ghost var m2 := mem[..];
      RetopStores(m1, p, lo, newsize, nb);
      ExpandDone(m0, g0, m1, g1, m2, mem[..], heap, p, lo, oldsize, nb);
    }

    /** The stores that end the block in what was top. */
    method RetopStores(ghost m0: Mem, ghost p: int, lo: int, newsize: int, nb: int)
      requires CoreAt(m0) && Region(m0, heap, {p}, lo, top) && Scribbled(m0, mem[..], lo, top) && lo + newsize == brk
      requires nb % 8 == 0 && MINSIZE <= nb && nb + MINSIZE <= newsize
      modifies mem, `heap, `top
      ensures Valid() && lo in Blocks() && Blocks()[lo] == nb
      ensures Blocks() == (Live(m0, old(heap)) - {p})[lo := nb] && Untouched(m0, mem[..], Live(m0, old(heap)) - {p})
      ensures SameContents(old(mem[..]), lo, mem[..], lo, nb)
    {
      hide Ok, Marked, ZeroFrom, Live, Untouched, Paged, Region, Retopped;
      RegionFresh(m0, heap, {p}, lo, top);
      ghost var m1 := mem[..];
      RetopBounds(m0, m1, heap, p, lo, nb);
      ghost var m2, g2 := TopResized(m1, lo, nb, brk), Retopped(heap, lo, lo + nb, brk);
      RetopAll(m0, m1, m2, heap, g2, p, lo, nb);
      top := lo + nb;
      Store(top + 4, Word(newsize - nb, true));
      Store(lo + 4, mem[lo + 4].(hi := nb));
      assert mem[..] == m2;
      heap := g2;
      SameFront(m1, m2, lo, lo + nb);
    }

    /** Shifting backwards: the user words of p are copied to where the chunk now starts. */
    method MoveDown(p: int, lo: int, newsize: int, oldsize: int, back: bool)
      requires AV_END <= lo <= p && MINSIZE <= oldsize && p + oldsize <= lo + newsize && lo + newsize + 4 <= mem.Length && (!back ==> lo == p)
      modifies mem
      ensures Scribbled(old(mem[..]), mem[..], lo, lo + newsize) && SameContents(old(mem[..]), p, mem[..], lo, oldsize)
    {
      if back {
        CopyUp(lo + 8, p + 8, oldsize - SIZE_SZ);
      }
    }

    /** The contents of block p go to block q, and p is freed. */
    method MoveTo(p: int, q: int, size: int) returns (ghost m2: Mem)
      requires Valid() && top != 0 && p in Blocks() && q in Blocks() && p != q && size == Size(mem[..], p) && MINSIZE <= size <= Blocks()[q]
      requires AV_END <= p && AV_END <= q && p + size + 12 <= mem.Length && q + Size(mem[..], q) + 12 <= mem.Length
      requires Size(mem[..], q) == Blocks()[q] && (p + size <= q || q + Size(mem[..], q) <= p)
      modifies this, mem
      ensures Valid() && Blocks() == old(Blocks()) - {p} && m2 == Copied(old(mem[..]), q + 8, p + 8, size - SIZE_SZ)
      ensures Untouched(old(mem[..]), m2, old(Blocks()) - {q}) && Untouched(m2, mem[..], Blocks())
    {
      hide Ok, Marked, ZeroFrom, Live, Untouched, Accounted, Paged;
      ghost var m1 := mem[..];
      CopyUp(q + 8, p + 8, size - SIZE_SZ);
      m2 := mem[..];
      UserWriteOk(m1, m2, heap, q, brk);
      Free(p + 8);
    }

    /** realloc when nothing around block p is large enough: malloc, then copy and free, or join. */
    method Reallocate(p: int, bytes: int, nb: int) returns (r: int)
      requires Valid() && p in Blocks() && 0 <= bytes < TWO31 && nb == Request2Size(bytes) && Blocks()[p] < nb
      modifies this, mem
      ensures Valid()
      ensures r == 0 ==> Preserves(old(mem[..]), old(heap), mem[..], heap)
      ensures r != 0 ==> Regrown(old(mem[..]), old(heap), mem[..], heap, p, r - 8, nb)
    {
      hide Ok, Marked, ZeroFrom, Live, Untouched, Accounted, Paged, Region, Preserves, SameContents, Granted, Regrown;
      ghost var m0, g0 := mem[..], heap;
      LiveFacts(m0, g0, p);
      LiveSize(m0, g0, p);
      var oldsize := mem[p + 4].hi;
      r := Malloc(bytes);
      if r == 0 {
        return;
      }
      var newp := r - 8;
      ghost var m1, g1 := mem[..], heap;
      GrantedFacts(m0, g0, m1, g1, p, newp, nb);
      if newp == p + mem[p + 4].hi {
        var newsize := oldsize + mem[newp + 4].hi;
        JoinRegion(m1, g1, p, newp);
        FinishSplit(m1, {p, newp}, p, newsize, nb);
        JoinDone(m0, g0, m1, g1, mem[..], heap, p, newp, nb);
        r := p + 8;
      } else {
        ghost var m2 := MoveTo(p, newp, oldsize);
        MoveDone(m0, g0, m1, g1, m2, mem[..], heap, p, newp, nb);
      }
    }

    /** realloc: the block with its contents at the new size, or null and everything as it was. */
    method Realloc(oldmem: int, bytes: int) returns (r: int)
      requires Valid() && 0 <= bytes < TWO32 && (oldmem != 0 ==> oldmem - 8 in Blocks())
      modifies this, mem
      ensures Valid()
      ensures r == 0 ==> Preserves(old(mem[..]), old(heap), mem[..], heap)
      ensures r != 0 ==> bytes < TWO31
      ensures r != 0 && oldmem == 0 ==> Granted(old(mem[..]), old(heap), mem[..], heap, r - 8, Request2Size(bytes))
      ensures r != 0 && oldmem != 0 ==> Regrown(old(mem[..]), old(heap), mem[..], heap, oldmem - 8, r - 8, Request2Size(bytes))
      ensures oldmem != 0 && bytes < TWO31 && old(FitsInPlace(oldmem - 8, Request2Size(bytes))) ==> r == oldmem
      ensures oldmem != 0 && bytes < TWO31 && old(FitsBehind(oldmem - 8, Request2Size(bytes))) ==>
        r == oldmem - 8 - old(PrevSize(mem[..], oldmem - 8)) + 8 || r == oldmem
    {
      hide Ok, Marked, ZeroFrom, Live, Untouched, Accounted, Paged, Preserves, Granted, Regrown, Exhausted;
      PreservesSelf(mem[..], heap);
      if bytes >= TWO31 {
        return 0;
      }
      if oldmem == 0 {
        r := Malloc(bytes);
        return;
      }
      var p := oldmem - 8;
      LiveSize(mem[..], heap, p);
      LiveFacts(mem[..], heap, p);
      var nb := Request2Size(bytes);
      if mem[p + 4].hi < nb {
        r := Enlarge(p, bytes, nb);
      } else {
        KeepPlace(p, nb);
        r := oldmem;
      }
    }

    /** The block has the bytes already, or the free chunk or top behind it has the rest. */
    ghost predicate FitsInPlace(p: int, nb: int)
      reads this, mem
      requires Valid()
    {
      var m := mem[..];
      var next := Next(m, p);
      || nb <= Size(m, p)
      || (next == top && nb + 16 <= Size(m, p) + Size(m, next))
      || (next != top && !InUse(m, next) && nb <= Size(m, p) + Size(m, next))
    }

    /** With the free chunk in front, and what is free behind, there are the bytes. */
    ghost predicate FitsBehind(p: int, nb: int)
      reads this, mem
      requires Valid()
    {
      var m := mem[..];
      var next, both := Next(m, p), PrevSize(m, p) + Size(m, p);
      && !PrevInUse(m, p)
      && (nb <= both || (next == top && nb + 16 <= both + Size(m, next)) || (next != top && !InUse(m, next) && nb <= both + Size(m, next)))
    }

    /** The block already has the bytes: what is too much is split off. */
    method KeepPlace(p: int, nb: int)
      requires Valid() && p in Blocks() && nb % 8 == 0 && MINSIZE <= nb <= Blocks()[p]
      modifies this, mem
      ensures Valid() && Regrown(old(mem[..]), old(heap), mem[..], heap, p, p, nb)
    {
      hide Ok, Marked, ZeroFrom, Live, Untouched, Accounted, Paged, Region, SameContents, Preserves;
      ghost var m0, g0 := mem[..], heap;
      WholeRegion(m0, g0, p);
      PreservesSelf(m0, g0);
      RegionFresh(m0, g0, {p}, p, p + mem[p + 4].hi);
      FinishSplit(m0, {p}, p, mem[p + 4].hi, nb);
      ExpandDone(m0, g0, m0, g0, m0, mem[..], heap, p, p, Live(m0, g0)[p], nb);
    }

    /** Which of the attempts of realloc comes first for which the space around block p is enough. */
    method FindRoom(p: int, nb: int) returns (way: Way)
      requires Valid() && p in Blocks() && Size(mem[..], p) < nb
      ensures Suits(mem[..], heap, p, nb, way)
      ensures way.NoRoom? ==> forall w: Way :: w.Room? ==> !Suits(mem[..], heap, p, nb, w)
      ensures way.Room? && way.back ==> forall w: Way :: w.Room? && !w.back ==> !Suits(mem[..], heap, p, nb, w)
    {
      AroundFacts(mem[..], heap, p);
      hide Ok, Marked, ZeroFrom, Live, Accounted, Paged, InUse, PrevInUse, W;
      var oldsize := mem[p + 4].hi;
      var next := p + oldsize;
      var nextsize := mem[next + 4].hi;
      var nextfree := next == top || !mem[next + nextsize + 4].lo;
      if nextfree {
        if next == top {
          if nextsize + oldsize >= nb + MINSIZE {
            return Room(false, false, true);
          }
        } else if nextsize + oldsize >= nb {
          return Room(false, true, false);
        }
      }
      if !mem[p + 4].lo {
        var prevsize := mem[p].hi;
        if nextfree {
          if next == top {
            if nextsize + prevsize + oldsize >= nb + MINSIZE {
              return Room(true, false, true);
            }
          } else if nextsize + prevsize + oldsize >= nb {
            return Room(true, true, false);
          }
        }
        if prevsize + oldsize >= nb {
          return Room(true, false, false);
        }
      }
      way := NoRoom;
    }

    lemma FrontIs(p: int)
      requires Valid()
      ensures !PrevInUse(mem[..], p) ==> Front(mem[..], p) == p - PrevSize(mem[..], p)
    {
    }

    lemma SuitsOpen(p: int, nb: int, way: Way)
      requires way.Room? && Suits(mem[..], heap, p, nb, way)
      ensures way.back ==> !PrevInUse(mem[..], p)
      ensures way.intoTop ==> Next(mem[..], p) == heap.top && nb + MINSIZE <= Extent2(mem[..], p, way.back, false) + Size(mem[..], heap.top)
      ensures !way.intoTop ==> nb <= Extent2(mem[..], p, way.back, way.fwd)
      ensures way.fwd ==> !way.intoTop && Next(mem[..], p) != heap.top && !InUse(mem[..], Next(mem[..], p))
    {
    }

    lemma WaysSuit(p: int, nb: int)
      requires Valid() && p in Blocks() && Size(mem[..], p) < nb
      ensures FitsInPlace(p, nb) ==> exists w: Way :: w.Room? && !w.back && Suits(mem[..], heap, p, nb, w)
      ensures FitsBehind(p, nb) ==> exists w: Way :: w.Room? && Suits(mem[..], heap, p, nb, w)
    {
      AroundFacts(mem[..], heap, p);
      hide Ok, Marked, ZeroFrom, Accounted, Paged, Live, W;
      var next := Next(mem[..], p);
      if FitsInPlace(p, nb) {
        assert Suits(mem[..], heap, p, nb, if next == top then Room(false, false, true) else Room(false, true, false));
      }
      if FitsBehind(p, nb) {
        var both := PrevSize(mem[..], p) + Size(mem[..], p);
        assert Suits(mem[..], heap, p, nb, if nb <= both then Room(true, false, false) else if next == top then Room(true, false, true) else Room(true, true, false));
      }
    }

    /** Growing block p where FindRoom found room, else by malloc. */
    method Enlarge(p: int, bytes: int, nb: int) returns (r: int)
      requires Valid() && p in Blocks() && 0 <= bytes < TWO31 && nb == Request2Size(bytes) && Blocks()[p] < nb
      modifies this, mem
      ensures Valid()
      ensures r == 0 ==> Preserves(old(mem[..]), old(heap), mem[..], heap)
      ensures r != 0 ==> Regrown(old(mem[..]), old(heap), mem[..], heap, p, r - 8, nb)
      ensures old(FitsInPlace(p, nb)) ==> r == p + 8
      ensures old(FitsBehind(p, nb)) ==> r == p - old(PrevSize(mem[..], p)) + 8 || r == p + 8
    {
      hide Valid, Request2Size, Regrown, Preserves, Suits, Live, FitsInPlace, FitsBehind;
      RequestAligned(bytes);
      LiveSize(mem[..], heap, p);
      if FitsInPlace(p, nb) || FitsBehind(p, nb) { WaysSuit(p, nb); }
      var way := FindRoom(p, nb);
      if way == NoRoom {
        r := Reallocate(p, bytes, nb);
      } else {
        r := Grow(p, way, nb);
      }
    }

    method Grow(p: int, way: Way, nb: int) returns (r: int)
      requires Valid() && p in Blocks() && nb % 8 == 0 && MINSIZE <= nb && way.Room? && Suits(mem[..], heap, p, nb, way)
      modifies this, mem
      ensures Valid() && r != 0 && Regrown(old(mem[..]), old(heap), mem[..], heap, p, r - 8, nb)
      ensures r == if way.back then p - old(PrevSize(mem[..], p)) + 8 else p + 8
    {
      hide Regrown, Front, Rear, Ok, Marked, ZeroFrom, Accounted, Paged, PrevSize, PrevInUse, InUse, Next, Size, W, Live;
      FrontIs(p);
      AroundFacts(mem[..], heap, p);
      SuitsOpen(p, nb, way);
      var lo;
      if way.intoTop {
        lo := ExpandTop(p, way.back, nb);
      } else {
        lo := Expand(p, way.back, way.fwd, nb);
      }
      r := lo + 8;
    }

    // ---- memalign and calloc -----------------------------------------------------------------

    /** The stores of memalign that cut a block in two blocks. */
    method SplitLead(p: int, newp: int)
      requires Valid() && p in Blocks() && newp % 8 == 0 && p + MINSIZE <= newp && newp + MINSIZE <= Next(mem[..], p)
      modifies mem, `heap
      ensures Valid() && Blocks() == old(Blocks())[p := newp - p] + map[newp := old(Next(mem[..], p)) - newp]
      ensures newp !in old(Blocks()) && Untouched(old(mem[..]), mem[..], old(Blocks()) - {p})
    {
      hide Ok, Marked, ZeroFrom, Live, Untouched, Accounted, Paged, Region, Resized, Retiled, Preserves, SameContents;
      ghost var m0, l0 := mem[..], Blocks();
      WholeRegion(m0, heap, p);
      LeadAligned(m0, heap, p, newp);
      var size := mem[p + 4].hi;
      RegionFresh(m0, heap, {p}, p, p + size);
      assert newp !in l0 - {p};
      ResizeOk(m0, m0, heap, {p}, p, p + size, newp - p, brk);
      Store(newp + 4, Word(p + size - newp, true));
      SetInuse(p + size);
      Store(p + 4, mem[p + 4].(hi := newp - p));
      assert mem[..] == Resized(m0, p, newp, p + size) by { LeadStores(m0, p, newp, p + size); }
      heap := Retiled(mem[..], heap, p, newp, p + size);
      PutBack(l0, p, newp - p);
    }

    /** The aligned spot inside the large block p; what is before and behind it is freed. */
    method Place(ghost m0: Mem, ghost g0: Heap, p: int, alignment: int, nb: int) returns (q: int)
      requires Valid() && p % 8 == 0 && AV_END <= p && Gained(m0, g0, mem[..], heap, p) && 0 < alignment && alignment % 16 == 0
      requires nb % 8 == 0 && MINSIZE <= nb && nb + alignment + MINSIZE <= Blocks()[p]
      modifies this, mem
      ensures Valid() && MultipleOf(q + 8, alignment) && AV_END <= q && Granted(m0, g0, mem[..], heap, q, nb)
    {
      hide Ok, Marked, ZeroFrom, Live, Untouched, Accounted, Paged, Preserves, Granted, Gained, Regrown, MultipleOf, AlignUp;
      var m := p + 8;
      MemAligned(p);
      GainedIn(m0, g0, mem[..], heap, p);
      LiveSize(mem[..], heap, p);
      q := p;
      if !MultipleOf(m, alignment) {
        AlignUpBounds(m, alignment);
        q := AlignUp(m, alignment) - 8;
        if q - p < MINSIZE {
          q := q + alignment;
        }
        LeadRoom(p, m, AlignUp(m, alignment), q, alignment);
        GiveLead(m0, g0, p, q);
      }
      ghost var m1, g1 := mem[..], heap;
      GainedIn(m0, g0, m1, g1, q);
      KeepPlace(q, nb);
      KeepDone(m0, g0, m1, g1, mem[..], heap, q, nb);
    }

    /** The leading space is cut off and freed. */
    method GiveLead(ghost m0: Mem, ghost g0: Heap, p: int, q: int)
      requires Valid() && p in Blocks() && Gained(m0, g0, mem[..], heap, p) && Blocks()[p] == Size(mem[..], p)
      requires q % 8 == 0 && p + MINSIZE <= q && q + MINSIZE <= p + Blocks()[p]
      modifies this, mem
      ensures Valid() && Gained(m0, g0, mem[..], heap, q) && q in Blocks() && Blocks()[q] == old(p + Blocks()[p]) - q
    {
      hide Ok, Marked, ZeroFrom, Live, Untouched, Accounted, Paged, Gained;
      ghost var m1, g1 := mem[..], heap;
      ghost var rest := p + Blocks()[p] - q;
      SplitLead(p, q);
      ghost var m2, l2 := mem[..], Blocks();
      Free(p + 8);
      LeadDone(m0, g0, m1, g1, m2, l2, mem[..], heap, p, q, q - p, rest);
    }

    /** memalign: as malloc, at a multiple of the alignment. */
    method Memalign(alignment: int, bytes: int) returns (r: int)
      requires Valid() && 0 <= bytes < TWO32 && 0 < alignment < TWO32 && PowerOfTwo(alignment) && PadFits(alignment, bytes)
      modifies this, mem
      ensures Valid()
      ensures r == 0 ==> Preserves(old(mem[..]), old(heap), mem[..], heap)
      ensures r != 0 ==> bytes < TWO31 && r % alignment == 0
      ensures r != 0 ==> Granted(old(mem[..]), old(heap), mem[..], heap, r - 8, Request2Size(bytes))
    {
      hide Ok, Marked, ZeroFrom, Live, Untouched, Accounted, Paged, Preserves, Granted, Exhausted, Request2Size, PowerOfTwo;
      PreservesSelf(mem[..], heap);
      if bytes >= TWO31 {
        return 0;
      }
      if alignment <= 8 {
        r := Malloc(bytes);
        SmallAlignment(alignment, r);
        return;
      }
      PowerMultiple(alignment);
      RequestAligned(bytes);
      var nb := Request2Size(bytes);
      var padded := (nb + alignment + MINSIZE) % TWO32;
      r := Malloc(padded);
      if r != 0 {
        PadEnough(alignment, bytes);
        GrantedGained(old(mem[..]), old(heap), mem[..], heap, r - 8, Request2Size(padded));
        var q := Place(old(mem[..]), old(heap), r - 8, alignment, nb);
        r := q + 8;
      }
    }

    /** calloc: as malloc, with all user words zero.  A count that is negative as a signed number is
        noticed only after malloc was called: the block it got is lost. */
    method Calloc(n: int, elemSize: int) returns (r: int, ghost lost: int)
      requires Valid() && 0 <= n < TWO32 && 0 <= elemSize < TWO32
      modifies this, mem
      ensures Valid()
      ensures r != 0 ==> Granted(old(mem[..]), old(heap), mem[..], heap, r - 8, Request2Size(n * elemSize % TWO32))
      ensures r != 0 ==> n < TWO31 && lost == 0 && forall w :: r <= w < r - 8 + Blocks()[r - 8] + 4 ==> W(mem[..], w) == Word(0, false)
      ensures r == 0 && lost == 0 ==> Preserves(old(mem[..]), old(heap), mem[..], heap)
      ensures lost != 0 ==> TWO31 <= n && r == 0 && Granted(old(mem[..]), old(heap), mem[..], heap, lost - 8, Request2Size(n * elemSize % TWO32))
    {
      hide Ok, Marked, ZeroFrom, Live, Untouched, Accounted, Paged, Preserves, Granted, Exhausted, Request2Size, FreshFrom, Zeroed;
      ghost var m0, g0 := mem[..], heap;
      TopFacts(m0, g0);
      var sz := n * elemSize % TWO32;
      var oldtop, oldtopsize := top, TopSize(top, brk);
      lost := 0;
      r := Malloc(sz);
      if n >= TWO31 {
        lost := r;
        r := 0;
        return;
      }
      if r != 0 {
        var p := r - 8;
        ghost var m1, g1 := mem[..], heap;
        NewBlock(m0, g0, m1, g1, p, Request2Size(sz));
        var csz := mem[p + 4].hi;
        if p == oldtop && csz > oldtopsize {
          csz := oldtopsize;
        }
        ZeroFill(p + 8, csz - SIZE_SZ);
        ghost var m2 := mem[..];
        UserWriteOk(m1, m2, heap, p, brk);
        ClearedAll(m1, m2, p, Live(m1, g1)[p], csz, brk, top, old(brk));
        GrantedZeroed(m0, g0, m1, g1, m2, p, Request2Size(sz));
      }
    }

    /** MALLOC_ZERO */
    method ZeroFill(a: int, n: int)
      requires 0 <= a && 0 <= n && a + n <= mem.Length
      modifies mem
      ensures mem[..] == Cleared(old(mem[..]), a, a + n)
    {
      ghost var m := mem[..];
      var i := 0;
      while i < n
        invariant 0 <= i <= n
        invariant mem[..] == Cleared(m, a, a + i)
      {
        mem[a + i] := ZERO;
        i := i + 1;
      }
    }

    /** The sizes of all chunks, top included, and the bytes before the first chunk sum to sbrked_mem,
        unless the very first extension of the arena failed half-way. */
    lemma ArenaAccounted()
      requires Valid() && top != 0
      ensures heap.base - start + SumSizes(mem[..], Walk(mem[..], heap, heap.base)) + Size(mem[..], top) == sbrkedMem <==> !stumbled
    {
      TilingExact(mem[..], heap);
    }

    /** last(bin_at(i)) */
    method LastOf(i: int) returns (victim: int, ghost k: int)
      requires Core() && 1 <= i < NAV
      ensures k == |heap.bins[i]| - 1 && victim == At(8 * i, heap.bins[i], k) && (victim == 8 * i <==> k == -1)
      ensures 0 <= k ==> AV_END <= victim
    {
      NodeLinks(mem[..], heap, i, |heap.bins[i]|);
      NodeLinks(mem[..], heap, i, |heap.bins[i]| - 1);
      BinNodes(mem[..], heap, i);
      victim, k := mem[8 * i + 12].hi, |heap.bins[i]| - 1;
    }
  }

  /** Every non-empty bin from idx on has a chunk of nb bytes: its first, which is its largest. */
  ghost predicate AllFit(m: Mem, g: Heap, idx: int, nb: int) {
    |g.bins| == NAV && forall i :: 0 <= idx <= i < NAV && g.bins[i] != [] ==> Size(m, g.bins[i][0]) >= nb
  }

  ghost predicate NoneBelow(m: Mem, g: Heap, idx: int, nb: int) {
    |g.bins| == NAV && forall i, c :: 2 <= i < idx <= NAV && c in g.bins[i] ==> Size(m, c) < nb
  }

  ghost predicate Listed(g: Heap, victim: int, i: int, k: int) {
    |g.bins| == NAV && 1 <= i < NAV && 0 <= k < |g.bins[i]| && g.bins[i][k] == victim && victim >= AV_END
  }

  /** What the rest of malloc may rely on when the bin of nb had no exact fit. */
  ghost predicate Missed(m: Mem, g: Heap, idx: int, nb: int) {
    && 4 <= idx < NAV && 0 <= nb && BinIndex(nb) <= idx
    && AllFit(m, g, idx, nb) && NoneBelow(m, g, idx, nb)
    && (idx == BinIndex(nb) ==> g.bins[idx] != [])
  }

  /** g' has the block v of nb bytes or a little more, and otherwise the blocks of g, untouched. */
  ghost predicate Granted(m: Mem, g: Heap, m': Mem, g': Heap, v: int, nb: int) {
    && v !in Live(m, g) && v in Live(m', g') && nb <= Live(m', g')[v] < nb + MINSIZE
    && Live(m', g') == Live(m, g)[v := Live(m', g')[v]]
    && Untouched(m, m', Live(m, g))
  }

  /** What a block from malloc is: room for the bytes asked for, and every word of every other block as it was. */
  lemma GrantedServes(m: Mem, g: Heap, m': Mem, g': Heap, v: int, bytes: int)
    requires 0 <= bytes < TWO31 - 11 && Granted(m, g, m', g', v, Request2Size(bytes))
    ensures v in Live(m', g') && v + 8 + bytes <= v + Live(m', g')[v] + 4
    ensures forall a, w :: a in Live(m, g) && a + 8 <= w < a + Live(m, g)[a] + 4 ==> W(m', w) == W(m, w)
    ensures forall a :: a in Live(m, g) ==> a != v && a in Live(m', g') && Live(m', g')[a] == Live(m, g)[a]
  {
    Request2SizeFits(bytes);
    hide Live, Request2Size, W;
    forall a, w | a in Live(m, g) && a + 8 <= w < a + Live(m, g)[a] + 4 ensures W(m', w) == W(m, w) {
      assert SameUser(m, m', a, Live(m, g)[a]);
    }
  }

  /** What a block from realloc is: the same, and the first words as they were in the old one. */
  lemma RegrownServes(m: Mem, g: Heap, m': Mem, g': Heap, p: int, q: int, bytes: int)
    requires 0 <= bytes < TWO31 - 11 && Regrown(m, g, m', g', p, q, Request2Size(bytes))
    ensures q in Live(m', g') && q + 8 + bytes <= q + Live(m', g')[q] + 4
    ensures forall w :: q + 8 <= w < q + Live(m', g')[q] + 4 && w - q < Live(m, g)[p] + 4 ==> W(m', w) == W(m, p + (w - q))
    ensures forall a, w :: a in Live(m, g) && a != p && a + 8 <= w < a + Live(m, g)[a] + 4 ==> W(m', w) == W(m, w)
  {
    Request2SizeFits(bytes);
    hide Live, Request2Size, W;
    forall w | q + 8 <= w < q + Live(m', g')[q] + 4 && w - q < Live(m, g)[p] + 4 ensures W(m', w) == W(m, p + (w - q)) {
      assert W(m', w) == W(m, w - q + p);
      assert w - q + p == p + (w - q);
    }
    forall a, w | a in Live(m, g) && a != p && a + 8 <= w < a + Live(m, g)[a] + 4 ensures W(m', w) == W(m, w) {
      assert a in Live(m, g) - {p};
      assert SameUser(m, m', a, (Live(m, g) - {p})[a]);
    }
  }

  const NO_CHUNKS: Heap := Heap(0, 0, 0, {}, seq(NAV, i => []), {})

  /** IAV(i): the head of bin i points at itself. */
  predicate HeadAlone(m: Mem, i: int) {
    Fd(m, 8 * i) == 8 * i && Bk(m, 8 * i) == 8 * i
  }

  lemma HeadSet(m: Mem, i: int, m': Mem)
    requires 1 <= i < NAV && AV_END <= |m| && forall j :: 1 <= j < i ==> HeadAlone(m, j)
    requires m' == m[8 * i + 8 := Word(8 * i, false)][8 * i + 12 := Word(8 * i, false)]
    ensures forall j :: 1 <= j <= i ==> HeadAlone(m', j)
  {
    forall j | 1 <= j <= i ensures HeadAlone(m', j) {
      assert j < i ==> HeadAlone(m, j);
    }
  }

  lemma HeadsKept(m: Mem, first: int, m': Mem)
    requires AV_END <= first <= |m| == |m'| && (forall j :: 1 <= j < NAV ==> HeadAlone(m, j))
    requires forall w :: 0 <= w < first ==> m'[w] == m[w]
    ensures forall j :: 1 <= j < NAV ==> HeadAlone(m', j)
  {
    forall j | 1 <= j < NAV ensures HeadAlone(m', j) {
      assert HeadAlone(m, j);
    }
  }

  /** Before the first request: no chunks, and every bin its own only member. */
  lemma NoChunksOk(m: Mem)
    requires AV_END <= |m| && forall i :: 1 <= i < NAV ==> HeadAlone(m, i)
    ensures Ok(m, NO_CHUNKS) && Live(m, NO_CHUNKS) == map[]
  {
    forall i | 1 <= i < NAV ensures Ring(m, 8 * i, NO_CHUNKS.bins[i]) {
      assert HeadAlone(m, i);
    }
  }

  lemma GrantedHasTop(m: Mem, g: Heap, m': Mem, g': Heap, v: int, nb: int)
    requires Ok(m', g') && Granted(m, g, m', g', v, nb)
    ensures g'.top != 0
  {
    hide Bins, Untouched;
  }

  lemma PreservesSelf(m: Mem, g: Heap)
    ensures Preserves(m, g, m, g)
  {
  }

  lemma GrantedAfter(m: Mem, g: Heap, m1: Mem, g1: Heap, m': Mem, g': Heap, v: int, sz: int, nb: int)
    requires Preserves(m, g, m1, g1) && nb <= sz < nb + MINSIZE
    requires v !in Live(m1, g1) && Live(m', g') == Live(m1, g1)[v := sz] && Untouched(m1, m', Live(m1, g1))
    ensures Granted(m, g, m', g', v, nb)
  {
    UntouchedTrans(m, m1, m', Live(m, g), Live(m1, g1));
  }

  lemma PreservesTrans(m: Mem, g: Heap, m1: Mem, g1: Heap, m': Mem, g': Heap)
    requires Preserves(m, g, m1, g1) && Preserves(m1, g1, m', g')
    ensures Preserves(m, g, m', g')
  {
    UntouchedTrans(m, m1, m', Live(m, g), Live(m1, g1));
  }

  lemma GrantedTrans(m: Mem, g: Heap, m1: Mem, g1: Heap, m': Mem, g': Heap, v: int, nb: int)
    requires Preserves(m, g, m1, g1) && Granted(m1, g1, m', g', v, nb)
    ensures Granted(m, g, m', g', v, nb)
  {
    UntouchedTrans(m, m1, m', Live(m, g), Live(m1, g1));
  }

  lemma GrantedAligned(m': Mem, g': Heap, m: Mem, g: Heap, v: int, nb: int)
    requires Ok(m', g') && Granted(m, g, m', g', v, nb)
    ensures v % 8 == 0
  {
    assert v in g'.chunks;
  }

  /** No free chunk and not top either is large enough. */
  ghost predicate Exhausted(m: Mem, g: Heap, nb: int) {
    && TopSize(g.top, g.brk) < nb + MINSIZE
    && (forall c :: c in g.chunks && !InUse(m, c) ==> Size(m, c) < nb)
  }

  lemma NoneBelowKept(m: Mem, m': Mem, g: Heap, g': Heap, nb: int)
    requires Ok(m, g) && NoneBelow(m, g, NAV, nb) && g'.bins == g.bins
    requires forall a :: a in g.chunks ==> Size(m', a) == Size(m, a)
    ensures NoneBelow(m', g', NAV, nb)
  {
    hide Rings, Tiles, Tags, BinIndex;
    forall i, c | 2 <= i < NAV && c in g'.bins[i] ensures Size(m', c) < nb {
      assert Member(m, g, i, c);
    }
  }

  lemma NothingFits(m: Mem, g: Heap, nb: int)
    requires Ok(m, g) && NoneBelow(m, g, NAV, nb) && g.loose == {} && g.bins[1] == [] && TopSize(g.top, g.brk) < nb + MINSIZE
    ensures Exhausted(m, g, nb)
  {
    hide Rings, Tiles, Tags;
    forall c | c in g.chunks && !InUse(m, c) ensures Size(m, c) < nb {
      assert Binned(m, g, c);
      assert c in g.bins[BinIndex(Size(m, c))] && Member(m, g, BinIndex(Size(m, c)), c);
    }
  }

  lemma ListedFacts(m: Mem, g: Heap, v: int, i: int, k: int)
    requires Ok(m, g) && Listed(g, v, i, k)
    ensures v in g.chunks && !InUse(m, v) && 0 <= v && v + 16 <= |m|
  {
    hide Ring, BinIndex;
    BinNodes(m, g, i);
    assert v in g.bins[i] && Member(m, g, i, v);
  }

  /** What last_remainder->fd says. */
  lemma Remainder(m: Mem, g: Heap)
    requires Ok(m, g)
    ensures |m| >= AV_END && BinShape(g)
    ensures var v := Fd(m, LAST_REMAINDER);
            if v == LAST_REMAINDER then g.bins[1] == []
            else g.bins[1] == [v] && AV_END <= v && v + 16 <= |m| && v in g.chunks && !InUse(m, v) && 0 <= Size(m, v)
  {
    BinNodes(m, g, 1);
    NodeLinks(m, g, 1, -1);
    assert forall c :: c in g.bins[1] ==> Member(m, g, 1, c);
    if g.bins[1] != [] {
      assert g.bins[1] == [g.bins[1][0]] && g.bins[1][0] in g.bins[1];
    }
  }

  lemma SizesKept(m: Mem, m': Mem, g: Heap)
    requires Relinked(m, m', g)
    ensures forall a :: a in g.chunks ==> Size(m', a) == Size(m, a)
  {
  }

  /** Emptying the last remainder into its bin keeps what the first look found out. */
  lemma MissedAfter(m: Mem, g: Heap, m1: Mem, m': Mem, g': Heap, idx: int, nb: int, p: int, bin: int, k: int)
    requires Ok(m, g) && Ok(m', g') && Missed(m, g, idx, nb) && g.bins[1] == [p] && 0 <= Size(m, p) < nb
    requires Relinked(m, m1, g) && Relinked(m1, m', Taken(g, 1, 0))
    requires 2 <= bin < NAV && bin == BinIndex(Size(m, p)) && 0 <= k <= |g.bins[bin]|
    requires g' == Put(Taken(g, 1, 0), bin, k, p)
    ensures Missed(m', g', idx, nb)
  {
    SizesKept(m, m1, g);
    SizesKept(m1, m', Taken(g, 1, 0));
    BinIndexMonotone(Size(m, p), nb);
    hide BinIndex, Rings, Covered, Relinked, Tiles, Tags, Aligned, LooseFree, RemainderAlone;
    assert p in g.bins[1] && Member(m, g, 1, p);
    MissedSmaller(m, g, m', g', idx, nb, p, bin, k);
    MissedLarger(m, g, m', g', idx, nb, p, bin, k);
  }

  /** Putting the last remainder in its bin hides no chunk that fits. */
  lemma NoneBefore(m: Mem, g: Heap, m1: Mem, m': Mem, g': Heap, nb: int, p: int, bin: int, k: int)
    requires Ok(m, g) && g.bins[1] == [p] && Relinked(m, m1, g) && Relinked(m1, m', Taken(g, 1, 0))
    requires Ok(m', g') && 2 <= bin < NAV && 0 <= k <= |g.bins[bin]| && g' == Put(Taken(g, 1, 0), bin, k, p)
    ensures NoneBelow(m', g', NAV, nb) ==> NoneBelow(m, g, NAV, nb)
  {
    SizesKept(m, m1, g);
    SizesKept(m1, m', Taken(g, 1, 0));
    hide BinIndex, Rings, Covered, Relinked, Tiles, Tags, Aligned, LooseFree, RemainderAlone;
    if NoneBelow(m', g', NAV, nb) {
      forall i, c | 2 <= i < NAV && c in g.bins[i] ensures Size(m, c) < nb {
        assert Member(m, g, i, c);
        assert c in g'.bins[i];
      }
    }
  }

  lemma MissedSmaller(m: Mem, g: Heap, m': Mem, g': Heap, idx: int, nb: int, p: int, bin: int, k: int)
    requires Members(m, g) && NoneBelow(m, g, idx, nb) && p in g.chunks && Size(m, p) < nb
    requires forall a :: a in g.chunks ==> Size(m', a) == Size(m, a)
    requires 2 <= bin < NAV && 0 <= k <= |g.bins[bin]| && g.bins[1] != [] && g' == Put(Taken(g, 1, 0), bin, k, p)
    ensures NoneBelow(m', g', idx, nb)
  {
    hide BinIndex;
    forall i, c | 2 <= i < idx <= NAV && c in g'.bins[i] ensures Size(m', c) < nb {
      if c != p { assert c in g.bins[i] && Member(m, g, i, c); }
    }
  }

  lemma MissedLarger(m: Mem, g: Heap, m': Mem, g': Heap, idx: int, nb: int, p: int, bin: int, k: int)
    requires Members(m, g) && AllFit(m, g, idx, nb) && Sorted(m', g') && 4 <= idx
    requires forall a :: a in g.chunks ==> Size(m', a) == Size(m, a)
    requires 2 <= bin <= idx < NAV && (bin == idx ==> g.bins[idx] != [])
    requires 0 <= k <= |g.bins[bin]| && g.bins[1] != [] && g' == Put(Taken(g, 1, 0), bin, k, p)
    ensures AllFit(m', g', idx, nb)
  {
    hide BinIndex;
    forall i | idx <= i < NAV && g'.bins[i] != [] ensures Size(m', g'.bins[i][0]) >= nb {
      var c := g.bins[i][0];
      assert c in g.bins[i] && Member(m, g, i, c);
      assert g'.bins[i][if i == bin && k == 0 then 1 else 0] == c;
    }
  }

  /** `(1 << j) <= binblocks`, see BlockCompare. */
  predicate AnyFrom(bits: seq<bool>, j: int) {
    exists n :: 0 <= j <= n < |bits| && bits[n]
  }

  ghost function Power(j: nat): nat {
    if j == 0 then 1 else 2 * Power(j - 1)
  }

  /** The number that the bits of binblocks stand for. */
  ghost function Value(bits: seq<bool>): nat {
    if |bits| == 0 then 0 else Value(bits[..|bits| - 1]) + (if bits[|bits| - 1] then Power(|bits| - 1) else 0)
  }

  lemma {:induction false} ValueBelow(bits: seq<bool>)
    ensures Value(bits) < Power(|bits|)
  {
    if |bits| > 0 { ValueBelow(bits[..|bits| - 1]); }
  }

  lemma {:induction false} PowerMonotone(i: nat, j: nat)
    requires i <= j
    ensures Power(i) <= Power(j)
    decreases j
  {
    if i < j { PowerMonotone(i, j - 1); }
  }

  /** The comparison of a block bit with the bitmap asks for a set bit at or above it. */
  lemma {:induction false} BlockCompare(bits: seq<bool>, j: nat)
    ensures Power(j) <= Value(bits) <==> AnyFrom(bits, j)
  {
    PowerMonotone(0, j);
    ValueBelow(bits);
    if |bits| <= j {
      PowerMonotone(|bits|, j);
    } else {
      var low, last := bits[..|bits| - 1], |bits| - 1;
      if bits[last] {
        PowerMonotone(j, last);
      } else {
        BlockCompare(low, j);
        assert forall n :: 0 <= n < last ==> low[n] == bits[n];
      }
    }
  }

  ghost predicate EmptyBins(g: Heap, from: int, to: int) {
    |g.bins| == NAV && forall i :: 0 <= from <= i < to && i < NAV ==> g.bins[i] == []
  }

  lemma SkipBlock(g: Heap, blocks: seq<bool>, block: int)
    requires Marked(g.bins, blocks) && 1 <= block < 32 && !blocks[block]
    ensures EmptyBins(g, 4 * block, 4 * block + 4)
  {
  }

  /** The chunk at k in bin i fits, and no chunk that fits is smaller. */
  ghost predicate BestFit(m: Mem, g: Heap, i: int, k: int, nb: int) {
    |g.bins| == NAV && 2 <= i < NAV && 0 <= k < |g.bins[i]| && Size(m, g.bins[i][k]) >= nb
    && forall j, c :: 2 <= j < NAV && c in g.bins[j] && Size(m, c) >= nb ==> Size(m, c) >= Size(m, g.bins[i][k])
  }

  lemma FoundBest(m: Mem, g: Heap, idx0: int, nb: int, i: int, k: int)
    requires Ok(m, g) && NoneBelow(m, g, idx0, nb) && EmptyBins(g, idx0, i)
    requires 2 <= idx0 <= i < NAV && 0 <= k < |g.bins[i]| && Size(m, g.bins[i][k]) >= nb
    requires forall n :: k < n < |g.bins[i]| ==> Size(m, g.bins[i][n]) < nb
    ensures BestFit(m, g, i, k, nb)
  {
    hide Rings, Covered, Tiles, Tags, BinIndex;
    var v := g.bins[i][k];
    assert v in g.bins[i] && Member(m, g, i, v);
    forall j, c | 2 <= j < NAV && c in g.bins[j] && Size(m, c) >= nb ensures Size(m, c) >= Size(m, v) {
      assert Member(m, g, j, c);
      if i < j && Size(m, c) < Size(m, v) {
        BinIndexMonotone(Size(m, c), Size(m, v));
      }
    }
  }

  lemma Unfit(m: Mem, g: Heap, blocks: seq<bool>, idx0: int, idx: int, nb: int)
    requires NoneBelow(m, g, idx0, nb) && EmptyBins(g, idx0, idx) && 4 <= idx0 <= idx <= NAV
    requires Marked(g.bins, blocks) && (idx < NAV ==> !AnyFrom(blocks, idx / 4))
    ensures NoneBelow(m, g, NAV, nb)
  {
    forall i, c | 2 <= i < NAV && c in g.bins[i] ensures Size(m, c) < nb {
      assert blocks[i / 4];
    }
  }

  /** What the bin of a request says about the chunks of all bins. */
  lemma FitFacts(m: Mem, g: Heap, nb: int)
    requires Ok(m, g) && 0 <= nb
    ensures forall i, c :: BinIndex(nb) < i < NAV && c in g.bins[i] ==> i < 127 && Size(m, c) > nb
    ensures NoneBelow(m, g, BinIndex(nb), nb)
  {
    forall i, c | 2 <= i < NAV && c in g.bins[i]
      ensures BinIndex(nb) < i ==> i < 127 && Size(m, c) > nb
      ensures i < BinIndex(nb) ==> Size(m, c) < nb
    {
      assert Member(m, g, i, c);
      hide BinIndex;
      if Size(m, c) <= nb { BinIndexMonotone(Size(m, c), nb); }
      if nb <= Size(m, c) { BinIndexMonotone(nb, Size(m, c)); }
    }
  }

  ghost predicate AllOfSize(m: Mem, l: seq<int>, n: int) {
    forall k :: 0 <= k < |l| ==> Size(m, l[k]) == n
  }

  /** The bins of a small request and of the next size hold exact fits only. */
  lemma SmallFacts(m: Mem, g: Heap, nb: int, idx: int)
    requires Ok(m, g) && MINSIZE <= nb < MAX_SMALLBIN_SIZE - 8 && nb % 8 == 0 && idx == nb / 8
    ensures 2 <= idx <= 62
    ensures AllOfSize(m, g.bins[idx], nb) && AllOfSize(m, g.bins[idx + 1], nb + 8)
    ensures g.bins[idx] == [] && g.bins[idx + 1] == [] ==> Missed(m, g, idx + 2, nb)
  {
    FitFacts(m, g, nb);
    assert BinIndex(nb) == idx && BinIndex(nb + 8) == idx + 1;
    SmallBin(m, g, idx, nb);
    SmallBin(m, g, idx + 1, nb + 8);
    hide Ok, BinIndex;
  }

  lemma FirstLargest(m: Mem, g: Heap, i: int, k: int)
    requires Ok(m, g) && 1 <= i < NAV && 0 <= k < |g.bins[i]|
    ensures Size(m, g.bins[i][0]) >= Size(m, g.bins[i][k])
  {
  }

  /** Following fd and bk from position k of bin i. */
  lemma NodeLinks(m: Mem, g: Heap, i: int, k: int)
    requires Ok(m, g) && 1 <= i < NAV && -1 <= k <= |g.bins[i]|
    ensures var n := At(8 * i, g.bins[i], k);
            && 0 <= n && n + 16 <= |m| && (n == 8 * i <==> !(0 <= k < |g.bins[i]|))
            && (k < |g.bins[i]| ==> Fd(m, n) == At(8 * i, g.bins[i], k + 1))
            && (0 <= k ==> Bk(m, n) == At(8 * i, g.bins[i], k - 1))
  {
    hide BinIndex, Members, Covered, Sorted, Tiles, Tags;
    BinNodes(m, g, i);
    assert Ring(m, 8 * i, g.bins[i]);
  }

  lemma FullBin(m: Mem, g: Heap, i: int)
    requires Ok(m, g) && 1 <= i < NAV && Fd(m, 8 * i) != 8 * i
    ensures g.bins[i] != []
  {
    hide BinIndex, Members, Covered, Sorted, Tiles, Tags;
    NodeLinks(m, g, i, -1);
  }

  lemma EmptyBin(m: Mem, g: Heap, i: int)
    requires Ok(m, g) && 1 <= i < NAV && Fd(m, 8 * i) == 8 * i
    ensures g.bins[i] == []
  {
    NodeLinks(m, g, i, -1);
    NodeLinks(m, g, i, 0);
  }

  /** All chunks of a small bin have the same size. */
  lemma SmallBin(m: Mem, g: Heap, i: int, s: int)
    requires Ok(m, g) && s < MAX_SMALLBIN_SIZE && 2 <= i < NAV && 0 <= s && i == BinIndex(s) && s % 8 == 0
    ensures forall n :: 0 <= n < |g.bins[i]| ==> Size(m, g.bins[i][n]) == s
  {
    hide Ring, Rings;
    BinNodes(m, g, i);
    forall n | 0 <= n < |g.bins[i]| ensures Size(m, g.bins[i][n]) == s {
      var c := g.bins[i][n];
      assert c in g.bins[i] && Member(m, g, i, c);
      SmallSize(Size(m, c), s);
    }
  }

  lemma SmallSize(x: int, y: int)
    requires 0 <= x && 0 <= y < MAX_SMALLBIN_SIZE && x % 8 == 0 && y % 8 == 0 && BinIndex(x) == BinIndex(y)
    ensures x == y
  {
  }
}
