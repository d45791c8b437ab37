/** The memory of the allocator: 32-bit words, boundary tags, the tiling of the arena
    by chunks and the bins that hold the free ones.  Everything here is about values of
    the memory; DlMalloc.dfy holds the code that writes it. */
module DlHeap {

  /** A 32-bit word, kept as its upper 31 bits (as the number they stand for) and bit 0,
      the only bit that the source masks on its own (PREV_INUSE). */
  datatype Word = Word(hi: int, lo: bool)

  const ZERO := Word(0, false)

  /** m[a] is the word at byte address a; only multiples of four are addresses of words. */
  type Mem = seq<Word>

  const SIZE_SZ: nat := 4
  const MINSIZE: nat := 16
  const NAV: nat := 128

  /** av_ lies in the memory itself, from address 0: bin i is the pseudo-chunk at 8 * i. */
  const AV_END: nat := 1032

  // ---- chunks -------------------------------------------------------------------

  function W(m: Mem, a: int): Word {
    if 0 <= a < |m| then m[a] else ZERO
  }

  function PrevSize(m: Mem, p: int): int { W(m, p).hi }
  function Size(m: Mem, p: int): int { W(m, p + 4).hi }
  predicate PrevInUse(m: Mem, p: int) { W(m, p + 4).lo }
  function Fd(m: Mem, p: int): int { W(m, p + 8).hi }
  function Bk(m: Mem, p: int): int { W(m, p + 12).hi }
  function Next(m: Mem, p: int): int { p + Size(m, p) }

  /** As in the source, the status of a chunk is bit 0 of the header that follows it. */
  predicate InUse(m: Mem, p: int) { PrevInUse(m, Next(m, p)) }

  // ---- the ghost view -------------------------------------------------------------

  /** chunks: where chunks start, without top.  bins: the content of each bin in fd order.
      loose: free chunks that a running call has taken out of their bin. */
  datatype Heap = Heap(base: int, top: int, brk: int, chunks: set<int>, bins: seq<seq<int>>, loose: set<int>)

  predicate Proper(m: Mem, top: int, base: int, a: int) {
    base <= a && MINSIZE <= Size(m, a) && Next(m, a) <= top
  }

  predicate Closed(m: Mem, g: Heap, a: int) {
    Next(m, a) in g.chunks || Next(m, a) == g.top
  }

  ghost predicate Extent(m: Mem, g: Heap) {
    && AV_END <= g.base <= g.top && (g.base in g.chunks || g.base == g.top)
    && g.top + MINSIZE <= g.brk <= |m| && Size(m, g.top) == g.brk - g.top
  }

  ghost predicate AllProper(m: Mem, g: Heap) {
    forall a :: a in g.chunks ==> Proper(m, g.top, g.base, a)
  }

  ghost predicate AllClosed(m: Mem, g: Heap) {
    forall a {:trigger Closed(m, g, a)} :: a in g.chunks ==> Closed(m, g, a)
  }

  ghost predicate Ordered(m: Mem, g: Heap) {
    forall a, b :: a in g.chunks && b in g.chunks && a < b ==> Next(m, a) <= b
  }

  /** The chunks and top cover base..brk without gap or overlap. */
  ghost predicate Tiles(m: Mem, g: Heap) {
    Extent(m, g) && AllProper(m, g) && AllClosed(m, g) && Ordered(m, g)
  }

  ghost predicate Aligned(m: Mem, g: Heap) {
    g.top % 8 == 0 && forall a :: a in g.chunks ==> a % 8 == 0 && Size(m, a) % 8 == 0
  }

  predicate FreeTagged(m: Mem, a: int) {
    PrevInUse(m, a) && PrevSize(m, Next(m, a)) == Size(m, a)
  }

  /** Free chunks are fully consolidated and carry their footer. */
  ghost predicate Tags(m: Mem, g: Heap) {
    && PrevInUse(m, g.top) && PrevInUse(m, g.base)
    && forall a :: a in g.chunks && !InUse(m, a) ==> FreeTagged(m, a)
  }

  // ---- bins -----------------------------------------------------------------------

  function BinIndex(sz: int): (i: int)
    requires 0 <= sz
    ensures 0 <= i <= 126
    ensures MINSIZE <= sz ==> 2 <= i
  {
    if sz / 512 == 0 then sz / 8
    else if sz / 512 <= 4 then 56 + sz / 64
    else if sz / 512 <= 20 then 91 + sz / 512
    else if sz / 512 <= 84 then 110 + sz / 4096
    else if sz / 512 <= 340 then 119 + sz / 32768
    else if sz / 512 <= 1364 then 124 + sz / 262144
    else 126
  }

  /** Despite the slop in its constants, bin_index never decreases, so every chunk of a
      later bin is larger than every chunk of an earlier one. */
  lemma BinIndexMonotone(x: int, y: int)
    requires 0 <= x <= y
    ensures BinIndex(x) <= BinIndex(y)
  {
  }

  /** Where each bin begins: 64 bins 8 bytes apart, 32 that are 64 apart, 16 of 512, then 4096, 32768 and
      262144, with the last steps a little late. */
  lemma BinBegins(sz: int, i: int)
    requires 0 <= sz && 0 <= i <= 126
    ensures var begin :=
        if i < 64 then 8 * i
        else if i < 96 then 512 + 64 * (i - 64)
        else if i < 112 then 2560 + 512 * (i - 96)
        else if i == 112 then 10752
        else if i <= 120 then 12288 + 4096 * (i - 113)
        else if i <= 124 then 65536 + 32768 * (i - 121)
        else 262144 * (i - 124);
      i <= BinIndex(sz) <==> begin <= sz
  {
  }

  /** Position k of the circular list with head h: the head itself at -1 and at |l|. */
  function At(h: int, l: seq<int>, k: int): int {
    if 0 <= k < |l| then l[k] else h
  }

  ghost predicate Ring(m: Mem, h: int, l: seq<int>) {
    && (forall k {:trigger Fd(m, At(h, l, k))} :: -1 <= k < |l| ==> Fd(m, At(h, l, k)) == At(h, l, k + 1))
    && (forall k {:trigger Bk(m, At(h, l, k))} :: 0 <= k <= |l| ==> Bk(m, At(h, l, k)) == At(h, l, k - 1))
  }

  ghost predicate Distinct(l: seq<int>) {
    forall i, j :: 0 <= i < j < |l| ==> l[i] != l[j]
  }

  ghost predicate Descending(m: Mem, l: seq<int>) {
    forall i, j :: 0 <= i < j < |l| ==> Size(m, l[i]) >= Size(m, l[j])
  }

  ghost predicate Rings(m: Mem, bins: seq<seq<int>>)
    requires |bins| == NAV
  {
    forall i :: 1 <= i < NAV ==> Ring(m, 8 * i, bins[i])
  }

  /** What bin i may hold. */
  ghost predicate Member(m: Mem, g: Heap, i: int, c: int) {
    c in g.chunks && !InUse(m, c) && c !in g.loose && 0 <= Size(m, c) && (i != 1 ==> BinIndex(Size(m, c)) == i)
  }

  ghost predicate Binned(m: Mem, g: Heap, c: int)
    requires |g.bins| == NAV
  {
    0 <= Size(m, c) && (c in g.bins[1] || c in g.bins[BinIndex(Size(m, c))])
  }

  ghost predicate BinShape(g: Heap) {
    |g.bins| == NAV && g.bins[0] == [] && |g.bins[1]| <= 1
  }

  /** Bins hold free chunks of their own size class; bin 1 (last_remainder) any free chunk. */
  ghost predicate Members(m: Mem, g: Heap) {
    BinShape(g) && forall i, c :: 1 <= i < NAV && c in g.bins[i] ==> Member(m, g, i, c)
  }

  ghost predicate Sorted(m: Mem, g: Heap) {
    BinShape(g) && forall i :: 1 <= i < NAV ==> Distinct(g.bins[i]) && Descending(m, g.bins[i])
  }

  ghost predicate RemainderAlone(g: Heap) {
    BinShape(g) && forall i, c :: 2 <= i < NAV && c in g.bins[i] ==> c !in g.bins[1]
  }

  ghost predicate LooseFree(m: Mem, g: Heap) {
    forall c :: c in g.loose ==> c in g.chunks && !InUse(m, c)
  }

  /** Every free chunk is in its bin, or the last remainder, or loose. */
  ghost predicate Covered(m: Mem, g: Heap) {
    BinShape(g) && forall c :: c in g.chunks && !InUse(m, c) && c !in g.loose ==> Binned(m, g, c)
  }

  ghost predicate Bins(m: Mem, g: Heap) {
    BinShape(g) && Rings(m, g.bins) && Members(m, g) && Sorted(m, g) && RemainderAlone(g) && LooseFree(m, g) && Covered(m, g)
  }

  ghost predicate Marked(bins: seq<seq<int>>, blocks: seq<bool>) {
    |bins| == NAV && |blocks| == 32 &&
    forall i :: 2 <= i < NAV && bins[i] != [] ==> blocks[i / 4]
  }

  ghost predicate Ok(m: Mem, g: Heap) {
    && AV_END <= |m| && Bins(m, g)
    && if g.top == 0 then g.chunks == {} else Tiles(m, g) && Tags(m, g) && Aligned(m, g)
  }

  // ---- live blocks ------------------------------------------------------------------

  /** The blocks in the hands of callers, with their sizes. */
  ghost function Live(m: Mem, g: Heap): map<int, int> {
    map a | a in g.chunks && InUse(m, a) :: Size(m, a)
  }

  /** The user part of a block of size n: its own words and the prev_size word after it. */
  ghost predicate SameUser(m: Mem, m': Mem, a: int, n: int) {
    forall w :: a + 8 <= w < a + n + 4 ==> W(m', w) == W(m, w)
  }

  /** The blocks of `live` still hold what they held. */
  ghost predicate Untouched(m: Mem, m': Mem, live: map<int, int>) {
    forall a :: a in live ==> SameUser(m, m', a, live[a])
  }

  // ---- changing the tiling of one region -----------------------------------------------

  /** m' may differ from m only between the header of lo and the status bit at hi. */
  ghost predicate Within(m: Mem, m': Mem, lo: int, hi: int) {
    && |m'| == |m|
    && (forall w :: 0 <= w < |m| && (w < lo + 4 || hi + 4 < w) ==> m'[w] == m[w])
    && W(m', hi + 4).hi == W(m, hi + 4).hi && W(m', lo + 4).lo == W(m, lo + 4).lo
  }

  /** The region lo..hi becomes the chunk lo..mid and, if mid < hi, the chunk mid..hi. */
  ghost function Retiled(m': Mem, g: Heap, lo: int, mid: int, hi: int): Heap {
    var made := if mid < hi then {lo, mid} else {lo};
    g.(chunks := (set a | a in g.chunks && (a < lo || hi <= a)) + made,
       loose := (set a | a in g.loose && (a < lo || hi <= a)) + (set a | a in made && !InUse(m', a)))
  }

  /** The region lo..hi is a run of chunks; m' writes one or two headers into it. */
  ghost predicate Cut(m: Mem, m': Mem, g: Heap, lo: int, mid: int, hi: int) {
    && Tiles(m, g) && Within(m, m', lo, hi)
    && lo in g.chunks && (hi in g.chunks || hi == g.top)
    && lo + MINSIZE <= mid && (mid == hi || mid + MINSIZE <= hi)
    && Size(m', lo) == mid - lo && (mid < hi ==> Size(m', mid) == hi - mid)
  }

  /** The status bits and footers written into the region are right. */
  ghost predicate Retagged(m: Mem, m': Mem, g: Heap, lo: int, mid: int, hi: int) {
    && Tags(m, g)
    && (hi == g.top || !InUse(m, hi) ==> PrevInUse(m', hi))
    && (!PrevInUse(m', mid) ==> PrevInUse(m, lo) && PrevSize(m', mid) == mid - lo)
    && (mid < hi && !PrevInUse(m', hi) ==> PrevInUse(m', mid) && PrevSize(m', hi) == hi - mid)
  }

  ghost predicate Unbinned(g: Heap, lo: int, hi: int)
    requires |g.bins| == NAV
  {
    forall i, c :: 1 <= i < NAV && c in g.bins[i] ==> c < lo || hi <= c
  }

  /** Chunks outside the region keep size, status and user words. */
  ghost predicate KeptOutside(m: Mem, m': Mem, g: Heap, lo: int, hi: int) {
    forall a :: a in g.chunks && (a < lo || hi <= a) ==>
      Size(m', a) == Size(m, a) && (InUse(m', a) <==> InUse(m, a)) && SameUser(m, m', a, Size(m, a))
  }

  lemma RetileKeeps(m: Mem, m': Mem, g: Heap, lo: int, mid: int, hi: int)
    requires Cut(m, m', g, lo, mid, hi)
    ensures forall a :: a in g.chunks && a < lo ==> Next(m, a) <= lo
    ensures forall a :: a in g.chunks && hi < a ==> Next(m, hi) <= a
    ensures KeptOutside(m, m', g, lo, hi)
  {
    assert Closed(m, g, lo);
    forall a | a in g.chunks && (a < lo || hi <= a)
      ensures Size(m', a) == Size(m, a) && (InUse(m', a) <==> InUse(m, a)) && SameUser(m, m', a, Size(m, a))
    {
      assert Closed(m, g, a);
    }
  }

  lemma RetileProper(m: Mem, m': Mem, g: Heap, lo: int, mid: int, hi: int, a: int)
    requires Cut(m, m', g, lo, mid, hi)
    requires a in Retiled(m', g, lo, mid, hi).chunks
    ensures Proper(m', g.top, g.base, a) && Closed(m', Retiled(m', g, lo, mid, hi), a)
  {
    if a == lo || (a == mid && mid < hi) {
      assert Proper(m, g.top, g.base, lo);
    } else {
      assert Proper(m, g.top, g.base, a) && Closed(m, g, a);
      assert Closed(m, g, lo);
    }
  }

  lemma RetileOrder(m: Mem, m': Mem, g: Heap, lo: int, mid: int, hi: int)
    requires Cut(m, m', g, lo, mid, hi)
    ensures Ordered(m', Retiled(m', g, lo, mid, hi))
  {
    RetileKeeps(m, m', g, lo, mid, hi);
  }

  lemma RetileTiles(m: Mem, m': Mem, g: Heap, lo: int, mid: int, hi: int)
    requires Cut(m, m', g, lo, mid, hi)
    ensures Tiles(m', Retiled(m', g, lo, mid, hi))
  {
    var g' := Retiled(m', g, lo, mid, hi);
    RetileOrder(m, m', g, lo, mid, hi);
    forall a | a in g'.chunks ensures Proper(m', g'.top, g'.base, a) && Closed(m', g', a) {
      RetileProper(m, m', g, lo, mid, hi, a);
    }
  }

  lemma RetileTagged(m: Mem, m': Mem, g: Heap, lo: int, mid: int, hi: int, a: int)
    requires Cut(m, m', g, lo, mid, hi) && Retagged(m, m', g, lo, mid, hi)
    requires a in Retiled(m', g, lo, mid, hi).chunks && !InUse(m', a)
    ensures FreeTagged(m', a)
  {
    if a == lo || (a == mid && mid < hi) {
    } else {
      RetileKeeps(m, m', g, lo, mid, hi);
      assert FreeTagged(m, a) && Closed(m, g, a);
    }
  }

  lemma RetileTags(m: Mem, m': Mem, g: Heap, lo: int, mid: int, hi: int)
    requires Cut(m, m', g, lo, mid, hi) && Retagged(m, m', g, lo, mid, hi)
    ensures Tags(m', Retiled(m', g, lo, mid, hi))
  {
    var g' := Retiled(m', g, lo, mid, hi);
    forall a | a in g'.chunks && !InUse(m', a) ensures FreeTagged(m', a) {
      RetileTagged(m, m', g, lo, mid, hi, a);
    }
  }

  /** A ring survives any change that spares its links. */
  lemma RingFrame(m: Mem, m': Mem, h: int, l: seq<int>)
    requires Ring(m, h, l)
    requires forall k {:trigger At(h, l, k)} :: -1 <= k <= |l| ==> Fd(m', At(h, l, k)) == Fd(m, At(h, l, k)) && Bk(m', At(h, l, k)) == Bk(m, At(h, l, k))
    ensures Ring(m', h, l)
  {
  }

  lemma RetileRings(m: Mem, m': Mem, g: Heap, lo: int, mid: int, hi: int)
    requires Cut(m, m', g, lo, mid, hi) && Bins(m, g) && Unbinned(g, lo, hi)
    ensures Rings(m', g.bins)
  {
    hide BinIndex;
    RetileKeeps(m, m', g, lo, mid, hi);
    forall i | 1 <= i < NAV ensures Ring(m', 8 * i, g.bins[i]) {
      forall k | -1 <= k <= |g.bins[i]|
        ensures var c := At(8 * i, g.bins[i], k); Fd(m', c) == Fd(m, c) && Bk(m', c) == Bk(m, c)
      {
        if 0 <= k < |g.bins[i]| {
          var c := g.bins[i][k];
          assert c in g.bins[i] && Member(m, g, i, c);
          assert Proper(m, g.top, g.base, c);
        }
        assert Proper(m, g.top, g.base, lo);
      }
      RingFrame(m, m', 8 * i, g.bins[i]);
    }
  }

  lemma RetileBins(m: Mem, m': Mem, g: Heap, lo: int, mid: int, hi: int)
    requires Cut(m, m', g, lo, mid, hi) && Bins(m, g) && Unbinned(g, lo, hi)
    ensures Bins(m', Retiled(m', g, lo, mid, hi))
  {
    hide BinIndex, Ring;
    var g' := Retiled(m', g, lo, mid, hi);
    RetileRings(m, m', g, lo, mid, hi);
    RetileKeeps(m, m', g, lo, mid, hi);
    forall i, c | 1 <= i < NAV && c in g'.bins[i] ensures Member(m', g', i, c) {
      assert Member(m, g, i, c);
    }
    forall i | 1 <= i < NAV ensures Distinct(g'.bins[i]) && Descending(m', g'.bins[i]) {
      forall k | 0 <= k < |g.bins[i]| ensures Size(m', g.bins[i][k]) == Size(m, g.bins[i][k]) {
        assert g.bins[i][k] in g.bins[i];
        assert Member(m, g, i, g.bins[i][k]);
      }
    }
    forall c | c in g'.chunks && !InUse(m', c) && c !in g'.loose ensures Binned(m', g', c) {
      assert Binned(m, g, c);
    }
  }

  lemma RetileAligned(m: Mem, m': Mem, g: Heap, lo: int, mid: int, hi: int)
    requires Aligned(m, g) && Cut(m, m', g, lo, mid, hi) && mid % 8 == 0
    ensures Aligned(m', Retiled(m', g, lo, mid, hi))
  {
    hide Extent, AllProper, AllClosed, Ordered, Within, SameUser;
    RetileKeeps(m, m', g, lo, mid, hi);
    Differences(lo, mid, hi);
    hide W, InUse;
  }

  lemma Differences(lo: int, mid: int, hi: int)
    requires lo % 8 == 0 && mid % 8 == 0 && hi % 8 == 0
    ensures (mid - lo) % 8 == 0 && (hi - mid) % 8 == 0
  {
  }

  /** The central step of every operation: a region of chunks is cut anew. */
  lemma RetileOk(m: Mem, m': Mem, g: Heap, lo: int, mid: int, hi: int)
    requires g.top != 0 && Ok(m, g)
    requires Cut(m, m', g, lo, mid, hi) && Retagged(m, m', g, lo, mid, hi) && Unbinned(g, lo, hi)
    requires mid % 8 == 0
    ensures Ok(m', Retiled(m', g, lo, mid, hi))
    ensures KeptOutside(m, m', g, lo, hi)
  {
    hide BinIndex, Ring, Bins, Tiles, Tags, Aligned, Retagged, InUse, Unbinned;
    RetileBins(m, m', g, lo, mid, hi);
    RetileTiles(m, m', g, lo, mid, hi);
    RetileTags(m, m', g, lo, mid, hi);
    RetileAligned(m, m', g, lo, mid, hi);
    RetileKeeps(m, m', g, lo, mid, hi);
  }

  // ---- the end of the arena --------------------------------------------------------------

  /** Everything from lo on becomes top, preceded by the chunk lo..top' if lo < top'. */
  ghost function Retopped(g: Heap, lo: int, top': int, brk': int): Heap {
    g.(top := top', brk := brk',
       chunks := (set a | a in g.chunks && a < lo) + (if lo < top' then {lo} else {}),
       loose := set a | a in g.loose && a < lo)
  }

  ghost predicate CutTop(m: Mem, m': Mem, g: Heap, lo: int, top': int, brk': int) {
    && Tiles(m, g) && (lo in g.chunks || lo == g.top)
    && |m'| == |m| && (forall w :: 0 <= w < lo + 4 ==> m'[w] == m[w]) && PrevInUse(m', lo) == PrevInUse(m, lo)
    && (top' == lo || lo + MINSIZE <= top') && (lo < top' ==> Size(m', lo) == top' - lo)
    && top' + MINSIZE <= brk' <= |m| && Size(m', top') == brk' - top' && PrevInUse(m', top')
  }

  lemma RetopKeeps(m: Mem, m': Mem, g: Heap, lo: int, top': int, brk': int)
    requires CutTop(m, m', g, lo, top', brk')
    ensures forall a :: a in g.chunks && a < lo ==> Next(m, a) <= lo
    ensures forall a :: a in g.chunks && a < lo ==>
      Size(m', a) == Size(m, a) && (InUse(m', a) <==> InUse(m, a)) && SameUser(m, m', a, Size(m, a))
  {
    forall a | a in g.chunks && a < lo
      ensures Next(m, a) <= lo
      ensures Size(m', a) == Size(m, a) && (InUse(m', a) <==> InUse(m, a)) && SameUser(m, m', a, Size(m, a))
    {
      assert Closed(m, g, a) && Proper(m, g.top, g.base, a);
    }
  }

  lemma RetopProper(m: Mem, m': Mem, g: Heap, lo: int, top': int, brk': int, a: int)
    requires CutTop(m, m', g, lo, top', brk') && a in Retopped(g, lo, top', brk').chunks
    ensures Proper(m', top', g.base, a) && Closed(m', Retopped(g, lo, top', brk'), a)
    ensures AV_END <= lo && (lo == g.base || g.base in g.chunks)
  {
    BaseBelow(m, g, lo);
    if a < lo {
      RetopKeeps(m, m', g, lo, top', brk');
      assert Closed(m, g, a) && Proper(m, g.top, g.base, a);
    }
  }

  lemma BaseBelow(m: Mem, g: Heap, lo: int)
    requires Tiles(m, g) && (lo in g.chunks || lo == g.top)
    ensures AV_END <= g.base <= lo <= g.top && (lo == g.base || g.base in g.chunks)
  {
    if lo in g.chunks { assert Proper(m, g.top, g.base, lo); }
  }

  lemma RetopTiles(m: Mem, m': Mem, g: Heap, lo: int, top': int, brk': int)
    requires CutTop(m, m', g, lo, top', brk')
    ensures Tiles(m', Retopped(g, lo, top', brk'))
  {
    RetopKeeps(m, m', g, lo, top', brk');
    BaseBelow(m, g, lo);
    var g' := Retopped(g, lo, top', brk');
    forall a | a in g'.chunks ensures Proper(m', g'.top, g'.base, a) && Closed(m', g', a) {
      RetopProper(m, m', g, lo, top', brk', a);
    }
    hide W, CutTop;
  }

  lemma RetopTags(m: Mem, m': Mem, g: Heap, lo: int, top': int, brk': int)
    requires CutTop(m, m', g, lo, top', brk') && Tags(m, g)
    ensures Tags(m', Retopped(g, lo, top', brk'))
  {
    RetopKeeps(m, m', g, lo, top', brk');
    BaseBelow(m, g, lo);
    var g' := Retopped(g, lo, top', brk');
    forall a | a in g'.chunks && !InUse(m', a) ensures FreeTagged(m', a) {
      assert FreeTagged(m, a) && Closed(m, g, a);
    }
  }

  lemma RetopAligned(m: Mem, m': Mem, g: Heap, lo: int, top': int, brk': int)
    requires CutTop(m, m', g, lo, top', brk') && Aligned(m, g) && top' % 8 == 0
    ensures Aligned(m', Retopped(g, lo, top', brk'))
  {
    RetopKeeps(m, m', g, lo, top', brk');
    hide W;
    assert (top' - lo) % 8 == 0;
  }

  lemma RetopRings(m: Mem, m': Mem, g: Heap, lo: int, top': int, brk': int)
    requires CutTop(m, m', g, lo, top', brk') && Bins(m, g) && Unbinned(g, lo, |m|)
    ensures Rings(m', g.bins)
  {
    hide BinIndex;
    RetopKeeps(m, m', g, lo, top', brk');
    BaseBelow(m, g, lo);
    forall i | 1 <= i < NAV ensures Ring(m', 8 * i, g.bins[i]) {
      forall k | -1 <= k <= |g.bins[i]|
        ensures var c := At(8 * i, g.bins[i], k); Fd(m', c) == Fd(m, c) && Bk(m', c) == Bk(m, c)
      {
        if 0 <= k < |g.bins[i]| {
          var c := g.bins[i][k];
          assert c in g.bins[i] && Member(m, g, i, c);
          assert Proper(m, g.top, g.base, c);
        }
      }
      RingFrame(m, m', 8 * i, g.bins[i]);
    }
  }

  lemma RetopBins(m: Mem, m': Mem, g: Heap, lo: int, top': int, brk': int)
    requires CutTop(m, m', g, lo, top', brk') && Bins(m, g) && Unbinned(g, lo, |m|)
    ensures Bins(m', Retopped(g, lo, top', brk'))
  {
    hide BinIndex, Ring;
    var g' := Retopped(g, lo, top', brk');
    RetopRings(m, m', g, lo, top', brk');
    RetopKeeps(m, m', g, lo, top', brk');
    forall i, c | 1 <= i < NAV && c in g'.bins[i] ensures Member(m', g', i, c) {
      assert Member(m, g, i, c);
      assert Proper(m, g.top, g.base, c);
    }
    forall i | 1 <= i < NAV ensures Distinct(g'.bins[i]) && Descending(m', g'.bins[i]) {
      forall k | 0 <= k < |g.bins[i]| ensures Size(m', g.bins[i][k]) == Size(m, g.bins[i][k]) {
        assert g.bins[i][k] in g.bins[i];
        assert Member(m, g, i, g.bins[i][k]);
        assert Member(m', g', i, g.bins[i][k]);
      }
    }
    forall c | c in g'.chunks && !InUse(m', c) && c !in g'.loose ensures Binned(m', g', c) {
      assert Binned(m, g, c);
    }
  }

  /** Giving everything from lo on to top, growing or trimming the arena at its end. */
  lemma RetopOk(m: Mem, m': Mem, g: Heap, lo: int, top': int, brk': int)
    requires g.top != 0 && Ok(m, g)
    requires CutTop(m, m', g, lo, top', brk') && Unbinned(g, lo, |m|) && top' % 8 == 0
    ensures Ok(m', Retopped(g, lo, top', brk'))
    ensures forall a :: a in g.chunks && a < lo ==>
      Size(m', a) == Size(m, a) && (InUse(m', a) <==> InUse(m, a)) && SameUser(m, m', a, Size(m, a))
  {
    hide BinIndex, Ring, Bins, Tiles, Tags, Aligned, InUse, Unbinned;
    RetopBins(m, m', g, lo, top', brk');
    RetopTiles(m, m', g, lo, top', brk');
    RetopTags(m, m', g, lo, top', brk');
    RetopAligned(m, m', g, lo, top', brk');
    RetopKeeps(m, m', g, lo, top', brk');
    BaseBelow(m, g, lo);
  }
}
