/** The blocks of a flattened device tree inside its buffer (sections 5.2 to 5.5 of the Devicetree
    Specification), and what moving their bytes does to what they hold. */
module FdtBlob {
  import opened FdtFormat
  import opened FdtTree
  import opened FdtDoc
  import opened FdtWalk

  const HEADER_SIZE: int := 40
  const FDT_MAGIC: int := 0xd00d_feed
  const FDT_SW_MAGIC: int := 0x2ff2_0112
  const FIRST_VERSION: int := 0x10
  const LAST_VERSION: int := 0x11

  const ERR_BADSTATE: int := 7
  const ERR_BADMAGIC: int := 9
  const ERR_BADVERSION: int := 10
  const ERR_BADLAYOUT: int := 12
  const ERR_INTERNAL: int := 13

  datatype Header = Header(
    magic: int, totalSize: int, offStruct: int, offStrings: int, offRsv: int,
    version: int, lastComp: int, sizeStrings: int, sizeStruct: int)

  /** An entry of the memory reservation block; the first of size 0 ends it. */
  datatype Reserve = Reserve(address: int, size: int)

  const TWO64: int := 0x1_0000_0000_0000_0000

  predicate Wide(e: Reserve) {
    0 <= e.address < TWO64 && 0 <= e.size < TWO64
  }

  predicate AllWide(rsv: seq<Reserve>) {
    forall i :: 0 <= i < |rsv| ==> Wide(rsv[i])
  }

  predicate RsvOk(rsv: seq<Reserve>) {
    && rsv != [] && AllWide(rsv)
    && forall i :: 0 <= i < |rsv| ==> (rsv[i].size == 0 <==> i == |rsv| - 1)
  }

  function Put64(v: int): (s: Bytes)
    requires 0 <= v < TWO64
    ensures |s| == 8
  {
    Put32(v / TWO32) + Put32(v % TWO32)
  }

  function Get64(s: Bytes, o: int): (v: int)
    requires 0 <= o && o + 8 <= |s|
    ensures 0 <= v < TWO64
  {
    Get32(s, o) * TWO32 + Get32(s, o + 4)
  }

  lemma GetPut64(a: Bytes, v: int, b: Bytes)
    requires 0 <= v < TWO64
    ensures Get64(a + Put64(v) + b, |a|) == v
  {
    hide Put32, Get32;
    var h, l := Put32(v / TWO32), Put32(v % TWO32);
    assert a + Put64(v) + b == a + h + (l + b) == (a + h) + l + b;
    GetPut(a, v / TWO32, l + b);
    GetPut(a + h, v % TWO32, b);
  }

  function RsvEntry(e: Reserve): (s: Bytes)
    requires Wide(e)
    ensures |s| == 16
  {
    Put64(e.address) + Put64(e.size)
  }

  /** An entry is four words: the upper and the lower half of the address, then those of the size. */
  lemma RsvEntryWords(e: Reserve)
    requires Wide(e)
    ensures var s := RsvEntry(e);
      e.address == Get32(s, 0) * 0x1_0000_0000 + Get32(s, 4) && e.size == Get32(s, 8) * 0x1_0000_0000 + Get32(s, 12)
  {
    hide Put32, Get32;
    var a, b, c, d := Put32(e.address / TWO32), Put32(e.address % TWO32), Put32(e.size / TWO32), Put32(e.size % TWO32);
    var s := RsvEntry(e);
    assert s == [] + a + (b + c + d) && s == a + b + (c + d) && s == (a + b) + c + d && s == (a + b + c) + d + [];
    GetPut([], e.address / TWO32, b + c + d);
    GetPut(a, e.address % TWO32, c + d);
    GetPut(a + b, e.size / TWO32, d);
    GetPut(a + b + c, e.size % TWO32, []);
  }

  function RsvBytes(rsv: seq<Reserve>): (s: Bytes)
    requires AllWide(rsv)
    ensures |s| == 16 * |rsv|
  {
    if rsv == [] then [] else RsvEntry(rsv[0]) + RsvBytes(rsv[1..])
  }

  lemma {:induction false} RsvAppend(a: seq<Reserve>, b: seq<Reserve>)
    requires AllWide(a) && AllWide(b)
    ensures AllWide(a + b) && RsvBytes(a + b) == RsvBytes(a) + RsvBytes(b)
  {
    hide Wide, RsvEntry;
    if a == [] {
      assert a + b == b;
    } else {
      RsvAppend(a[1..], b);
      assert (a + b)[1..] == a[1..] + b;
      Assoc(RsvEntry(a[0]), RsvBytes(a[1..]), RsvBytes(b));
    }
  }

  // ---- blocks ---------------------------------------------------------------------------------

  function DataSize(h: Header): int {
    h.offStrings + h.sizeStrings
  }

  /** The blocks stand in the order that editing needs, with n reservation entries. */
  predicate Ordered(h: Header, n: int) {
    && HEADER_SIZE <= h.offRsv && h.offRsv + 16 * n <= h.offStruct
    && OnWord(h.offStruct)
    && h.offStruct + h.sizeStruct <= h.offStrings
    && h.offStrings + h.sizeStrings <= h.totalSize
  }

  /** The bytes s hold these reservations, tokens and strings. */
  predicate Holds(s: Bytes, h: Header, rsv: seq<Reserve>, ts: Tokens, strs: Bytes) {
    && |s| < 0x8000_0000 && RsvOk(rsv) && AllFormed(ts)
    && HasBlocks(s, h, RsvBytes(rsv), Enc(ts), strs)
  }

  /** The bytes b stand at offset o of s. */
  predicate Has(s: Bytes, o: int, b: Bytes) {
    0 <= o && o + |b| <= |s| && s[o..o + |b|] == b
  }

  lemma HasBoth(s: Bytes, o: int, a: Bytes, b: Bytes)
    ensures Has(s, o, a + b) <==> Has(s, o, a) && Has(s, o + |a|, b)
  {
    if Has(s, o, a + b) {
      assert a == (a + b)[..|a|] == s[o..o + |a + b|][..|a|];
      assert b == (a + b)[|a|..] == s[o..o + |a + b|][|a|..];
    }
    if Has(s, o, a) && Has(s, o + |a|, b) {
      assert s[o..o + |a + b|] == s[o..o + |a|] + s[o + |a|..o + |a| + |b|];
    }
  }

  /** Where the header says they are, s has the bytes of the three blocks. */
  predicate HasBlocks(s: Bytes, h: Header, rsvs: Bytes, body: Bytes, strs: Bytes) {
    && Has(s, h.offRsv, rsvs)
    && Has(s, h.offStruct, body) && |body| == h.sizeStruct
    && Has(s, h.offStrings, strs) && |strs| == h.sizeStrings
  }

  /** Headers that editing accepts: version 17, or later but compatible with it. */
  predicate Current(h: Header) {
    h.magic == FDT_MAGIC && LAST_VERSION <= h.version && h.lastComp <= LAST_VERSION
  }

  /** _fdt_blocks_misordered */
  predicate BlocksMisordered(h: Header, rsvSize: int, structSize: int) {
    || h.offRsv < HEADER_SIZE
    || h.offStruct < h.offRsv + rsvSize
    || h.offStrings < h.offStruct + structSize
    || h.totalSize < h.offStrings + h.sizeStrings
  }

  /** A C string stands at p. */
  predicate IsString(s: Bytes, p: int, name: Bytes) {
    0 <= p && p + |name| < |s| && s[p..p + |name|] == name && s[p + |name|] == 0 && 0 !in name
  }

  // ---- offsets and tokens -----------------------------------------------------------------------

  /** The token that starts at offset o, or -1. */
  function TokenAt(ts: Tokens, o: int): (i: int)
    requires AllFormed(ts)
    ensures -1 <= i < |ts|
  {
    if ts == [] || o < 0 then -1
    else if o == 0 then 0
    else
      var k := TokenAt(ts[1..], o - |Enc1(ts[0])|);
      if k < 0 then -1 else k + 1
  }

  lemma {:induction false} TokenAtOffset(ts: Tokens, i: int)
    requires AllFormed(ts) && 0 <= i < |ts|
    ensures TokenAt(ts, Offset(ts, i)) == i
  {
    if i > 0 {
      TokenAtOffset(ts[1..], i - 1);
      OffsetTail(ts, i);
    } else {
      assert ts[..0] == [];
    }
  }

  lemma OffsetTail(ts: Tokens, i: int)
    requires AllFormed(ts) && 0 < i <= |ts|
    ensures Offset(ts, i) == |Enc1(ts[0])| + Offset(ts[1..], i - 1)
  {
    hide Enc1, WellFormed;
    assert ts[..i][0] == ts[0] && ts[..i][1..] == ts[1..][..i - 1];
  }

  lemma {:induction false} TokenAtFound(ts: Tokens, o: int)
    requires AllFormed(ts) && TokenAt(ts, o) >= 0
    ensures Offset(ts, TokenAt(ts, o)) == o
  {
    if o == 0 {
      assert ts[..0] == [];
    } else {
      TokenAtFound(ts[1..], o - |Enc1(ts[0])|);
      OffsetTail(ts, TokenAt(ts, o));
    }
  }

  /** The node, or the property, that starts at offset o; -1 if none does. */
  function NodeTok(ts: Tokens, o: int): (i: int)
    requires AllFormed(ts)
    ensures i == -1 || IsNode(ts, i)
  {
    var i := TokenAt(ts, o);
    if i >= 0 && ts[i].BeginNode? then i else -1
  }

  function PropTok(ts: Tokens, o: int): (i: int)
    requires AllFormed(ts)
    ensures i == -1 || (0 <= i < |ts| && ts[i].Prop?)
  {
    var i := TokenAt(ts, o);
    if i >= 0 && ts[i].Prop? then i else -1
  }

  lemma TokAt(ts: Tokens, i: int)
    requires AllFormed(ts) && 0 <= i < |ts|
    ensures TokenAt(ts, Offset(ts, i)) == i && Askable(ts, Offset(ts, i))
    ensures ts[i].BeginNode? ==> NodeTok(ts, Offset(ts, i)) == i
    ensures ts[i].Prop? ==> PropTok(ts, Offset(ts, i)) == i
  {
    TokenAtOffset(ts, i);
  }

  /** An offset that callers may pass: where a token starts, or one that the checks refuse. */
  predicate Askable(ts: Tokens, o: int)
    requires AllFormed(ts)
  {
    o < 0 || o % 4 != 0 || o >= |Enc(ts)| || TokenAt(ts, o) >= 0
  }

  /** What fdt_next_tag reports at an offset that callers may pass and that the checks do not refuse. */
  lemma AskedTag(ts: Tokens, o: int)
    requires AllFormed(ts) && |Enc(ts)| < TWO32 && Askable(ts, o) && 0 <= o && o % 4 == 0
    ensures TokenAt(ts, o) >= 0 ==> o == Offset(ts, TokenAt(ts, o)) && TagAt(Enc(ts), o) == (TagOf(ts[TokenAt(ts, o)]), Offset(ts, TokenAt(ts, o) + 1))
    ensures TokenAt(ts, o) < 0 ==> TagAt(Enc(ts), o) == (END, -ERR_TRUNCATED)
  {
    hide Enc, AllFormed;
    if TokenAt(ts, o) >= 0 {
      TokenAtFound(ts, o);
      TagAtToken(ts, TokenAt(ts, o));
    }
  }

  /** Only word boundaries start tokens. */
  lemma TokenOnWord(ts: Tokens, o: int)
    requires AllFormed(ts) && (o < 0 || o % 4 != 0)
    ensures TokenAt(ts, o) == -1
  {
    if TokenAt(ts, o) >= 0 {
      TokenAtFound(ts, o);
      OffsetAligned(ts, TokenAt(ts, o));
      assert false;
    }
  }

  lemma {:induction false} OffsetsGrow(ts: Tokens, i: int, j: int)
    requires AllFormed(ts) && 0 <= i <= j <= |ts|
    ensures Offset(ts, i) + 4 * (j - i) <= Offset(ts, j) <= |Enc(ts)|
    decreases j - i
  {
    hide Enc, Enc1, Offset, WellFormed, AllFormed;
    if i < j {
      OffsetsGrow(ts, i, j - 1);
      OffsetStep(ts, j - 1);
    } else {
      SplitAt(ts, i);
    }
  }

  // ---- edits of the structure block ---------------------------------------------------------------

  lemma CutBytes(ts: Tokens, q: int, r: int, put: Tokens)
    requires AllFormed(ts) && AllFormed(put) && 0 <= q <= r <= |ts|
    ensures AllFormed(Cut(ts, q, r, put))
    ensures Enc(Cut(ts, q, r, put)) == Enc(ts[..q]) + Enc(put) + Enc(ts[r..])
  {
    hide Enc, WellFormed;
    EncAppend(ts[..q], put);
    EncAppend(ts[..q] + put, ts[r..]);
  }

  function Resized(h: Header, d: int): Header {
    h.(sizeStruct := h.sizeStruct + d, offStrings := h.offStrings + d)
  }

  /** What a splice and the writes that follow it leave: everything before offset at as it was, mid in
      the place of oldlen bytes there, and behind it the rest of the data, up to end, as it was. */
  predicate Spliced(s: Bytes, t: Bytes, at: int, oldlen: int, mid: Bytes, end: int) {
    && |t| == |s| && 0 <= at && 0 <= oldlen && at + oldlen <= end <= |s| && end - oldlen + |mid| <= |s|
    && t[..at] == s[..at]
    && Has(t, at, mid)
    && t[at + |mid|..end - oldlen + |mid|] == s[at + oldlen..end]
  }

  lemma SplicedBefore(s: Bytes, t: Bytes, at: int, oldlen: int, mid: Bytes, end: int, o: int, b: Bytes)
    requires Spliced(s, t, at, oldlen, mid, end) && Has(s, o, b) && o + |b| <= at
    ensures Has(t, o, b)
  {
    SubHeads(t, s, at, o, o + |b|);
  }

  lemma SplicedAfter(s: Bytes, t: Bytes, at: int, oldlen: int, mid: Bytes, end: int, o: int, b: Bytes)
    requires Spliced(s, t, at, oldlen, mid, end) && Has(s, o, b) && at + oldlen <= o && o + |b| <= end
    ensures Has(t, o + |mid| - oldlen, b)
  {
    var k := at + oldlen;
    SubSlices(t, at + |mid|, s, k, end - k, o - k, o + |b| - k);
  }

  lemma SplicedMid(s: Bytes, t: Bytes, at: int, oldlen: int, mid: Bytes, end: int)
    requires Spliced(s, t, at, oldlen, mid, end)
    ensures Has(t, at, mid)
  {
  }

  lemma BytesSpliced(s: Bytes, t: Bytes, h: Header, rsvs: Bytes, body: Bytes, strs: Bytes, a: int, b: int, mid: Bytes)
    requires HasBlocks(s, h, rsvs, body, strs) && 0 <= a <= b <= h.sizeStruct
    requires h.offRsv + |rsvs| <= h.offStruct && h.offStruct + h.sizeStruct <= h.offStrings
    requires Spliced(s, t, h.offStruct + a, b - a, mid, DataSize(h))
    ensures HasBlocks(t, Resized(h, |mid| - (b - a)), rsvs, body[..a] + mid + body[b..], strs)
  {
    hide Spliced, Has;
    var at := h.offStruct + a;
    SplicedMid(s, t, at, b - a, mid, DataSize(h));
    assert body == body[..a] + (body[a..b] + body[b..]);
    HasBoth(s, h.offStruct, body[..a], body[a..b] + body[b..]);
    HasBoth(s, at, body[a..b], body[b..]);
    SplicedBefore(s, t, at, b - a, mid, DataSize(h), h.offRsv, rsvs);
    SplicedBefore(s, t, at, b - a, mid, DataSize(h), h.offStruct, body[..a]);
    SplicedAfter(s, t, at, b - a, mid, DataSize(h), h.offStruct + b, body[b..]);
    SplicedAfter(s, t, at, b - a, mid, DataSize(h), h.offStrings, strs);
    HasBoth(t, h.offStruct, body[..a], mid);
    HasBoth(t, h.offStruct, body[..a] + mid, body[b..]);
  }

  lemma StructEdited(s: Bytes, t: Bytes, h: Header, rsv: seq<Reserve>, ts: Tokens, strs: Bytes, q: int, r: int, put: Tokens)
    requires AllFormed(ts) && Holds(s, h, rsv, ts, strs) && Ordered(h, |rsv|) && 0 <= q <= r <= |ts| && AllFormed(put)
    requires Spliced(s, t, h.offStruct + Offset(ts, q), Offset(ts, r) - Offset(ts, q), Enc(put), DataSize(h))
    requires DataSize(h) + |Enc(put)| - (Offset(ts, r) - Offset(ts, q)) <= h.totalSize
    ensures Holds(t, Resized(h, |Enc(put)| - (Offset(ts, r) - Offset(ts, q))), rsv, Cut(ts, q, r, put), strs)
    ensures Ordered(Resized(h, |Enc(put)| - (Offset(ts, r) - Offset(ts, q))), |rsv|)
  {
    hide *;
    CutSides(ts, q, r);
    CutBytes(ts, q, r, put);
    StructEditedAt(s, t, h, rsv, ts, strs, Offset(ts, q), Offset(ts, r), Enc(put), Cut(ts, q, r, put));
  }

  lemma StructEditedAt(s: Bytes, t: Bytes, h: Header, rsv: seq<Reserve>, ts: Tokens, strs: Bytes, a: int, b: int, mid: Bytes, ts': Tokens)
    requires Holds(s, h, rsv, ts, strs) && Ordered(h, |rsv|) && 0 <= a <= b <= |Enc(ts)|
    requires Spliced(s, t, h.offStruct + a, b - a, mid, DataSize(h))
    requires DataSize(h) + |mid| - (b - a) <= h.totalSize
    requires AllFormed(ts') && Enc(ts') == Enc(ts)[..a] + mid + Enc(ts)[b..]
    ensures Holds(t, Resized(h, |mid| - (b - a)), rsv, ts', strs) && Ordered(Resized(h, |mid| - (b - a)), |rsv|)
  {
    assert |t| == |s|;
    hide Enc, WellFormed, RsvOk, RsvBytes, AllFormed, OnWord, Spliced, Has;
    BytesSpliced(s, t, h, RsvBytes(rsv), Enc(ts), strs, a, b, mid);
  }

  lemma CutSides(ts: Tokens, q: int, r: int)
    requires AllFormed(ts) && 0 <= q <= r <= |ts|
    ensures 0 <= Offset(ts, q) <= Offset(ts, r) <= |Enc(ts)|
    ensures Enc(ts[..q]) == Enc(ts)[..Offset(ts, q)] && Enc(ts[r..]) == Enc(ts)[Offset(ts, r)..]
  {
    OffsetsGrow(ts, q, r);
    SplitAt(ts, q);
    SplitAt(ts, r);
  }

  // ---- moves and writes ---------------------------------------------------------------------------

  /** memmove */
  function Moved(s: Bytes, dst: int, src: int, n: int): (t: Bytes)
    requires 0 <= dst && 0 <= src && 0 <= n && dst + n <= |s| && src + n <= |s|
    ensures |t| == |s|
  {
    s[..dst] + s[src..src + n] + s[dst + n..]
  }

  /** memcpy */
  function Written(s: Bytes, at: int, b: Bytes): (t: Bytes)
    requires 0 <= at && at + |b| <= |s|
    ensures |t| == |s|
  {
    s[..at] + b + s[at + |b|..]
  }

  lemma WrittenHas(s: Bytes, at: int, b: Bytes)
    requires 0 <= at && at + |b| <= |s|
    ensures Has(Written(s, at, b), at, b)
    ensures Written(s, at, b)[..at] == s[..at] && Written(s, at, b)[at + |b|..] == s[at + |b|..]
  {
  }

  lemma WrittenKeeps(s: Bytes, at: int, b: Bytes, o: int, c: Bytes)
    requires 0 <= at && at + |b| <= |s| && Has(s, o, c) && (o + |c| <= at || at + |b| <= o)
    ensures Has(Written(s, at, b), o, c)
  {
    var t := Written(s, at, b);
    if o + |c| <= at {
      assert t[o..o + |c|] == s[o..o + |c|];
    } else {
      assert t[o..o + |c|] == s[o..o + |c|];
    }
  }

  /** t differs from m only between at and to. */
  predicate SameOutside(m: Bytes, t: Bytes, at: int, to: int) {
    0 <= at <= to <= |m| == |t| && t[..at] == m[..at] && t[to..] == m[to..]
  }

  lemma WrittenInside(m: Bytes, t: Bytes, at: int, to: int, o: int, b: Bytes)
    requires SameOutside(m, t, at, to) && at <= o && o + |b| <= to
    ensures SameOutside(m, Written(t, o, b), at, to)
  {
    var u := Written(t, o, b);
    assert u[..at] == t[..at];
    assert u[to..] == t[to..];
  }

  /** A splice at p, writes from at to the end of what it made room for: together they splice mid in at at. */
  lemma SplicedBy(s: Bytes, t: Bytes, at: int, p: int, oldlen: int, newlen: int, end: int, mid: Bytes)
    requires 0 <= at <= p && 0 <= oldlen && 0 <= newlen && p + oldlen <= end <= |s| && end - oldlen + newlen <= |s|
    requires SameOutside(Moved(s, p + newlen, p + oldlen, end - p - oldlen), t, at, p + newlen)
    requires |mid| == p + newlen - at && Has(t, at, mid)
    ensures Spliced(s, t, at, p + oldlen - at, mid, end)
  {
    hide Moved;
    var n := end - p - oldlen;
    var m := Moved(s, p + newlen, p + oldlen, n);
    MovedParts(s, p + newlen, p + oldlen, n, at);
    SubTails(t, m, p + newlen, p + newlen, p + newlen + n);
  }

  lemma MovedParts(s: Bytes, dst: int, src: int, n: int, at: int)
    requires 0 <= at <= dst && 0 <= src && 0 <= n && dst + n <= |s| && src + n <= |s|
    ensures Moved(s, dst, src, n)[..at] == s[..at]
    ensures Moved(s, dst, src, n)[dst..dst + n] == s[src..src + n]
  {
  }

  lemma MovedKeeps(s: Bytes, dst: int, src: int, n: int, o: int, c: Bytes)
    requires 0 <= dst && 0 <= src && 0 <= n && dst + n <= |s| && src + n <= |s| && Has(s, o, c) && o + |c| <= dst
    ensures Has(Moved(s, dst, src, n), o, c)
  {
    var t := Moved(s, dst, src, n);
    assert t[o..o + |c|] == s[o..o + |c|];
  }

  /** A property's bytes, field by field. */
  lemma PropHas(t: Bytes, at: int, nameoff: int, val: Bytes, pad: Bytes)
    requires WellFormed(Prop(nameoff, val, pad))
    ensures Has(t, at, Enc1(Prop(nameoff, val, pad))) <==>
      Has(t, at, Put32(PROP)) && Has(t, at + 4, Put32(|val|)) && Has(t, at + 8, Put32(nameoff)) && Has(t, at + 12, val) && Has(t, at + 12 + |val|, pad)
  {
    hide Put32, Has;
    var g, l, n := Put32(PROP), Put32(|val|), Put32(nameoff);
    assert Enc1(Prop(nameoff, val, pad)) == g + (l + (n + (val + pad)));
    HasBoth(t, at, g, l + (n + (val + pad)));
    HasBoth(t, at + 4, l, n + (val + pad));
    HasBoth(t, at + 8, n, val + pad);
    HasBoth(t, at + 12, val, pad);
  }

  lemma TokenHas(s: Bytes, h: Header, rsv: seq<Reserve>, ts: Tokens, strs: Bytes, q: int)
    requires AllFormed(ts) && Holds(s, h, rsv, ts, strs) && 0 <= q < |ts|
    ensures Has(s, h.offStruct + Offset(ts, q), Enc1(ts[q])) && Offset(ts, q + 1) == Offset(ts, q) + |Enc1(ts[q])| <= h.sizeStruct
  {
    OffsetStep(ts, q);
    hide RsvOk, AllFormed, Enc, Enc1, Offset;
    SliceInside(s, h.offStruct, Enc(ts), Offset(ts, q), Offset(ts, q + 1));
  }

  lemma EncOne(t: Token)
    requires WellFormed(t)
    ensures AllFormed([t]) && Enc([t]) == Enc1(t)
  {
    hide Enc1, WellFormed;
    assert Enc([t]) == Enc1(t) + Enc([]);
  }

  lemma CutOne(ts: Tokens, q: int, tok: Token)
    requires AllFormed(ts) && 0 <= q < |ts| && WellFormed(tok)
    ensures Cut(ts, q, q + 1, [tok]) == ts[q := tok] && AllFormed(ts[q := tok])
  {
    hide WellFormed;
  }

  /** One token made into another. */
  lemma TokenEdited(s: Bytes, t: Bytes, h: Header, rsv: seq<Reserve>, ts: Tokens, strs: Bytes, q: int, tok: Token)
    requires AllFormed(ts) && Holds(s, h, rsv, ts, strs) && Ordered(h, |rsv|) && 0 <= q < |ts| && WellFormed(tok)
    requires Spliced(s, t, h.offStruct + Offset(ts, q), |Enc1(ts[q])|, Enc1(tok), DataSize(h))
    requires DataSize(h) + |Enc1(tok)| - |Enc1(ts[q])| <= h.totalSize
    ensures AllFormed(ts[q := tok]) && Holds(t, Resized(h, |Enc1(tok)| - |Enc1(ts[q])|), rsv, ts[q := tok], strs)
    ensures Ordered(Resized(h, |Enc1(tok)| - |Enc1(ts[q])|), |rsv|)
  {
    hide Enc, Enc1, WellFormed, Spliced, Holds, Ordered, Resized, Cut, Offset, AllFormed;
    CutOne(ts, q, tok);
    EncOne(tok);
    OffsetStep(ts, q);
    StructEdited(s, t, h, rsv, ts, strs, q, q + 1, [tok]);
  }

  /** One token put in. */
  lemma TokenAdded(s: Bytes, t: Bytes, h: Header, rsv: seq<Reserve>, ts: Tokens, strs: Bytes, q: int, tok: Token)
    requires AllFormed(ts) && Holds(s, h, rsv, ts, strs) && Ordered(h, |rsv|) && 0 <= q <= |ts| && WellFormed(tok)
    requires Spliced(s, t, h.offStruct + Offset(ts, q), 0, Enc1(tok), DataSize(h))
    requires DataSize(h) + |Enc1(tok)| <= h.totalSize
    ensures AllFormed(Cut(ts, q, q, [tok])) && Holds(t, Resized(h, |Enc1(tok)|), rsv, Cut(ts, q, q, [tok]), strs)
    ensures Ordered(Resized(h, |Enc1(tok)|), |rsv|)
  {
    hide Enc, Enc1, WellFormed, Spliced, Holds, Ordered, Resized, Cut, Offset;
    EncOne(tok);
    CutBytes(ts, q, q, [tok]);
    StructEdited(s, t, h, rsv, ts, strs, q, q, [tok]);
  }

  /** The property with this name offset whose value is the len bytes that stand at p of t. */
  function PropFrom(t: Bytes, p: int, nameoff: int, len: int): (r: Token)
    requires 0 <= p && 0 <= len < TWO32 && p + Align4(len) <= |t| && 0 <= nameoff < TWO32
    ensures WellFormed(r) && r.Prop? && r.nameoff == nameoff && r.val == t[p..p + len]
  {
    Prop(nameoff, t[p..p + len], t[p + len..p + Align4(len)])
  }

  lemma PropSize(t: Token)
    requires WellFormed(t) && t.Prop?
    ensures |Enc1(t)| == 12 + Align4(|t.val|)
  {
  }

  /** The bytes that resizing the property at token q leaves: len for its length, what follows moved. */
  function ResizedBytes(s: Bytes, h: Header, ts: Tokens, q: int, len: int): (t: Bytes)
    requires ResizeFits(s, h, ts, q, len)
    ensures |t| == |s|
  {
    var p := h.offStruct + Offset(ts, q) + 12;
    var was, now := Align4(|ts[q].val|), Align4(len);
    Written(Moved(s, p + now, p + was, DataSize(h) - p - was), p - 8, Put32(len))
  }

  lemma ResizedIs(s: Bytes, h: Header, ts: Tokens, q: int, len: int)
    requires ResizeFits(s, h, ts, q, len)
    ensures var p := h.offStruct + Offset(ts, q) + 12;
      ResizedBytes(s, h, ts, q, len) == Written(Moved(s, p + Align4(len), p + Align4(|ts[q].val|), DataSize(h) - p - Align4(|ts[q].val|)), p - 8, Put32(len))
  {
    hide Enc, AllFormed, Offset, Written, Moved, Align4, Put32;
  }

  predicate ResizeFits(s: Bytes, h: Header, ts: Tokens, q: int, len: int) {
    && AllFormed(ts) && 0 <= q < |ts| && ts[q].Prop? && 0 <= len && |s| < 0x8000_0000
    && 0 <= h.offStruct && h.offStruct + Offset(ts, q) + 12 + Align4(|ts[q].val|) <= DataSize(h) <= |s|
    && DataSize(h) - Align4(|ts[q].val|) + Align4(len) <= |s|
  }

  lemma PropResized(s: Bytes, h: Header, rsv: seq<Reserve>, ts: Tokens, strs: Bytes, q: int, len: int)
    requires AllFormed(ts) && Holds(s, h, rsv, ts, strs) && Ordered(h, |rsv|) && ResizeFits(s, h, ts, q, len)
    requires DataSize(h) - Align4(|ts[q].val|) + Align4(len) <= h.totalSize
    ensures len < TWO32 && h.offStruct + Offset(ts, q) + 12 + Align4(len) <= |s|
    ensures var t, p := ResizedBytes(s, h, ts, q, len), h.offStruct + Offset(ts, q) + 12;
      var d, us := Align4(len) - Align4(|ts[q].val|), ts[q := PropFrom(t, p, ts[q].nameoff, len)];
      AllFormed(us) && Holds(t, Resized(h, d), rsv, us, strs) && Ordered(Resized(h, d), |rsv|)
    ensures forall k :: 0 <= k < len && k < |ts[q].val| ==> ResizedBytes(s, h, ts, q, len)[h.offStruct + Offset(ts, q) + 12 + k] == ts[q].val[k]
  {
    hide Holds, Enc, Enc1, Put32, Offset, Spliced, Has, AllFormed, Moved, Written, SameOutside, Ordered;
    var p := h.offStruct + Offset(ts, q) + 12;
    var at, was, now, e := p - 12, Align4(|ts[q].val|), Align4(len), DataSize(h);
    var m := Moved(s, p + now, p + was, e - p - was);
    var t := ResizedBytes(s, h, ts, q, len);
    FormedAt(ts, q);
    var tok := PropFrom(t, p, ts[q].nameoff, len);
    TokenHas(s, h, rsv, ts, strs, q);
    PropSize(ts[q]);
    PropSize(tok);
    PropHas(s, at, ts[q].nameoff, ts[q].val, ts[q].pad);
    ResizeKeeps(s, at, p + now, p + was, e - p - was, len, ts[q].nameoff, t);
    HasThere(t, p, len);
    HasThere(t, p + len, now - len);
    PropHas(t, at, ts[q].nameoff, tok.val, tok.pad);
    ResizeOutside(m, at, p + now, len);
    SplicedBy(s, t, at, p, was, now, e, Enc1(tok));
    TokenEdited(s, t, h, rsv, ts, strs, q, tok);
    ResizeValue(s, p, p + now, p + was, e - p - was, len, ts[q].val);
  }

  lemma FormedAt(ts: Tokens, q: int)
    requires AllFormed(ts) && 0 <= q < |ts|
    ensures WellFormed(ts[q])
  {
  }

  lemma HasThere(t: Bytes, p: int, n: int)
    requires 0 <= p && 0 <= n && p + n <= |t|
    ensures Has(t, p, t[p..p + n])
  {
  }

  lemma ResizeKeeps(s: Bytes, at: int, dst: int, src: int, n: int, len: int, nameoff: int, t: Bytes)
    requires 0 <= at && at + 12 <= dst && at + 12 <= src && 0 <= n && dst + n <= |s| && src + n <= |s| && 0 <= len < TWO32 && 0 <= nameoff < TWO32
    requires Has(s, at, Put32(PROP)) && Has(s, at + 8, Put32(nameoff))
    requires t == Written(Moved(s, dst, src, n), at + 4, Put32(len))
    ensures Has(t, at, Put32(PROP)) && Has(t, at + 4, Put32(len)) && Has(t, at + 8, Put32(nameoff))
  {
    hide Has, Put32, Moved, Written;
    var m := Moved(s, dst, src, n);
    MovedKeeps(s, dst, src, n, at, Put32(PROP));
    MovedKeeps(s, dst, src, n, at + 8, Put32(nameoff));
    WrittenHas(m, at + 4, Put32(len));
    WrittenKeeps(m, at + 4, Put32(len), at, Put32(PROP));
    WrittenKeeps(m, at + 4, Put32(len), at + 8, Put32(nameoff));
  }

  lemma ResizeOutside(m: Bytes, at: int, to: int, len: int)
    requires 0 <= at && at + 12 <= to <= |m| && 0 <= len < TWO32
    ensures SameOutside(m, Written(m, at + 4, Put32(len)), at, to)
  {
    assert SameOutside(m, m, at, to);
    hide SameOutside;
    WrittenInside(m, m, at, to, at + 4, Put32(len));
  }

  lemma ResizeValue(s: Bytes, p: int, dst: int, src: int, n: int, len: int, val: Bytes)
    requires 12 <= p <= dst && p <= src && 0 <= n && dst + n <= |s| && src + n <= |s| && 0 <= len < TWO32 && len <= dst - p
    requires Has(s, p, val)
    ensures forall k :: 0 <= k < len && k < |val| ==> Written(Moved(s, dst, src, n), p - 8, Put32(len))[p + k] == val[k]
  {
    forall k | 0 <= k < |val| ensures s[p + k] == val[k] {
      assert s[p..p + |val|][k] == val[k];
    }
  }

  /** Bytes written between at and to in place. */
  lemma SplicedSame(s: Bytes, t: Bytes, at: int, to: int, end: int, mid: Bytes)
    requires SameOutside(s, t, at, to) && to <= end <= |s| && Has(t, at, mid) && |mid| == to - at
    ensures Spliced(s, t, at, to - at, mid, end)
  {
    SubTails(t, s, to, to, end);
  }

  lemma PatchedHas(s: Bytes, o: int, val: Bytes, from: int, b: Bytes)
    requires Has(s, o, val) && 0 <= from && from + |b| <= |val|
    ensures o + from + |b| <= |s| && 0 <= o && Has(Written(s, o + from, b), o, Written(val, from, b))
  {
    var x, y, z := val[..from], val[from..from + |b|], val[from + |b|..];
    assert val == x + y + z;
    var t := Written(s, o + from, b);
    HasBoth(s, o, x + y, z);
    HasBoth(s, o, x, y);
    hide Has, Written;
    WrittenHas(s, o + from, b);
    WrittenKeeps(s, o + from, b, o, x);
    WrittenKeeps(s, o + from, b, o + from + |b|, z);
    HasBoth(t, o, x, b);
    HasBoth(t, o, x + b, z);
  }

  /** Part of a property's value overwritten. */
  lemma PropPatched(s: Bytes, h: Header, rsv: seq<Reserve>, ts: Tokens, strs: Bytes, q: int, from: int, b: Bytes)
    requires AllFormed(ts) && Holds(s, h, rsv, ts, strs) && Ordered(h, |rsv|) && h.totalSize <= |s|
    requires 0 <= q < |ts| && ts[q].Prop? && 0 <= from && from + |b| <= |ts[q].val|
    ensures 0 <= Offset(ts, q) && 0 <= h.offStruct && h.offStruct + Offset(ts, q) + 12 + from + |b| <= |s|
    ensures var t, us := Written(s, h.offStruct + Offset(ts, q) + 12 + from, b), ts[q := ts[q].(val := Written(ts[q].val, from, b))];
      AllFormed(us) && Holds(t, h, rsv, us, strs)
  {
    hide Holds, Enc, Enc1, Put32, Offset, Spliced, Has, AllFormed, Written, SameOutside, Align4;
    var at := h.offStruct + Offset(ts, q);
    var p := at + 12;
    FormedAt(ts, q);
    var tok := ts[q].(val := Written(ts[q].val, from, b));
    TokenHas(s, h, rsv, ts, strs, q);
    PropSize(ts[q]);
    PropSize(tok);
    PropHas(s, at, tok.nameoff, ts[q].val, tok.pad);
    OffsetInside(s, h, rsv, ts, strs, q);
    PatchedHas(s, p, ts[q].val, from, b);
    var t := Written(s, p + from, b);
    WrittenKeeps(s, p + from, b, at, Put32(PROP));
    WrittenKeeps(s, p + from, b, at + 4, Put32(|tok.val|));
    WrittenKeeps(s, p + from, b, at + 8, Put32(tok.nameoff));
    WrittenKeeps(s, p + from, b, p + |tok.val|, tok.pad);
    PropHas(t, at, tok.nameoff, tok.val, tok.pad);
    SameSelf(s, at, at + |Enc1(tok)|);
    WrittenInside(s, s, at, at + |Enc1(tok)|, p + from, b);
    SplicedSame(s, t, at, at + |Enc1(tok)|, DataSize(h), Enc1(tok));
    TokenEdited(s, t, h, rsv, ts, strs, q, tok);
  }

  lemma SameSelf(s: Bytes, at: int, to: int)
    requires 0 <= at <= to <= |s|
    ensures SameOutside(s, s, at, to)
  {
  }

  lemma OffsetInside(s: Bytes, h: Header, rsv: seq<Reserve>, ts: Tokens, strs: Bytes, q: int)
    requires AllFormed(ts) && Holds(s, h, rsv, ts, strs) && 0 <= q <= |ts|
    ensures 0 <= h.offStruct && 0 <= h.sizeStruct && h.offStruct + h.sizeStruct <= |s| < 0x8000_0000 && |Enc(ts)| == h.sizeStruct
    ensures 0 <= Offset(ts, q) <= h.sizeStruct
    ensures 0 <= h.offStrings && 0 <= h.sizeStrings == |strs| && h.offStrings + h.sizeStrings <= |s| && Has(s, h.offStrings, strs)
  {
    SplitAt(ts, q);
    hide RsvOk, Enc, RsvBytes;
  }

  /** The property that _fdt_add_property makes room for at p, with its three words. */
  function AddedBytes(s: Bytes, p: int, end: int, nameoff: int, len: int): (t: Bytes)
    requires 0 <= p <= end && 0 <= len < TWO32 && 0 <= nameoff < TWO32 && end + 12 + Align4(len) <= |s|
    ensures |t| == |s|
  {
    Written(Written(Written(Moved(s, p + 12 + Align4(len), p, end - p), p, Put32(PROP)), p + 8, Put32(nameoff)), p + 4, Put32(len))
  }

  lemma AddedIs(s: Bytes, p: int, end: int, nameoff: int, len: int)
    requires 0 <= p <= end && 0 <= len < TWO32 && 0 <= nameoff < TWO32 && end + 12 + Align4(len) <= |s|
    ensures AddedBytes(s, p, end, nameoff, len) ==
      Written(Written(Written(Moved(s, p + 12 + Align4(len), p, end - p), p, Put32(PROP)), p + 8, Put32(nameoff)), p + 4, Put32(len))
  {
  }

  lemma AddedHas(s: Bytes, p: int, end: int, nameoff: int, len: int)
    requires 0 <= p <= end && 0 <= len < TWO32 && 0 <= nameoff < TWO32 && end + 12 + Align4(len) <= |s|
    ensures var t := AddedBytes(s, p, end, nameoff, len); Has(t, p, Put32(PROP)) && Has(t, p + 4, Put32(len)) && Has(t, p + 8, Put32(nameoff))
    ensures SameOutside(Moved(s, p + 12 + Align4(len), p, end - p), AddedBytes(s, p, end, nameoff, len), p, p + 12 + Align4(len))
  {
    hide Has, Written, Moved, SameOutside, Put32;
    var m := Moved(s, p + 12 + Align4(len), p, end - p);
    var a := Written(m, p, Put32(PROP));
    var b := Written(a, p + 8, Put32(nameoff));
    WrittenHas(m, p, Put32(PROP));
    WrittenHas(a, p + 8, Put32(nameoff));
    WrittenHas(b, p + 4, Put32(len));
    WrittenKeeps(a, p + 8, Put32(nameoff), p, Put32(PROP));
    WrittenKeeps(b, p + 4, Put32(len), p, Put32(PROP));
    WrittenKeeps(b, p + 4, Put32(len), p + 8, Put32(nameoff));
    var to := p + 12 + Align4(len);
    SameSelf(m, p, to);
    WrittenInside(m, m, p, to, p, Put32(PROP));
    WrittenInside(m, a, p, to, p + 8, Put32(nameoff));
    WrittenInside(m, b, p, to, p + 4, Put32(len));
  }

  lemma PropAdded(s: Bytes, h: Header, rsv: seq<Reserve>, ts: Tokens, strs: Bytes, q: int, nameoff: int, len: int)
    requires AllFormed(ts) && Holds(s, h, rsv, ts, strs) && Ordered(h, |rsv|) && h.totalSize <= |s|
    requires 0 <= q <= |ts| && 0 <= nameoff < TWO32 && 0 <= len && DataSize(h) + 12 + Align4(len) <= h.totalSize
    ensures len < TWO32 && 0 <= h.offStruct && h.offStruct + Offset(ts, q) <= DataSize(h)
    ensures var p := h.offStruct + Offset(ts, q); var t := AddedBytes(s, p, DataSize(h), nameoff, len);
      var us, g := Cut(ts, q, q, [PropFrom(t, p + 12, nameoff, len)]), Resized(h, 12 + Align4(len));
      AllFormed(us) && Holds(t, g, rsv, us, strs) && Ordered(g, |rsv|)
  {
    hide Holds, Enc, Enc1, Put32, Offset, Spliced, Has, AllFormed, Written, SameOutside, AddedBytes, Moved;
    OffsetInside(s, h, rsv, ts, strs, q);
    var p, e, n := h.offStruct + Offset(ts, q), DataSize(h), 12 + Align4(len);
    var t := AddedBytes(s, p, e, nameoff, len);
    var tok := PropFrom(t, p + 12, nameoff, len);
    PropSize(tok);
    AddedHas(s, p, e, nameoff, len);
    HasThere(t, p + 12, len);
    HasThere(t, p + 12 + len, Align4(len) - len);
    PropHas(t, p, nameoff, tok.val, tok.pad);
    SplicedBy(s, t, p, p, 0, n, e, Enc1(tok));
    TokenAdded(s, t, h, rsv, ts, strs, q, tok);
  }

  /** A string written behind the last one. */
  lemma StringAdded(s: Bytes, h: Header, rsv: seq<Reserve>, ts: Tokens, strs: Bytes, b: Bytes)
    requires AllFormed(ts) && Holds(s, h, rsv, ts, strs) && Ordered(h, |rsv|)
    requires DataSize(h) + |b| <= h.totalSize <= |s|
    ensures 0 <= DataSize(h)
    ensures var g := h.(sizeStrings := h.sizeStrings + |b|); Holds(Written(s, DataSize(h), b), g, rsv, ts, strs + b) && Ordered(g, |rsv|)
  {
    hide Enc, Written, Has, RsvBytes, AllFormed, Wide;
    var e := DataSize(h);
    HasSize(s, h.offStrings, strs);
    HasSize(s, h.offStruct, Enc(ts));
    HasSize(s, h.offRsv, RsvBytes(rsv));
    WrittenHas(s, e, b);
    WrittenKeeps(s, e, b, h.offRsv, RsvBytes(rsv));
    WrittenKeeps(s, e, b, h.offStruct, Enc(ts));
    WrittenKeeps(s, e, b, h.offStrings, strs);
    HasBoth(Written(s, e, b), h.offStrings, strs, b);
  }

  lemma HasSize(s: Bytes, o: int, b: Bytes)
    requires Has(s, o, b)
    ensures 0 <= o && o + |b| <= |s|
  {
  }

  // ---- what the property edits leave ----------------------------------------------------------------

  /** Only token q, a property, has changed, and not its name. */
  predicate Revalued(ts: Tokens, us: Tokens, q: int) {
    0 <= q < |ts| && |us| == |ts| && us == ts[q := us[q]] && ts[q].Prop? && us[q].Prop? && us[q].nameoff == ts[q].nameoff
  }

  /** Token q is a property that was put in. */
  predicate Inserted(ts: Tokens, us: Tokens, q: int) {
    0 <= q <= |ts| && |us| == |ts| + 1 && us == Cut(ts, q, q, [us[q]]) && us[q].Prop?
  }

  /** The node that begins at token i. */
  function NodeOf(ts: Tokens, strs: Bytes, f: seq<Node>, i: int): Node
    requires 0 <= i <= |ts|
  {
    var p := PathAt(ts, strs, f, i);
    if IsPath(f, p) then At(f, p) else Node([], [], [])
  }

  /** Where the node at token i is found after an edit behind its begin, and what its forest has become. */
  predicate NowReads(ts: Tokens, strs: Bytes, f: seq<Node>, i: int, us: Tokens, strs': Bytes, g: seq<Node>, m: Node)
    requires AllFormed(ts) && AllFormed(us) && IsNode(ts, i)
  {
    && IsPath(f, PathAt(ts, strs, f, i))
    && g == Replace(f, PathAt(ts, strs, f, i), [m])
    && Reads(us, strs', g)
    && NodeTok(us, Offset(ts, i)) == i && PathAt(us, strs', g, i) == PathAt(ts, strs, f, i)
  }

  /** The node at token i has been given a first child of that name, which is found at offset r. */
  predicate KidPut(ts: Tokens, strs: Bytes, f: seq<Node>, i: int, us: Tokens, g: seq<Node>, r: int, name: Bytes)
    requires AllFormed(ts) && AllFormed(us) && IsNode(ts, i)
  {
    && NowReads(ts, strs, f, i, us, strs, g, AddKid(NodeOf(ts, strs, f, i), name))
    && NodeTok(us, r) >= 0 && PathAt(us, strs, g, NodeTok(us, r)) == PathAt(ts, strs, f, i) + [0]
  }

  lemma PatchedWhole(val: Bytes, b: Bytes)
    requires |b| == |val|
    ensures Written(val, 0, b) == b
  {
  }

  lemma SameTok(ts: Tokens, us: Tokens, i: int)
    requires AllFormed(ts) && AllFormed(us) && IsNode(ts, i) && i < |us| && us[..i + 1] == ts[..i + 1]
    ensures NodeTok(us, Offset(ts, i)) == i
  {
    assert us[..i] == us[..i + 1][..i] && us[i] == us[..i + 1][i];
    assert ts[..i] == ts[..i + 1][..i] && ts[i] == ts[..i + 1][i];
    assert Offset(us, i) == Offset(ts, i);
    hide Offset, TokenAt;
    TokAt(us, i);
  }

  lemma Revalue(ts: Tokens, strs: Bytes, f: seq<Node>, i: int, name: Bytes, q: int, us: Tokens)
    requires Reads(ts, strs, f) && AllFormed(ts) && AllFormed(us) && IsNode(ts, i) && FindProp(ts, strs, i + 1, name) == q >= 0 && Revalued(ts, us, q)
    ensures IsPath(f, PathAt(ts, strs, f, i))
    ensures var m := PutProp(NodeOf(ts, strs, f, i), name, us[q].val); NowReads(ts, strs, f, i, us, strs, Replace(f, PathAt(ts, strs, f, i), [m]), m)
  {
    hide Reads, PathAt, PutProp, Replace, NodeTok, FindProp, IsPath, At, Offset, AllFormed;
    assert us[..i + 1] == ts[..i + 1] && us[..i] == ts[..i];
    FormedAt(us, q);
    SetAt(ts, strs, f, i, name, q, us[q]);
    SameTok(ts, us, i);
    StillAt(ts, strs, f, i, us, strs, PutProp(At(f, PathAt(ts, strs, f, i)), name, us[q].val));
  }

  lemma Insert(ts: Tokens, strs: Bytes, f: seq<Node>, i: int, name: Bytes, us: Tokens, strs': Bytes)
    requires Reads(ts, strs, f) && AllFormed(ts) && AllFormed(us) && IsNode(ts, i) && FindProp(ts, strs, i + 1, name) < 0 && Inserted(ts, us, i + 1)
    requires Reads(ts, strs', f) && (strs' == strs || strs' == strs + (name + [0]))
    requires us[i + 1].nameoff < |strs'| && CStr(strs', us[i + 1].nameoff) == name
    ensures IsPath(f, PathAt(ts, strs, f, i))
    ensures var m := PutProp(NodeOf(ts, strs, f, i), name, us[i + 1].val); NowReads(ts, strs, f, i, us, strs', Replace(f, PathAt(ts, strs, f, i), [m]), m)
  {
    hide Reads, PathAt, PutProp, Replace, NodeTok, IsPath, At, Offset, AllFormed, CStr;
    assert us[..i + 1] == ts[..i + 1] && us[..i] == ts[..i];
    FormedAt(us, i + 1);
    SamePath(ts, strs, f, i, strs');
    FindPropGrown(ts, strs, i + 1, name, strs', f);
    AddAt(ts, strs', f, i, name, us[i + 1]);
    SameTok(ts, us, i);
    StillAt(ts, strs, f, i, us, strs', PutProp(At(f, PathAt(ts, strs, f, i)), name, us[i + 1].val));
  }

  lemma SamePath(ts: Tokens, strs: Bytes, f: seq<Node>, i: int, strs': Bytes)
    requires Reads(ts, strs, f) && IsNode(ts, i) && (strs' == strs || exists more :: strs' == strs + more)
    ensures PathAt(ts, strs', f, i) == PathAt(ts, strs, f, i)
  {
    if strs' != strs {
      var more :| strs' == strs + more;
      assert AllFormed(ts[..i]) && Named(ts[..i], strs);
      ItemsGrow(ts[..i], strs, more);
    }
  }

  lemma {:induction false} FindPropGrown(ts: Tokens, strs: Bytes, q: int, name: Bytes, strs': Bytes, f: seq<Node>)
    requires Reads(ts, strs, f) && 0 <= q <= |ts| && (strs' == strs || exists more :: strs' == strs + more)
    ensures FindProp(ts, strs', q, name) == FindProp(ts, strs, q, name)
    decreases |ts| - q
  {
    if strs' != strs {
      var more :| strs' == strs + more;
      if q < |ts| && ts[q].Prop? {
        CStrGrows(strs, ts[q].nameoff, more);
      }
      if q < |ts| {
        FindPropGrown(ts, strs, q + 1, name, strs', f);
      }
    }
  }

  lemma Drop(ts: Tokens, strs: Bytes, f: seq<Node>, i: int, name: Bytes, q: int, put: Tokens)
    requires Reads(ts, strs, f) && AllFormed(ts) && IsNode(ts, i) && FindProp(ts, strs, i + 1, name) == q >= 0
    requires AllFormed(put) && (forall m :: 0 <= m < |put| ==> put[m].Nop?) && AllFormed(Cut(ts, q, q + 1, put))
    ensures IsPath(f, PathAt(ts, strs, f, i)) && Index(NodeOf(ts, strs, f, i).props, name) >= 0
    ensures var m := DropProp(NodeOf(ts, strs, f, i), name); NowReads(ts, strs, f, i, Cut(ts, q, q + 1, put), strs, Replace(f, PathAt(ts, strs, f, i), [m]), m)
  {
    hide Reads, PathAt, DropProp, Replace, NodeTok, FindProp, IsPath, At, Offset, AllFormed;
    var us := Cut(ts, q, q + 1, put);
    assert us[..i + 1] == ts[..i + 1] && us[..i] == ts[..i];
    DropAt(ts, strs, f, i, name, q, put);
    SameTok(ts, us, i);
    StillAt(ts, strs, f, i, us, strs, DropProp(At(f, PathAt(ts, strs, f, i)), name));
  }

  /** Bytes cut out of the structure block, with nothing in their place. */
  lemma CutOut(s: Bytes, h: Header, rsv: seq<Reserve>, ts: Tokens, strs: Bytes, q: int, r: int)
    requires AllFormed(ts) && Holds(s, h, rsv, ts, strs) && Ordered(h, |rsv|) && h.totalSize <= |s| && 0 <= q <= r <= |ts|
    ensures 0 <= h.offStruct && 0 <= Offset(ts, q) <= Offset(ts, r) && h.offStruct + Offset(ts, r) <= DataSize(h)
    ensures var a, b := h.offStruct + Offset(ts, q), h.offStruct + Offset(ts, r); var g := Resized(h, a - b);
      AllFormed(Cut(ts, q, r, [])) && Holds(Moved(s, a, b, DataSize(h) - b), g, rsv, Cut(ts, q, r, []), strs) && Ordered(g, |rsv|)
  {
    hide Holds, Enc, Offset, Spliced, AllFormed, SameOutside, Moved, WellFormed;
    OffsetInside(s, h, rsv, ts, strs, r);
    CutSides(ts, q, r);
    var a, b := h.offStruct + Offset(ts, q), h.offStruct + Offset(ts, r);
    var t := Moved(s, a, b, DataSize(h) - b);
    NoTokens();
    SameSelf(t, a, a);
    assert Has(t, a, []);
    SplicedBy(s, t, a, a, b - a, 0, DataSize(h), []);
    CutBytes(ts, q, r, []);
    StructEdited(s, t, h, rsv, ts, strs, q, r, []);
  }

  lemma NoTokens()
    ensures AllFormed([]) && Enc([]) == []
  {
  }

  /** The property of that name, at token q, was given a new value or put in: the forest with that property set. */
  predicate Assigned(ts: Tokens, strs: Bytes, f: seq<Node>, i: int, name: Bytes, q: int, us: Tokens, strs': Bytes)
    requires IsNode(ts, i)
  {
    if FindProp(ts, strs, i + 1, name) >= 0 then
      q == FindProp(ts, strs, i + 1, name) && Revalued(ts, us, q) && strs' == strs
    else
      q == i + 1 <= |ts| && Inserted(ts, us, q) && Reads(ts, strs', f) && (strs' == strs || strs' == strs + (name + [0]))
      && us[q].nameoff < |strs'| && CStr(strs', us[q].nameoff) == name
  }

  lemma AssignedNow(ts: Tokens, strs: Bytes, f: seq<Node>, i: int, name: Bytes, q: int, us: Tokens, strs': Bytes)
    requires Reads(ts, strs, f) && AllFormed(ts) && AllFormed(us) && IsNode(ts, i) && Assigned(ts, strs, f, i, name, q, us, strs')
    ensures 0 <= q < |us| && us[q].Prop? && IsPath(f, PathAt(ts, strs, f, i))
    ensures var m := PutProp(NodeOf(ts, strs, f, i), name, us[q].val);
      NowReads(ts, strs, f, i, us, strs', Replace(f, PathAt(ts, strs, f, i), [m]), m) && Reads(us, strs', Replace(f, PathAt(ts, strs, f, i), [m]))
  {
    hide Reads, PathAt, PutProp, NodeOf, Replace, NodeTok, FindProp, IsPath, At, Offset, AllFormed, CStr;
    if FindProp(ts, strs, i + 1, name) >= 0 {
      Revalue(ts, strs, f, i, name, q, us);
    } else {
      Insert(ts, strs, f, i, name, us, strs');
    }
  }

  lemma AssignedValue(ts: Tokens, strs: Bytes, f: seq<Node>, i: int, name: Bytes, q: int, us: Tokens, strs': Bytes, val: Bytes, vs: Tokens)
    requires IsNode(ts, i) && Assigned(ts, strs, f, i, name, q, us, strs')
    requires 0 <= q < |us| && us[q].Prop? && vs == us[q := us[q].(val := val)]
    ensures Assigned(ts, strs, f, i, name, q, vs, strs')
  {
    hide Reads, CStr, FindProp;
  }

  /** What the search through the tokens finds is the value that the node has for that name. */
  lemma ValueAt(ts: Tokens, strs: Bytes, f: seq<Node>, i: int, name: Bytes)
    requires Reads(ts, strs, f) && IsNode(ts, i)
    ensures var q := FindProp(ts, strs, i + 1, name);
      Lookup(NodeOf(ts, strs, f, i), name) == if q >= 0 then Some(ts[q].val) else None
    ensures var q := FindProp(ts, strs, i + 1, name); ValueOf(NodeOf(ts, strs, f, i), name) == if q >= 0 then ts[q].val else []
  {
    hide Reads, PathAt, IsPath, At, CStr, Index;
    FindPropIndex(ts, strs, f, i, name);
    var q := FindProp(ts, strs, i + 1, name);
    if q >= 0 {
      PropRead(ts, strs, f, i, q);
    }
  }

  lemma PatchedEnd(val: Bytes, was: Bytes, b: Bytes)
    requires |val| == |was| + |b| && forall k :: 0 <= k < |was| ==> val[k] == was[k]
    ensures Written(val, |was|, b) == was + b
  {
  }

  // ---- NOPs -----------------------------------------------------------------------------------------

  function Nops(n: int): (ts: Tokens)
    requires 0 <= n
    ensures |ts| == n && AllFormed(ts) && forall m :: 0 <= m < n ==> ts[m].Nop?
  {
    seq(n, i => Nop)
  }

  lemma {:induction false} NopBytes(t: Bytes, at: int, n: int)
    requires 0 <= n && forall k :: 0 <= k < n ==> Has(t, at + 4 * k, Put32(NOP))
    requires 0 <= at <= |t|
    ensures Has(t, at, Enc(Nops(n)))
  {
    hide Put32, Enc, Has, Nops;
    if n == 0 {
      NoNops(t, at);
    } else {
      NopBytes(t, at, n - 1);
      OneNop(n);
      NopSize(n - 1);
      HasBoth(t, at, Enc(Nops(n - 1)), Put32(NOP));
    }
  }

  lemma NoNops(t: Bytes, at: int)
    requires 0 <= at <= |t|
    ensures Has(t, at, Enc(Nops(0)))
  {
    assert Nops(0) == [];
  }

  lemma OneNop(n: int)
    requires 0 < n
    ensures Enc(Nops(n)) == Enc(Nops(n - 1)) + Put32(NOP)
  {
    hide Put32, Enc;
    assert Nops(n) == Nops(n - 1) + [Nop];
    EncAppend(Nops(n - 1), [Nop]);
    EncOne(Nop);
    assert Enc1(Nop) == Put32(NOP);
  }

  lemma {:induction false} NopSize(n: int)
    requires 0 <= n
    ensures |Enc(Nops(n))| == 4 * n
  {
    if n > 0 {
      NopSize(n - 1);
      assert Nops(n) == Nops(n - 1) + [Nop];
      EncAppend(Nops(n - 1), [Nop]);
      EncOne(Nop);
    }
  }

  /** Tokens q to r overwritten with NOPs. */
  lemma NoppedOut(s: Bytes, t: Bytes, h: Header, rsv: seq<Reserve>, ts: Tokens, strs: Bytes, q: int, r: int, n: int)
    requires AllFormed(ts) && Holds(s, h, rsv, ts, strs) && Ordered(h, |rsv|) && h.totalSize <= |s| && 0 <= q <= r <= |ts|
    requires 0 <= n && Offset(ts, q) + 4 * n == Offset(ts, r)
    requires SameOutside(s, t, h.offStruct + Offset(ts, q), h.offStruct + Offset(ts, r))
    requires forall k :: 0 <= k < n ==> Has(t, h.offStruct + Offset(ts, q) + 4 * k, Put32(NOP))
    ensures AllFormed(Cut(ts, q, r, Nops(n))) && Holds(t, h, rsv, Cut(ts, q, r, Nops(n)), strs)
  {
    hide Holds, Enc, Offset, Spliced, AllFormed, SameOutside, Has, WellFormed, Nops, Put32;
    OffsetInside(s, h, rsv, ts, strs, q);
    OffsetInside(s, h, rsv, ts, strs, r);
    var at, to := h.offStruct + Offset(ts, q), h.offStruct + Offset(ts, r);
    SameSizes(s, t, at, to);
    NopBytes(t, at, n);
    NopSize(n);
    CutBytes(ts, q, r, Nops(n));
    SplicedSame(s, t, at, to, DataSize(h), Enc(Nops(n)));
    StructEdited(s, t, h, rsv, ts, strs, q, r, Nops(n));
  }

  lemma SameSizes(s: Bytes, t: Bytes, at: int, to: int)
    requires SameOutside(s, t, at, to)
    ensures |t| == |s| && 0 <= at <= to <= |s|
  {
  }

  // ---- new nodes and names ------------------------------------------------------------------------

  function Zeros(n: int): (s: Bytes)
    requires 0 <= n
    ensures |s| == n
  {
    seq(n, i => 0)
  }

  /** The bytes of a node of that name without properties or children. */
  function BareNode(name: Bytes): (ts: Tokens)
    requires 0 !in name
    ensures AllFormed(ts)
  {
    [BeginNode(name, Zeros(Align4(|name| + 1) - (|name| + 1))), EndNode]
  }

  function NewNodeBytes(s: Bytes, p: int, end: int, name: Bytes): (t: Bytes)
    requires 0 <= p <= end && end + 8 + Align4(|name| + 1) <= |s|
    ensures |t| == |s|
  {
    var n := Align4(|name| + 1);
    Written(Written(Written(Written(Moved(s, p + 8 + n, p, end - p), p, Put32(BEGIN_NODE)), p + 4, Zeros(n)), p + 4, name), p + 4 + n, Put32(END_NODE))
  }

  predicate NodeFits(h: Header, name: Bytes) {
    DataSize(h) + 8 + Align4(|name| + 1) <= h.totalSize
  }

  /** What fdt_offset_ptr refuses in a structure block of that size: int and unsigned int mixed. */
  predicate Refused(offset: int, len: int, size: int) {
    var end := (offset + len) % TWO32;
    end < offset % TWO32 || end > size
  }

  lemma NegativeRefused(offset: int, len: int, size: int)
    requires -0x8000_0000 <= offset < 0 <= len && size < 0x8000_0000
    ensures Refused(offset, len, size)
  {
    assert offset % TWO32 == offset + TWO32;
    if offset + len < 0 {
      assert (offset + len) % TWO32 == offset + len + TWO32;
    } else if offset + len < TWO32 {
      assert (offset + len) % TWO32 == offset + len;
    }
  }

  /** A node stands in front of the structure block: where the block begins there is now no node's
      begin, so the root is gone. */
  predicate InFront(t: Bytes, at: int, name: Bytes)
    requires 0 !in name
  {
    8 <= at && at + 4 <= |t| && Has(t, at - 8, Enc(BareNode(name))) && Get32(t, at) != BEGIN_NODE
  }

  lemma NodeInFront(s: Bytes, at: int, end: int, name: Bytes)
    requires 8 <= at <= end && end + 8 + Align4(|name| + 1) <= |s| && 0 !in name
    ensures InFront(NewNodeBytes(s, at - 8, end, name), at, name)
  {
    hide NewNodeBytes, Enc, BareNode, Get32, Put32;
    var t, n := NewNodeBytes(s, at - 8, end, name), Align4(|name| + 1);
    NewNodeHas(s, at - 8, end, name);
    BareBytes(name);
    FrontWord(n, name);
    Get32Inside(t, at - 8, Enc(BareNode(name)), 8);
  }

  lemma FrontWord(n: int, name: Bytes)
    requires n == Align4(|name| + 1) && 0 !in name
    ensures |Put32(BEGIN_NODE)| == 4 && Get32(Put32(BEGIN_NODE) + (Written(Zeros(n), 0, name) + Put32(END_NODE)), 8) != BEGIN_NODE
  {
    var z := Written(Zeros(n), 0, name);
    var w := Put32(BEGIN_NODE) + (z + Put32(END_NODE));
    assert forall k :: 0 <= k < |name| ==> z[k] == name[k] != 0;
    assert forall k :: |name| <= k < n ==> z[k] == 0;
    var v := z + Put32(END_NODE);
    assert w[8] == v[4] && w[9] == v[5] && w[10] == v[6] && w[11] == v[7];
  }

  lemma NewNodeIs(s: Bytes, p: int, end: int, name: Bytes)
    requires 0 <= p <= end && end + 8 + Align4(|name| + 1) <= |s|
    ensures var n := Align4(|name| + 1);
      var t := Written(Written(Written(Moved(s, p + 8 + n, p, end - p), p, Put32(BEGIN_NODE)), p + 4, Zeros(n)), p + 4, name);
      NewNodeBytes(s, p, end, name) == Written(t, p + 4 + n, Put32(END_NODE))
  {
  }

  lemma BareBytes(name: Bytes)
    requires 0 !in name
    ensures Enc(BareNode(name)) == Put32(BEGIN_NODE) + (Written(Zeros(Align4(|name| + 1)), 0, name) + Put32(END_NODE))
    ensures |Enc(BareNode(name))| == 8 + Align4(|name| + 1)
  {
    hide Put32, Enc, Align4;
    var n := Align4(|name| + 1);
    var b := BareNode(name);
    var pad := Zeros(n - |name| - 1);
    assert b == [b[0]] + [b[1]];
    EncAppend([b[0]], [b[1]]);
    EncOne(b[0]);
    EncOne(b[1]);
    assert Enc1(b[1]) == Put32(END_NODE);
    assert Written(Zeros(n), 0, name) == name + [0] + pad;
    assert Enc1(b[0]) == Put32(BEGIN_NODE) + Written(Zeros(n), 0, name);
    Assoc(Put32(BEGIN_NODE), Written(Zeros(n), 0, name), Put32(END_NODE));
  }

  lemma NewNodeHas(s: Bytes, p: int, end: int, name: Bytes)
    requires 0 <= p <= end && end + 8 + Align4(|name| + 1) <= |s| && 0 !in name
    ensures Has(NewNodeBytes(s, p, end, name), p, Enc(BareNode(name)))
    ensures SameOutside(Moved(s, p + 8 + Align4(|name| + 1), p, end - p), NewNodeBytes(s, p, end, name), p, p + 8 + Align4(|name| + 1))
  {
    hide Has, Written, Moved, SameOutside, Put32, Enc, BareNode, Align4, Zeros;
    var n := Align4(|name| + 1);
    var m := Moved(s, p + 8 + n, p, end - p);
    var a := Written(m, p, Put32(BEGIN_NODE));
    var b := Written(a, p + 4, Zeros(n));
    var c := Written(b, p + 4, name);
    var d := Written(c, p + 4 + n, Put32(END_NODE));
    var z := Written(Zeros(n), 0, name);
    WrittenHas(m, p, Put32(BEGIN_NODE));
    WrittenHas(a, p + 4, Zeros(n));
    WrittenKeeps(a, p + 4, Zeros(n), p, Put32(BEGIN_NODE));
    PatchedHas(b, p + 4, Zeros(n), 0, name);
    WrittenKeeps(b, p + 4, name, p, Put32(BEGIN_NODE));
    WrittenHas(c, p + 4 + n, Put32(END_NODE));
    WrittenKeeps(c, p + 4 + n, Put32(END_NODE), p, Put32(BEGIN_NODE));
    WrittenKeeps(c, p + 4 + n, Put32(END_NODE), p + 4, z);
    BareBytes(name);
    HasBoth(d, p + 4, z, Put32(END_NODE));
    HasBoth(d, p, Put32(BEGIN_NODE), z + Put32(END_NODE));
    var to := p + 8 + n;
    SameSelf(m, p, to);
    WrittenInside(m, m, p, to, p, Put32(BEGIN_NODE));
    WrittenInside(m, a, p, to, p + 4, Zeros(n));
    WrittenInside(m, b, p, to, p + 4, name);
    WrittenInside(m, c, p, to, p + 4 + n, Put32(END_NODE));
  }

  lemma NodePutIn(s: Bytes, h: Header, rsv: seq<Reserve>, ts: Tokens, strs: Bytes, q: int, name: Bytes)
    requires AllFormed(ts) && Holds(s, h, rsv, ts, strs) && Ordered(h, |rsv|) && h.totalSize <= |s|
    requires 0 <= q <= |ts| && 0 !in name && DataSize(h) + 8 + Align4(|name| + 1) <= h.totalSize
    ensures 0 <= h.offStruct && h.offStruct + Offset(ts, q) <= DataSize(h)
    ensures var t, us := NewNodeBytes(s, h.offStruct + Offset(ts, q), DataSize(h), name), Cut(ts, q, q, BareNode(name));
      var g := Resized(h, 8 + Align4(|name| + 1)); AllFormed(us) && Holds(t, g, rsv, us, strs) && Ordered(g, |rsv|)
  {
    hide Holds, Enc, Offset, Spliced, Has, AllFormed, SameOutside, NewNodeBytes, Moved, BareNode, WellFormed, Align4;
    OffsetInside(s, h, rsv, ts, strs, q);
    var p, n := h.offStruct + Offset(ts, q), 8 + Align4(|name| + 1);
    NewNodeHas(s, p, DataSize(h), name);
    BareBytes(name);
    SplicedBy(s, NewNodeBytes(s, p, DataSize(h), name), p, p, 0, n, DataSize(h), Enc(BareNode(name)));
    CutBytes(ts, q, q, BareNode(name));
    StructEdited(s, NewNodeBytes(s, p, DataSize(h), name), h, rsv, ts, strs, q, q, BareNode(name));
  }

  /** A node's begin renamed: the splice at the name, then the name and its NUL. */
  function RenamedBytes(s: Bytes, p: int, end: int, oldlen: int, name: Bytes): (t: Bytes)
    requires 0 <= p && 0 <= oldlen && p + Align4(oldlen + 1) <= end && end - Align4(oldlen + 1) + Align4(|name| + 1) <= |s| && end <= |s|
    ensures |t| == |s|
  {
    Written(Moved(s, p + Align4(|name| + 1), p + Align4(oldlen + 1), end - p - Align4(oldlen + 1)), p, name + [0])
  }

  lemma RenamedIs(s: Bytes, p: int, end: int, oldlen: int, name: Bytes)
    requires 0 <= p && 0 <= oldlen && p + Align4(oldlen + 1) <= end && end - Align4(oldlen + 1) + Align4(|name| + 1) <= |s| && end <= |s|
    ensures RenamedBytes(s, p, end, oldlen, name) == Written(Moved(s, p + Align4(|name| + 1), p + Align4(oldlen + 1), end - p - Align4(oldlen + 1)), p, name + [0])
  {
    hide Written, Moved, Align4;
  }

  /** The begin of a node whose name stands at p of t. */
  function BeginFrom(t: Bytes, p: int, name: Bytes): (r: Token)
    requires 0 !in name && 0 <= p && p + Align4(|name| + 1) <= |t|
    ensures WellFormed(r) && r.BeginNode? && r.name == name
  {
    BeginNode(name, t[p + |name| + 1..p + Align4(|name| + 1)])
  }

  lemma BeginHas(t: Bytes, at: int, name: Bytes, pad: Bytes)
    requires WellFormed(BeginNode(name, pad))
    ensures Has(t, at, Enc1(BeginNode(name, pad))) <==> Has(t, at, Put32(BEGIN_NODE)) && Has(t, at + 4, name + [0]) && Has(t, at + 5 + |name|, pad)
    ensures |Enc1(BeginNode(name, pad))| == 4 + Align4(|name| + 1)
  {
    hide Put32, Has;
    assert Enc1(BeginNode(name, pad)) == Put32(BEGIN_NODE) + ((name + [0]) + pad);
    HasBoth(t, at, Put32(BEGIN_NODE), (name + [0]) + pad);
    HasBoth(t, at + 4, name + [0], pad);
  }

  lemma NodeNamed(s: Bytes, h: Header, rsv: seq<Reserve>, ts: Tokens, strs: Bytes, i: int, name: Bytes)
    requires AllFormed(ts) && Holds(s, h, rsv, ts, strs) && Ordered(h, |rsv|) && h.totalSize <= |s| && IsNode(ts, i) && 0 !in name
    requires DataSize(h) - Align4(|ts[i].name| + 1) + Align4(|name| + 1) <= h.totalSize
    ensures 0 <= h.offStruct && 0 <= Offset(ts, i) && h.offStruct + Offset(ts, i) + 4 + Align4(|ts[i].name| + 1) <= DataSize(h)
    ensures var p, d := h.offStruct + Offset(ts, i) + 4, Align4(|name| + 1) - Align4(|ts[i].name| + 1);
      var t := RenamedBytes(s, p, DataSize(h), |ts[i].name|, name); var us := ts[i := BeginFrom(t, p, name)];
      AllFormed(us) && Holds(t, Resized(h, d), rsv, us, strs) && Ordered(Resized(h, d), |rsv|)
  {
    hide Holds, Enc, Enc1, Put32, Offset, Spliced, Has, AllFormed, Moved, Written, SameOutside, Ordered, Align4;
    OffsetInside(s, h, rsv, ts, strs, i);
    FormedAt(ts, i);
    TokenHas(s, h, rsv, ts, strs, i);
    var at, was, now, e := h.offStruct + Offset(ts, i), Align4(|ts[i].name| + 1), Align4(|name| + 1), DataSize(h);
    var p := at + 4;
    BeginHas(s, at, ts[i].name, ts[i].pad);
    DataEnd(h, |rsv|);
    var m := Moved(s, p + now, p + was, e - p - was);
    var t := RenamedBytes(s, p, e, |ts[i].name|, name);
    var tok := BeginFrom(t, p, name);
    MovedKeeps(s, p + now, p + was, e - p - was, at, Put32(BEGIN_NODE));
    WrittenHas(m, p, name + [0]);
    WrittenKeeps(m, p, name + [0], at, Put32(BEGIN_NODE));
    HasThere(t, p + |name| + 1, now - |name| - 1);
    BeginHas(t, at, name, tok.pad);
    SameSelf(m, at, p + now);
    WrittenInside(m, m, at, p + now, p, name + [0]);
    SplicedBy(s, t, at, p, was, now, e, Enc1(tok));
    TokenEdited(s, t, h, rsv, ts, strs, i, tok);
  }

  lemma DataEnd(h: Header, n: int)
    requires Ordered(h, n)
    ensures h.offStruct + h.sizeStruct <= h.offStrings && DataSize(h) <= h.totalSize
  {
  }

  /** The node put in behind the properties of the node at i is its first child. */
  lemma KidIn(ts: Tokens, strs: Bytes, f: seq<Node>, i: int, q: int, name: Bytes)
    requires Reads(ts, strs, f) && AllFormed(ts) && IsNode(ts, i) && PropRun(ts, i, q) && q < |ts| && !ts[q].Prop? && !ts[q].Nop? && 0 !in name
    requires AllFormed(Cut(ts, q, q, BareNode(name)))
    ensures IsPath(f, PathAt(ts, strs, f, i))
    ensures var us, m := Cut(ts, q, q, BareNode(name)), AddKid(NodeOf(ts, strs, f, i), name); var g := Replace(f, PathAt(ts, strs, f, i), [m]);
      NowReads(ts, strs, f, i, us, strs, g, m) && Reads(us, strs, g) && NodeTok(us, Offset(ts, q)) == q && PathAt(us, strs, g, q) == PathAt(ts, strs, f, i) + [0]
  {
    hide Reads, PathAt, AddKid, Replace, NodeTok, IsPath, At, Offset, AllFormed, Items;
    NodeHere(ts, strs, f, i);
    var us, m, p := Cut(ts, q, q, BareNode(name)), AddKid(NodeOf(ts, strs, f, i), name), PathAt(ts, strs, f, i);
    assert us[..i + 1] == ts[..i + 1] && us[..i] == ts[..i] && us[..q] == ts[..q] && us[q].BeginNode?;
    FormedAt(BareNode(name), 0);
    BareIs(name);
    KidAdded(ts, strs, f, i, q, name, BareNode(name)[0].pad);
    AddKidIs(NodeOf(ts, strs, f, i), name);
    SameTok(ts, us, i);
    StillAt(ts, strs, f, i, us, strs, m);
    NewTok(ts, us, q);
    NewKidPath(ts, strs, f, i, q, us, m);
  }

  lemma BareIs(name: Bytes)
    requires 0 !in name
    ensures BareNode(name)[0].BeginNode? && BareNode(name) == [BeginNode(name, BareNode(name)[0].pad), EndNode]
  {
  }

  lemma AddKidIs(n: Node, name: Bytes)
    ensures AddKid(n, name) == n.(kids := [Node(name, [], [])] + n.kids)
  {
  }

  lemma NewTok(ts: Tokens, us: Tokens, q: int)
    requires AllFormed(ts) && AllFormed(us) && 0 <= q <= |ts| && IsNode(us, q) && us[..q] == ts[..q]
    ensures NodeTok(us, Offset(ts, q)) == q
  {
    assert Offset(us, q) == Offset(ts, q);
    hide Offset, TokenAt;
    TokAt(us, q);
  }

  lemma NewKidPath(ts: Tokens, strs: Bytes, f: seq<Node>, i: int, q: int, us: Tokens, m: Node)
    requires Reads(ts, strs, f) && IsNode(ts, i) && PropRun(ts, i, q) && q < |ts| && !ts[q].Prop? && !ts[q].Nop?
    requires q <= |us| && us[..q] == ts[..q] && m == NodeOf(ts, strs, f, i).(kids := m.kids) && m.kids != []
    ensures IsPath(f, PathAt(ts, strs, f, i))
    ensures PathAt(us, strs, Replace(f, PathAt(ts, strs, f, i), [m]), q) == PathAt(ts, strs, f, i) + [0]
  {
    hide Reads, PathAt, Replace, IsPath, At, Items, FlatAll, PathTo, Before;
    PropsRead(ts, strs, f, i, q);
    PropRead(ts, strs, f, i, q);
    KidItems(ts, strs, f, i, q);
    var p := PathAt(ts, strs, f, i);
    var g := Replace(f, p, [m]);
    PathIs(us, strs, g, q);
    ReplaceOne(f, p, m);
    NodeFirst(m.kids);
    PathLength(g, p, [0]);
    PathToBefore(g, p + [0]);
  }

  lemma KidItems(ts: Tokens, strs: Bytes, f: seq<Node>, i: int, q: int)
    requires Reads(ts, strs, f) && IsNode(ts, i) && PropRun(ts, i, q) && q < |ts| && !ts[q].Prop? && !ts[q].Nop?
    ensures IsPath(f, PathAt(ts, strs, f, i)) && Pos(ts, strs, q) == |Before(f, PathAt(ts, strs, f, i))| + 1 + |At(f, PathAt(ts, strs, f, i)).props|
  {
    hide Reads, PathAt, IsPath, At, Items, FlatAll, Before;
    PropsRead(ts, strs, f, i, q);
    PropRead(ts, strs, f, i, q);
  }

  lemma NodeFirst(ns: seq<Node>)
    requires ns != []
    ensures IsPath(ns, [0]) && Before(ns, [0]) == []
  {
    assert ns[..0] == [];
  }

  lemma Renamed(ts: Tokens, strs: Bytes, f: seq<Node>, i: int, tok: Token)
    requires Reads(ts, strs, f) && AllFormed(ts) && IsNode(ts, i) && WellFormed(tok) && tok.BeginNode? && AllFormed(ts[i := tok])
    ensures IsPath(f, PathAt(ts, strs, f, i))
    ensures var us, m := ts[i := tok], NodeOf(ts, strs, f, i).(name := tok.name); var g := Replace(f, PathAt(ts, strs, f, i), [m]);
      NowReads(ts, strs, f, i, us, strs, g, m) && Reads(us, strs, g)
  {
    hide Reads, PathAt, Replace, NodeTok, IsPath, At, Offset, AllFormed, WellFormed;
    var us := ts[i := tok];
    assert us[..i] == ts[..i] && us == Cut(ts, i, i + 1, [tok]);
    NodeHere(ts, strs, f, i);
    NodeRenamed(ts, strs, f, i, tok.name, tok.pad);
    assert tok == BeginNode(tok.name, tok.pad);
    NewTok(ts, us, i);
    StillAt(ts, strs, f, i, us, strs, NodeOf(ts, strs, f, i).(name := tok.name));
  }

  // ---- reservations ---------------------------------------------------------------------------------

  /** The size word of entry n of the reservation block. */
  lemma {:induction false} RsvAt(rsv: seq<Reserve>, n: int)
    requires AllWide(rsv) && 0 <= n < |rsv|
    ensures Has(RsvBytes(rsv), 16 * n, RsvEntry(rsv[n]))
    decreases n
  {
    hide RsvEntry, Wide;
    var b := RsvBytes(rsv);
    if n == 0 {
      assert b[0..16] == RsvEntry(rsv[0]);
    } else {
      RsvAt(rsv[1..], n - 1);
      assert b[16 * n..16 * n + 16] == RsvBytes(rsv[1..])[16 * (n - 1)..16 * (n - 1) + 16];
    }
  }

  lemma EntryWords(e: Reserve)
    requires Wide(e)
    ensures Get64(RsvEntry(e), 0) == e.address && Get64(RsvEntry(e), 8) == e.size
  {
    hide Put64, Get64;
    var a, b := Put64(e.address), Put64(e.size);
    GetPut64([], e.address, b);
    GetPut64(a, e.size, []);
    assert [] + a + b == a + b && a + b + [] == a + b;
  }

  lemma Get64Inside(s: Bytes, o: int, b: Bytes, k: int)
    requires Has(s, o, b) && 0 <= k && k + 8 <= |b|
    ensures Get64(s, o + k) == Get64(b, k)
  {
    hide Get32;
    Get32Inside(s, o, b, k);
    Get32Inside(s, o, b, k + 4);
  }

  /** Entries q to r of the reservation block replaced by put, as bytes. */
  lemma RsvCut(rsv: seq<Reserve>, q: int, r: int, put: seq<Reserve>)
    requires AllWide(rsv) && AllWide(put) && 0 <= q <= r <= |rsv|
    ensures AllWide(rsv[..q] + put + rsv[r..])
    ensures RsvBytes(rsv[..q] + put + rsv[r..]) == RsvBytes(rsv)[..16 * q] + RsvBytes(put) + RsvBytes(rsv)[16 * r..]
  {
    hide Wide, RsvBytes;
    assert rsv == rsv[..q] + rsv[q..] && rsv == rsv[..r] + rsv[r..];
    RsvAppend(rsv[..q], rsv[q..]);
    RsvAppend(rsv[..r], rsv[r..]);
    RsvAppend(rsv[..q], put);
    RsvAppend(rsv[..q] + put, rsv[r..]);
    assert RsvBytes(rsv)[..16 * q] == RsvBytes(rsv[..q]);
    assert RsvBytes(rsv)[16 * r..] == RsvBytes(rsv[r..]);
  }

  function Pushed(h: Header, d: int): Header {
    h.(offStruct := h.offStruct + d, offStrings := h.offStrings + d)
  }

  lemma RsvSpliced(s: Bytes, t: Bytes, h: Header, rsvs: Bytes, body: Bytes, strs: Bytes, a: int, b: int, mid: Bytes)
    requires HasBlocks(s, h, rsvs, body, strs) && 0 <= a <= b <= |rsvs|
    requires h.offRsv + |rsvs| <= h.offStruct && h.offStruct + h.sizeStruct <= h.offStrings
    requires Spliced(s, t, h.offRsv + a, b - a, mid, DataSize(h))
    ensures HasBlocks(t, Pushed(h, |mid| - (b - a)), rsvs[..a] + mid + rsvs[b..], body, strs)
  {
    hide Spliced, Has;
    var at := h.offRsv + a;
    SplicedMid(s, t, at, b - a, mid, DataSize(h));
    assert rsvs == rsvs[..a] + (rsvs[a..b] + rsvs[b..]);
    HasBoth(s, h.offRsv, rsvs[..a], rsvs[a..b] + rsvs[b..]);
    HasBoth(s, at, rsvs[a..b], rsvs[b..]);
    SplicedBefore(s, t, at, b - a, mid, DataSize(h), h.offRsv, rsvs[..a]);
    SplicedAfter(s, t, at, b - a, mid, DataSize(h), h.offRsv + b, rsvs[b..]);
    SplicedAfter(s, t, at, b - a, mid, DataSize(h), h.offStruct, body);
    SplicedAfter(s, t, at, b - a, mid, DataSize(h), h.offStrings, strs);
    HasBoth(t, h.offRsv, rsvs[..a], mid);
    HasBoth(t, h.offRsv, rsvs[..a] + mid, rsvs[b..]);
  }

  /** Entry q taken out: the other reservations, and nothing else changed. */
  lemma RsvDropped(s: Bytes, t: Bytes, h: Header, rsv: seq<Reserve>, ts: Tokens, strs: Bytes, q: int, less: seq<Reserve>)
    requires Holds(s, h, rsv, ts, strs) && Ordered(h, |rsv|) && 0 <= q < |rsv| - 1 && less == rsv[..q] + rsv[q + 1..]
    requires Spliced(s, t, h.offRsv + 16 * q, 16, [], DataSize(h))
    ensures Holds(t, Pushed(h, -16), less, ts, strs) && Ordered(Pushed(h, -16), |less|)
  {
    hide Spliced, Has, Enc, AllFormed, AllWide, RsvBytes, RsvOk, OnWord, HasBlocks;
    BlobFacts(s, h, rsv, ts, strs);
    SplicedSize(s, t, h.offRsv + 16 * q, 16, [], DataSize(h));
    DroppedOk(rsv, q);
    DroppedBytes(rsv, q);
    OnWordMoved(h.offStruct, -4);
    RsvSpliced(s, t, h, RsvBytes(rsv), Enc(ts), strs, 16 * q, 16 * (q + 1), []);
  }

  lemma BlobFacts(s: Bytes, h: Header, rsv: seq<Reserve>, ts: Tokens, strs: Bytes)
    requires Holds(s, h, rsv, ts, strs)
    ensures |s| < 0x8000_0000 && AllWide(rsv) && AllFormed(ts) && RsvOk(rsv) && rsv != [] && |RsvBytes(rsv)| == 16 * |rsv|
    ensures HasBlocks(s, h, RsvBytes(rsv), Enc(ts), strs) && |Enc(ts)| == h.sizeStruct && |strs| == h.sizeStrings
  {
  }

  lemma SplicedSize(s: Bytes, t: Bytes, at: int, oldlen: int, mid: Bytes, end: int)
    requires Spliced(s, t, at, oldlen, mid, end)
    ensures |t| == |s|
  {
  }

  lemma OnWordMoved(o: int, k: int)
    requires OnWord(o)
    ensures OnWord(o + 4 * k)
  {
  }

  lemma DroppedOk(rsv: seq<Reserve>, q: int)
    requires RsvOk(rsv) && 0 <= q < |rsv| - 1
    ensures RsvOk(rsv[..q] + rsv[q + 1..])
  {
    hide Wide;
  }

  lemma DroppedBytes(rsv: seq<Reserve>, q: int)
    requires AllWide(rsv) && 0 <= q < |rsv|
    ensures AllWide(rsv[..q] + rsv[q + 1..])
    ensures RsvBytes(rsv[..q] + rsv[q + 1..]) == RsvBytes(rsv)[..16 * q] + [] + RsvBytes(rsv)[16 * (q + 1)..]
  {
    hide Wide;
    assert rsv[..q] + [] + rsv[q + 1..] == rsv[..q] + rsv[q + 1..];
    assert RsvBytes([]) == [];
    hide RsvBytes;
    RsvCut(rsv, q, q + 1, []);
  }

  /** A shorter reservation block that stands at the same place: what follows its terminator is slack. */
  lemma RsvShortened(s: Bytes, h: Header, rsv: seq<Reserve>, ts: Tokens, strs: Bytes, n: int)
    requires AllWide(rsv) && AllFormed(ts) && |s| < 0x8000_0000 && HasBlocks(s, h, RsvBytes(rsv), Enc(ts), strs) && Ordered(h, |rsv|)
    requires 0 <= n <= |rsv| && RsvOk(rsv[..n])
    ensures Holds(s, h, rsv[..n], ts, strs) && Ordered(h, n)
  {
    hide Has, Enc, AllFormed, Wide, RsvBytes, RsvOk;
    assert rsv == rsv[..n] + rsv[n..];
    assert AllWide(rsv[..n]) && AllWide(rsv[n..]);
    RsvAppend(rsv[..n], rsv[n..]);
    HasBoth(s, h.offRsv, RsvBytes(rsv[..n]), RsvBytes(rsv[n..]));
  }

  /** The entry that was written in front of the terminator, when the block had n entries before it. */
  function WithEntry(rsv: seq<Reserve>, e: Reserve): seq<Reserve>
    requires rsv != []
  {
    if e.size != 0 then rsv[..|rsv| - 1] + [e] + [rsv[|rsv| - 1]] else rsv[..|rsv| - 1] + [e]
  }

  lemma WithEntryHolds(s: Bytes, t: Bytes, h: Header, rsv: seq<Reserve>, ts: Tokens, strs: Bytes, e: Reserve)
    requires Holds(s, h, rsv, ts, strs) && Ordered(h, |rsv|) && Wide(e) && DataSize(h) + 16 <= h.totalSize
    requires Spliced(s, t, h.offRsv + 16 * (|rsv| - 1), 0, RsvEntry(e), DataSize(h))
    ensures Holds(t, Pushed(h, 16), WithEntry(rsv, e), ts, strs) && Ordered(Pushed(h, 16), |WithEntry(rsv, e)|)
  {
    hide Spliced, Has, Enc, AllFormed, AllWide, Wide, RsvBytes, RsvEntry, RsvOk, OnWord, HasBlocks;
    BlobFacts(s, h, rsv, ts, strs);
    var n := |rsv| - 1;
    var put := [e];
    var all := rsv[..n] + put + rsv[n..];
    SplicedSize(s, t, h.offRsv + 16 * n, 0, RsvEntry(e), DataSize(h));
    EntryBytes(e);
    RsvCut(rsv, n, n, put);
    RsvSpliced(s, t, h, RsvBytes(rsv), Enc(ts), strs, 16 * n, 16 * n, RsvBytes(put));
    OnWordMoved(h.offStruct, 4);
    WithEntryOk(rsv, e);
    if e.size == 0 {
      RsvShortened(t, Pushed(h, 16), all, ts, strs, n + 1);
    }
  }

  lemma WithEntryOk(rsv: seq<Reserve>, e: Reserve)
    requires RsvOk(rsv) && Wide(e)
    ensures var n := |rsv| - 1; var all := rsv[..n] + [e] + rsv[n..];
      RsvOk(WithEntry(rsv, e)) && if e.size != 0 then WithEntry(rsv, e) == all else WithEntry(rsv, e) == all[..n + 1]
  {
    hide Wide;
    assert rsv[|rsv| - 1..] == [rsv[|rsv| - 1]];
  }

  lemma EntryBytes(e: Reserve)
    requires Wide(e)
    ensures AllWide([e]) && RsvBytes([e]) == RsvEntry(e)
  {
    hide RsvEntry;
    assert RsvBytes([e]) == RsvEntry(e) + RsvBytes([]);
  }

  // ---- packing --------------------------------------------------------------------------------------

  lemma MovedHas(s: Bytes, dst: int, src: int, x: Bytes)
    requires 0 <= dst && dst + |x| <= |s| && Has(s, src, x)
    ensures Has(Moved(s, dst, src, |x|), dst, x)
  {
  }

  predicate Apart(a: int, n: int, b: int, m: int) {
    a + n <= b || b + m <= a
  }

  lemma MovedAway(s: Bytes, dst: int, src: int, n: int, o: int, c: Bytes)
    requires 0 <= dst && 0 <= src && 0 <= n && dst + n <= |s| && src + n <= |s| && Has(s, o, c) && Apart(dst, n, o, |c|)
    ensures Has(Moved(s, dst, src, n), o, c)
  {
    var t := Moved(s, dst, src, n);
    if o + |c| <= dst {
      assert t[o..o + |c|] == s[o..o + |c|];
    } else {
      assert t[o..o + |c|] == s[o..o + |c|];
    }
  }

  /** Three blocks moved one after the other to places that follow each other. */
  function ThreeMoved(s: Bytes, d: int, a: int, x: Bytes, b: int, y: Bytes, c: int, z: Bytes): (t: Bytes)
    requires 0 <= d && d + |x| + |y| + |z| <= |s| && Has(s, a, x) && Has(s, b, y) && Has(s, c, z)
    ensures |t| == |s|
  {
    Moved(Moved(Moved(s, d, a, |x|), d + |x|, b, |y|), d + |x| + |y|, c, |z|)
  }

  lemma BlocksPacked(s: Bytes, d: int, a: int, x: Bytes, b: int, y: Bytes, c: int, z: Bytes)
    requires 0 <= d && d + |x| + |y| + |z| <= |s| && Has(s, a, x) && Has(s, b, y) && Has(s, c, z)
    requires Apart(d, |x|, b, |y|) && Apart(d, |x|, c, |z|) && Apart(d + |x|, |y|, c, |z|)
    ensures var t := ThreeMoved(s, d, a, x, b, y, c, z); Has(t, d, x) && Has(t, d + |x|, y) && Has(t, d + |x| + |y|, z)
  {
    hide Has, Moved;
    HasSize(s, a, x);
    HasSize(s, b, y);
    HasSize(s, c, z);
    var u := Moved(s, d, a, |x|);
    var v := Moved(u, d + |x|, b, |y|);
    MovedHas(s, d, a, x);
    MovedAway(s, d, a, |x|, b, y);
    MovedAway(s, d, a, |x|, c, z);
    MovedHas(u, d + |x|, b, y);
    MovedAway(u, d + |x|, b, |y|, d, x);
    MovedAway(u, d + |x|, b, |y|, c, z);
    MovedHas(v, d + |x| + |y|, c, z);
    MovedAway(v, d + |x| + |y|, c, |z|, d, x);
    MovedAway(v, d + |x| + |y|, c, |z|, d + |x|, y);
  }

  lemma PackedOutside(s: Bytes, d: int, a: int, x: Bytes, b: int, y: Bytes, c: int, z: Bytes)
    requires 0 <= d && d + |x| + |y| + |z| <= |s| && Has(s, a, x) && Has(s, b, y) && Has(s, c, z)
    ensures SameOutside(s, ThreeMoved(s, d, a, x, b, y, c, z), d, d + |x| + |y| + |z|)
  {
    hide Has, Moved, SameOutside;
    HasSize(s, a, x);
    HasSize(s, b, y);
    HasSize(s, c, z);
    var e := d + |x| + |y| + |z|;
    var u := Moved(s, d, a, |x|);
    var v := Moved(u, d + |x|, b, |y|);
    SameSelf(s, d, e);
    MovedInside(s, s, d, e, d, a, |x|);
    MovedInside(s, u, d, e, d + |x|, b, |y|);
    MovedInside(s, v, d, e, d + |x| + |y|, c, |z|);
  }

  lemma MovedInside(m: Bytes, t: Bytes, at: int, to: int, dst: int, src: int, n: int)
    requires SameOutside(m, t, at, to) && at <= dst && 0 <= n && dst + n <= to && 0 <= src && src + n <= |t|
    ensures SameOutside(m, Moved(t, dst, src, n), at, to)
  {
    var u := Moved(t, dst, src, n);
    assert u[..at] == t[..at];
    assert u[to..] == t[to..];
  }

  /** Blocks that are already in their places stay as they are. */
  lemma PackedAlready(s: Bytes, d: int, x: Bytes, y: Bytes, z: Bytes)
    requires 0 <= d && d + |x| + |y| + |z| <= |s| && Has(s, d, x) && Has(s, d + |x|, y) && Has(s, d + |x| + |y|, z)
    ensures ThreeMoved(s, d, d, x, d + |x|, y, d + |x| + |y|, z) == s
  {
    hide Has;
    MovedNowhere(s, d, |x|);
    MovedNowhere(s, d + |x|, |y|);
    MovedNowhere(s, d + |x| + |y|, |z|);
  }

  lemma MovedNowhere(s: Bytes, d: int, n: int)
    requires 0 <= d && 0 <= n && d + n <= |s|
    ensures Moved(s, d, d, n) == s
  {
  }

  /** The header of a blob without slack between its blocks. */
  function PackedHeader(h: Header, n: int): Header {
    h.(offRsv := HEADER_SIZE, offStruct := HEADER_SIZE + 16 * n, offStrings := HEADER_SIZE + 16 * n + h.sizeStruct)
  }

  function PackedSize(h: Header, n: int): int {
    HEADER_SIZE + 16 * n + h.sizeStruct + h.sizeStrings
  }

  /** No ordered blob with the same blocks is smaller. */
  lemma PackedLeast(h: Header, n: int)
    requires Ordered(h, n)
    ensures PackedSize(h, n) <= h.totalSize
    ensures PackedSize(h, n) == h.totalSize ==> PackedHeader(h, n) == h
  {
  }

  /** The blocks of a blob that starts at base. */
  predicate HeldAt(s: Bytes, base: int, h: Header, rsv: seq<Reserve>, ts: Tokens, strs: Bytes) {
    && |s| < 0x8000_0000 && 0 <= base && RsvOk(rsv) && AllFormed(ts)
    && BlocksAt(s, base, h, RsvBytes(rsv), Enc(ts), strs)
  }

  predicate BlocksAt(s: Bytes, base: int, h: Header, rsvs: Bytes, body: Bytes, strs: Bytes) {
    && Has(s, base + h.offRsv, rsvs)
    && Has(s, base + h.offStruct, body) && |body| == h.sizeStruct
    && Has(s, base + h.offStrings, strs) && |strs| == h.sizeStrings
  }

  /** A blob in memory, seen on its own. */
  lemma HeldAlone(s: Bytes, base: int, len: int, h: Header, rsv: seq<Reserve>, ts: Tokens, strs: Bytes)
    requires HeldAt(s, base, h, rsv, ts, strs) && Ordered(h, |rsv|) && h.totalSize <= len && base + len <= |s| && h.sizeStruct >= 0 && h.sizeStrings >= 0
    ensures Holds(s[base..base + len], h, rsv, ts, strs)
  {
    hide RsvOk, Enc, AllFormed, RsvBytes;
    assert AllWide(rsv) by { WideOf(rsv); }
    HasWithin(s, base, len, h.offRsv, RsvBytes(rsv));
    HasWithin(s, base, len, h.offStruct, Enc(ts));
    HasWithin(s, base, len, h.offStrings, strs);
  }

  lemma WideOf(rsv: seq<Reserve>)
    requires RsvOk(rsv)
    ensures AllWide(rsv) && rsv != []
  {
  }

  lemma HasWithin(s: Bytes, base: int, len: int, o: int, b: Bytes)
    requires 0 <= base && base + len <= |s| && 0 <= o && o + |b| <= len && Has(s, base + o, b)
    ensures Has(s[base..base + len], o, b)
  {
    SliceInside(s, base, s[base..base + len], o, o + |b|);
  }

  lemma WideWords(e: Reserve)
    requires Wide(e)
    ensures 0 <= e.address < TWO64 && 0 <= e.size < TWO64 && RsvEntry(e) == Put64(e.address) + Put64(e.size)
  {
  }

  /** Room made at p for one entry, and the entry written. */
  lemma EntryWritten(s: Bytes, p: int, end: int, e: Reserve)
    requires Wide(e) && 0 <= p <= end && end + 16 <= |s|
    ensures Spliced(s, Written(Written(Moved(s, p + 16, p, end - p), p, Put64(e.address)), p + 8, Put64(e.size)), p, 0, RsvEntry(e), end)
  {
    WideWords(e);
    hide Put64, Written, Moved, Has, SameOutside, Spliced, RsvEntry;
    var m := Moved(s, p + 16, p, end - p);
    var a, b := Put64(e.address), Put64(e.size);
    var t := Written(m, p, a);
    WrittenHas(m, p, a);
    WrittenHas(t, p + 8, b);
    WrittenKeeps(t, p + 8, b, p, a);
    HasBoth(Written(t, p + 8, b), p, a, b);
    SameSelf(m, p, p + 16);
    WrittenInside(m, m, p, p + 16, p, a);
    WrittenInside(m, t, p, p + 16, p + 8, b);
    SplicedBy(s, Written(t, p + 8, b), p, p, 0, 16, end, RsvEntry(e));
  }

  /** n bytes at p taken out. */
  lemma SplicedOut(s: Bytes, p: int, n: int, end: int)
    requires 0 <= p && 0 <= n && p + n <= end <= |s|
    ensures Spliced(s, Moved(s, p, p + n, end - p - n), p, n, [], end)
  {
    hide Moved, SameOutside, Spliced;
    var t := Moved(s, p, p + n, end - p - n);
    SameSelf(t, p, p);
    assert Has(t, p, []);
    SplicedBy(s, t, p, p, n, 0, end, []);
  }

  lemma HasInside(s: Bytes, o: int, b: Bytes, k: int, c: Bytes)
    requires Has(s, o, b) && Has(b, k, c)
    ensures Has(s, o + k, c)
  {
    SliceInside(s, o, b, k, k + |c|);
  }

  /** Where the three blocks of a blob at base was are packed at base now, no block lands on one still to be moved. */
  predicate Roomy(was: int, now: int, h: Header, n: int) {
    var d := now + HEADER_SIZE;
    && Apart(d, n, was + h.offStruct, h.sizeStruct)
    && Apart(d, n, was + h.offStrings, h.sizeStrings)
    && Apart(d + n, h.sizeStruct, was + h.offStrings, h.sizeStrings)
  }

  lemma PackedBytes(s: Bytes, was: int, now: int, h: Header, n: int, x: Bytes, y: Bytes, z: Bytes)
    requires BlocksAt(s, was, h, x, y, z) && |x| == 16 * n && 0 <= now && now + PackedSize(h, n) <= |s| && Roomy(was, now, h, 16 * n)
    ensures BlocksAt(ThreeMoved(s, now + HEADER_SIZE, was + h.offRsv, x, was + h.offStruct, y, was + h.offStrings, z), now, PackedHeader(h, n), x, y, z)
    ensures SameOutside(s, ThreeMoved(s, now + HEADER_SIZE, was + h.offRsv, x, was + h.offStruct, y, was + h.offStrings, z), now + HEADER_SIZE, now + PackedSize(h, n))
  {
    hide Has, ThreeMoved, SameOutside;
    BlocksPacked(s, now + HEADER_SIZE, was + h.offRsv, x, was + h.offStruct, y, was + h.offStrings, z);
    PackedOutside(s, now + HEADER_SIZE, was + h.offRsv, x, was + h.offStruct, y, was + h.offStrings, z);
  }

  /** A blob's blocks packed together elsewhere, or in place. */
  lemma PackedHeld(s: Bytes, t: Bytes, was: int, now: int, h: Header, rsv: seq<Reserve>, ts: Tokens, strs: Bytes)
    requires HeldAt(s, was, h, rsv, ts, strs) && 0 <= now && now + PackedSize(h, |rsv|) <= |s| && Roomy(was, now, h, 16 * |rsv|)
    requires AllWide(rsv) && BlocksAt(s, was, h, RsvBytes(rsv), Enc(ts), strs)
    requires t == ThreeMoved(s, now + HEADER_SIZE, was + h.offRsv, RsvBytes(rsv), was + h.offStruct, Enc(ts), was + h.offStrings, strs)
    ensures HeldAt(t, now, PackedHeader(h, |rsv|), rsv, ts, strs) && SameOutside(s, t, now + HEADER_SIZE, now + PackedSize(h, |rsv|))
  {
    hide BlocksAt, ThreeMoved, SameOutside, RsvOk, AllFormed, RsvBytes, Enc, Roomy;
    PackedBytes(s, was, now, h, |rsv|, RsvBytes(rsv), Enc(ts), strs);
  }

  lemma PackedOrdered(h: Header, n: int)
    requires 0 <= n && 0 <= h.sizeStruct
    ensures Ordered(PackedHeader(h, n).(totalSize := PackedSize(h, n)), n)
  {
    hide OnWord;
    EntriesOnWord(n);
  }

  lemma EntriesOnWord(n: int)
    ensures OnWord(HEADER_SIZE + 16 * n)
  {
    assert HEADER_SIZE + 16 * n == 4 * (10 + 4 * n);
  }

  /** A whole blob moved: its blocks at their places behind the new base. */
  lemma MovedHeld(s: Bytes, was: int, now: int, len: int, h: Header, rsv: seq<Reserve>, ts: Tokens, strs: Bytes)
    requires HeldAt(s, was, h, rsv, ts, strs) && 0 <= now && 0 <= len && now + len <= |s| && was + len <= |s|
    requires WithinTotal(h, |rsv|, len)
    ensures HeldAt(Moved(s, now, was, len), now, h, rsv, ts, strs)
  {
    WideOf(rsv);
    hide Has, Moved, RsvOk, AllFormed, RsvBytes, Enc;
    HasMoved(s, was, now, len, h.offRsv, RsvBytes(rsv));
    HasMoved(s, was, now, len, h.offStruct, Enc(ts));
    HasMoved(s, was, now, len, h.offStrings, strs);
  }

  lemma HasMoved(s: Bytes, was: int, now: int, len: int, o: int, b: Bytes)
    requires 0 <= was && 0 <= now && 0 <= len && now + len <= |s| && was + len <= |s| && 0 <= o && o + |b| <= len && Has(s, was + o, b)
    ensures Has(Moved(s, now, was, len), now + o, b)
  {
    var t := Moved(s, now, was, len);
    assert t[now..now + len] == s[was..was + len];
    SliceInside(t, now, t[now..now + len], o, o + |b|);
    SliceInside(s, was, s[was..was + len], o, o + |b|);
  }

  /** Every block lies in the first len bytes of the blob, in any order. */
  predicate WithinTotal(h: Header, n: int, len: int) {
    && 0 <= h.offRsv && h.offRsv + 16 * n <= len
    && 0 <= h.offStruct && 0 <= h.sizeStruct && h.offStruct + h.sizeStruct <= len
    && 0 <= h.offStrings && 0 <= h.sizeStrings && h.offStrings + h.sizeStrings <= len
  }

  /** fdt_check_header */
  function CheckHeader(h: Header): int {
    if h.magic == FDT_MAGIC then
      if h.version < FIRST_VERSION || h.lastComp > LAST_VERSION then -ERR_BADVERSION else 0
    else if h.magic == FDT_SW_MAGIC then
      if h.sizeStruct == 0 then -ERR_BADSTATE else 0
    else -ERR_BADMAGIC
  }

  /** A complete blob of any version from 16 on that can be read as 17 or older, or an unfinished one
      with something in it. */
  lemma HeaderAccepted(h: Header)
    ensures CheckHeader(h) == 0 <==>
      (h.magic == 0xd00d_feed && 16 <= h.version && h.lastComp <= 17) || (h.magic == 0xffff_ffff - 0xd00d_feed && h.sizeStruct != 0)
    ensures h.magic !in {0xd00d_feed, 0xffff_ffff - 0xd00d_feed} ==> CheckHeader(h) == -9
    ensures h.magic == 0xd00d_feed && !(16 <= h.version && h.lastComp <= 17) ==> CheckHeader(h) == -10
    ensures h.magic == 0xffff_ffff - 0xd00d_feed && h.sizeStruct == 0 ==> CheckHeader(h) == -7
  {
  }

  lemma OrderedIf(h: Header, n: int)
    requires OnWord(h.offStruct)
    ensures Ordered(h, n) <==> !BlocksMisordered(h, 16 * n, h.sizeStruct)
  {
  }

  /** Blocks packed where the old blob does not reach cannot overwrite what is still to be moved. */
  lemma RoomyApart(was: int, now: int, h: Header, n: int)
    requires WithinTotal(h, n, h.totalSize) && 0 <= n && Apart(now, PackedSize(h, n), was, h.totalSize)
    ensures Roomy(was, now, h, 16 * n)
  {
  }

  /** In place, an ordered blob only moves down. */
  lemma RoomyDown(h: Header, n: int)
    requires Ordered(h, n) && 0 <= n && 0 <= h.sizeStruct
    ensures Roomy(0, 0, h, 16 * n)
  {
  }

  lemma ThreeMovedIs(s: Bytes, d: int, a: int, x: Bytes, b: int, y: Bytes, c: int, z: Bytes)
    requires 0 <= d && d + |x| + |y| + |z| <= |s| && Has(s, a, x) && Has(s, b, y) && Has(s, c, z)
    ensures ThreeMoved(s, d, a, x, b, y, c, z) == Moved(Moved(Moved(s, d, a, |x|), d + |x|, b, |y|), d + |x| + |y|, c, |z|)
  {
    hide Moved;
  }

  /** A blob that fills its buffer, seen as one at base 0. */
  lemma HeldWhole(s: Bytes, h: Header, rsv: seq<Reserve>, ts: Tokens, strs: Bytes)
    ensures HeldAt(s, 0, h, rsv, ts, strs) <==> Holds(s, h, rsv, ts, strs)
  {
    hide RsvOk, AllFormed, RsvBytes, Enc, Has;
  }

  // ---- names compared -------------------------------------------------------------------------------

  lemma TooLong(name: Bytes, s: Bytes)
    requires |s| > |name|
    ensures !NameEq(name, s)
  {
  }

  /** memcmp over the bytes of a name and what follows it: they agree with s exactly when s is a prefix of the name. */
  lemma NameCompared(b: Bytes, p: int, name: Bytes, s: Bytes)
    requires IsString(b, p, name) && 0 !in s && p + |s| < |b|
    ensures b[p..p + |s|] == s <==> |s| <= |name| && name[..|s|] == s
    ensures b[p..p + |s|] == s ==> (b[p + |s|] == 0 <==> |s| == |name|) && (|s| < |name| ==> b[p + |s|] == name[|s|])
    ensures NameEq(name, s) <==> b[p..p + |s|] == s && (b[p + |s|] == 0 || (AT_SIGN !in s && b[p + |s|] == AT_SIGN))
  {
    var t := b[p..p + |s|];
    assert forall x :: 0 <= x < |name| ==> b[p + x] == name[x] by { assert b[p..p + |name|] == name; }
    assert forall x :: 0 <= x < |s| ==> t[x] == b[p + x];
    if |s| <= |name| {
      assert t == name[..|s|];
      assert |s| < |name| ==> b[p + |s|] == name[|s|] && name[|s|] in name;
    } else {
      assert t[|name|] == 0;
    }
  }
}
