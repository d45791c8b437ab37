/** libfdt on a blob in its buffer: the walkers and lookups that read it, the in-place edits, and the
    splicing edits that move its blocks. */
module LibFdt {
  import opened FdtFormat
  import opened FdtTree
  import opened FdtDoc
  import opened FdtWalk
  import opened FdtPath
  import opened FdtBlob

  method MoveBytes(mem: array<Byte>, dst: int, src: int, n: int)
    requires 0 <= dst && 0 <= src && 0 <= n && dst + n <= mem.Length && src + n <= mem.Length
    modifies mem
    ensures mem[..] == Moved(old(mem[..]), dst, src, n)
  {
    forall i | 0 <= i < n {
      mem[dst + i] := mem[src + i];
    }
  }

  /** fdt_num_mem_rsv on the reservation block at that place. */
  method CountRsv(mem: array<Byte>, at: int, ghost rsv: seq<Reserve>) returns (n: int)
    requires RsvOk(rsv) && AllWide(rsv) && Has(mem[..], at, RsvBytes(rsv))
    ensures n == |rsv| - 1
  {
    hide RsvBytes, RsvEntry, Get64, Has, Wide;
    n := 0;
    RsvWords(mem[..], at, rsv, 0);
    while Get64(mem[..], at + 16 * n + 8) != 0
      invariant 0 <= n < |rsv|
      invariant at + 16 * n + 16 <= mem.Length && at >= 0
      invariant Get64(mem[..], at + 16 * n + 8) == rsv[n].size
      decreases |rsv| - n
    {
      n := n + 1;
      RsvWords(mem[..], at, rsv, n);
    }
  }

  lemma RsvWords(s: Bytes, at: int, rsv: seq<Reserve>, n: int)
    requires AllWide(rsv) && Has(s, at, RsvBytes(rsv)) && 0 <= n < |rsv|
    ensures 0 <= at && at + 16 * n + 16 <= |s|
    ensures Get64(s, at + 16 * n) == rsv[n].address && Get64(s, at + 16 * n + 8) == rsv[n].size
  {
    hide RsvBytes, RsvEntry, Get64, Wide;
    RsvAt(rsv, n);
    EntryWords(rsv[n]);
    HasInside(s, at, RsvBytes(rsv), 16 * n, RsvEntry(rsv[n]));
    Get64Inside(s, at + 16 * n, RsvEntry(rsv[n]), 8);
    Get64Inside(s, at + 16 * n, RsvEntry(rsv[n]), 0);
  }

  /** _fdt_packblocks: the blocks of the blob at base was, one behind the other, at base now. They are
      held there if no move overwrites what a later one reads. */
  method PackBlocks(mem: array<Byte>, was: int, now: int, h: Header, rsvSize: int, structSize: int, ghost rsv: seq<Reserve>, ghost ts: Tokens, ghost strs: Bytes)
    returns (g: Header)
    requires 0 <= was + h.offRsv && 0 <= rsvSize && was + h.offRsv + rsvSize <= mem.Length
    requires 0 <= was + h.offStruct && 0 <= structSize && was + h.offStruct + structSize <= mem.Length
    requires 0 <= was + h.offStrings && 0 <= h.sizeStrings && was + h.offStrings + h.sizeStrings <= mem.Length
    requires 0 <= now && now + HEADER_SIZE + rsvSize + structSize + h.sizeStrings <= mem.Length
    modifies mem
    ensures var d, e := now + HEADER_SIZE, now + HEADER_SIZE + rsvSize;
      mem[..] == Moved(Moved(Moved(old(mem[..]), d, was + h.offRsv, rsvSize), e, was + h.offStruct, structSize), e + structSize, was + h.offStrings, h.sizeStrings)
    ensures g == h.(offRsv := HEADER_SIZE, offStruct := HEADER_SIZE + rsvSize, sizeStruct := structSize, offStrings := HEADER_SIZE + rsvSize + structSize)
    ensures HeldAt(old(mem[..]), was, h, rsv, ts, strs) && rsvSize == 16 * |rsv| && structSize == h.sizeStruct && Roomy(was, now, h, rsvSize) ==>
      g == PackedHeader(h, |rsv|) && HeldAt(mem[..], now, g, rsv, ts, strs) && SameOutside(old(mem[..]), mem[..], now + HEADER_SIZE, now + PackedSize(h, |rsv|))
  {
    hide Moved, HeldAt, Roomy, SameOutside;
    ghost var s := mem[..];
    var rsvOff := HEADER_SIZE;
    var structOff := rsvOff + rsvSize;
    var stringsOff := structOff + structSize;
    g := h;
    MoveBytes(mem, now + rsvOff, was + h.offRsv, rsvSize);
    g := g.(offRsv := rsvOff);
    MoveBytes(mem, now + structOff, was + h.offStruct, structSize);
    g := g.(offStruct := structOff, sizeStruct := structSize);
    MoveBytes(mem, now + stringsOff, was + h.offStrings, h.sizeStrings);
    g := g.(offStrings := stringsOff);
    if HeldAt(s, was, h, rsv, ts, strs) && rsvSize == 16 * |rsv| && structSize == h.sizeStruct && Roomy(was, now, h, rsvSize) {
      PackedThere(s, was, now, h, rsv, ts, strs);
    }
  }

  lemma PackedThere(s: Bytes, was: int, now: int, h: Header, rsv: seq<Reserve>, ts: Tokens, strs: Bytes)
    requires HeldAt(s, was, h, rsv, ts, strs) && 0 <= now && now + PackedSize(h, |rsv|) <= |s| && Roomy(was, now, h, 16 * |rsv|)
    ensures 0 <= was + h.offRsv && was + h.offRsv + 16 * |rsv| <= |s| && 0 <= was + h.offStruct && 0 <= h.sizeStruct && was + h.offStruct + h.sizeStruct <= |s|
    ensures 0 <= was + h.offStrings && 0 <= h.sizeStrings && was + h.offStrings + h.sizeStrings <= |s|
    ensures var d, e := now + HEADER_SIZE, now + HEADER_SIZE + 16 * |rsv|;
      var t := Moved(Moved(Moved(s, d, was + h.offRsv, 16 * |rsv|), e, was + h.offStruct, h.sizeStruct), e + h.sizeStruct, was + h.offStrings, h.sizeStrings);
      HeldAt(t, now, PackedHeader(h, |rsv|), rsv, ts, strs) && SameOutside(s, t, d, now + PackedSize(h, |rsv|))
  {
    hide HeldAt, BlocksAt, Moved, ThreeMoved, RsvOk, AllFormed, RsvBytes, Enc, SameOutside, Roomy, Has;
    HeldParts(s, was, h, rsv, ts, strs);
    RsvBytesSize(rsv);
    var t := ThreeMoved(s, now + HEADER_SIZE, was + h.offRsv, RsvBytes(rsv), was + h.offStruct, Enc(ts), was + h.offStrings, strs);
    ThreeMovedIs(s, now + HEADER_SIZE, was + h.offRsv, RsvBytes(rsv), was + h.offStruct, Enc(ts), was + h.offStrings, strs);
    PackedHeld(s, t, was, now, h, rsv, ts, strs);
  }

  lemma RsvBytesSize(rsv: seq<Reserve>)
    requires AllWide(rsv)
    ensures |RsvBytes(rsv)| == 16 * |rsv|
  {
  }

  /** fdt_open_into, from the blob at fdt into the bufsize bytes at buf; the two may overlap in any way. */
  method OpenInto(mem: array<Byte>, fdt: int, h: Header, buf: int, bufsize: int, ghost rsv: seq<Reserve>, ghost ts: Tokens, ghost strs: Bytes)
    returns (err: int, g: Header)
    requires HeldAt(mem[..], fdt, h, rsv, ts, strs) && WithinTotal(h, |rsv|, h.totalSize) && OnWord(h.offStruct)
    requires 0 <= fdt && fdt + h.totalSize <= mem.Length && 0 <= buf && 0 <= bufsize && buf + bufsize <= mem.Length
    requires h.magic != FDT_SW_MAGIC && (CheckHeader(h) == 0 ==> h.version >= LAST_VERSION)
    modifies mem
    ensures CheckHeader(h) != 0 ==> err == CheckHeader(h)
    ensures CheckHeader(h) == 0 && Ordered(h, |rsv|) ==> err == if bufsize < h.totalSize then -ERR_NOSPACE else 0
    ensures CheckHeader(h) == 0 && !Ordered(h, |rsv|) ==>
      var need := 40 + 16 * |rsv| + h.sizeStruct + h.sizeStrings;
      var overlap := fdt < buf + need && buf < fdt + h.totalSize;
      err == if bufsize < need || (overlap && buf + bufsize < fdt + h.totalSize + need) then -ERR_NOSPACE else 0
    ensures err != 0 ==> mem[..] == old(mem[..])
    ensures err == 0 ==> g.totalSize == bufsize && Current(g) && Ordered(g, |rsv|) && Holds(mem[buf..buf + bufsize], g, rsv, ts, strs)
    ensures SameOutside(old(mem[..]), mem[..], buf, buf + bufsize)
  {
    hide BlocksAt, Moved, RsvOk, AllFormed, RsvBytes, Enc, SameOutside, Holds, Ordered, BlocksMisordered, Roomy, OnWord, Has;
    g := h;
    ghost var s, n := mem[..], |rsv|;
    SameSelf(s, buf, buf + bufsize);
    err := CheckHeader(h);
    if err != 0 {
      return;
    }
    var entries := RsvEntries(mem, fdt, h, rsv, ts, strs);
    var rsvSize := (entries + 1) * 16;
    var structSize := h.sizeStruct;
    OrderedIf(h, n);
    if !BlocksMisordered(h, rsvSize, structSize) {
      if h.totalSize > bufsize {
        return -ERR_NOSPACE, g;
      }
      MoveBytes(mem, buf, fdt, h.totalSize);
      MovedHeld(s, fdt, buf, h.totalSize, h, rsv, ts, strs);
      MovedInside(s, s, buf, buf + bufsize, buf, fdt, h.totalSize);
      g := g.(version := LAST_VERSION);
      g := g.(sizeStruct := structSize);
      g := g.(totalSize := bufsize);
      OpenedHeld(mem[..], buf, bufsize, h, h, g, rsv, ts, strs);
      return 0, g;
    }
    var newsize := HEADER_SIZE + rsvSize + structSize + h.sizeStrings;
    if bufsize < newsize {
      return -ERR_NOSPACE, g;
    }
    var tmp := buf;
    if tmp + newsize > fdt && tmp < fdt + h.totalSize {
      tmp := fdt + h.totalSize;
      if tmp + newsize > buf + bufsize {
        return -ERR_NOSPACE, g;
      }
    }
    RoomyApart(fdt, tmp, h, n);
    HeldParts(s, fdt, h, rsv, ts, strs);
    g := PackBlocks(mem, fdt, tmp, h, rsvSize, structSize, rsv, ts, strs);
    ghost var t := mem[..];
    MoveBytes(mem, buf, tmp, newsize);
    MovedHeld(t, tmp, buf, newsize, g, rsv, ts, strs);
    OutsideStill(s, t, tmp + HEADER_SIZE, tmp + newsize, buf, buf + bufsize);
    MovedInside(s, t, buf, buf + bufsize, buf, tmp, newsize);
    g := g.(magic := FDT_MAGIC);
    g := g.(totalSize := bufsize);
    g := g.(version := LAST_VERSION);
    g := g.(lastComp := FIRST_VERSION);
    PackedOrdered(h, n);
    OpenedHeld(mem[..], buf, bufsize, PackedHeader(h, n), PackedHeader(h, n).(totalSize := PackedSize(h, n)), g, rsv, ts, strs);
    return 0, g;
  }

  method RsvEntries(mem: array<Byte>, fdt: int, h: Header, ghost rsv: seq<Reserve>, ghost ts: Tokens, ghost strs: Bytes) returns (n: int)
    requires HeldAt(mem[..], fdt, h, rsv, ts, strs)
    ensures n == |rsv| - 1 && n >= 0
  {
    hide RsvBytes, Enc, AllFormed;
    n := CountRsv(mem, fdt + h.offRsv, rsv);
  }

  lemma HeldParts(s: Bytes, base: int, h: Header, rsv: seq<Reserve>, ts: Tokens, strs: Bytes)
    requires HeldAt(s, base, h, rsv, ts, strs)
    ensures AllWide(rsv) && AllFormed(ts) && BlocksAt(s, base, h, RsvBytes(rsv), Enc(ts), strs) && 0 <= h.sizeStruct && 0 <= h.sizeStrings
    ensures Has(s, base + h.offRsv, RsvBytes(rsv)) && Has(s, base + h.offStruct, Enc(ts)) && Has(s, base + h.offStrings, strs)
    ensures |Enc(ts)| == h.sizeStruct && |strs| == h.sizeStrings
    ensures 0 <= base + h.offRsv && base + h.offRsv + 16 * |rsv| <= |s|
    ensures 0 <= base + h.offStruct && base + h.offStruct + h.sizeStruct <= |s|
    ensures 0 <= base + h.offStrings && base + h.offStrings + h.sizeStrings <= |s|
  {
    hide RsvBytes, Enc, AllFormed;
  }

  lemma OutsideStill(s: Bytes, t: Bytes, at: int, to: int, x: int, y: int)
    requires SameOutside(s, t, at, to) && 0 <= x <= at && to <= y <= |s|
    ensures SameOutside(s, t, x, y)
  {
    SubHeads(t, s, at, 0, x);
    SubTails(t, s, to, y, |s|);
  }

  /** The header as opened still describes the blocks. */
  lemma OpenedHeld(s: Bytes, buf: int, bufsize: int, f: Header, h: Header, g: Header, rsv: seq<Reserve>, ts: Tokens, strs: Bytes)
    requires HeldAt(s, buf, f, rsv, ts, strs) && h == f.(totalSize := h.totalSize)
    requires Ordered(h, |rsv|) && 0 <= bufsize && buf + bufsize <= |s| && h.totalSize <= bufsize
    requires g == h.(magic := g.magic, version := g.version, lastComp := g.lastComp, totalSize := bufsize)
    ensures Ordered(g, |rsv|) && Holds(s[buf..buf + bufsize], g, rsv, ts, strs)
  {
    hide RsvBytes, Enc, AllFormed, Has, RsvOk;
    HeldParts(s, buf, g, rsv, ts, strs);
    HeldAlone(s, buf, bufsize, g, rsv, ts, strs);
  }

  /** What _fdt_packblocks leaves when it works in place. */
  function PackedBytesOf(s: Bytes, h: Header, n: int): (t: Bytes)
    requires 0 <= n && 0 <= h.offRsv && h.offRsv + 16 * n <= |s| && 0 <= h.offStruct && 0 <= h.sizeStruct && h.offStruct + h.sizeStruct <= |s|
    requires 0 <= h.offStrings && 0 <= h.sizeStrings && h.offStrings + h.sizeStrings <= |s| && PackedSize(h, n) <= |s|
  {
    var e := HEADER_SIZE + 16 * n;
    Moved(Moved(Moved(s, HEADER_SIZE, h.offRsv, 16 * n), e, h.offStruct, h.sizeStruct), e + h.sizeStruct, h.offStrings, h.sizeStrings)
  }

  lemma PackedInPlace(s: Bytes, h: Header, rsv: seq<Reserve>, ts: Tokens, strs: Bytes)
    requires Holds(s, h, rsv, ts, strs) && Ordered(h, |rsv|) && h.totalSize <= |s|
    ensures 0 <= h.offRsv && h.offRsv + 16 * |rsv| <= |s| && 0 <= h.offStruct && 0 <= h.sizeStruct && h.offStruct + h.sizeStruct <= |s|
    ensures 0 <= h.offStrings && 0 <= h.sizeStrings && h.offStrings + h.sizeStrings <= |s| && PackedSize(h, |rsv|) <= h.totalSize
    ensures var g := PackedHeader(h, |rsv|).(totalSize := PackedSize(h, |rsv|)); Holds(PackedBytesOf(s, h, |rsv|), g, rsv, ts, strs) && Ordered(g, |rsv|)
    ensures h.totalSize == PackedSize(h, |rsv|) ==> PackedBytesOf(s, h, |rsv|) == s && PackedHeader(h, |rsv|) == h
  {
    hide Holds, Ordered, Moved, RsvOk, ThreeMoved, RsvBytes, Enc, BlocksAt, HeldAt, SameOutside, Roomy, AllFormed, Has;
    HeldWhole(s, h, rsv, ts, strs);
    HeldParts(s, 0, h, rsv, ts, strs);
    PackedLeast(h, |rsv|);
    RoomyDown(h, |rsv|);
    var t := PackedBytesOf(s, h, |rsv|);
    ThreeMovedIs(s, HEADER_SIZE, h.offRsv, RsvBytes(rsv), h.offStruct, Enc(ts), h.offStrings, strs);
    PackedHeld(s, t, 0, 0, h, rsv, ts, strs);
    PackedOrdered(h, |rsv|);
    var g := PackedHeader(h, |rsv|);
    HeldSame(t, g, g.(totalSize := PackedSize(h, |rsv|)), rsv, ts, strs);
    if h.totalSize == PackedSize(h, |rsv|) {
      PackedAlready(s, HEADER_SIZE, RsvBytes(rsv), Enc(ts), strs);
    }
  }

  lemma HeldSame(s: Bytes, g: Header, h: Header, rsv: seq<Reserve>, ts: Tokens, strs: Bytes)
    requires HeldAt(s, 0, g, rsv, ts, strs) && h == g.(totalSize := h.totalSize)
    ensures Holds(s, h, rsv, ts, strs)
  {
    hide RsvOk, AllFormed, RsvBytes, Enc, Has;
  }

  /** fdt_next_tag on the structure block at that place. */
  method NextTagIn(mem: array<Byte>, at: int, size: int, start: int, ghost body: Bytes) returns (tag: int, next: int)
    requires Has(mem[..], at, body) && |body| == size < 0x8000_0000 && 0 <= start
    ensures (tag, next) == TagAt(body, start)
  {
    hide Get32;
    assert forall k :: 0 <= k < size ==> mem[at + k] == body[k] by { BodyBytes(mem[..], at, body); }
    if start + 4 > size {
      return END, -ERR_TRUNCATED;
    }
    Get32Inside(mem[..], at, body, start);
    tag := Get32(mem[..], at + start);
    var off := start + 4;
    if tag == BEGIN_NODE {
      while off < size && mem[at + off] != 0
        invariant start + 4 <= off <= size
        invariant AfterZero(body, start + 4) == AfterZero(body, off)
      {
        off := off + 1;
      }
      if off == size {
        return END, -ERR_BADSTRUCTURE;
      }
      off := off + 1;
    } else if tag == PROP {
      if off + 4 > size {
        return END, -ERR_BADSTRUCTURE;
      }
      Get32Inside(mem[..], at, body, off);
      var len := Get32(mem[..], at + off);
      off := (off + 8 + len) % TWO32;
    } else if tag != END && tag != END_NODE && tag != NOP {
      return END, -ERR_BADSTRUCTURE;
    }
    if off < start || off > size {
      return END, -ERR_BADSTRUCTURE;
    }
    next := Align4(off);
  }

  lemma BodyBytes(s: Bytes, at: int, body: Bytes)
    requires Has(s, at, body)
    ensures forall k :: 0 <= k < |body| ==> s[at + k] == body[k]
  {
    forall k | 0 <= k < |body| ensures s[at + k] == body[k] {
      assert s[at..at + |body|][k] == body[k];
    }
  }

  /** _fdt_find_string: the first place in the strings block that spells the name, or -1. */
  method FindStringIn(mem: array<Byte>, strtab: int, tabsize: int, name: Bytes, ghost strs: Bytes) returns (r: int)
    requires Has(mem[..], strtab, strs) && |strs| == tabsize && Terminated(strs) && 0 !in name
    ensures r >= 0 ==> Spells(strs, r, name) && CStr(strs, r) == name && forall o :: 0 <= o < r ==> CStr(strs, o) != name
    ensures r < 0 ==> r == -1 && forall o :: 0 <= o < |strs| ==> CStr(strs, o) != name
  {
    hide CStr, Terminated;
    var s := name + [0];
    var last := tabsize - |s|;
    var p := 0;
    while p <= last
      invariant 0 <= p
      invariant forall o :: 0 <= o < p && o < |strs| ==> CStr(strs, o) != name
    {
      SpellsIs(strs, p, name);
      SliceInside(mem[..], strtab, strs, p, p + |s|);
      assert mem[strtab + p..strtab + p + |s|] == strs[p..p + |s|];
      assert strs[p..p + |s|] == strs[p..p + |name|] + [strs[p + |name|]];
      if mem[strtab + p..strtab + p + |s|] == s {
        assert strs[p..p + |name|] == s[..|name|];
        assert strs[p + |name|] == s[|name|];
        return p;
      }
      assert !Spells(strs, p, name);
      p := p + 1;
    }
    forall o | 0 <= o < |strs| ensures CStr(strs, o) != name {
      SpellsIs(strs, o, name);
    }
    return -1;
  }

  /** strlen */
  method StrLenIn(mem: array<Byte>, p: int, ghost name: Bytes) returns (len: int)
    requires IsString(mem[..], p, name)
    ensures len == |name|
  {
    assert mem[p..p + |name|] == name;
    assert forall x :: 0 <= x < |name| ==> mem[p + x] == name[x] != 0;
    len := 0;
    while mem[p + len] != 0
      invariant 0 <= len <= |name|
      decreases |name| - len
    {
      len := len + 1;
    }
  }

  method PutBytes(mem: array<Byte>, at: int, b: Bytes)
    requires 0 <= at && at + |b| <= mem.Length
    modifies mem
    ensures mem[..] == Written(old(mem[..]), at, b)
  {
    forall i | 0 <= i < |b| {
      mem[at + i] := b[i];
    }
  }

  class Fdt {
    const buf: array<Byte>
    var h: Header

    /** What the blob holds: reservations, tokens, strings, and the forest that the tokens spell out. */
    ghost var rsv: seq<Reserve>
    ghost var ts: Tokens
    ghost var strs: Bytes
    ghost var forest: seq<Node>

    /** A blob that can be read. */
    ghost predicate Readable()
      reads this, buf
    {
      Holds(buf[..], h, rsv, ts, strs) && Reads(ts, strs, forest) && Current(h)
    }

    /** Blocks in place and in order, whatever the tokens say. */
    ghost predicate Framed()
      reads this, buf
    {
      Holds(buf[..], h, rsv, ts, strs) && Current(h) && Ordered(h, |rsv|) && h.totalSize <= buf.Length
    }

    /** A blob that can be edited. */
    ghost predicate Valid()
      reads this, buf
    {
      Framed() && Reads(ts, strs, forest)
    }

    /** A blob as fdt_finish or fdt_open_into leave it in its buffer. */
    constructor (bytes: array<Byte>, header: Header, ghost reserves: seq<Reserve>, ghost tokens: Tokens, ghost strings: Bytes, ghost trees: seq<Node>)
      requires Holds(bytes[..], header, reserves, tokens, strings) && Reads(tokens, strings, trees)
      requires Current(header) && Ordered(header, |reserves|) && header.totalSize <= bytes.Length
      ensures Valid() && buf == bytes && h == header && rsv == reserves && ts == tokens && strs == strings && forest == trees
    {
      buf, h := bytes, header;
      rsv, ts, strs, forest := reserves, tokens, strings, trees;
    }

    // ---- bytes ------------------------------------------------------------------------------

    lemma BodyInside()
      requires Readable()
      ensures AllFormed(ts) && |Enc(ts)| == h.sizeStruct && 0 <= h.offStruct && h.offStruct + h.sizeStruct <= buf.Length < 0x8000_0000
    {
      hide RsvOk, Enc, Reads;
    }

    lemma BodyAt(o: int)
      requires Readable() && 0 <= o < h.sizeStruct
      ensures |Enc(ts)| == h.sizeStruct && h.offStruct + o < buf.Length && buf[h.offStruct + o] == Enc(ts)[o]
    {
      hide RsvOk, Enc, Reads;
      assert buf[..][h.offStruct..h.offStruct + |Enc(ts)|][o] == Enc(ts)[o];
    }

    /** The word at offset o of the structure block. */
    method Word(o: int) returns (v: int)
      requires Readable() && 0 <= o && o + 4 <= h.sizeStruct
      ensures |Enc(ts)| == h.sizeStruct && v == Get32(Enc(ts), o)
    {
      hide RsvOk, Enc, Reads;
      BodyAt(o);
      BodyAt(o + 1);
      BodyAt(o + 2);
      BodyAt(o + 3);
      var at := h.offStruct + o;
      v := Get32(buf[..], at);
    }

    /** fdt_next_tag. The test of fdt_offset_ptr is unsigned, and refuses every negative offset. */
    method NextTag(start: int) returns (tag: int, next: int)
      requires Readable() && -0x8000_0000 <= start
      ensures |Enc(ts)| == h.sizeStruct
      ensures if start < 0 then tag == END && next == -ERR_TRUNCATED else (tag, next) == TagAt(Enc(ts), start)
    {
      hide Enc, AllFormed, Reads, RsvOk, TagAt, RsvBytes;
      if start < 0 {
        NegativeRefused(start, 4, h.sizeStruct);
        if Refused(start, 4, h.sizeStruct) {
          return END, -ERR_TRUNCATED;
        }
      }
      tag, next := NextTagIn(buf, h.offStruct, h.sizeStruct, start, Enc(ts));
    }

    /** fdt_next_tag at a token. */
    lemma TagHere(i: int)
      requires Readable() && 0 <= i < |ts|
      ensures AllFormed(ts) && 0 <= Offset(ts, i) < Offset(ts, i + 1) <= |Enc(ts)| == h.sizeStruct < 0x8000_0000
      ensures TagAt(Enc(ts), Offset(ts, i)) == (TagOf(ts[i]), Offset(ts, i + 1))
    {
      BodyInside();
      hide Readable, AllFormed, Enc, Enc1;
      TagAtToken(ts, i);
      OffsetsGrow(ts, i, i + 1);
      OffsetsGrow(ts, i + 1, |ts|);
    }

    // ---- walking the nodes --------------------------------------------------------------------

    /** _fdt_check_node_offset */
    method CheckNodeOffset(offset: int) returns (r: int)
      requires Readable() && AllFormed(ts)
      ensures r == if offset < 0 || offset % 4 != 0 || TagAt(Enc(ts), offset).0 != BEGIN_NODE then -ERR_BADOFFSET else TagAt(Enc(ts), offset).1
      ensures Askable(ts, offset) && NodeTok(ts, offset) < 0 ==> r == -ERR_BADOFFSET
      ensures NodeTok(ts, offset) >= 0 ==> offset == Offset(ts, NodeTok(ts, offset)) && r == Offset(ts, NodeTok(ts, offset) + 1) > 0
    {
      hide Readable, TagAt, Enc, TokenAt, AllFormed, Offset;
      if offset < 0 || offset % 4 != 0 {
        TokenOnWord(ts, offset);
        return -ERR_BADOFFSET;
      }
      BodyInside();
      if Askable(ts, offset) { AskedTag(ts, offset); }
      if NodeTok(ts, offset) >= 0 {
        TokHere(offset);
        TagHere(NodeTok(ts, offset));
      }
      var tag, next := NextTag(offset);
      if tag != BEGIN_NODE {
        return -ERR_BADOFFSET;
      }
      return next;
    }

    /** _fdt_check_prop_offset */
    method CheckPropOffset(offset: int) returns (r: int)
      requires Readable() && AllFormed(ts) && Askable(ts, offset)
      ensures PropTok(ts, offset) < 0 ==> r == -ERR_BADOFFSET
      ensures PropTok(ts, offset) >= 0 ==> offset == Offset(ts, PropTok(ts, offset)) && r == Offset(ts, PropTok(ts, offset) + 1) > 0
    {
      hide Readable, TagAt, Enc, TokenAt, AllFormed, Offset;
      if offset < 0 || offset % 4 != 0 {
        TokenOnWord(ts, offset);
        return -ERR_BADOFFSET;
      }
      BodyInside();
      AskedTag(ts, offset);
      var tag, next := NextTag(offset);
      if tag != PROP {
        return -ERR_BADOFFSET;
      }
      TagHere(PropTok(ts, offset));
      return next;
    }

    /** What fdt_next_node reports: a node's offset, the offset past the end of a node, or an error. */
    ghost predicate Reports(s: Step, watch: bool, d: int, r: int, depth: int)
      reads this
      requires AllFormed(ts)
    {
      match s
      case Found(j, e) => 0 <= j < |ts| && r == Offset(ts, j) && (depth == if watch then e else d)
      case Past(j, e) => 0 <= j <= |ts| && r == Offset(ts, j) && depth == e
      case Ended => r == -ERR_NOTFOUND
    }

    /** fdt_next_node; without watch it is given no depth to keep. */
    method NextNode(offset: int, d: int, watch: bool) returns (r: int, depth: int)
      requires Readable() && AllFormed(ts) && Askable(ts, offset)
      ensures offset >= 0 && NodeTok(ts, offset) < 0 ==> r == -ERR_BADOFFSET && depth == d
      ensures offset < 0 || NodeTok(ts, offset) >= 0 ==>
        Reports(Scan(ts, if offset < 0 then 0 else NodeTok(ts, offset) + 1, d, watch), watch, d, r, depth)
    {
      hide Readable, TagAt, Enc, TokenAt, AllFormed, Offset, WellFormed;
      depth := d;
      var next := 0;
      if offset >= 0 {
        next := CheckNodeOffset(offset);
        if next < 0 {
          return next, depth;
        }
      }
      ghost var from := if offset < 0 then 0 else NodeTok(ts, offset) + 1;
      ghost var k, e := from, d;
      StartsInside(offset);
      var o, tag := next, NOP;
      while tag != BEGIN_NODE
        invariant tag != BEGIN_NODE ==> 0 <= k < |ts| && next == Offset(ts, k)
        invariant tag != BEGIN_NODE ==> Scan(ts, from, d, watch) == Scan(ts, k, e, watch)
        invariant tag == BEGIN_NODE ==> Scan(ts, from, d, watch) == Found(k, e) && 0 <= k < |ts| && o == Offset(ts, k)
        invariant depth == if watch then e else d
        decreases |ts| - k, tag != BEGIN_NODE
      {
        o := next;
        TagHere(k);
        tag, next := NextTag(o);
        match tag {
          case 1 =>
            if watch { depth := depth + 1; }
            e := e + 1;
          case 2 =>
            if watch {
              depth := depth - 1;
              if depth < 0 {
                return next, depth;
              }
            }
            e := e - 1;
            NextInside(k);
            k := k + 1;
          case 9 =>
            if next >= 0 || (next == -ERR_TRUNCATED && !watch) {
              return -ERR_NOTFOUND, depth;
            }
            return next, depth;
          case _ =>
            NextInside(k);
            k := k + 1;
        }
      }
      return o, depth;
    }

    lemma NextInside(k: int)
      requires Readable() && 0 <= k < |ts| && !ts[k].Stop?
      ensures k + 1 < |ts|
    {
    }

    lemma StartsInside(offset: int)
      requires Readable() && AllFormed(ts)
      ensures 0 < |ts| && Offset(ts, 0) == 0
      ensures NodeTok(ts, offset) >= 0 ==> NodeTok(ts, offset) + 1 < |ts|
    {
      assert ts[..0] == [];
    }

    /** _fdt_node_end_offset: just past the end of the node. A negative offset comes back as it is. */
    method NodeEndOffset(offset: int) returns (r: int, ghost j: int)
      requires Readable() && AllFormed(ts) && Askable(ts, offset)
      ensures offset < 0 ==> r == offset && NodeTok(ts, offset) < 0
      ensures offset >= 0 && NodeTok(ts, offset) < 0 ==> r == -ERR_BADOFFSET
      ensures NodeTok(ts, offset) >= 0 ==> Spans(ts, NodeTok(ts, offset), j) && 0 <= j < |ts| && r == Offset(ts, j) >= 0
    {
      hide Readable, Enc, AllFormed, Offset, WellFormed, Climbs, Spans, Scan, TokenAt, NodeTok;
      ghost var i := NodeTok(ts, offset);
      ghost var k := i;
      if offset < 0 { NegativeTok(offset); }
      r := offset;
      j := 0;
      var depth := 0;
      if i >= 0 {
        TokHere(offset);
        ClimbStart(ts, i);
      }
      while r >= 0 && depth >= 0
        invariant i < 0 ==> (r == offset && depth == 0) || (offset >= 0 && r == -ERR_BADOFFSET)
        invariant i >= 0 && depth >= 0 ==> Climbs(ts, i, k, depth) && k < |ts| && r == Offset(ts, k) && NodeTok(ts, r) == k && Askable(ts, r)
        invariant i >= 0 && depth < 0 ==> Spans(ts, i, j) && 0 <= j < |ts| && r == Offset(ts, j)
        invariant r < 0 ==> i < 0
        decreases |ts| - k, depth, r
      {
        if i >= 0 { EndStep(i, k, depth); }
        ghost var s := Scan(ts, if i < 0 then 0 else k + 1, depth, true);
        r, depth := NextNode(r, depth, true);
        if i >= 0 {
          if s.Found? { k := s.at; } else { j := s.at; }
        }
      }
    }

    lemma EndStep(i: int, k: int, d: int)
      requires Readable() && AllFormed(ts) && Climbs(ts, i, k, d)
      ensures k + 1 < |ts| && !Scan(ts, k + 1, d, true).Ended?
      ensures var s := Scan(ts, k + 1, d, true);
        s.Found? ==> k < s.at < |ts| && s.depth >= 0 && Climbs(ts, i, s.at, s.depth) && Askable(ts, Offset(ts, s.at)) && NodeTok(ts, Offset(ts, s.at)) == s.at && Offset(ts, s.at) >= 0
      ensures var s := Scan(ts, k + 1, d, true); s.Past? ==> s.depth < 0 && Spans(ts, i, s.at) && 0 <= s.at < |ts| && Offset(ts, s.at) >= 0
    {
      hide AllFormed, Offset, Spans, Scan, Enc, TokenAt;
      ClimbNeverEnds(ts, strs, forest, i, k, d);
      var s := Scan(ts, k + 1, d, true);
      if s.Found? {
        ClimbFound(ts, i, k, d);
        TokAt(ts, s.at);
      } else {
        ClimbPast(ts, i, k, d);
        ScanPast(ts, k + 1, d);
        SpanInside(ts, strs, forest, i, s.at);
      }
    }

    lemma TokHere(offset: int)
      requires Readable() && AllFormed(ts) && NodeTok(ts, offset) >= 0
      ensures offset == Offset(ts, NodeTok(ts, offset)) && IsNode(ts, NodeTok(ts, offset))
    {
      TokenAtFound(ts, offset);
    }

    lemma NegativeTok(offset: int)
      requires AllFormed(ts) && offset < 0
      ensures NodeTok(ts, offset) == -1
    {
      TokenOnWord(ts, offset);
    }
    // ---- properties ---------------------------------------------------------------------------

    /** strlen and memcmp on the strings block: is the string at stroffset this one? */
    method StringEq(stroffset: int, name: Bytes) returns (eq: bool)
      requires Readable() && 0 <= stroffset < |strs|
      ensures eq <==> CStr(strs, stroffset) == name
    {
      hide RsvOk, Enc, Reads, CStr;
      StringsInside();
      CStrFits(strs, stroffset);
      var p := h.offStrings + stroffset;
      assert buf[p..p + |CStr(strs, stroffset)|] == CStr(strs, stroffset) && buf[p + |CStr(strs, stroffset)|] == 0;
      var len := StrLenIn(buf, p, CStr(strs, stroffset));
      return len == |name| && buf[p..p + len] == name;
    }

    lemma StringsInside()
      requires Readable()
      ensures Terminated(strs) && |strs| == h.sizeStrings && 0 <= h.offStrings && h.offStrings + |strs| <= buf.Length
      ensures buf[h.offStrings..h.offStrings + |strs|] == strs
      ensures forall x, y :: 0 <= x <= y <= |strs| ==> buf[h.offStrings + x..h.offStrings + y] == strs[x..y]
    {
      hide RsvOk, Enc, AllFormed, Named, StopsOnce;
      var o := h.offStrings;
      assert buf[..][o..o + |strs|] == strs;
      forall x, y | 0 <= x <= y <= |strs| ensures buf[o + x..o + y] == strs[x..y] {
        SliceInside(buf[..], o, strs, x, y);
        assert buf[o + x..o + y] == buf[..][o + x..o + y];
      }
    }

    /** What _nextprop reports from token k on: the next property of the run, or why there is none. */
    ghost predicate PropReport(k: int, r: int)
      reads this
      requires AllFormed(ts) && 0 <= k <= |ts|
    {
      var q := NonNop(ts, k);
      if q < |ts| && ts[q].Prop? then r == Offset(ts, q)
      else r == if q < |ts| && !ts[q].Stop? then -ERR_NOTFOUND else -ERR_BADSTRUCTURE
    }

    /** _nextprop */
    method NextProp(start: int, ghost start_tok: int) returns (r: int)
      requires Readable() && AllFormed(ts) && 0 <= start_tok < |ts| && start == Offset(ts, start_tok)
      ensures PropReport(start_tok, r)
    {
      hide Readable, TagAt, Enc, AllFormed, Offset, WellFormed;
      ghost var k := start_tok;
      var offset, tag := start, NOP;
      while tag == NOP
        invariant tag == NOP ==> 0 <= k < |ts| && offset == Offset(ts, k) && NonNop(ts, start_tok) == NonNop(ts, k)
        invariant tag != NOP ==> 0 <= k < |ts| && NonNop(ts, start_tok) == k && !ts[k].Prop? && !ts[k].Stop?
        decreases |ts| - k, tag == NOP
      {
        TagHere(k);
        var next;
        tag, next := NextTag(offset);
        if tag == END {
          return if next >= 0 then -ERR_BADSTRUCTURE else next;
        } else if tag == PROP {
          return offset;
        }
        offset := next;
        if tag == NOP {
          NextInside(k);
          k := k + 1;
        }
      }
      return -ERR_NOTFOUND;
    }

    /** fdt_first_property_offset */
    method FirstPropertyOffset(nodeoffset: int) returns (r: int)
      requires Readable() && AllFormed(ts) && Askable(ts, nodeoffset)
      ensures NodeTok(ts, nodeoffset) < 0 ==> r == -ERR_BADOFFSET
      ensures NodeTok(ts, nodeoffset) >= 0 ==> PropReport(NodeTok(ts, nodeoffset) + 1, r)
    {
      hide Readable, AllFormed, Offset, Askable, TokenAt, PropReport;
      var offset := CheckNodeOffset(nodeoffset);
      if offset < 0 {
        return offset;
      }
      StartsInside(nodeoffset);
      r := NextProp(offset, NodeTok(ts, nodeoffset) + 1);
    }

    /** fdt_next_property_offset */
    method NextPropertyOffset(propoffset: int) returns (r: int)
      requires Readable() && AllFormed(ts) && Askable(ts, propoffset)
      ensures PropTok(ts, propoffset) < 0 ==> r == -ERR_BADOFFSET
      ensures PropTok(ts, propoffset) >= 0 ==> PropReport(PropTok(ts, propoffset) + 1, r)
    {
      hide Readable, AllFormed, Offset, Askable, TokenAt, PropReport;
      var offset := CheckPropOffset(propoffset);
      if offset < 0 {
        return offset;
      }
      NextInside(PropTok(ts, propoffset));
      r := NextProp(offset, PropTok(ts, propoffset) + 1);
    }

    /** fdt_get_property_by_offset: -1 and an error, or the offset and the length of its value. */
    method GetPropertyByOffset(offset: int) returns (at: int, len: int)
      requires Readable() && AllFormed(ts) && Askable(ts, offset)
      ensures PropTok(ts, offset) < 0 ==> at == -1 && len == -ERR_BADOFFSET
      ensures PropTok(ts, offset) >= 0 ==> at == offset == Offset(ts, PropTok(ts, offset)) && len == |ts[PropTok(ts, offset)].val|
    {
      hide Readable, AllFormed, Offset, Askable, TokenAt, Enc, Get32;
      var next := CheckPropOffset(offset);
      if next < 0 {
        return -1, next;
      }
      BodyInside();
      PropFields(ts, PropTok(ts, offset));
      len := Word(offset + 4);
      return offset, len;
    }

    /** The token that fdt_get_property finds: a property of the node with that name, or -1. */
    ghost function Sought(i: int, name: Bytes): (q: int)
      reads this
      requires IsNode(ts, i)
      ensures q == -1 || (i < q < |ts| && ts[q].Prop?)
    {
      FindProp(ts, strs, i + 1, name)
    }

    /** fdt_get_property_namelen */
    method GetProperty(nodeoffset: int, name: Bytes) returns (at: int, len: int)
      requires Readable() && AllFormed(ts) && Askable(ts, nodeoffset)
      ensures NodeTok(ts, nodeoffset) < 0 ==> at == -1 && len == -ERR_BADOFFSET
      ensures NodeTok(ts, nodeoffset) >= 0 ==>
        var q := Sought(NodeTok(ts, nodeoffset), name);
        if q < 0 then at == -1 && len == -ERR_NOTFOUND else at == Offset(ts, q) >= 0 && len == |ts[q].val|
    {
      hide Readable, AllFormed, Offset, Askable, TokenAt, Enc, Get32, CStr, WellFormed, PropTok, NodeTok, FindProp;
      ghost var i := NodeTok(ts, nodeoffset);
      var offset := FirstPropertyOffset(nodeoffset);
      ghost var k := i + 1;
      StartsInside(nodeoffset);
      while offset >= 0
        invariant i < 0 ==> offset == -ERR_BADOFFSET
        invariant i >= 0 ==> PropRun(ts, i, k) && k < |ts| && PropReport(k, offset)
        invariant i >= 0 ==> Sought(i, name) == FindProp(ts, strs, k, name)
        decreases |ts| - k
      {
        ghost var q := NonNop(ts, k);
        RunStep(i, k, name, offset);
        at, len := GetPropertyByOffset(offset);
        var nameoff := Word(offset + 8);
        var eq := StringEq(nameoff, name);
        if eq {
          return at, len;
        }
        offset := NextPropertyOffset(offset);
        NextInside(q);
        k := q + 1;
      }
      if i >= 0 { RunOver(i, k, name, offset); }
      return -1, offset;
    }

    lemma RunStep(i: int, k: int, name: Bytes, offset: int)
      requires Readable() && AllFormed(ts) && IsNode(ts, i) && PropRun(ts, i, k) && k < |ts| && PropReport(k, offset) && offset >= 0
      ensures var q := NonNop(ts, k); q + 1 < |ts| && ts[q].Prop? && PropRun(ts, i, q) && PropRun(ts, i, q + 1)
      ensures var q := NonNop(ts, k); offset == Offset(ts, q) && PropTok(ts, offset) == q && Askable(ts, offset)
      ensures FindProp(ts, strs, k, name) == if CStr(strs, ts[NonNop(ts, k)].nameoff) == name then NonNop(ts, k) else FindProp(ts, strs, NonNop(ts, k) + 1, name)
      ensures |Enc(ts)| == h.sizeStruct && offset + 12 <= h.sizeStruct
      ensures Get32(Enc(ts), offset + 8) == ts[NonNop(ts, k)].nameoff && 0 <= ts[NonNop(ts, k)].nameoff < |strs|
    {
      hide CStr, TokenAt, Get32, Enc, Offset;
      var q := NonNop(ts, k);
      FindPropSkips(ts, strs, k, name);
      NopRun(ts, i, k);
      NextInside(q);
      BodyInside();
      PropFields(ts, q);
      TokAt(ts, q);
      assert WellFormed(ts[q]);
    }

    lemma RunOver(i: int, k: int, name: Bytes, offset: int)
      requires Readable() && AllFormed(ts) && IsNode(ts, i) && PropRun(ts, i, k) && k < |ts| && PropReport(k, offset) && offset < 0
      ensures offset == -ERR_NOTFOUND && FindProp(ts, strs, k, name) == -1
    {
      hide CStr, TokenAt, Get32, Enc;
      var q := NonNop(ts, k);
      FindPropSkips(ts, strs, k, name);
      NopRun(ts, i, k);
      assert q < |ts| by { assert ts[|ts| - 1].Stop?; }
      PropRead(ts, strs, forest, i, q);
      OffsetsGrow(ts, 0, q);
    }
    // ---- moving and writing bytes -------------------------------------------------------------

    method MemMove(dst: int, src: int, n: int)
      requires 0 <= dst && 0 <= src && 0 <= n && dst + n <= buf.Length && src + n <= buf.Length
      modifies buf
      ensures buf[..] == Moved(old(buf[..]), dst, src, n)
    {
      MoveBytes(buf, dst, src, n);
    }

    method MemCpy(at: int, b: Bytes)
      requires 0 <= at && at + |b| <= buf.Length
      modifies buf
      ensures buf[..] == Written(old(buf[..]), at, b)
    {
      PutBytes(buf, at, b);
    }

    /** _fdt_rw_check_header: on any header; a blob with its blocks in order passes. */
    method RwCheckHeader() returns (err: int)
      modifies this`h
      ensures err == 0 <==> CheckHeader(old(h)) == 0 && old(h).version >= LAST_VERSION && !BlocksMisordered(old(h), 16, old(h).sizeStruct)
      ensures h == if err == 0 then old(h).(version := LAST_VERSION) else old(h)
      ensures old(Framed()) ==> err == 0 && Framed()
    {
      err := CheckHeader(h);
      if err != 0 {
        return;
      }
      if h.version < 17 {
        return -ERR_BADVERSION;
      }
      if BlocksMisordered(h, 16, h.sizeStruct) {
        return -ERR_BADLAYOUT;
      }
      if h.version > 17 {
        h := h.(version := 17);
      }
      return 0;
    }

    /** _fdt_splice: make the oldlen bytes at p into newlen bytes, moving what follows. */
    method Splice(p: int, oldlen: int, newlen: int) returns (err: int)
      requires 0 <= p && 0 <= oldlen && 0 <= newlen && DataSize(h) <= h.totalSize <= buf.Length
      modifies buf
      ensures err == if p + oldlen > DataSize(h) then -ERR_BADOFFSET else if DataSize(h) - oldlen + newlen > h.totalSize then -ERR_NOSPACE else 0
      ensures err != 0 ==> buf[..] == old(buf[..])
      ensures err == 0 ==> buf[..] == Moved(old(buf[..]), p + newlen, p + oldlen, DataSize(h) - p - oldlen)
    {
      var end := h.offStrings + h.sizeStrings;
      if p + oldlen < p || p + oldlen > end {
        return -ERR_BADOFFSET;
      }
      if end - oldlen + newlen > h.totalSize {
        return -ERR_NOSPACE;
      }
      MemMove(p + newlen, p + oldlen, end - p - oldlen);
      return 0;
    }

    /** _fdt_splice_struct */
    method SpliceStruct(p: int, oldlen: int, newlen: int) returns (err: int)
      requires 0 <= p && 0 <= oldlen && 0 <= newlen && p + oldlen <= DataSize(h) <= h.totalSize <= buf.Length
      modifies buf, this`h
      ensures err == if DataSize(old(h)) - oldlen + newlen > old(h).totalSize then -ERR_NOSPACE else 0
      ensures err != 0 ==> buf[..] == old(buf[..]) && h == old(h)
      ensures err == 0 ==> buf[..] == Moved(old(buf[..]), p + newlen, p + oldlen, DataSize(old(h)) - p - oldlen) && h == Resized(old(h), newlen - oldlen)
    {
      var delta := newlen - oldlen;
      err := Splice(p, oldlen, newlen);
      if err != 0 {
        return;
      }
      h := h.(sizeStruct := h.sizeStruct + delta);
      h := h.(offStrings := h.offStrings + delta);
    }

    /** The splice and the length word by which fdt_setprop and fdt_appendprop give the property at
        token q a value of length len. What the value keeps of its old bytes it keeps in place. */
    method ResizeAt(at: int, len: int, ghost q: int) returns (err: int)
      requires Framed() && AllFormed(ts) && 0 <= q < |ts| && ts[q].Prop? && at == Offset(ts, q) && 0 <= len
      modifies buf, this`h, this`ts
      ensures err == if DataSize(old(h)) - Align4(|old(ts)[q].val|) + Align4(len) > old(h).totalSize then -ERR_NOSPACE else 0
      ensures err != 0 ==> buf[..] == old(buf[..]) && h == old(h) && ts == old(ts)
      ensures err == 0 ==> Framed() && AllFormed(ts) && Revalued(old(ts), ts, q) && |ts[q].val| == len
      ensures err == 0 ==> forall k :: 0 <= k < len && k < |old(ts)[q].val| ==> ts[q].val[k] == old(ts)[q].val[k]
      ensures err == 0 ==> h == Resized(old(h), Align4(len) - Align4(|old(ts)[q].val|)) && at == Offset(ts, q)
    {
      hide Holds, Ordered, Moved, Written, Offset, AllFormed, Put32, Enc, ResizedBytes;
      ghost var s := buf[..];
      var oldlen := Length(at, q);
      ResizeRoom(q, len);
      var p := h.offStruct + at + 12;
      err := SpliceStruct(p, Align4(oldlen), Align4(len));
      if err != 0 {
        return;
      }
      PropResized(s, old(h), rsv, ts, strs, q, len);
      MemCpy(p - 8, Put32(len));
      assert buf[..] == ResizedBytes(s, old(h), ts, q, len) by { ResizedIs(s, old(h), ts, q, len); }
      ts := ts[q := PropFrom(buf[..], p, ts[q].nameoff, len)];
      SameOffset(old(ts), ts, q);
    }

    /** The length of the value of the property at token q. */
    method Length(at: int, ghost q: int) returns (len: int)
      requires Framed() && AllFormed(ts) && 0 <= q < |ts| && ts[q].Prop? && at == Offset(ts, q)
      ensures len == |ts[q].val|
    {
      hide RsvOk, AllFormed, Enc, Get32, Ordered;
      PropFields(ts, q);
      var b := h.offStruct + at + 4;
      Get32Inside(buf[..], h.offStruct, Enc(ts), at + 4);
      len := Get32(buf[..], b);
    }

    lemma ResizeRoom(q: int, len: int)
      requires Framed() && AllFormed(ts) && 0 <= q < |ts| && ts[q].Prop? && 0 <= len
      ensures buf.Length < 0x8000_0000 && 0 <= h.offStruct && DataSize(h) <= h.totalSize <= buf.Length
      ensures 0 <= Offset(ts, q) && h.offStruct + Offset(ts, q) + 12 + Align4(|ts[q].val|) <= DataSize(h)
      ensures DataSize(h) - Align4(|ts[q].val|) + Align4(len) <= h.totalSize ==> ResizeFits(buf[..], h, ts, q, len)
    {
      hide RsvOk, Enc, Enc1, AllFormed;
      FormedAt(ts, q);
      TokenHas(buf[..], h, rsv, ts, strs, q);
      PropSize(ts[q]);
    }

    /** The copy of bytes into the value of the property at token q, from its byte from on. */
    method PutValue(at: int, from: int, b: Bytes, ghost q: int)
      requires Framed() && AllFormed(ts) && 0 <= q < |ts| && ts[q].Prop? && at == Offset(ts, q) && 0 <= from && from + |b| <= |ts[q].val|
      modifies buf, this`ts
      ensures Framed() && AllFormed(ts) && ts == old(ts)[q := old(ts)[q].(val := Written(old(ts)[q].val, from, b))]
    {
      hide Holds, Ordered, Written, Offset, AllFormed;
      PropPatched(buf[..], h, rsv, ts, strs, q, from, b);
      MemCpy(h.offStruct + at + 12 + from, b);
      ts := ts[q := ts[q].(val := Written(ts[q].val, from, b))];
    }

    // ---- strings ------------------------------------------------------------------------------

    /** _fdt_find_string: the first place in the strings block that spells the name, or -1. */
    method FindString(name: Bytes) returns (r: int)
      requires Readable() && 0 !in name
      ensures r >= 0 ==> Spells(strs, r, name) && CStr(strs, r) == name && forall o :: 0 <= o < r ==> CStr(strs, o) != name
      ensures r < 0 ==> r == -1 && forall o :: 0 <= o < |strs| ==> CStr(strs, o) != name
    {
      hide Enc, AllFormed, RsvOk, RsvBytes, CStr, Items, Named, StopsOnce;
      r := FindStringIn(buf, h.offStrings, h.sizeStrings, name, strs);
    }

    /** _fdt_splice_string */
    method SpliceString(newlen: int) returns (err: int)
      requires 0 <= newlen && 0 <= DataSize(h) <= h.totalSize <= buf.Length
      modifies buf, this`h
      ensures err == if DataSize(old(h)) + newlen > h.totalSize then -ERR_NOSPACE else 0
      ensures err != 0 ==> h == old(h)
      ensures err == 0 ==> h == old(h).(sizeStrings := old(h).sizeStrings + newlen)
      ensures buf[..] == old(buf[..])
    {
      var p := h.offStrings + h.sizeStrings;
      err := Splice(p, 0, newlen);
      if err != 0 {
        return;
      }
      assert buf[..] == old(buf[..]);
      h := h.(sizeStrings := h.sizeStrings + newlen);
    }

    /** _fdt_find_add_string: where the name stands in the strings block, added at the end if need be. */
    method FindAddString(name: Bytes) returns (r: int)
      requires Valid() && 0 !in name
      modifies buf, this`h, this`strs
      ensures Valid() && h == old(h).(sizeStrings := h.sizeStrings)
      ensures Spelt(old(strs), name) ==> r >= 0 && h == old(h) && strs == old(strs) && buf[..] == old(buf[..])
      ensures !Spelt(old(strs), name) && DataSize(old(h)) + |name| + 1 > old(h).totalSize ==>
        r == -ERR_NOSPACE && h == old(h) && strs == old(strs) && buf[..] == old(buf[..])
      ensures !Spelt(old(strs), name) && DataSize(old(h)) + |name| + 1 <= old(h).totalSize ==>
        r == |old(strs)| && strs == old(strs) + (name + [0]) && h.sizeStrings == old(h).sizeStrings + |name| + 1
      ensures r >= 0 ==> r < |strs| && CStr(strs, r) == name
    {
      hide Holds, Reads, CStr, Written, Ordered, AllFormed, Spells;
      r := FindString(name);
      if r >= 0 {
        assert Spells(strs, r, name);
        SpellsInside(strs, r, name);
        return;
      }
      ReadsFormed();
      ghost var b := name + [0];
      SpellsAdded(strs, name);
      EndsInside();
      var at := h.offStrings + h.sizeStrings;
      var err := SpliceString(|name| + 1);
      if err != 0 {
        return err;
      }
      StringAdded(buf[..], old(h), rsv, ts, strs, name + [0]);
      StringsAdded(ts, strs, forest, name + [0]);
      MemCpy(at, name + [0]);
      SpellsIs(strs + (name + [0]), |strs|, name);
      r := at - h.offStrings;
      strs := strs + (name + [0]);
    }

    lemma ReadsFormed()
      requires Readable()
      ensures AllFormed(ts)
    {
    }

    lemma EndsInside()
      requires Framed()
      ensures 0 <= DataSize(h) <= h.totalSize <= buf.Length && |strs| == h.sizeStrings && 0 <= h.offStrings
    {
    }
    // ---- editing properties -------------------------------------------------------------------

    /** _fdt_resize_property */
    method ResizeProperty(nodeoffset: int, name: Bytes, len: int) returns (err: int, at: int)
      requires Valid() && AllFormed(ts) && Askable(ts, nodeoffset) && 0 <= len
      modifies buf, this`h, this`ts
      ensures Framed() && AllFormed(ts) && h == old(h).(sizeStruct := h.sizeStruct, offStrings := h.offStrings)
      ensures NodeTok(old(ts), nodeoffset) < 0 ==> err == -ERR_BADOFFSET
      ensures NodeTok(old(ts), nodeoffset) >= 0 && FindProp(old(ts), strs, NodeTok(old(ts), nodeoffset) + 1, name) < 0 ==> err == -ERR_NOTFOUND
      ensures NodeTok(old(ts), nodeoffset) >= 0 && FindProp(old(ts), strs, NodeTok(old(ts), nodeoffset) + 1, name) >= 0 ==>
        var q := FindProp(old(ts), strs, NodeTok(old(ts), nodeoffset) + 1, name);
        err == (if DataSize(old(h)) + Align4(len) - Align4(|old(ts)[q].val|) <= old(h).totalSize then 0 else -ERR_NOSPACE)
        && (err == 0 ==> Revalued(old(ts), ts, q) && |ts[q].val| == len && at == Offset(ts, q))
      ensures err != 0 ==> h == old(h) && ts == old(ts) && buf[..] == old(buf[..])
    {
      hide Holds, Ordered, Reads, Offset, AllFormed, FindProp, Askable, NodeTok;
      var oldlen;
      at, oldlen := GetProperty(nodeoffset, name);
      if at < 0 {
        return oldlen, at;
      }
      ghost var q := Sought(NodeTok(ts, nodeoffset), name);
      err := ResizeAt(at, len, q);
    }

    lemma SameOffset(ts: Tokens, us: Tokens, q: int)
      requires AllFormed(ts) && AllFormed(us) && 0 <= q <= |ts| && q <= |us| && us[..q] == ts[..q]
      ensures Offset(us, q) == Offset(ts, q)
    {
    }

    /** _fdt_add_property: a property of that name, with any value of len bytes, in front of the others. */
    method AddProperty(nodeoffset: int, name: Bytes, len: int) returns (err: int, at: int)
      requires Valid() && AllFormed(ts) && Askable(ts, nodeoffset) && 0 <= len && 0 !in name
      modifies buf, this`h, this`ts, this`strs
      ensures NodeTok(old(ts), nodeoffset) < 0 ==> err == -ERR_BADOFFSET
      ensures NodeTok(old(ts), nodeoffset) >= 0 ==>
        err == if DataSize(old(h)) + AddCost(old(strs), name, len) <= old(h).totalSize then 0 else -ERR_NOSPACE
      ensures err != 0 ==> Valid() && ts == old(ts)
      ensures err == 0 ==> Framed() && AllFormed(ts) && Reads(old(ts), strs, forest)
      ensures err == 0 ==>
        var q := NodeTok(old(ts), nodeoffset) + 1;
        q > 0 && Inserted(old(ts), ts, q) && at == Offset(ts, q) && |ts[q].val| == len && ts[q].nameoff < |strs| && CStr(strs, ts[q].nameoff) == name
      ensures strs == old(strs) || strs == old(strs) + (name + [0])
      ensures h.totalSize == old(h).totalSize
    {
      hide Holds, Ordered, Reads, Offset, AllFormed, FindProp, Askable, NodeTok, CStr, Spelt, Written, Moved, Put32;
      var next := CheckNodeOffset(nodeoffset);
      if next < 0 {
        return next, -1;
      }
      ghost var i := NodeTok(ts, nodeoffset);
      StartsInside(nodeoffset);
      var namestroff := FindAddString(name);
      if namestroff < 0 {
        return namestroff, -1;
      }
      err, at := AddPropertyAt(next, namestroff, len, i + 1);
    }

    method AddPropertyAt(next: int, nameoff: int, len: int, ghost q: int) returns (err: int, at: int)
      requires Framed() && AllFormed(ts) && 0 <= q <= |ts| && next == Offset(ts, q) && 0 <= nameoff < |strs| && 0 <= len
      modifies buf, this`h, this`ts
      ensures err == if DataSize(old(h)) + 12 + Align4(len) <= old(h).totalSize then 0 else -ERR_NOSPACE
      ensures Framed() && AllFormed(ts) && at == next && h.totalSize == old(h).totalSize
      ensures err != 0 ==> ts == old(ts)
      ensures err == 0 ==> Inserted(old(ts), ts, q) && |ts[q].val| == len && ts[q].nameoff == nameoff && at == Offset(ts, q)
    {
      hide Holds, Ordered, Offset, AllFormed, Written, Moved, Put32, AddedBytes;
      ghost var s := buf[..];
      at := next;
      AddRoom(q, nameoff);
      var p := h.offStruct + next;
      err := SpliceStruct(p, 0, 12 + Align4(len));
      if err != 0 {
        return;
      }
      PropAdded(s, old(h), rsv, ts, strs, q, nameoff, len);
      MemCpy(p, Put32(PROP));
      MemCpy(p + 8, Put32(nameoff));
      MemCpy(p + 4, Put32(len));
      assert buf[..] == AddedBytes(s, p, DataSize(old(h)), nameoff, len) by { AddedIs(s, p, DataSize(old(h)), nameoff, len); }
      ghost var tok := PropFrom(buf[..], p + 12, nameoff, len);
      ts := Cut(ts, q, q, [tok]);
      SameOffset(old(ts), ts, q);
    }

    lemma AddRoom(q: int, nameoff: int)
      requires Framed() && AllFormed(ts) && 0 <= q <= |ts| && 0 <= nameoff < |strs|
      ensures buf.Length < 0x8000_0000 && 0 <= h.offStruct && 0 <= Offset(ts, q) && h.offStruct + Offset(ts, q) <= DataSize(h) <= h.totalSize <= buf.Length
      ensures nameoff < TWO32
    {
      hide RsvOk, Enc, AllFormed;
      OffsetInside(buf[..], h, rsv, ts, strs, q);
    }

    /** fdt_setprop */
    method SetProp(nodeoffset: int, name: Bytes, val: Bytes) returns (err: int)
      requires Valid() && AllFormed(ts) && Askable(ts, nodeoffset) && 0 !in name
      modifies this, buf
      ensures Valid() && AllFormed(ts) && rsv == old(rsv) && h.totalSize == old(h).totalSize
      ensures NodeTok(old(ts), nodeoffset) < 0 ==> err == -ERR_BADOFFSET
      ensures NodeTok(old(ts), nodeoffset) >= 0 ==>
        err == if DataSize(old(h)) + SetCost(old(ts), old(strs), NodeTok(old(ts), nodeoffset), name, |val|) <= old(h).totalSize then 0 else -ERR_NOSPACE
      ensures err != 0 ==> ts == old(ts) && forest == old(forest)
      ensures err == 0 ==>
        var i := NodeTok(old(ts), nodeoffset);
        i >= 0 && NowReads(old(ts), old(strs), old(forest), i, ts, strs, forest, PutProp(NodeOf(old(ts), old(strs), old(forest), i), name, val))
    {
      hide Holds, Ordered, Reads, Offset, AllFormed, FindProp, Askable, NodeTok, CStr, Spelt, Replace, PathAt, PutProp, NodeOf, Written, NowReads;
      err := RwCheckHeader();
      ghost var i := NodeTok(ts, nodeoffset);
      ghost var q := if i >= 0 then FindProp(ts, strs, i + 1, name) else -1;
      var at;
      err, at := ResizeProperty(nodeoffset, name, |val|);
      if err == -ERR_NOTFOUND {
        err, at := AddProperty(nodeoffset, name, |val|);
        q := i + 1;
      }
      if err != 0 {
        return;
      }
      AssignedNow(old(ts), old(strs), forest, i, name, q, ts, strs);
      ghost var us := ts;
      PatchedWhole(ts[q].val, val);
      PutValue(at, 0, val, q);
      AssignedValue(old(ts), old(strs), forest, i, name, q, us, strs, val, ts);
      AssignedNow(old(ts), old(strs), forest, i, name, q, ts, strs);
      forest := Replace(forest, PathAt(old(ts), old(strs), forest, i), [PutProp(NodeOf(old(ts), old(strs), forest, i), name, val)]);
    }

    /** fdt_appendprop */
    method AppendProp(nodeoffset: int, name: Bytes, val: Bytes) returns (err: int)
      requires Valid() && AllFormed(ts) && Askable(ts, nodeoffset) && 0 !in name
      modifies this, buf
      ensures Valid() && AllFormed(ts) && rsv == old(rsv) && h.totalSize == old(h).totalSize
      ensures NodeTok(old(ts), nodeoffset) < 0 ==> err == -ERR_BADOFFSET
      ensures NodeTok(old(ts), nodeoffset) >= 0 ==>
        err == if DataSize(old(h)) + AppendCost(old(ts), old(strs), NodeTok(old(ts), nodeoffset), name, |val|) <= old(h).totalSize then 0 else -ERR_NOSPACE
      ensures err != 0 ==> ts == old(ts) && forest == old(forest)
      ensures err == 0 ==>
        var i := NodeTok(old(ts), nodeoffset);
        i >= 0 && var n := NodeOf(old(ts), old(strs), old(forest), i); NowReads(old(ts), old(strs), old(forest), i, ts, strs, forest, PutProp(n, name, ValueOf(n, name) + val))
    {
      hide Holds, Ordered, Reads, Offset, AllFormed, FindProp, Askable, NodeTok, CStr, Spelt, Replace, PathAt, PutProp, NodeOf, Written, NowReads, ValueOf, Lookup;
      err := RwCheckHeader();
      ghost var i := NodeTok(ts, nodeoffset);
      ghost var q := if i >= 0 then FindProp(ts, strs, i + 1, name) else -1;
      var at, oldlen := GetProperty(nodeoffset, name);
      if at >= 0 {
        err := ResizeAt(at, oldlen + |val|, q);
        if err != 0 {
          return;
        }
      } else {
        oldlen := 0;
        err, at := AddProperty(nodeoffset, name, |val|);
        q := i + 1;
        if err != 0 {
          return;
        }
      }
      AssignedNow(old(ts), old(strs), forest, i, name, q, ts, strs);
      ghost var us, v := ts, if FindProp(old(ts), old(strs), i + 1, name) >= 0 then old(ts)[q].val else [];
      ValueAt(old(ts), old(strs), forest, i, name);
      PatchedEnd(ts[q].val, v, val);
      PutValue(at, oldlen, val, q);
      AssignedValue(old(ts), old(strs), forest, i, name, q, us, strs, v + val, ts);
      AssignedNow(old(ts), old(strs), forest, i, name, q, ts, strs);
      forest := Replace(forest, PathAt(old(ts), old(strs), forest, i), [PutProp(NodeOf(old(ts), old(strs), forest, i), name, v + val)]);
    }

    /** fdt_delprop */
    method DelProp(nodeoffset: int, name: Bytes) returns (err: int)
      requires Valid() && AllFormed(ts) && Askable(ts, nodeoffset)
      modifies this, buf
      ensures Valid() && AllFormed(ts) && rsv == old(rsv) && strs == old(strs) && h.totalSize == old(h).totalSize
      ensures NodeTok(old(ts), nodeoffset) < 0 ==> err == -ERR_BADOFFSET
      ensures NodeTok(old(ts), nodeoffset) >= 0 ==>
        err == if Index(NodeOf(old(ts), old(strs), old(forest), NodeTok(old(ts), nodeoffset)).props, name) >= 0 then 0 else -ERR_NOTFOUND
      ensures err != 0 ==> ts == old(ts) && forest == old(forest)
      ensures err == 0 ==>
        var i := NodeTok(old(ts), nodeoffset);
        var n := NodeOf(old(ts), old(strs), old(forest), i);
        i >= 0 && Index(n.props, name) >= 0 && NowReads(old(ts), old(strs), old(forest), i, ts, strs, forest, DropProp(n, name))
    {
      hide Holds, Ordered, Reads, Offset, AllFormed, FindProp, Askable, NodeTok, CStr, Replace, PathAt, DropProp, NodeOf, NowReads, Cut, Moved, Lookup, ValueOf;
      err := RwCheckHeader();
      ghost var i := NodeTok(ts, nodeoffset);
      var at, len := GetProperty(nodeoffset, name);
      if i >= 0 { IndexOf(i, name); }
      if at < 0 {
        return len;
      }
      ghost var q, s, g := FindProp(ts, strs, i + 1, name), buf[..], h;
      PropEnd(q);
      CutOut(s, h, rsv, ts, strs, q, q + 1);
      var proplen := 12 + Align4(len);
      EndsInside();
      NoTokens();
      err := SpliceStruct(h.offStruct + at, proplen, 0);
      Drop(ts, strs, forest, i, name, q, []);
      ts := Cut(ts, q, q + 1, []);
      forest := Replace(forest, PathAt(old(ts), strs, forest, i), [DropProp(NodeOf(old(ts), strs, forest, i), name)]);
      NowValid(old(ts), old(strs), old(forest), i, ts, strs, forest, DropProp(NodeOf(old(ts), strs, old(forest), i), name));
    }

    lemma NowValid(ts: Tokens, strs: Bytes, f: seq<Node>, i: int, us: Tokens, strs': Bytes, g: seq<Node>, m: Node)
      requires AllFormed(ts) && AllFormed(us) && IsNode(ts, i) && NowReads(ts, strs, f, i, us, strs', g, m)
      ensures Reads(us, strs', g)
    {
    }

    lemma IndexOf(i: int, name: Bytes)
      requires Readable() && IsNode(ts, i)
      ensures FindProp(ts, strs, i + 1, name) >= 0 <==> Index(NodeOf(ts, strs, forest, i).props, name) >= 0
    {
      ValueAt(ts, strs, forest, i, name);
    }

    lemma PropEnd(q: int)
      requires Readable() && AllFormed(ts) && 0 <= q < |ts| && ts[q].Prop?
      ensures Offset(ts, q + 1) == Offset(ts, q) + 12 + Align4(|ts[q].val|)
    {
      hide Readable, Enc, Enc1, Offset;
      FormedAt(ts, q);
      OffsetStep(ts, q);
      PropSize(ts[q]);
    }

    // ---- editing nodes --------------------------------------------------------------------------

    /** fdt_del_node */
    method DelNode(nodeoffset: int) returns (err: int)
      requires Valid() && AllFormed(ts) && Askable(ts, nodeoffset)
      modifies this, buf
      ensures Valid() && AllFormed(ts) && rsv == old(rsv) && strs == old(strs) && h.totalSize == old(h).totalSize
      ensures nodeoffset < 0 ==> err == nodeoffset
      ensures nodeoffset >= 0 ==> err == if NodeTok(old(ts), nodeoffset) >= 0 then 0 else -ERR_BADOFFSET
      ensures err != 0 ==> ts == old(ts) && forest == old(forest)
      ensures err == 0 ==>
        var i := NodeTok(old(ts), nodeoffset);
        i >= 0 && var p := PathAt(old(ts), strs, old(forest), i); IsPath(old(forest), p) && forest == Replace(old(forest), p, [])
    {
      hide Holds, Ordered, Reads, Offset, AllFormed, Askable, NodeTok, Replace, PathAt, IsPath, Cut, Moved, Spans;
      err := RwCheckHeader();
      ghost var i, s := NodeTok(ts, nodeoffset), buf[..];
      var endoffset;
      ghost var j;
      endoffset, j := NodeEndOffset(nodeoffset);
      if endoffset < 0 {
        return endoffset;
      }
      TokHere(nodeoffset);
      SpanForward(i, j);
      CutOut(s, h, rsv, ts, strs, i, j);
      EndsInside();
      NoTokens();
      err := SpliceStruct(h.offStruct + nodeoffset, endoffset - nodeoffset, 0);
      NodeCut(ts, strs, forest, i, j, []);
      ts := Cut(ts, i, j, []);
      forest := Replace(forest, PathAt(old(ts), strs, forest, i), []);
    }

    lemma SpanForward(i: int, j: int)
      requires AllFormed(ts) && Spans(ts, i, j)
      ensures 0 <= i < j <= |ts| && Offset(ts, i) < Offset(ts, j)
    {
      OffsetsGrow(ts, i, j);
    }
    // ---- editing in place -----------------------------------------------------------------------

    /** _fdt_nop_region */
    method NopRegion(start: int, len: int)
      requires 0 <= start && 0 <= len && start + (len + 3) / 4 * 4 <= buf.Length
      modifies buf
      ensures SameOutside(old(buf[..]), buf[..], start, start + (len + 3) / 4 * 4)
      ensures forall k :: 0 <= k < (len + 3) / 4 ==> Has(buf[..], start + 4 * k, Put32(NOP))
    {
      hide Put32, Has, SameOutside, Written;
      ghost var to := start + (len + 3) / 4 * 4;
      SameSelf(buf[..], start, to);
      var p, n := start, 0;
      while p < start + len
        invariant p == start + 4 * n && 0 <= n <= (len + 3) / 4
        invariant SameOutside(old(buf[..]), buf[..], start, to)
        invariant forall k :: 0 <= k < n ==> Has(buf[..], start + 4 * k, Put32(NOP))
      {
        ghost var s := buf[..];
        WrittenInside(old(buf[..]), s, start, to, p, Put32(NOP));
        WrittenHas(s, p, Put32(NOP));
        forall k | 0 <= k < n ensures Has(Written(s, p, Put32(NOP)), start + 4 * k, Put32(NOP)) {
          WrittenKeeps(s, p, Put32(NOP), start + 4 * k, Put32(NOP));
        }
        MemCpy(p, Put32(NOP));
        p, n := p + 4, n + 1;
      }
    }

    /** fdt_nop_node: the same forest that fdt_del_node leaves, without moving anything. */
    method NopNode(nodeoffset: int) returns (err: int, ghost end: int)
      requires Valid() && AllFormed(ts) && Askable(ts, nodeoffset)
      modifies buf, this`ts, this`forest
      ensures Valid() && AllFormed(ts)
      ensures nodeoffset < 0 ==> err == nodeoffset
      ensures nodeoffset >= 0 ==> err == if NodeTok(old(ts), nodeoffset) >= 0 then 0 else -ERR_BADOFFSET
      ensures err != 0 ==> ts == old(ts) && forest == old(forest)
      ensures err == 0 ==>
        var i := NodeTok(old(ts), nodeoffset);
        i >= 0 && var p := PathAt(old(ts), strs, old(forest), i); IsPath(old(forest), p) && forest == Replace(old(forest), p, [])
      ensures err != 0 ==> buf[..] == old(buf[..])
      ensures err == 0 ==> Spans(old(ts), NodeTok(old(ts), nodeoffset), end)
      ensures err == 0 ==> SameOutside(old(buf[..]), buf[..], h.offStruct + nodeoffset, h.offStruct + Offset(old(ts), end))
    {
      hide Holds, Ordered, Reads, Offset, AllFormed, Askable, NodeTok, Replace, PathAt, IsPath, Cut, Spans, Has, SameOutside, Nops, Put32;
      ghost var i, s := NodeTok(ts, nodeoffset), buf[..];
      var endoffset;
      endoffset, end := NodeEndOffset(nodeoffset);
      if endoffset < 0 {
        return endoffset, end;
      }
      ghost var j := end;
      TokHere(nodeoffset);
      SpanForward(i, j);
      ghost var n := WordsBetween(i, j);
      EndsInside();
      NopRegion(h.offStruct + nodeoffset, endoffset - nodeoffset);
      NoppedOut(s, buf[..], h, rsv, ts, strs, i, j, n);
      NodeCut(ts, strs, forest, i, j, Nops(n));
      ts := Cut(ts, i, j, Nops(n));
      forest := Replace(forest, PathAt(old(ts), strs, forest, i), []);
      return 0, end;
    }

    lemma WordsBetween(q: int, r: int) returns (n: int)
      requires Framed() && AllFormed(ts) && 0 <= q <= r <= |ts|
      ensures 0 <= n && Offset(ts, q) + 4 * n == Offset(ts, r) && (Offset(ts, r) - Offset(ts, q) + 3) / 4 == n
      ensures 0 <= h.offStruct + Offset(ts, q) && h.offStruct + Offset(ts, r) <= buf.Length
    {
      hide Offset, AllFormed, Holds, Enc, OnWord;
      OffsetAligned(ts, q);
      OffsetAligned(ts, r);
      OffsetsGrow(ts, q, r);
      OffsetInside(buf[..], h, rsv, ts, strs, r);
      OffsetInside(buf[..], h, rsv, ts, strs, q);
      n := (Offset(ts, r) - Offset(ts, q)) / 4;
      WordCount(Offset(ts, q), Offset(ts, r));
    }

    lemma WordCount(a: int, b: int)
      requires OnWord(a) && OnWord(b) && a <= b
      ensures a + 4 * ((b - a) / 4) == b && (b - a + 3) / 4 == (b - a) / 4
    {
    }

    /** fdt_nop_property */
    method NopProperty(nodeoffset: int, name: Bytes) returns (err: int)
      requires Valid() && AllFormed(ts) && Askable(ts, nodeoffset)
      modifies buf, this`ts, this`forest
      ensures Valid() && AllFormed(ts)
      ensures NodeTok(old(ts), nodeoffset) < 0 ==> err == -ERR_BADOFFSET
      ensures NodeTok(old(ts), nodeoffset) >= 0 ==>
        err == if Index(NodeOf(old(ts), strs, old(forest), NodeTok(old(ts), nodeoffset)).props, name) >= 0 then 0 else -ERR_NOTFOUND
      ensures err != 0 ==> ts == old(ts) && forest == old(forest)
      ensures err == 0 ==>
        var i := NodeTok(old(ts), nodeoffset);
        var n := NodeOf(old(ts), strs, old(forest), i);
        i >= 0 && Index(n.props, name) >= 0 && NowReads(old(ts), strs, old(forest), i, ts, strs, forest, DropProp(n, name))
    {
      hide Holds, Ordered, Reads, Offset, AllFormed, FindProp, Askable, NodeTok, CStr, Replace, PathAt, DropProp, NodeOf, NowReads, Cut, Lookup, ValueOf, Has, SameOutside, Nops, Put32;
      ghost var i := NodeTok(ts, nodeoffset);
      var at, len := GetProperty(nodeoffset, name);
      if i >= 0 { IndexOf(i, name); }
      if at < 0 {
        return len;
      }
      ghost var q, s := FindProp(ts, strs, i + 1, name), buf[..];
      PropEnd(q);
      ghost var n := WordsBetween(q, q + 1);
      WholeWords(len);
      NopRegion(h.offStruct + at, len + 12);
      NoppedOut(s, buf[..], h, rsv, ts, strs, q, q + 1, n);
      Drop(ts, strs, forest, i, name, q, Nops(n));
      ts := Cut(ts, q, q + 1, Nops(n));
      forest := Replace(forest, PathAt(old(ts), strs, forest, i), [DropProp(NodeOf(old(ts), strs, forest, i), name)]);
      NowValid(old(ts), strs, old(forest), i, ts, strs, forest, DropProp(NodeOf(old(ts), strs, old(forest), i), name));
      return 0;
    }

    lemma WholeWords(len: int)
      ensures (len + 12 + 3) / 4 == (12 + Align4(len) + 3) / 4
    {
    }

    /** fdt_setprop_inplace */
    method SetPropInplace(nodeoffset: int, name: Bytes, val: Bytes) returns (err: int)
      requires Valid() && AllFormed(ts) && Askable(ts, nodeoffset)
      modifies buf, this`ts, this`forest
      ensures Valid() && AllFormed(ts)
      ensures NodeTok(old(ts), nodeoffset) < 0 ==> err == -ERR_BADOFFSET
      ensures NodeTok(old(ts), nodeoffset) >= 0 ==>
        err == match Lookup(NodeOf(old(ts), strs, old(forest), NodeTok(old(ts), nodeoffset)), name)
          case None => -ERR_NOTFOUND
          case Some(v) => if |v| == |val| then 0 else -ERR_NOSPACE
      ensures err != 0 ==> ts == old(ts) && forest == old(forest)
      ensures err == 0 ==>
        var i := NodeTok(old(ts), nodeoffset);
        i >= 0 && NowReads(old(ts), strs, old(forest), i, ts, strs, forest, PutProp(NodeOf(old(ts), strs, old(forest), i), name, val))
    {
      hide Holds, Ordered, Reads, Offset, AllFormed, FindProp, Askable, NodeTok, CStr, Replace, PathAt, PutProp, NodeOf, NowReads, Lookup, ValueOf, Written;
      ghost var i := NodeTok(ts, nodeoffset);
      var at, proplen := GetProperty(nodeoffset, name);
      if i >= 0 { ValueAt(ts, strs, forest, i, name); }
      if at < 0 {
        return proplen;
      }
      if proplen != |val| {
        return -ERR_NOSPACE;
      }
      ghost var q := FindProp(ts, strs, i + 1, name);
      PatchedWhole(ts[q].val, val);
      PutValue(at, 0, val, q);
      AssignedNow(old(ts), strs, forest, i, name, q, ts, strs);
      forest := Replace(forest, PathAt(old(ts), strs, forest, i), [PutProp(NodeOf(old(ts), strs, forest, i), name, val)]);
      return 0;
    }
    // ---- children -------------------------------------------------------------------------------

    /** _fdt_nodename_eq */
    method NodeNameEq(offset: int, s: Bytes, ghost k: int) returns (eq: bool)
      requires Readable() && AllFormed(ts) && IsNode(ts, k) && offset == Offset(ts, k) && 0 !in s
      ensures eq <==> NameEq(ts[k].name, s)
    {
      hide Readable, Enc, AllFormed, Offset, WellFormed, NameEq, Align4;
      NameInside(offset, k);
      NameHere(offset, k);
      if offset + 4 + |s| + 1 > h.sizeStruct {
        TooLong(ts[k].name, s);
        return false;
      }
      var p := h.offStruct + offset + 4;
      NameCompared(buf[..], p, ts[k].name, s);
      assert buf[..][p..p + |s|] == buf[p..p + |s|];
      if buf[p..p + |s|] != s {
        return false;
      }
      if buf[p + |s|] == 0 {
        return true;
      } else if AT_SIGN !in s && buf[p + |s|] == AT_SIGN {
        return true;
      } else {
        return false;
      }
    }

    lemma NameInside(offset: int, k: int)
      requires Readable() && AllFormed(ts) && IsNode(ts, k) && offset == Offset(ts, k)
      ensures 0 <= offset && offset + 4 + |ts[k].name| + 1 <= h.sizeStruct
      ensures 0 <= h.offStruct && h.offStruct + h.sizeStruct <= buf.Length
    {
      hide Readable, Enc, AllFormed, Offset, WellFormed;
      BodyInside();
      BeginFields(ts, k);
    }

    lemma NameBytes(o: int, n: int)
      requires Readable() && 0 <= o && 0 <= n && o + n <= h.sizeStruct
      ensures AllFormed(ts) && |Enc(ts)| == h.sizeStruct && 0 <= h.offStruct && h.offStruct + o + n <= buf.Length && buf[h.offStruct + o..h.offStruct + o + n] == Enc(ts)[o..o + n]
      ensures forall x :: o <= x < o + n ==> buf[h.offStruct + x] == Enc(ts)[x]
    {
      hide RsvOk, Enc, Reads;
      SliceInside(buf[..], h.offStruct, Enc(ts), o, o + n);
      forall x | o <= x < o + n ensures buf[h.offStruct + x] == Enc(ts)[x] {
        BodyAt(x);
      }
    }

    /** fdt_subnode_offset_namelen */
    method SubnodeOffset(parentoffset: int, name: Bytes) returns (r: int)
      requires Readable() && AllFormed(ts) && Askable(ts, parentoffset) && 0 !in name
      ensures parentoffset < 0 ==> r == parentoffset
      ensures parentoffset >= 0 && NodeTok(ts, parentoffset) < 0 ==> r == -ERR_BADOFFSET
      ensures NodeTok(ts, parentoffset) >= 0 ==>
        var i := NodeTok(ts, parentoffset);
        var c := KidNamed(NodeOf(ts, strs, forest, i).kids, name);
        if c < 0 then r == -ERR_NOTFOUND else r >= 0 && NodeTok(ts, r) >= 0 && Askable(ts, r) && PathAt(ts, strs, forest, NodeTok(ts, r)) == PathAt(ts, strs, forest, i) + [c]
    {
      hide Readable, Enc, AllFormed, Offset, WellFormed, Climbs, Spans, Scan, TokenAt, NodeTok, NameEq, KidNamed, PathAt, NodeOf, Askable, NoneAnswers;
      ghost var i := NodeTok(ts, parentoffset);
      ghost var k, j := i, 0;
      if parentoffset < 0 { NegativeTok(parentoffset); }
      var offset, depth := parentoffset, 0;
      if i >= 0 {
        TokHere(parentoffset);
        ClimbStart(ts, i);
        j := SpanEnd(i);
        NoneYet(i, j, name);
      }
      while offset >= 0 && depth >= 0
        invariant i < 0 ==> (offset == parentoffset && depth == 0) || (parentoffset >= 0 && offset == -ERR_BADOFFSET && depth == 0)
        invariant i >= 0 && depth >= 0 ==> Climbs(ts, i, k, depth) && k < |ts| && offset == Offset(ts, k) && NodeTok(ts, offset) == k && Askable(ts, offset)
        invariant i >= 0 ==> Spans(ts, i, j) && NoneAnswers(ts, i, j, if depth >= 0 then k else j, name)
        invariant offset < 0 ==> i < 0
        decreases |ts| - k, depth, offset
      {
        if depth == 1 {
          ClimbInside(ts, i, j, k, depth);
          var eq := NodeNameEq(offset, name, k);
          if eq {
            KidFound(i, j, k, name);
            return offset;
          }
        }
        if i >= 0 {
          EndStep(i, k, depth);
          SearchStep(i, j, k, depth, name);
        }
        ghost var s := Scan(ts, if i < 0 then 0 else k + 1, depth, true);
        offset, depth := NextNode(offset, depth, true);
        if i >= 0 && s.Found? { k := s.at; }
      }
      if i >= 0 { NotFound(i, j, name); }
      if depth < 0 {
        return -ERR_NOTFOUND;
      }
      return offset;
    }

    lemma SpanEnd(i: int) returns (j: int)
      requires Readable() && IsNode(ts, i)
      ensures Spans(ts, i, j)
    {
      j := SpanExists(ts, strs, forest, i);
    }

    lemma NoneYet(i: int, j: int, name: Bytes)
      ensures NoneAnswers(ts, i, j, i, name)
    {
    }

    lemma KidFound(i: int, j: int, k: int, name: Bytes)
      requires Readable() && IsNode(ts, i) && Spans(ts, i, j) && IsKid(ts, i, j, k) && NoneAnswers(ts, i, j, k, name) && NameEq(ts[k].name, name)
      ensures PathAt(ts, strs, forest, k) == PathAt(ts, strs, forest, i) + [KidNamed(NodeOf(ts, strs, forest, i).kids, name)]
      ensures KidNamed(NodeOf(ts, strs, forest, i).kids, name) >= 0
    {
      KidAnswers(ts, strs, forest, i, j, k, name);
    }

    lemma NotFound(i: int, j: int, name: Bytes)
      requires Readable() && IsNode(ts, i) && Spans(ts, i, j) && NoneAnswers(ts, i, j, j, name)
      ensures KidNamed(NodeOf(ts, strs, forest, i).kids, name) == -1
    {
      NoKidAnswers(ts, strs, forest, i, j, name);
    }

    lemma SearchStep(i: int, j: int, k: int, d: int, name: Bytes)
      requires Readable() && Climbs(ts, i, k, d) && Spans(ts, i, j) && NoneAnswers(ts, i, j, k, name) && (d == 1 ==> !NameEq(ts[k].name, name))
      requires k + 1 <= |ts|
      ensures var s := Scan(ts, k + 1, d, true); s.Found? ==> NoneAnswers(ts, i, j, s.at, name)
      ensures var s := Scan(ts, k + 1, d, true); s.Past? ==> NoneAnswers(ts, i, j, j, name)
    {
      hide Readable, Scan, NameEq, NoneAnswers, Spans, IsKid;
      ClimbInside(ts, i, j, k, d);
      var s := Scan(ts, k + 1, d, true);
      if s.Found? {
        ScanFound(ts, k + 1, d, true);
        StillNone(i, j, k, s.at, name);
      } else if s.Past? {
        ScanPast(ts, k + 1, d);
        ClimbPast(ts, i, k, d);
        OneEnd(i, j, s.at);
        StillNone(i, j, k, j, name);
      }
    }

    lemma StillNone(i: int, j: int, k: int, to: int, name: Bytes)
      requires 0 <= i <= k && IsNode(ts, k) && NoneAnswers(ts, i, j, k, name) && (Nest(ts, k) - Nest(ts, i) == 1 ==> !NameEq(ts[k].name, name))
      requires forall m :: k < m < to ==> !IsNode(ts, m)
      ensures NoneAnswers(ts, i, j, to, name)
    {
      hide NameEq;
    }

    lemma OneEnd(i: int, j: int, m: int)
      requires Spans(ts, i, j) && Spans(ts, i, m)
      ensures j == m
    {
    }

    /** fdt_first_subnode; a negative offset stands for the start, before the root. */
    method FirstSubnode(offset: int) returns (r: int)
      requires Readable() && AllFormed(ts) && Askable(ts, offset)
      ensures offset < 0 && forest != [] ==> r >= 0 && NodeTok(ts, r) >= 0 && PathAt(ts, strs, forest, NodeTok(ts, r)) == [0]
      ensures offset < 0 && forest == [] ==> r == -ERR_NOTFOUND
      ensures NodeTok(ts, offset) >= 0 && NodeOf(ts, strs, forest, NodeTok(ts, offset)).kids != [] ==>
        r >= 0 && NodeTok(ts, r) >= 0 && PathAt(ts, strs, forest, NodeTok(ts, r)) == PathAt(ts, strs, forest, NodeTok(ts, offset)) + [0]
      ensures offset >= 0 && (NodeTok(ts, offset) < 0 || NodeOf(ts, strs, forest, NodeTok(ts, offset)).kids == []) ==> r == -ERR_NOTFOUND
    {
      hide Readable, AllFormed, Offset, Climbs, Spans, Scan, TokenAt, NodeTok, PathAt, NodeOf, Askable;
      ghost var i := NodeTok(ts, offset);
      if offset < 0 {
        NegativeTok(offset);
        StartStep();
      }
      if i >= 0 {
        FirstStep(i);
      }
      var depth;
      r, depth := NextNode(offset, 0, true);
      if r < 0 || depth != 1 {
        return -ERR_NOTFOUND;
      }
    }

    lemma FirstStep(i: int)
      requires Readable() && AllFormed(ts) && IsNode(ts, i)
      ensures i + 1 < |ts|
      ensures var s := Scan(ts, i + 1, 0, true); s.Found? ==>
        IsNode(ts, s.at) && s.depth == 1 && Offset(ts, s.at) >= 0 && NodeTok(ts, Offset(ts, s.at)) == s.at
        && NodeOf(ts, strs, forest, i).kids != [] && PathAt(ts, strs, forest, s.at) == PathAt(ts, strs, forest, i) + [0]
      ensures var s := Scan(ts, i + 1, 0, true); !s.Found? ==> s.Past? && s.depth != 1 && NodeOf(ts, strs, forest, i).kids == []
    {
      hide Readable, AllFormed, Spans, Scan, TokenAt, PathAt, At, Offset, Climbs;
      ClimbStart(ts, i);
      EndStep(i, i, 0);
      var j := SpanEnd(i);
      var s := Scan(ts, i + 1, 0, true);
      ReadsHere();
      if s.Found? {
        ScanFound(ts, i + 1, 0, true);
        ClimbInside(ts, i, j, s.at, s.depth);
        NoRise(ts, i + 1, s.at);
        FirstKid(ts, strs, forest, i, j, s.at);
      } else {
        ScanPast(ts, i + 1, 0);
        OneEnd(i, j, s.at);
        NoKids(ts, strs, forest, i, j);
      }
    }

    /** The first node met from the start is the first root. */
    lemma StartStep()
      requires Readable() && AllFormed(ts)
      ensures var s := Scan(ts, 0, 0, true); s.Found? ==>
        IsNode(ts, s.at) && s.depth == 1 && Offset(ts, s.at) >= 0 && NodeTok(ts, Offset(ts, s.at)) == s.at
        && forest != [] && PathAt(ts, strs, forest, s.at) == [0]
      ensures var s := Scan(ts, 0, 0, true); !s.Found? ==> s.Ended? && forest == []
    {
      hide Readable, AllFormed, Scan, TokenAt, PathAt, Offset;
      ReadsHere();
      ReadsStop();
      var s := Scan(ts, 0, 0, true);
      match s {
        case Found(_, _) =>
          ScanFound(ts, 0, 0, true);
          TokAt(ts, s.at);
          OffsetsGrow(ts, 0, s.at);
          FirstRoot(ts, strs, forest, s.at);
        case Past(_, _) =>
          ScanPast(ts, 0, 0);
          Shallowest(ts, strs, forest, s.at);
          assert false;
        case Ended =>
          ScanEnded(ts, 0, 0, true);
          NoRoots(ts, strs, forest);
      }
    }

    lemma ReadsHere()
      requires Readable()
      ensures Reads(ts, strs, forest)
    {
    }

    /** fdt_next_subnode: the next child of the same parent. From the start, which a negative offset
        stands for, there is none. */
    method NextSubnode(offset: int) returns (r: int)
      requires Readable() && AllFormed(ts) && Askable(ts, offset)
      ensures NodeTok(ts, offset) < 0 ==> r == -ERR_NOTFOUND
      ensures NodeTok(ts, offset) >= 0 ==>
        var p := PathAt(ts, strs, forest, NodeTok(ts, offset));
        p != [] &&
        var next := p[..|p| - 1] + [p[|p| - 1] + 1];
        if IsPath(forest, next) then r >= 0 && NodeTok(ts, r) >= 0 && PathAt(ts, strs, forest, NodeTok(ts, r)) == next
        else r == -ERR_NOTFOUND
    {
      hide Readable, AllFormed, Offset, Scan, TokenAt, NodeTok, PathAt, Askable, IsPath, Deepening;
      ghost var i := NodeTok(ts, offset);
      ghost var k := i;
      if i >= 0 { SkirtStart(i, offset); }
      if offset < 0 { NegativeTok(offset); }
      r := offset;
      var depth := 1;
      var first := true;
      while first || depth > 1
        invariant first ==> r == offset && depth == 1 && k == i
        invariant i < 0 && offset >= 0 ==> first
        invariant i < 0 && !first ==> depth > 1 && r >= 0 && Deepening(k, r, depth)
        invariant i >= 0 ==> Skirting(i, k, depth) && r == Offset(ts, k) && NodeTok(ts, r) == k && Askable(ts, r) && r >= 0
        invariant i >= 0 && !first && depth <= 1 ==> Answers(i, k)
        decreases |ts| - k, first
      {
        if i >= 0 { SkirtStep(i, k, depth); }
        if i < 0 && (offset < 0 || !first) { DeepStep(k, r, depth, first); }
        ghost var s := Scan(ts, if 0 <= k < |ts| then k + 1 else 0, depth, true);
        first := false;
        r, depth := NextNode(r, depth, true);
        if r < 0 || depth < 1 {
          return -ERR_NOTFOUND;
        }
        k := s.at;
      }
    }

    /** A walk that began before the root is at token k, one level deeper than the node there. */
    ghost predicate Deepening(k: int, r: int, d: int)
      reads this
      requires AllFormed(ts)
    {
      IsNode(ts, k) && r == Offset(ts, k) && NodeTok(ts, r) == k && Askable(ts, r) && d == 1 + Nest(ts, k + 1)
    }

    lemma DeepStep(k: int, r: int, d: int, first: bool)
      requires Readable() && AllFormed(ts) && if first then k == -1 && d == 1 else Deepening(k, r, d)
      ensures !first ==> NodeTok(ts, r) == k && Askable(ts, r) && 0 <= k
      ensures -1 <= k && k + 1 < |ts| && !Scan(ts, k + 1, d, true).Past?
      ensures var s := Scan(ts, k + 1, d, true); s.Found? ==> k < s.at < |ts| && s.depth > 1 && Offset(ts, s.at) >= 0 && Deepening(s.at, Offset(ts, s.at), s.depth)
    {
      hide Readable, AllFormed, Scan, TokenAt, Offset;
      ReadsHere();
      ReadsStop();
      if !first { NodeInside(k); }
      var s := Scan(ts, k + 1, d, true);
      Shallowest(ts, strs, forest, k + 1);
      if s.Found? {
        ScanFound(ts, k + 1, d, true);
        TokAt(ts, s.at);
        OffsetsGrow(ts, 0, s.at);
        Shallowest(ts, strs, forest, s.at);
      } else if s.Past? {
        ScanPast(ts, k + 1, d);
        Shallowest(ts, strs, forest, s.at);
        assert false;
      }
    }

    /** The walk to the next sibling has come to token k, at this depth from the parent. */
    ghost predicate Skirting(i: int, k: int, d: int)
      reads this
    {
      && 0 <= i <= k && IsNode(ts, i) && IsNode(ts, k) && k + 1 < |ts|
      && d == Nest(ts, k + 1) - Nest(ts, i) && d >= 1
      && (forall m :: i < m <= k + 1 ==> Nest(ts, m) >= Nest(ts, i))
      && (forall m :: i < m <= k && (m < k || d > 1) && IsNode(ts, m) ==> Nest(ts, m) > Nest(ts, i))
    }

    /** Token k is the next sibling. */
    ghost predicate Answers(i: int, k: int)
      reads this
      requires IsNode(ts, i) && IsNode(ts, k)
    {
      var p := PathAt(ts, strs, forest, i);
      p != [] && IsPath(forest, p[..|p| - 1] + [p[|p| - 1] + 1]) && PathAt(ts, strs, forest, k) == p[..|p| - 1] + [p[|p| - 1] + 1]
    }

    lemma SkirtStart(i: int, offset: int)
      requires Readable() && AllFormed(ts) && IsNode(ts, i) && NodeTok(ts, offset) == i
      ensures Skirting(i, i, 1) && offset == Offset(ts, i)
    {
      TokHere(offset);
    }

    lemma SkirtStep(i: int, k: int, d: int)
      requires Readable() && AllFormed(ts) && Skirting(i, k, d) && (d > 1 || k == i)
      ensures PathAt(ts, strs, forest, i) != []
      ensures var s := Scan(ts, k + 1, d, true); s.Found? ==>
        k < s.at && Skirting(i, s.at, s.depth) && Offset(ts, s.at) >= 0 && NodeTok(ts, Offset(ts, s.at)) == s.at && Askable(ts, Offset(ts, s.at))
        && (s.depth <= 1 ==> Answers(i, s.at))
      ensures var s := Scan(ts, k + 1, d, true); !s.Found? ==>
        (s.Past? ==> s.depth < 1)
        && var p := PathAt(ts, strs, forest, i); !IsPath(forest, p[..|p| - 1] + [p[|p| - 1] + 1])
    {
      hide Readable, AllFormed, Scan, TokenAt, PathAt, At, Offset, IsPath, Skirting, Answers, NodeTok;
      ReadsHere();
      SkirtNode(i, k, d);
      PathToken(ts, strs, forest, i);
      var s := Scan(ts, k + 1, d, true);
      if s.Found? {
        SkirtOn(i, k, d);
        TokAt(ts, s.at);
      } else {
        SkirtOver(i, k, d);
      }
    }

    lemma SkirtNode(i: int, k: int, d: int)
      requires Skirting(i, k, d)
      ensures IsNode(ts, i) && IsNode(ts, k) && 0 <= i <= k && k + 1 < |ts| && d >= 1
    {
    }

    lemma SkirtOn(i: int, k: int, d: int)
      requires Readable() && AllFormed(ts) && Skirting(i, k, d) && (d > 1 || k == i) && Scan(ts, k + 1, d, true).Found?
      ensures var s := Scan(ts, k + 1, d, true); k < s.at && Skirting(i, s.at, s.depth) && IsNode(ts, s.at) && (s.depth <= 1 ==> Answers(i, s.at))
    {
      hide Readable, AllFormed, Scan, PathAt, IsPath, Skirting, Answers;
      SkirtNode(i, k, d);
      var s := Scan(ts, k + 1, d, true);
      ScanFound(ts, k + 1, d, true);
      NodeInside(s.at);
      SkirtFound(i, k, d, s);
      if s.depth <= 1 { SkirtNext(i, s.at, s.depth); }
    }

    lemma SkirtNext(i: int, k: int, d: int)
      requires Readable() && Skirting(i, k, d) && d <= 1 && i < k
      ensures Answers(i, k)
    {
      hide Readable, PathAt, IsPath;
      ReadsHere();
      NextIs(ts, strs, forest, i, k);
      PathToken(ts, strs, forest, i);
    }

    lemma SkirtOver(i: int, k: int, d: int)
      requires Readable() && AllFormed(ts) && Skirting(i, k, d) && (d > 1 || k == i) && !Scan(ts, k + 1, d, true).Found?
      ensures Scan(ts, k + 1, d, true).Past? ==> Scan(ts, k + 1, d, true).depth < 1
      ensures var p := PathAt(ts, strs, forest, i); p != [] && !IsPath(forest, p[..|p| - 1] + [p[|p| - 1] + 1])
    {
      hide Readable, AllFormed, Scan, PathAt, IsPath;
      var s := Scan(ts, k + 1, d, true);
      ReadsHere();
      PathToken(ts, strs, forest, i);
      if s.Past? {
        ScanPast(ts, k + 1, d);
        NoNext(ts, strs, forest, i, s.at);
      } else {
        ReadsStop();
        ScanEnded(ts, k + 1, d, true);
        NoNext(ts, strs, forest, i, |ts|);
      }
    }

    lemma ReadsStop()
      requires Readable()
      ensures StopsOnce(ts)
    {
    }

    lemma NodeInside(k: int)
      requires Readable() && IsNode(ts, k)
      ensures k + 1 < |ts|
    {
    }

    lemma SkirtFound(i: int, k: int, d: int, s: Step)
      requires Skirting(i, k, d) && (d > 1 || k == i) && s.Found? && k + 1 <= s.at && IsNode(ts, s.at) && s.at + 1 < |ts|
      requires s.depth == d + Nest(ts, s.at + 1) - Nest(ts, k + 1)
      requires forall m :: k + 1 <= m < s.at ==> !IsNode(ts, m)
      requires forall m :: k + 1 <= m <= s.at ==> d + Nest(ts, m) - Nest(ts, k + 1) >= 0
      ensures Skirting(i, s.at, s.depth)
    {
    }

    // ---- new nodes ------------------------------------------------------------------------------

    /** fdt_add_subnode_namelen. The parent offset -1 reads as the answer "no such child": the new node
        then goes in front of the structure block, and its offset comes back as an error. */
    method AddSubnode(parentoffset: int, name: Bytes) returns (r: int)
      requires Valid() && AllFormed(ts) && Askable(ts, parentoffset) && 0 !in name
      modifies this, buf
      ensures rsv == old(rsv) && strs == old(strs) && h.totalSize == old(h).totalSize && AllFormed(ts)
      ensures parentoffset < 0 && parentoffset != -ERR_NOTFOUND ==> r == parentoffset
      ensures parentoffset == -ERR_NOTFOUND ==> r == if NodeFits(old(h), name) then -ERR_TRUNCATED else -ERR_NOSPACE
      ensures parentoffset >= 0 && NodeTok(old(ts), parentoffset) < 0 ==> r == -ERR_BADOFFSET
      ensures r < 0 ==> ts == old(ts) && forest == old(forest)
      ensures !(parentoffset == -ERR_NOTFOUND && NodeFits(old(h), name)) ==> Valid()
      ensures parentoffset == -ERR_NOTFOUND && NodeFits(old(h), name) ==>
        h == Resized(old(h).(version := LAST_VERSION), 8 + Align4(|name| + 1)) && InFront(buf[..], h.offStruct, name)
      ensures NodeTok(old(ts), parentoffset) >= 0 ==>
        var n := NodeOf(old(ts), strs, old(forest), NodeTok(old(ts), parentoffset));
        (KidNamed(n.kids, name) >= 0 ==> r == -ERR_EXISTS)
        && (KidNamed(n.kids, name) < 0 ==> (r == -ERR_NOSPACE <==> !NodeFits(old(h), name)))
        && (r >= 0 || r == -ERR_EXISTS || r == -ERR_NOSPACE)
      ensures r >= 0 ==>
        var i := NodeTok(old(ts), parentoffset);
        i >= 0 && KidPut(old(ts), strs, old(forest), i, ts, forest, r, name)
    {
      hide Holds, Ordered, Reads, Offset, AllFormed, Askable, NodeTok, Replace, PathAt, AddKid, NodeOf, NowReads, Cut, Moved, Written, BareNode, KidNamed, PropRun, NewNodeBytes, Zeros, Put32, Enc, TagAt, InFront;
      var err := RwCheckHeader();
      ghost var i := NodeTok(ts, parentoffset);
      if parentoffset < 0 { NegativeTok(parentoffset); }
      var offset := SubnodeOffset(parentoffset, name);
      if offset >= 0 {
        return -ERR_EXISTS;
      } else if offset != -ERR_NOTFOUND {
        return offset;
      }
      ghost var q;
      offset, q := AfterProps(parentoffset, i);
      ghost var s, g := buf[..], h;
      NodeRoom(if i >= 0 then q else 0);
      StructBehind(name);
      err := PutNode(offset, name);
      if err != 0 {
        return err;
      }
      if i >= 0 {
        NodePutIn(s, g, rsv, ts, strs, q, name);
        KidIn(ts, strs, forest, i, q, name);
        forest := Replace(forest, PathAt(ts, strs, forest, i), [AddKid(NodeOf(ts, strs, forest, i), name)]);
        ts := Cut(ts, q, q, BareNode(name));
      } else {
        NodeInFront(s, g.offStruct, DataSize(g), name);
      }
      return offset;
    }

    lemma StructBehind(name: Bytes)
      requires Framed()
      ensures 8 <= h.offStruct && OnWord(h.offStruct)
      ensures NodeFits(h, name) <==> DataSize(h) + 8 + Align4(|name| + 1) <= h.totalSize
    {
    }

    /** The place behind the properties of the node at token i; for the offset -1, which is no node's, a
        place in front of the block. */
    method AfterProps(parentoffset: int, ghost i: int) returns (offset: int, ghost q: int)
      requires Readable() && AllFormed(ts) && if i < 0 then parentoffset == -1 else IsNode(ts, i) && NodeTok(ts, parentoffset) == i
      ensures i >= 0 ==> PropRun(ts, i, q) && 0 <= q < |ts| && !ts[q].Prop? && !ts[q].Nop? && offset == Offset(ts, q) >= 0
      ensures i < 0 ==> offset == -ERR_TRUNCATED
    {
      hide Readable, AllFormed, Offset, TokenAt, NodeTok, Enc, TagAt;
      q := i + 1;
      if i >= 0 {
        TokHere(parentoffset);
        TagHere(i);
        NodeInside(i);
        TagHere(q);
      }
      var tag, next := NextTag(parentoffset);
      offset := next;
      tag, next := NextTag(offset);
      while tag == PROP || tag == NOP
        invariant i >= 0 ==> PropRun(ts, i, q) && q < |ts| && offset == Offset(ts, q) >= 0 && tag == TagOf(ts[q]) && next == Offset(ts, q + 1)
        invariant i < 0 ==> tag == END && offset == -ERR_TRUNCATED
        decreases |ts| - q
      {
        NextInside(q);
        q := q + 1;
        offset := next;
        TagHere(q);
        tag, next := NextTag(offset);
      }
    }

    /** Room made for a node at that offset, and its bytes written. */
    method PutNode(offset: int, name: Bytes) returns (err: int)
      requires 0 <= h.offStruct + offset <= DataSize(h) <= h.totalSize <= buf.Length && 0 !in name
      modifies buf, this`h
      ensures err == if NodeFits(old(h), name) then 0 else -ERR_NOSPACE
      ensures err != 0 ==> buf[..] == old(buf[..]) && h == old(h)
      ensures err == 0 ==> h == Resized(old(h), 8 + Align4(|name| + 1))
      ensures err == 0 ==> buf[..] == NewNodeBytes(old(buf[..]), h.offStruct + offset, DataSize(old(h)), name)
    {
      hide Moved, Written, NewNodeBytes, Zeros, Put32;
      ghost var s := buf[..];
      var p := h.offStruct + offset;
      var n := Align4(|name| + 1);
      err := SpliceStruct(p, 0, 8 + n);
      if err != 0 {
        return;
      }
      MemCpy(p, Put32(BEGIN_NODE));
      MemCpy(p + 4, Zeros(n));
      MemCpy(p + 4, name);
      MemCpy(p + 4 + n, Put32(END_NODE));
      NewNodeIs(s, p, DataSize(old(h)), name);
    }

    lemma NodeRoom(q: int)
      requires Framed() && AllFormed(ts) && 0 <= q <= |ts|
      ensures 0 <= h.offStruct && 0 <= Offset(ts, q) && h.offStruct + Offset(ts, q) <= DataSize(h) <= h.totalSize <= buf.Length
    {
      hide RsvOk, Enc, AllFormed;
      OffsetInside(buf[..], h, rsv, ts, strs, q);
    }

    /** fdt_get_name: the length of the node's name, or an error. */
    method GetName(nodeoffset: int) returns (len: int)
      requires Readable() && AllFormed(ts) && Askable(ts, nodeoffset)
      ensures len == if NodeTok(ts, nodeoffset) < 0 then -ERR_BADOFFSET else |ts[NodeTok(ts, nodeoffset)].name|
    {
      hide Readable, AllFormed, Offset, TokenAt, NodeTok, Enc, WellFormed;
      var next := CheckNodeOffset(nodeoffset);
      if next < 0 {
        return next;
      }
      ghost var k := NodeTok(ts, nodeoffset);
      NameHere(nodeoffset, k);
      len := StrLenIn(buf, h.offStruct + nodeoffset + 4, ts[k].name);
    }

    lemma NameHere(offset: int, k: int)
      requires Readable() && AllFormed(ts) && IsNode(ts, k) && offset == Offset(ts, k)
      ensures IsString(buf[..], h.offStruct + offset + 4, ts[k].name)
    {
      hide Readable, AllFormed, Offset, Enc, WellFormed;
      BodyInside();
      BeginFields(ts, k);
      NameBytes(offset + 4, |ts[k].name|);
      BodyAt(offset + 4 + |ts[k].name|);
    }

    /** fdt_set_name */
    method SetName(nodeoffset: int, name: Bytes) returns (err: int)
      requires Valid() && AllFormed(ts) && Askable(ts, nodeoffset) && 0 !in name
      modifies this, buf
      ensures Valid() && AllFormed(ts) && rsv == old(rsv) && strs == old(strs) && h.totalSize == old(h).totalSize
      ensures NodeTok(old(ts), nodeoffset) < 0 ==> err == -ERR_BADOFFSET
      ensures NodeTok(old(ts), nodeoffset) >= 0 ==>
        err == if DataSize(old(h)) + Align4(|name| + 1) - Align4(|old(ts)[NodeTok(old(ts), nodeoffset)].name| + 1) <= old(h).totalSize then 0 else -ERR_NOSPACE
      ensures err != 0 ==> ts == old(ts) && forest == old(forest)
      ensures err == 0 ==>
        var i := NodeTok(old(ts), nodeoffset);
        i >= 0 && NowReads(old(ts), strs, old(forest), i, ts, strs, forest, NodeOf(old(ts), strs, old(forest), i).(name := name))
    {
      hide Holds, Ordered, Reads, Offset, AllFormed, Askable, NodeTok, Replace, PathAt, NodeOf, NowReads, Moved, Written, Enc, RenamedBytes, WellFormed, Align4;
      err := RwCheckHeader();
      ghost var i := NodeTok(ts, nodeoffset);
      var oldlen := GetName(nodeoffset);
      if oldlen < 0 {
        return oldlen;
      }
      TokHere(nodeoffset);
      ghost var s, g := buf[..], h;
      var p := h.offStruct + nodeoffset + 4;
      EndsInside();
      NameRoom(i);
      err := SpliceStruct(p, Align4(oldlen + 1), Align4(|name| + 1));
      if err != 0 {
        return;
      }
      NodeNamed(s, g, rsv, ts, strs, i, name);
      MemCpy(p, name + [0]);
      RenamedIs(s, p, DataSize(g), oldlen, name);
      ghost var tok := BeginFrom(buf[..], p, name);
      Renamed(ts, strs, forest, i, tok);
      ts := ts[i := tok];
      forest := Replace(forest, PathAt(old(ts), strs, forest, i), [NodeOf(old(ts), strs, forest, i).(name := name)]);
    }

    lemma NameRoom(i: int)
      requires Framed() && AllFormed(ts) && IsNode(ts, i)
      ensures 0 <= h.offStruct && 0 <= Offset(ts, i) && h.offStruct + Offset(ts, i) + 4 + Align4(|ts[i].name| + 1) <= DataSize(h)
    {
      hide RsvOk, Enc, AllFormed, Align4, WellFormed;
      BeginFields(ts, i);
      OffsetInside(buf[..], h, rsv, ts, strs, i);
    }

    /** fdt_getprop: where the value of the node's property stands, and its length. */
    method GetProp(nodeoffset: int, name: Bytes) returns (at: int, len: int)
      requires Readable() && AllFormed(ts) && Askable(ts, nodeoffset)
      ensures NodeTok(ts, nodeoffset) < 0 ==> at == -1 && len == -ERR_BADOFFSET
      ensures NodeTok(ts, nodeoffset) >= 0 ==>
        match Lookup(NodeOf(ts, strs, forest, NodeTok(ts, nodeoffset)), name)
        case None => at == -1 && len == -ERR_NOTFOUND
        case Some(v) => len == |v| && Has(buf[..], at, v)
    {
      hide Readable, AllFormed, Offset, TokenAt, NodeTok, FindProp, Lookup, NodeOf, Askable, Enc, ValueOf;
      var prop;
      prop, len := GetProperty(nodeoffset, name);
      ghost var i := NodeTok(ts, nodeoffset);
      ReadsHere();
      if i >= 0 { ValueAt(ts, strs, forest, i, name); }
      if prop < 0 {
        return -1, len;
      }
      ValueBytes(FindProp(ts, strs, i + 1, name));
      return h.offStruct + prop + 12, len;
    }

    lemma ValueBytes(q: int)
      requires Readable() && AllFormed(ts) && 0 <= q < |ts| && ts[q].Prop?
      ensures Has(buf[..], h.offStruct + Offset(ts, q) + 12, ts[q].val)
    {
      hide Readable, AllFormed, Offset, Enc, WellFormed;
      BodyInside();
      PropFields(ts, q);
      NameBytes(Offset(ts, q) + 12, |ts[q].val|);
    }

    // ---- ancestors ------------------------------------------------------------------------------

    /** What a walk from the root answers for an offset where no node begins: it ends before the root
        does, just behind the root, or farther behind. */
    ghost function NoNodeError(offset: int): int
      reads this
      requires AllFormed(ts) && 0 <= RootEnd(ts) <= |ts|
    {
      var end := Offset(ts, RootEnd(ts));
      if offset < end then -ERR_BADOFFSET else if offset == end then -ERR_NOTFOUND else -ERR_BADSTRUCTURE
    }

    /** fdt_supernode_atdepth_offset: the ancestor at that depth, and the depth of the node itself. */
    method SupernodeAtDepth(nodeoffset: int, superdepth: int) returns (r: int, nodedepth: int)
      requires Readable() && AllFormed(ts) && Rooted(ts, forest)
      ensures 0 < RootEnd(ts) < |ts|
      ensures NodeTok(ts, nodeoffset) < 0 ==> r == if superdepth < 0 then -ERR_NOTFOUND else NoNodeError(nodeoffset)
      ensures NodeTok(ts, nodeoffset) >= 0 ==>
        var p := PathAt(ts, strs, forest, NodeTok(ts, nodeoffset));
        if superdepth < 0 || superdepth >= |p| then r == -ERR_NOTFOUND
        else r >= 0 && NodeTok(ts, r) >= 0 && PathAt(ts, strs, forest, NodeTok(ts, r)) == p[..superdepth + 1] && nodedepth == |p| - 1
    {
      hide Readable, AllFormed, Offset, Scan, TokenAt, NodeTok, PathAt, Askable, IsPath, LastSeen, Rooted, RootEnd;
      nodedepth := 0;
      WalkStart(nodeoffset, superdepth);
      if superdepth < 0 {
        return -ERR_NOTFOUND, nodedepth;
      }
      ghost var i, k, a := NodeTok(ts, nodeoffset), 0, -1;
      var offset, depth, super := 0, 0, -ERR_INTERNAL;
      while 0 <= offset <= nodeoffset
        invariant offset >= 0 && depth >= 0 ==> AtNode(k, offset, depth)
        invariant (depth == -1 || depth >= 0) && offset <= Offset(ts, RootEnd(ts))
        invariant offset >= 0 && depth < 0 ==> PastRoot(k, offset)
        invariant offset < 0 ==> depth < 0 && offset == -ERR_BADOFFSET && nodeoffset > Offset(ts, RootEnd(ts))
        invariant i >= 0 ==> 0 <= offset <= nodeoffset && depth >= 0 && k <= i
        invariant -1 <= a < |ts|
        invariant depth >= 0 && offset >= 0 ==> LastSeen(ts, k, a, superdepth) && (a >= 0 ==> super == Offset(ts, a))
        decreases |ts| - k, offset
      {
        if depth == superdepth {
          super := offset;
        }
        if offset == nodeoffset {
          nodedepth := depth;
          Arrived(i, k, a, nodeoffset, superdepth, depth, super);
          if superdepth > depth {
            return -ERR_NOTFOUND, nodedepth;
          } else {
            return super, nodedepth;
          }
        }
        ghost var d, s := depth, Scan(ts, if 0 <= k < |ts| then k + 1 else 0, depth, true);
        if depth >= 0 { WalkStep(i, k, a, superdepth, offset, depth, nodeoffset); }
        offset, depth := NextNode(offset, depth, true);
        if d >= 0 {
          if d == superdepth { a := k; }
          k := s.at;
        }
      }
      if offset == -ERR_NOTFOUND || offset >= 0 {
        return -ERR_BADOFFSET, nodedepth;
      } else if offset == -ERR_BADOFFSET {
        return -ERR_BADSTRUCTURE, nodedepth;
      }
      return offset, nodedepth;
    }

    /** A walk from the root stands at the node that begins at token k. */
    ghost predicate AtNode(k: int, offset: int, depth: int)
      reads this
      requires AllFormed(ts)
    {
      IsNode(ts, k) && offset == Offset(ts, k) >= 0 && NodeTok(ts, offset) == k && Askable(ts, offset) && depth == Nest(ts, k)
    }

    /** It has left the root: what is behind it is no node. */
    ghost predicate PastRoot(k: int, offset: int)
      reads this
      requires AllFormed(ts)
    {
      k == RootEnd(ts) && 0 <= k < |ts| && offset == Offset(ts, k) >= 0 && NodeTok(ts, offset) == -1 && Askable(ts, offset)
    }

    lemma WalkStart(nodeoffset: int, superdepth: int)
      requires Readable() && AllFormed(ts) && Rooted(ts, forest)
      ensures AtNode(0, 0, 0) && LastSeen(ts, 0, -1, superdepth) && ts != [] && 0 < RootEnd(ts) < |ts| && Offset(ts, RootEnd(ts)) > 0
      ensures NodeTok(ts, nodeoffset) >= 0 ==> nodeoffset == Offset(ts, NodeTok(ts, nodeoffset)) >= 0
    {
      hide Readable, AllFormed, Askable, TokenAt;
      assert ts[..0] == [];
      TokAt(ts, 0);
      ReadsHere();
      WalkOn(ts, strs, forest, 0);
      OffsetsGrow(ts, 0, RootEnd(ts));
      if NodeTok(ts, nodeoffset) >= 0 { TokHere(nodeoffset); }
    }

    lemma Arrived(i: int, k: int, a: int, nodeoffset: int, superdepth: int, depth: int, super: int)
      requires Readable() && AllFormed(ts) && i == NodeTok(ts, nodeoffset) && superdepth >= 0
      requires depth >= 0 ==> AtNode(k, nodeoffset, depth) && LastSeen(ts, k, a, superdepth)
      requires depth < 0 ==> PastRoot(k, nodeoffset)
      requires depth >= 0 ==> super == if depth == superdepth then nodeoffset else if a >= 0 then Offset(ts, a) else super
      ensures i < 0 ==> depth < 0
      ensures i >= 0 ==> depth == |PathAt(ts, strs, forest, i)| - 1
      ensures i >= 0 && superdepth <= depth ==>
        super >= 0 && NodeTok(ts, super) >= 0 && PathAt(ts, strs, forest, NodeTok(ts, super)) == PathAt(ts, strs, forest, i)[..superdepth + 1]
    {
      hide Readable, AllFormed, Askable, TokenAt, PathAt, Offset;
      ReadsHere();
      if i >= 0 {
        PathToken(ts, strs, forest, i);
        if superdepth <= depth {
          Ancestor(ts, strs, forest, i, a, superdepth);
          TokAt(ts, if depth == superdepth then i else a);
        }
      }
    }

    lemma WalkStep(i: int, k: int, a: int, superdepth: int, offset: int, depth: int, nodeoffset: int)
      requires Readable() && AllFormed(ts) && Rooted(ts, forest) && AtNode(k, offset, depth) && LastSeen(ts, k, a, superdepth)
      requires i == NodeTok(ts, nodeoffset) && k + 1 <= |ts| && (i >= 0 ==> k <= i) && offset < nodeoffset
      ensures k + 1 < |ts|
      ensures var s := Scan(ts, k + 1, depth, true); !s.Ended? && k < s.at < |ts| && Offset(ts, s.at) >= 0
      ensures var s := Scan(ts, k + 1, depth, true); s.Found? ==>
        s.depth >= 0 && AtNode(s.at, Offset(ts, s.at), s.depth) && LastSeen(ts, s.at, if depth == superdepth then k else a, superdepth) && (i >= 0 ==> s.at <= i && Offset(ts, s.at) <= nodeoffset)
      ensures var s := Scan(ts, k + 1, depth, true); s.Past? ==> s.depth == -1 && PastRoot(s.at, Offset(ts, s.at)) && i < 0
      ensures 0 < RootEnd(ts) < |ts| && offset < Offset(ts, RootEnd(ts)) && Offset(ts, Scan(ts, k + 1, depth, true).at) <= Offset(ts, RootEnd(ts))
    {
      hide Readable, AllFormed, Askable, TokenAt, PathAt, Offset, Scan, Rooted, RootEnd;
      ReadsHere();
      WalkOn(ts, strs, forest, k);
      var s := Scan(ts, k + 1, depth, true);
      TokAt(ts, s.at);
      OffsetsGrow(ts, k, RootEnd(ts));
      if s.Found? { WalkOn(ts, strs, forest, s.at); }
      OffsetsGrow(ts, s.at, RootEnd(ts));
      SameNode(i, k, offset, nodeoffset);
      if s.Found? {
        Shallowest(ts, strs, forest, s.at);
        SeenOn(ts, k, a, superdepth, s.at);
        if i >= 0 {
          TokHere(nodeoffset);
          OffsetsGrow(ts, s.at, i);
        }
      }
    }

    lemma SameNode(i: int, k: int, offset: int, nodeoffset: int)
      requires Readable() && AllFormed(ts) && i == NodeTok(ts, nodeoffset) && IsNode(ts, k) && offset == Offset(ts, k) && offset < nodeoffset && (i >= 0 ==> k <= i)
      ensures i >= 0 ==> k < i
    {
      hide Readable, AllFormed, TokenAt, NodeTok, Offset;
      if i >= 0 { TokHere(nodeoffset); }
    }

    /** fdt_node_depth */
    method NodeDepth(nodeoffset: int) returns (r: int)
      requires Readable() && AllFormed(ts) && Rooted(ts, forest)
      ensures 0 < RootEnd(ts) < |ts|
      ensures NodeTok(ts, nodeoffset) < 0 ==> r == NoNodeError(nodeoffset)
      ensures NodeTok(ts, nodeoffset) >= 0 ==> r == |PathAt(ts, strs, forest, NodeTok(ts, nodeoffset))| - 1 >= 0
    {
      hide Readable, AllFormed, TokenAt, NodeTok, PathAt, Askable, Rooted, Offset, RootEnd;
      ReadsHere();
      if NodeTok(ts, nodeoffset) >= 0 { PathToken(ts, strs, forest, NodeTok(ts, nodeoffset)); }
      var err, nodedepth := SupernodeAtDepth(nodeoffset, 0);
      if NodeTok(ts, nodeoffset) >= 0 { RootOffset(nodeoffset, err); }
      if err != 0 {
        return if err < 0 then err else -ERR_INTERNAL;
      }
      return nodedepth;
    }

    /** fdt_parent_offset */
    method ParentOffset(nodeoffset: int) returns (r: int)
      requires Readable() && AllFormed(ts) && Rooted(ts, forest)
      ensures 0 < RootEnd(ts) < |ts|
      ensures NodeTok(ts, nodeoffset) < 0 ==> r == NoNodeError(nodeoffset)
      ensures NodeTok(ts, nodeoffset) >= 0 ==>
        var p := PathAt(ts, strs, forest, NodeTok(ts, nodeoffset));
        if |p| <= 1 then r == -ERR_NOTFOUND
        else r >= 0 && NodeTok(ts, r) >= 0 && PathAt(ts, strs, forest, NodeTok(ts, r)) == p[..|p| - 1]
    {
      hide Readable, AllFormed, TokenAt, NodeTok, PathAt, Askable, Rooted, Offset, RootEnd;
      var nodedepth := NodeDepth(nodeoffset);
      if nodedepth < 0 {
        return nodedepth;
      }
      var d;
      r, d := SupernodeAtDepth(nodeoffset, nodedepth - 1);
    }

    /** What is found at depth 0 is the root, at offset 0. */
    lemma RootOffset(nodeoffset: int, r: int)
      requires Readable() && AllFormed(ts) && Rooted(ts, forest) && NodeTok(ts, nodeoffset) >= 0 && NodeTok(ts, r) >= 0
      requires var p := PathAt(ts, strs, forest, NodeTok(ts, nodeoffset)); p != [] && PathAt(ts, strs, forest, NodeTok(ts, r)) == p[..1]
      ensures r == 0
    {
      hide Readable, AllFormed, TokenAt, PathAt, NodeTok;
      ReadsHere();
      var t, p := NodeTok(ts, r), PathAt(ts, strs, forest, NodeTok(ts, r));
      TokHere(r);
      PathToken(ts, strs, forest, t);
      PathToken(ts, strs, forest, 0);
      assert p == [0] && PathAt(ts, strs, forest, 0) == [0];
      SamePathSameToken(ts, strs, forest, t, 0);
      assert ts[..0] == [];
    }
    // ---- memory reservations ----------------------------------------------------------------------

    /** fdt_num_mem_rsv */
    method NumMemRsv() returns (n: int)
      requires Readable()
      ensures n == |rsv| - 1 && n >= 0
    {
      hide Reads, Enc, AllFormed, RsvBytes, Wide;
      n := CountRsv(buf, h.offRsv, rsv);
    }

    /** fdt_get_mem_rsv */
    method GetMemRsv(n: int) returns (address: int, size: int)
      requires Readable() && 0 <= n < |rsv|
      ensures Reserve(address, size) == rsv[n]
    {
      hide Reads, Enc, AllFormed, RsvBytes, Get64, Wide;
      RsvWords(buf[..], h.offRsv, rsv, n);
      address := Get64(buf[..], h.offRsv + 16 * n);
      size := Get64(buf[..], h.offRsv + 16 * n + 8);
    }

    /** _fdt_splice_mem_rsv */
    method SpliceMemRsv(p: int, oldn: int, newn: int) returns (err: int)
      requires 0 <= p && 0 <= oldn && 0 <= newn && p + 16 * oldn <= DataSize(h) <= h.totalSize <= buf.Length
      modifies buf, this`h
      ensures err == if DataSize(old(h)) + 16 * (newn - oldn) > old(h).totalSize then -ERR_NOSPACE else 0
      ensures err != 0 ==> buf[..] == old(buf[..]) && h == old(h)
      ensures err == 0 ==> h == Pushed(old(h), 16 * (newn - oldn)) && buf[..] == Moved(old(buf[..]), p + 16 * newn, p + 16 * oldn, DataSize(old(h)) - p - 16 * oldn)
    {
      var delta := (newn - oldn) * 16;
      err := Splice(p, oldn * 16, newn * 16);
      if err != 0 {
        return;
      }
      h := h.(offStruct := h.offStruct + delta);
      h := h.(offStrings := h.offStrings + delta);
    }

    /** fdt_add_mem_rsv: an entry before the terminator; one of size 0 becomes the terminator. */
    method AddMemRsv(address: int, size: int) returns (err: int)
      requires Valid() && Wide(Reserve(address, size))
      modifies buf, this`h, this`rsv
      ensures Valid() && h.totalSize == old(h).totalSize
      ensures err == if DataSize(old(h)) + 16 > old(h).totalSize then -ERR_NOSPACE else 0
      ensures err != 0 ==> rsv == old(rsv)
      ensures old(rsv) != []
      ensures err == 0 ==>
        var n := |old(rsv)| - 1;
        rsv == old(rsv)[..n] + [Reserve(address, size)] + (if size != 0 then [old(rsv)[n]] else [])
    {
      hide Holds, Reads, Ordered, Moved, Written, RsvEntry, Put64, Spliced, RsvOk, Wide;
      err := RwCheckHeader();
      var n := NumMemRsv();
      EndsInside();
      RsvRoom(n);
      ghost var s, g, e := buf[..], h, Reserve(address, size);
      var re := h.offRsv + 16 * n;
      err := SpliceMemRsv(re, 0, 1);
      if err != 0 {
        return;
      }
      WideWords(e);
      MemCpy(re, Put64(address));
      MemCpy(re + 8, Put64(size));
      EntryWritten(s, re, DataSize(g), e);
      WithEntryHolds(s, buf[..], g, rsv, ts, strs, e);
      rsv := WithEntry(rsv, e);
    }

    lemma RsvRoom(n: int)
      requires Framed() && 0 <= n < |rsv|
      ensures 0 <= h.offRsv && h.offRsv + 16 * n + 16 <= DataSize(h) && rsv != []
    {
      hide RsvOk, Enc, AllFormed;
    }

    /** fdt_del_mem_rsv */
    method DelMemRsv(n: int) returns (err: int)
      requires Valid() && 0 <= n
      modifies buf, this`h, this`rsv
      ensures Valid() && h.totalSize == old(h).totalSize
      ensures err == if n >= |old(rsv)| - 1 then -ERR_NOTFOUND else 0
      ensures rsv == if err == 0 then old(rsv)[..n] + old(rsv)[n + 1..] else old(rsv)
    {
      hide Holds, Reads, Ordered, Moved, Spliced, RsvOk;
      err := RwCheckHeader();
      var num := NumMemRsv();
      if n >= num {
        return -ERR_NOTFOUND;
      }
      EndsInside();
      RsvRoom(n);
      ghost var s, g := buf[..], h;
      var re := h.offRsv + 16 * n;
      err := SpliceMemRsv(re, 1, 0);
      SplicedOut(s, re, 16, DataSize(g));
      RsvDropped(s, buf[..], g, rsv, ts, strs, n, rsv[..n] + rsv[n + 1..]);
      rsv := rsv[..n] + rsv[n + 1..];
    }

    /** fdt_pack: the blob without slack. */
    method Pack() returns (err: int)
      requires Valid()
      modifies buf, this`h
      ensures err == 0 && Valid() && h.totalSize == PackedSize(old(h), |rsv|)
      ensures h == PackedHeader(old(h), |rsv|).(version := LAST_VERSION, totalSize := PackedSize(old(h), |rsv|))
      ensures old(h).totalSize == PackedSize(old(h), |rsv|) ==> buf[..] == old(buf[..])
    {
      hide Holds, Reads, Ordered, Moved;
      err := RwCheckHeader();
      var n := NumMemRsv();
      var g := h;
      EndsInside();
      PackedInPlace(buf[..], g, rsv, ts, strs);
      h := PackBlocks(buf, 0, 0, g, 16 * (n + 1), g.sizeStruct, rsv, ts, strs);
      h := h.(totalSize := h.offStrings + h.sizeStrings);
    }
    // ---- paths ------------------------------------------------------------------------------------

    /** fdt_path_offset on a path that starts at the root. */
    method PathOffset(path: Bytes) returns (r: int)
      requires Readable() && AllFormed(ts) && Rooted(ts, forest) && 0 !in path && path != [] && path[0] == SLASH
      ensures IsPath(forest, [0])
      ensures match Resolve(forest, [0], Components(path))
        case None => r == -ERR_NOTFOUND
        case Some(q) => r >= 0 && NodeTok(ts, r) >= 0 && PathAt(ts, strs, forest, NodeTok(ts, r)) == q
    {
      hide Readable, AllFormed, TokenAt, NodeTok, PathAt, Askable, Rooted, IsPath, At, Resolve, Components, KidNamed, Offset, WordLength, NodeOf;
      RootAt();
      var p := 0;
      r := 0;
      ghost var cur: Path := [0];
      assert path[0..] == path;
      while p < |path|
        invariant 0 <= p <= |path| && r >= 0 && NodeTok(ts, r) >= 0 && Askable(ts, r)
        invariant IsPath(forest, cur) && PathAt(ts, strs, forest, NodeTok(ts, r)) == cur
        invariant Resolve(forest, [0], Components(path)) == Resolve(forest, cur, Components(path[p..]))
        decreases |path| - p
      {
        while p < |path| && path[p] == SLASH
          invariant 0 <= p <= |path|
          invariant Resolve(forest, [0], Components(path)) == Resolve(forest, cur, Components(path[p..]))
        {
          SlashSkipped(path, p);
          p := p + 1;
        }
        if p == |path| {
          NothingLeft(forest, cur, path);
          return r;
        }
        var q := p;
        while q < |path| && path[q] != SLASH
          invariant p <= q <= |path| && WordLength(path[p..]) == q - p + WordLength(path[q..])
        {
          WordGrows(path, q);
          q := q + 1;
        }
        WordEnds(path, q);
        NameFollowed(forest, cur, path, p, q);
        KidsOf(NodeTok(ts, r));
        ghost var c := KidNamed(At(forest, cur).kids, path[p..q]);
        r := SubnodeOffset(r, path[p..q]);
        if r < 0 {
          return r;
        }
        cur := cur + [c];
        p := q;
      }
      NothingLeft(forest, cur, path);
    }

    lemma RootAt()
      requires Readable() && AllFormed(ts) && Rooted(ts, forest)
      ensures IsPath(forest, [0]) && NodeTok(ts, 0) == 0 && Askable(ts, 0) && PathAt(ts, strs, forest, 0) == [0]
    {
      hide AllFormed, TokenAt, PathAt, Readable;
      ReadsHere();
      PathToken(ts, strs, forest, 0);
      assert ts[..0] == [];
      TokAt(ts, 0);
      var p := PathAt(ts, strs, forest, 0);
      assert p == [p[0]];
    }

    lemma KidsOf(k: int)
      requires Readable() && IsNode(ts, k)
      ensures IsPath(forest, PathAt(ts, strs, forest, k)) && NodeOf(ts, strs, forest, k) == At(forest, PathAt(ts, strs, forest, k))
    {
      hide Readable, PathAt;
      ReadsHere();
      PathToken(ts, strs, forest, k);
    }

    /** fdt_get_path. below: the walk has left the root, and dropping the names it has stored reads
        before the start of out; it is not followed there. */
    method GetPath(nodeoffset: int, out: array<Byte>) returns (r: int, below: bool)
      requires Readable() && AllFormed(ts) && Rooted(ts, forest) && Plain(ts) && out != buf
      modifies out
      ensures 0 < RootEnd(ts) < |ts| && (below <==> out.Length >= 2 && nodeoffset >= Offset(ts, RootEnd(ts)))
      ensures out.Length < 2 ==> r == -ERR_NOSPACE
      ensures out.Length >= 2 && nodeoffset < Offset(ts, RootEnd(ts)) && NodeTok(ts, nodeoffset) < 0 ==> r == -ERR_BADOFFSET
      ensures out.Length >= 2 && NodeTok(ts, nodeoffset) >= 0 ==>
        var p := PathAt(ts, strs, forest, NodeTok(ts, nodeoffset));
        IsPath(forest, p) && r == if |Text(Names(forest, p))| > out.Length then -ERR_NOSPACE else 0
      ensures r == 0 ==> NodeTok(ts, nodeoffset) >= 0
      ensures r == 0 ==>
        var p := PathAt(ts, strs, forest, NodeTok(ts, nodeoffset));
        IsPath(forest, p) && var t := PathText(Names(forest, p)); |t| < out.Length && out[..|t|] == t && out[|t|] == 0
    {
      hide Readable, AllFormed, TokenAt, NodeTok, PathAt, Askable, Rooted, IsPath, Names, Offset, Scan, Plain, Stored, Fitted, Kept, Text, PathText, AtNode, PlainNames, Chain, RootEnd;
      PathStart(nodeoffset, out.Length);
      below := false;
      if out.Length < 2 {
        return -ERR_NOSPACE, below;
      }
      ghost var i, k := NodeTok(ts, nodeoffset), 0;
      ghost var held: seq<Bytes> := [];
      var pdepth, p, offset, depth := 0, 0, 0, 0;
      while 0 <= offset <= nodeoffset
        invariant 0 <= offset <= Offset(ts, RootEnd(ts)) && |held| == pdepth
        invariant depth == -1 || depth >= 0
        invariant depth >= 0 ==> IsNode(ts, k) && AtNode(k, offset, depth) && Stored(held, Chain(k), out.Length) && (depth >= 1 || pdepth == 0) && offset < Offset(ts, RootEnd(ts))
        invariant depth < 0 ==> i < 0 && offset == Offset(ts, RootEnd(ts)) && 0 <= k < |ts|
        invariant i >= 0 ==> k <= i && offset <= nodeoffset
        invariant PlainNames(held) && p == |Text(held)| <= out.Length && out[..p] == Text(held)
        decreases |ts| - k
      {
        ghost var was := held;
        p, pdepth, below := PopNames(out, p, pdepth, depth, held);
        if below {
          return -ERR_INTERNAL, below;
        }
        held := held[..pdepth];
        ChainAt(k, offset, depth);
        ghost var c := Chain(k);
        NamesPopped(was, c, out.Length);
        p, pdepth, held := StoreName(out, p, pdepth, offset, depth, held, k);
        if offset == nodeoffset {
          FittedWhole(held, c, out.Length);
          ChainOf(i, k, nodeoffset);
          if pdepth < depth + 1 {
            return -ERR_NOSPACE, below;
          }
          p := EndPath(out, p, held);
          return 0, below;
        }
        PathStep(i, k, nodeoffset, offset, depth, held, out.Length);
        ghost var s := Scan(ts, k + 1, depth, true);
        offset, depth := NextNode(offset, depth, true);
        k := s.at;
      }
      return -ERR_BADOFFSET, below;
    }

    /** The node's name added to those above it, if they are all there and it fits. */
    method StoreName(out: array<Byte>, start: int, startdepth: int, offset: int, depth: int, ghost was: seq<Bytes>, ghost k: int)
      returns (p: int, pdepth: int, ghost held: seq<Bytes>)
      requires Readable() && AllFormed(ts) && IsNode(ts, k) && AtNode(k, offset, depth) && out != buf
      requires Kept(was, Chain(k), out.Length) && |was| == startdepth
      requires PlainNames(was) && start == |Text(was)| <= out.Length && out[..start] == Text(was)
      modifies out
      ensures |held| == pdepth && Fitted(held, Chain(k), out.Length)
      ensures p == |Text(held)| <= out.Length && out[..p] == Text(held)
    {
      hide Readable, AllFormed, TokenAt, NodeTok, PathAt, Askable, IsPath, Names, Offset, Fitted, Kept, Text, AtNode, PlainNames, Chain;
      ChainAt(k, offset, depth);
      ghost var c := Chain(k);
      p, pdepth, held := start, startdepth, was;
      KeptLess(was, c, out.Length);
      if pdepth >= depth {
        NamePushed(held, c, out.Length);
        var namelen := GetName(offset);
        NameHere(offset, k);
        if p + namelen + 1 <= out.Length {
          p := PushName(out, p, h.offStruct + offset + 4, namelen, held, ts[k].name);
          pdepth := pdepth + 1;
          held := c;
        }
      } else {
        NotPushed(held, c, out.Length);
      }
    }

    lemma KeptLess(held: seq<Bytes>, c: seq<Bytes>, room: int)
      requires Kept(held, c, room)
      ensures |held| < |c|
    {
    }

    /** The names along the path of the node that begins at token k. */
    ghost function Chain(k: int): seq<Bytes>
      reads this
      requires IsNode(ts, k)
    {
      var p := PathAt(ts, strs, forest, k);
      if IsPath(forest, p) then Names(forest, p) else []
    }

    lemma PathStart(nodeoffset: int, room: int)
      requires Readable() && AllFormed(ts) && Rooted(ts, forest)
      ensures IsNode(ts, 0) && AtNode(0, 0, 0) && Text([]) == [] && PlainNames([]) && (room >= 2 ==> Stored([], Chain(0), room))
      ensures 0 < RootEnd(ts) < |ts| && 0 < Offset(ts, RootEnd(ts))
      ensures NodeTok(ts, nodeoffset) >= 0 ==> 0 <= nodeoffset == Offset(ts, NodeTok(ts, nodeoffset)) < Offset(ts, RootEnd(ts))
    {
      hide Readable, AllFormed, PathAt, TokenAt, Chain, RootEnd, Offset;
      WalkStart(nodeoffset, 0);
      ChainAt(0, 0, 0);
      ReadsHere();
      if NodeTok(ts, nodeoffset) >= 0 {
        WalkOn(ts, strs, forest, NodeTok(ts, nodeoffset));
        OffsetsGrow(ts, NodeTok(ts, nodeoffset), RootEnd(ts));
      }
    }

    lemma ChainAt(k: int, offset: int, depth: int)
      requires Readable() && AllFormed(ts) && IsNode(ts, k) && AtNode(k, offset, depth)
      ensures depth >= 0 && |Chain(k)| == depth + 1 && Chain(k)[depth] == ts[k].name
      ensures offset >= 0 && offset == Offset(ts, k) && NodeTok(ts, offset) == k && Askable(ts, offset)
    {
      hide Readable, AllFormed, PathAt, TokenAt, Offset;
      ReadsHere();
      PathToken(ts, strs, forest, k);
      NamesLast(forest, PathAt(ts, strs, forest, k));
    }

    lemma ChainOf(i: int, k: int, nodeoffset: int)
      requires Readable() && AllFormed(ts) && i == NodeTok(ts, nodeoffset) && IsNode(ts, k) && nodeoffset == Offset(ts, k)
      ensures i == k && IsPath(forest, PathAt(ts, strs, forest, k)) && Chain(k) == Names(forest, PathAt(ts, strs, forest, k))
    {
      hide Readable, AllFormed, PathAt, TokenAt, Offset;
      ReadsHere();
      PathToken(ts, strs, forest, k);
      TokAt(ts, k);
    }

    lemma PathStep(i: int, k: int, nodeoffset: int, offset: int, depth: int, held: seq<Bytes>, room: int)
      requires Readable() && AllFormed(ts) && Rooted(ts, forest) && Plain(ts) && IsNode(ts, k) && AtNode(k, offset, depth)
      requires i == NodeTok(ts, nodeoffset) && (i >= 0 ==> k <= i) && offset < nodeoffset
      requires Fitted(held, Chain(k), room) && |Text(held)| <= room
      ensures k + 1 < |ts| && PlainNames(held)
      ensures var s := Scan(ts, k + 1, depth, true); !s.Ended? && k < s.at < |ts| && Offset(ts, s.at) >= 0
      ensures var s := Scan(ts, k + 1, depth, true); s.Found? ==>
        IsNode(ts, s.at) && s.depth >= 1 && AtNode(s.at, Offset(ts, s.at), s.depth) && Offset(ts, s.at) < Offset(ts, RootEnd(ts))
        && (i >= 0 ==> s.at <= i && Offset(ts, s.at) <= nodeoffset) && Stored(held, Chain(s.at), room)
      ensures var s := Scan(ts, k + 1, depth, true); s.Past? ==> s.depth == -1 && s.at == RootEnd(ts) && i < 0
    {
      hide Readable, AllFormed, TokenAt, PathAt, Offset, Scan, Rooted, Fitted, Stored, Plain, Names, RootEnd;
      ReadsHere();
      WalkOn(ts, strs, forest, k);
      var s := Scan(ts, k + 1, depth, true);
      SameNode(i, k, offset, nodeoffset);
      PlainChain(k, held, room);
      TokAt(ts, s.at);
      OffsetsGrow(ts, s.at, s.at);
      if s.Found? {
        WalkOn(ts, strs, forest, s.at);
        OffsetsGrow(ts, s.at, RootEnd(ts));
        if i >= 0 {
          TokHere(nodeoffset);
          OffsetsGrow(ts, s.at, i);
        }
        NotRoot(s.at);
        ChainNext(k, s.at, held, room);
      }
    }

    lemma NotRoot(k: int)
      requires Readable() && Rooted(ts, forest) && IsNode(ts, k) && k > 0
      ensures Nest(ts, k) >= 1
    {
      hide Readable;
      ReadsHere();
      var j := SpanExists(ts, strs, forest, 0);
      BelowRoot(ts, strs, forest, j, k);
      assert Nest(ts, 0) == 0;
    }

    lemma ChainNext(k: int, m: int, held: seq<Bytes>, room: int)
      requires Readable() && IsNode(ts, k) && IsNode(ts, m) && k < m && (forall x :: k < x < m ==> !IsNode(ts, x)) && Fitted(held, Chain(k), room)
      ensures Stored(held, Chain(m), room)
    {
      hide Readable, PathAt, Fitted, Stored, Names, IsPath;
      ReadsHere();
      PathToken(ts, strs, forest, k);
      PathToken(ts, strs, forest, m);
      NextShares(ts, strs, forest, k, m);
      NamesShared(forest, PathAt(ts, strs, forest, k), PathAt(ts, strs, forest, m), Nest(ts, m));
      FittedNext(held, Chain(k), Chain(m), room);
    }

    lemma PlainChain(k: int, held: seq<Bytes>, room: int)
      requires Readable() && Plain(ts) && IsNode(ts, k) && Fitted(held, Chain(k), room)
      ensures PlainNames(held)
    {
      hide Readable, PathAt, Names, Plain;
      ReadsHere();
      PathToken(ts, strs, forest, k);
      var p := PathAt(ts, strs, forest, k);
      forall m | 0 <= m < |held| ensures SLASH !in held[m] {
        assert held[m] == Names(forest, p)[m];
        PlainName(p, m);
      }
    }

    lemma PlainName(p: Path, m: int)
      requires Readable() && Plain(ts) && IsPath(forest, p) && 0 <= m < |p|
      ensures SLASH !in Names(forest, p)[m]
    {
      hide Readable, Names, At, PathAt;
      ReadsHere();
      NamesPrefix(forest, p, m + 1);
      NamesLast(forest, p[..m + 1]);
      assert Names(forest, p)[..m + 1][m] == Names(forest, p)[m];
      var t := NodeToken(ts, strs, forest, p[..m + 1]);
      PathToken(ts, strs, forest, t);
    }

    /** The names stored too deep for the node at hand dropped again, from the back. Behind the root,
        at depth -1, the search for the slash of the first name runs below the start of out. */
    method PopNames(out: array<Byte>, start: int, startdepth: int, depth: int, ghost held: seq<Bytes>) returns (p: int, pdepth: int, below: bool)
      requires |held| == startdepth && start == |Text(held)| <= out.Length && out[..start] == Text(held) && PlainNames(held)
      requires depth == -1 || (0 <= depth && (depth >= 1 || startdepth == 0))
      ensures below <==> depth < 0
      ensures !below ==> pdepth == Min(startdepth, depth) && p == |Text(held[..pdepth])| <= start && out[..p] == Text(held[..pdepth]) && PlainNames(held[..pdepth])
    {
      p, pdepth, below := start, startdepth, false;
      assert held[..pdepth] == held;
      while pdepth > depth
        invariant Min(startdepth, depth) <= pdepth <= startdepth && pdepth >= 0
        invariant p == |Text(held[..pdepth])| <= start && out[..p] == Text(held[..pdepth])
      {
        if pdepth == 0 {
          assert held[..0] == [] && p == 0;
          return -1, pdepth, true;
        }
        ghost var t, name := Text(held[..pdepth - 1]), held[pdepth - 1];
        TextMore(held, pdepth - 1);
        TextGrows(held, pdepth - 1);
        assert out[..p] == t + name + [SLASH];
        p := p - 1;
        while p > 0 && out[p - 1] != SLASH
          invariant |t| <= p <= |t| + |name|
          decreases p
        {
          p := p - 1;
        }
        if p == 0 {
          return p, pdepth, true;
        }
        SlashFound(out[..], t, name, p);
        pdepth := pdepth - 1;
      }
    }

    lemma SlashFound(s: Bytes, t: Bytes, name: Bytes, p: int)
      requires 0 < |t| <= p <= |t| + |name| < |s| && s[..|t| + |name| + 1] == t + name + [SLASH] && SLASH !in name && s[p - 1] == SLASH
      ensures p == |t| && s[..p] == t
    {
      assert s[..|t| + |name| + 1][p - 1] == SLASH;
      assert forall m :: 0 <= m < |name| ==> (t + name + [SLASH])[|t| + m] == name[m] != SLASH;
      assert p == |t|;
      assert s[..p] == s[..|t| + |name| + 1][..p];
    }

    /** A name copied out of the blob, and the slash behind it. */
    method PushName(out: array<Byte>, start: int, src: int, len: int, ghost held: seq<Bytes>, ghost name: Bytes) returns (p: int)
      requires out != buf && IsString(buf[..], src, name) && len == |name|
      requires start == |Text(held)| && start + len + 1 <= out.Length && out[..start] == Text(held)
      modifies out
      ensures p == start + len + 1 == |Text(held + [name])| && out[..p] == Text(held + [name])
    {
      p := start;
      forall m | 0 <= m < len {
        out[p + m] := buf[src + m];
      }
      p := p + len;
      out[p] := SLASH;
      p := p + 1;
      assert buf[src..src + len] == name;
      assert (held + [name])[..|held|] == held;
      assert out[..p] == Text(held) + name + [SLASH];
    }

    /** The last slash dropped, unless it is the root's, and the text ended. */
    method EndPath(out: array<Byte>, start: int, ghost held: seq<Bytes>) returns (p: int)
      requires out.Length >= 2 && held != [] && start == |Text(held)| <= out.Length && out[..start] == Text(held)
      modifies out
      ensures p == |PathText(held)| < out.Length && out[..p] == PathText(held) && out[p] == 0
    {
      TextEnds(held);
      p := start;
      if p > 1 {
        p := p - 1;
      }
      assert out[..p] == Text(held)[..p];
      out[p] := 0;
    }
  }
}
