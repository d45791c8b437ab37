/** The sequential writer: a blob grown from both ends of its buffer, the structure block upwards and the
    strings downwards, and closed up by fdt_finish. */
module FdtWriter {
  import opened FdtFormat
  import opened FdtTree
  import opened FdtDoc
  import opened FdtWalk
  import opened FdtBlob
  import opened LibFdt

  // ---- names counted from the end of the strings ----------------------------------------------

  /** While strings are still added in front, a property names its string by the distance from the end of
      the block, as a negative number in 32 bits. */
  function Back(nameoff: int): int {
    TWO32 - nameoff
  }

  predicate NamedBack(ts: Tokens, strs: Bytes) {
    forall i :: 0 <= i < |ts| && ts[i].Prop? ==> 0 < Back(ts[i].nameoff) <= |strs|
  }

  /** The token with its name counted from the start of the strings, as fdt_finish rewrites it. */
  function Fixed1(t: Token, strs: Bytes): Token {
    if t.Prop? then t.(nameoff := (t.nameoff + |strs|) % TWO32) else t
  }

  function Fixed(ts: Tokens, strs: Bytes): (r: Tokens)
    ensures |r| == |ts| && forall i :: 0 <= i < |ts| ==> r[i] == Fixed1(ts[i], strs)
  {
    if ts == [] then [] else [Fixed1(ts[0], strs)] + Fixed(ts[1..], strs)
  }

  lemma FixedBack(t: Token, strs: Bytes)
    requires WellFormed(t) && t.Prop? && 0 < Back(t.nameoff) <= |strs| < TWO32
    ensures Fixed1(t, strs).nameoff == |strs| - Back(t.nameoff) && WellFormed(Fixed1(t, strs))
  {
    var n := t.nameoff + |strs|;
    assert TWO32 <= n < 2 * TWO32;
    assert n % TWO32 == n - TWO32;
  }

  lemma FixedOther(t: Token, strs: Bytes)
    requires !t.Prop?
    ensures Fixed1(t, strs) == t
  {
  }

  /** A string keeps its distance from the end when others are put in front. */
  lemma {:induction false} CStrFront(more: Bytes, s: Bytes, o: int)
    requires 0 <= o
    ensures CStr(more + s, |more| + o) == CStr(s, o)
    decreases |s| - o
  {
    if o < |s| && s[o] != 0 {
      CStrFront(more, s, o + 1);
    }
  }

  /** So every property keeps its name. */
  lemma {:induction false} ItemsFront(ts: Tokens, strs: Bytes, more: Bytes)
    requires AllFormed(ts) && NamedBack(ts, strs) && |more + strs| < TWO32
    ensures Items(Fixed(ts, more + strs), more + strs) == Items(Fixed(ts, strs), strs)
  {
    if ts != [] {
      ItemsFront(ts[1..], strs, more);
      if ts[0].Prop? {
        FixedBack(ts[0], strs);
        FixedBack(ts[0], more + strs);
        CStrFront(more, strs, |strs| - Back(ts[0].nameoff));
      }
    }
  }

  lemma FixedAppend(a: Tokens, b: Tokens, strs: Bytes)
    ensures Fixed(a + b, strs) == Fixed(a, strs) + Fixed(b, strs)
  {
    hide Fixed, Fixed1;
    var x, y := Fixed(a + b, strs), Fixed(a, strs) + Fixed(b, strs);
    assert forall i :: 0 <= i < |x| ==> x[i] == y[i];
  }

  lemma FixedFormed(ts: Tokens, strs: Bytes)
    requires AllFormed(ts) && NamedBack(ts, strs) && |strs| < TWO32
    ensures AllFormed(Fixed(ts, strs)) && Named(Fixed(ts, strs), strs)
  {
    forall i | 0 <= i < |ts| ensures WellFormed(Fixed1(ts[i], strs)) && (ts[i].Prop? ==> Fixed1(ts[i], strs).nameoff < |strs|) {
      if ts[i].Prop? { FixedBack(ts[i], strs); }
    }
  }

  /** What one more token writes. */
  lemma WroteToken(ts: Tokens, strs: Bytes, t: Token)
    requires AllFormed(ts) && NamedBack(ts, strs) && WellFormed(t) && (t.Prop? ==> 0 < Back(t.nameoff) <= |strs|)
    ensures AllFormed(ts + [t]) && NamedBack(ts + [t], strs)
    ensures Items(Fixed(ts + [t], strs), strs) == Items(Fixed(ts, strs), strs) + Item1(Fixed1(t, strs), strs)
    ensures Enc(ts + [t]) == Enc(ts) + Enc1(t)
  {
    hide WellFormed, Fixed1, Enc, Enc1, Item1;
    FixedAppend(ts, [t], strs);
    assert Fixed([t], strs) == [Fixed1(t, strs)];
    ItemsAppend(Fixed(ts, strs), Fixed([t], strs), strs);
    ItemsOne(Fixed1(t, strs), strs);
    EncOne(t);
    EncAppend(ts, [t]);
  }

  // ---- the reservation block --------------------------------------------------------------------

  /** The entries up to the first of size 0, which is where readers stop. */
  function UpTo(entries: seq<Reserve>): seq<Reserve> {
    if entries == [] then [] else if entries[0].size == 0 then [entries[0]] else [entries[0]] + UpTo(entries[1..])
  }

  predicate Terminates(entries: seq<Reserve>) {
    exists k :: 0 <= k < |entries| && entries[k].size == 0
  }

  lemma {:induction false} UpToOk(entries: seq<Reserve>)
    requires AllWide(entries) && Terminates(entries)
    ensures RsvOk(UpTo(entries)) && |UpTo(entries)| <= |entries| && entries[..|UpTo(entries)|] == UpTo(entries)
  {
    if entries[0].size != 0 {
      var k :| 0 <= k < |entries| && entries[k].size == 0;
      assert entries[1..][k - 1] == entries[k];
      UpToOk(entries[1..]);
      var u := UpTo(entries[1..]);
      assert UpTo(entries) == [entries[0]] + u;
      assert entries[..1 + |u|] == [entries[0]] + entries[1..][..|u|];
    }
  }

  // ---- bytes between the two ends ---------------------------------------------------------------

  /** What the two growing ends hold, with only free bytes between them. */
  predicate Grown(s: Bytes, h: Header, entries: seq<Reserve>, ts: Tokens, strs: Bytes) {
    && |s| < 0x8000_0000 && h.totalSize == |s| && AllWide(entries) && AllFormed(ts)
    && h.offRsv == 48 && h.offStruct == 48 + 16 * |entries|
    && Has(s, h.offRsv, RsvBytes(entries))
    && Has(s, h.offStruct, Enc(ts)) && |Enc(ts)| == h.sizeStruct
    && Has(s, |s| - |strs|, strs) && |strs| == h.sizeStrings
    && h.offStruct + h.sizeStruct + h.sizeStrings <= |s|
  }

  lemma HasOutside(s: Bytes, t: Bytes, at: int, to: int, o: int, b: Bytes)
    requires SameOutside(s, t, at, to) && Has(s, o, b) && (o + |b| <= at || to <= o)
    ensures Has(t, o, b)
  {
    if o + |b| <= at {
      SubHeads(t, s, at, o, o + |b|);
    } else {
      SubTails(t, s, to, o, o + |b|);
    }
  }

  /** A token written behind the others. */
  lemma GrownToken(s: Bytes, t: Bytes, h: Header, entries: seq<Reserve>, ts: Tokens, strs: Bytes, tok: Token)
    requires Grown(s, h, entries, ts, strs) && WellFormed(tok) && AllFormed(ts + [tok]) && Enc(ts + [tok]) == Enc(ts) + Enc1(tok)
    requires h.offStruct + h.sizeStruct + |Enc1(tok)| + h.sizeStrings <= |s|
    requires SameOutside(s, t, h.offStruct + h.sizeStruct, h.offStruct + h.sizeStruct + |Enc1(tok)|) && Has(t, h.offStruct + h.sizeStruct, Enc1(tok))
    ensures Grown(t, h.(sizeStruct := h.sizeStruct + |Enc1(tok)|), entries, ts + [tok], strs)
  {
    hide WellFormed, Enc, Enc1, AllFormed, AllWide, RsvBytes, SameOutside, Has;
    GrownKeeps(s, t, h, entries, ts, strs, |Enc1(tok)|);
    HasBoth(t, h.offStruct, Enc(ts), Enc1(tok));
  }

  lemma GrownKeeps(s: Bytes, t: Bytes, h: Header, entries: seq<Reserve>, ts: Tokens, strs: Bytes, n: int)
    requires Grown(s, h, entries, ts, strs) && 0 <= n && h.offStruct + h.sizeStruct + n + h.sizeStrings <= |s|
    requires SameOutside(s, t, h.offStruct + h.sizeStruct, h.offStruct + h.sizeStruct + n)
    ensures |t| == |s| && AllWide(entries) && AllFormed(ts)
    ensures Has(t, h.offRsv, RsvBytes(entries)) && Has(t, h.offStruct, Enc(ts)) && Has(t, |s| - |strs|, strs)
  {
    hide WellFormed, Enc, AllFormed, AllWide, RsvBytes, SameOutside, Has;
    var at := h.offStruct + h.sizeStruct;
    SameSizes(s, t, at, at + n);
    GrownSizes(s, h, entries, ts, strs);
    HasOutside(s, t, at, at + n, h.offRsv, RsvBytes(entries));
    HasOutside(s, t, at, at + n, h.offStruct, Enc(ts));
    HasOutside(s, t, at, at + n, |s| - |strs|, strs);
  }

  lemma GrownSizes(s: Bytes, h: Header, entries: seq<Reserve>, ts: Tokens, strs: Bytes)
    requires Grown(s, h, entries, ts, strs)
    ensures AllWide(entries) && |RsvBytes(entries)| == 16 * |entries| && 0 <= h.sizeStruct && 0 <= h.sizeStrings
  {
  }

  /** A string written in front of the others. */
  lemma GrownString(s: Bytes, h: Header, entries: seq<Reserve>, ts: Tokens, strs: Bytes, b: Bytes)
    requires Grown(s, h, entries, ts, strs) && h.offStruct + h.sizeStruct + h.sizeStrings + |b| <= |s|
    ensures Grown(Written(s, |s| - |strs| - |b|, b), h.(sizeStrings := h.sizeStrings + |b|), entries, ts, b + strs)
  {
    hide Enc, AllFormed, AllWide, RsvBytes, Has, Written;
    GrownSizes(s, h, entries, ts, strs);
    var at := |s| - |strs| - |b|;
    WrittenHas(s, at, b);
    WrittenKeeps(s, at, b, h.offRsv, RsvBytes(entries));
    WrittenKeeps(s, at, b, h.offStruct, Enc(ts));
    WrittenKeeps(s, at, b, |s| - |strs|, strs);
    HasBoth(Written(s, at, b), at, b, strs);
  }

  /** An entry written behind the others, before any token. */
  lemma GrownEntry(s: Bytes, t: Bytes, h: Header, entries: seq<Reserve>, strs: Bytes, e: Reserve)
    requires Grown(s, h, entries, [], strs) && Wide(e) && h.offStruct + 16 + h.sizeStrings <= |s|
    requires SameOutside(s, t, h.offStruct, h.offStruct + 16) && Has(t, h.offStruct, RsvEntry(e))
    ensures Grown(t, h.(offStruct := h.offStruct + 16), entries + [e], [], strs)
  {
    SameSizes(s, t, h.offStruct, h.offStruct + 16);
    EntryBytes(e);
    assert Enc([]) == [];
    assert AllWide(entries);
    RsvAppend(entries, [e]);
    hide Enc, AllWide, RsvBytes, RsvEntry, SameOutside, Has;
    HasOutside(s, t, h.offStruct, h.offStruct + 16, h.offRsv, RsvBytes(entries));
    HasOutside(s, t, h.offStruct, h.offStruct + 16, |s| - |strs|, strs);
    HasBoth(t, h.offRsv, RsvBytes(entries), RsvEntry(e));
    NothingHas(t, h.offStruct + 16);
  }

  lemma NothingHas(t: Bytes, o: int)
    requires 0 <= o <= |t|
    ensures Has(t, o, [])
  {
  }

  lemma NotGrown(s: Bytes, h: Header, entries: seq<Reserve>, ts: Tokens, strs: Bytes)
    requires h.sizeStruct == 0 && h.offStruct + |strs| > |s|
    ensures !Grown(s, h, entries, ts, strs)
  {
    hide Enc, AllFormed, AllWide, RsvBytes, Has;
  }

  // ---- what the tokens spell --------------------------------------------------------------------

  predicate NoStops(ts: Tokens) {
    forall i :: 0 <= i < |ts| ==> !ts[i].Stop?
  }

  /** Read with their names counted from the end, the tokens spell out exactly what was written. */
  predicate Spelling(ts: Tokens, strs: Bytes, written: seq<Item>) {
    && NamedBack(ts, strs) && Terminated(strs) && NoStops(ts)
    && Items(Fixed(ts, strs), strs) == written
  }

  lemma Spell(ts: Tokens, strs: Bytes, written: seq<Item>, t: Token, more: seq<Item>)
    requires Spelling(ts, strs, written) && AllFormed(ts) && WellFormed(t) && !t.Stop? && (t.Prop? ==> 0 < Back(t.nameoff) <= |strs|)
    requires Item1(Fixed1(t, strs), strs) == more
    ensures AllFormed(ts + [t]) && Spelling(ts + [t], strs, written + more) && Enc(ts + [t]) == Enc(ts) + Enc1(t)
  {
    hide WellFormed, Fixed, Fixed1, Items, Item1, Enc, Enc1, AllFormed, NamedBack;
    WroteToken(ts, strs, t);
  }

  /** Strings put in front change nothing that was written. */
  lemma SpellFront(ts: Tokens, strs: Bytes, written: seq<Item>, more: Bytes)
    requires Spelling(ts, strs, written) && AllFormed(ts) && |more + strs| < TWO32 && Terminated(more)
    ensures Spelling(ts, more + strs, written)
  {
    hide Fixed, Items, AllFormed;
    ItemsFront(ts, strs, more);
    assert strs == [] ==> more + strs == more;
  }

  lemma GrownHeader(s: Bytes, h: Header, entries: seq<Reserve>, ts: Tokens, strs: Bytes)
    requires Grown(s, h, entries, ts, strs)
    ensures |s| < 0x8000_0000 && AllFormed(ts) && h.totalSize == |s| && |strs| == h.sizeStrings >= 0 && h.sizeStruct >= 0
    ensures h.offRsv == 48 && h.offStruct == 48 + 16 * |entries| && |Enc(ts)| == h.sizeStruct && h.offStruct + h.sizeStruct + h.sizeStrings <= |s|
  {
    hide Enc, AllFormed, RsvBytes;
  }

  /** The header of a blob just begun in a buffer of that size. */
  function NewHeader(size: int): Header {
    Header(FDT_SW_MAGIC, size, 48, size, 48, LAST_VERSION, FIRST_VERSION, 0, 0)
  }

  lemma NothingYet(s: Bytes)
    requires 48 <= |s| < 0x8000_0000
    ensures Grown(s, NewHeader(|s|), [], [], [])
    ensures Spelling([], [], [])
  {
    NothingHas(s, 48);
    NothingHas(s, |s|);
  }

  lemma {:induction false} NoTokensYet(ts: Tokens)
    requires AllFormed(ts) && |Enc(ts)| == 0
    ensures ts == []
  {
  }

  // ---- the space test -----------------------------------------------------------------------------

  /** _fdt_grab_space lets len bytes in: the sum and the comparison are unsigned. */
  predicate Grants(h: Header, len: int) {
    var end := (h.sizeStruct + len) % TWO32;
    end >= h.sizeStruct && end <= (h.totalSize - h.offStruct - h.sizeStrings) % TWO32
  }

  /** The bytes between the two growing ends. */
  function Left(h: Header): int {
    h.totalSize - h.offStruct - h.sizeStruct - h.sizeStrings
  }

  /** Sizes as the calls keep them: each an int that is not negative. */
  predicate Sized(h: Header) {
    && 0 <= h.totalSize < 0x8000_0000 && 0 <= h.offStruct < 0x8000_0000
    && 0 <= h.sizeStruct < 0x8000_0000 && 0 <= h.sizeStrings < 0x8000_0000
  }

  /** A request for len bytes is answered as it should be: granted exactly if the bytes are there. */
  predicate Answered(h: Header, len: int) {
    Grants(h, len) <==> h.offStruct + h.sizeStruct + len + h.sizeStrings <= h.totalSize
  }

  /** The test is right for every request exactly when the block's start and the strings together do not
      exceed the buffer. */
  lemma GrantsExactly(h: Header)
    requires Sized(h) && h.offStruct + h.sizeStrings < 0x8000_0000 && h.sizeStruct + 4 < 0x8000_0000
    ensures (forall len :: 4 <= len < 0x8000_0000 ==> Answered(h, len)) <==> h.offStruct + h.sizeStrings <= h.totalSize
  {
    if h.offStruct + h.sizeStrings <= h.totalSize {
      forall len | 4 <= len < 0x8000_0000 ensures Answered(h, len) {
        GrantsFits(h, len);
      }
    } else {
      var left := h.totalSize - h.offStruct - h.sizeStrings;
      assert left % TWO32 == left + TWO32;
      assert Grants(h, 4) && !Answered(h, 4);
    }
  }

  lemma GrantsFits(h: Header, len: int)
    requires Sized(h) && 0 <= len < 0x8000_0000 && h.offStruct + h.sizeStrings <= h.totalSize
    ensures Grants(h, len) <==> len <= Left(h)
  {
    assert (h.sizeStruct + len) % TWO32 == h.sizeStruct + len;
    assert (h.totalSize - h.offStruct - h.sizeStrings) % TWO32 == h.totalSize - h.offStruct - h.sizeStrings;
  }

  /** So in a buffer just begun: fdt_create takes 40 bytes and more, and the test is right from 48 on. In
      40 bytes, a begin is granted 8 bytes behind the end. */
  lemma CreatedSmall(size: int)
    requires HEADER_SIZE <= size < 0x8000_0000
    ensures (forall len :: 4 <= len < 0x8000_0000 ==> Answered(NewHeader(size), len)) <==> 48 <= size
    ensures Grants(NewHeader(40), 8) && Left(NewHeader(40)) == -8
  {
    GrantsExactly(NewHeader(size));
  }

  // ---- what the calls write ---------------------------------------------------------------------

  lemma EntryPut(s: Bytes, p: int, e: Reserve)
    requires Wide(e) && 0 <= p && p + 16 <= |s|
    ensures var t := Written(Written(s, p, Put64(e.address)), p + 8, Put64(e.size)); SameOutside(s, t, p, p + 16) && Has(t, p, RsvEntry(e))
  {
    WideWords(e);
    hide Put64, Written, Has, SameOutside, RsvEntry;
    var a, b := Put64(e.address), Put64(e.size);
    var t := Written(s, p, a);
    WrittenHas(s, p, a);
    WrittenHas(t, p + 8, b);
    WrittenKeeps(t, p + 8, b, p, a);
    HasBoth(Written(t, p + 8, b), p, a, b);
    SameSelf(s, p, p + 16);
    WrittenInside(s, s, p, p + 16, p, a);
    WrittenInside(s, t, p, p + 16, p + 8, b);
  }

  lemma BeginPut(s: Bytes, p: int, name: Bytes, t: Bytes)
    requires 0 !in name && 0 <= p && p + 4 + Align4(|name| + 1) <= |s|
    requires t == Written(Written(s, p, Put32(BEGIN_NODE)), p + 4, name + [0])
    ensures var tok := BeginFrom(t, p + 4, name); |Enc1(tok)| == 4 + Align4(|name| + 1) && Has(t, p, Enc1(tok)) && SameOutside(s, t, p, p + |Enc1(tok)|)
  {
    hide Put32, Written, Has, SameOutside, Align4, WellFormed, Enc1;
    var n := 4 + Align4(|name| + 1);
    var u, tok := Written(s, p, Put32(BEGIN_NODE)), BeginFrom(t, p + 4, name);
    WrittenHas(s, p, Put32(BEGIN_NODE));
    WrittenHas(u, p + 4, name + [0]);
    WrittenKeeps(u, p + 4, name + [0], p, Put32(BEGIN_NODE));
    HasThere(t, p + 5 + |name|, Align4(|name| + 1) - |name| - 1);
    BeginHas(t, p, name, tok.pad);
    SameSelf(s, p, p + n);
    WrittenInside(s, s, p, p + n, p, Put32(BEGIN_NODE));
    WrittenInside(s, u, p, p + n, p + 4, name + [0]);
  }

  lemma WordPut(s: Bytes, p: int, tok: Token)
    requires (tok.EndNode? || tok.Stop?) && 0 <= p && p + 4 <= |s|
    ensures WellFormed(tok) && Enc1(tok) == Put32(TagOf(tok))
    ensures var t := Written(s, p, Put32(TagOf(tok))); Has(t, p, Enc1(tok)) && SameOutside(s, t, p, p + 4)
  {
    hide Put32, Written, Has, SameOutside;
    assert Enc1(tok) == Put32(TagOf(tok));
    WrittenHas(s, p, Put32(TagOf(tok)));
    SameSelf(s, p, p + 4);
    WrittenInside(s, s, p, p + 4, p, Put32(TagOf(tok)));
  }

  lemma PropPut(s: Bytes, p: int, nameoff: int, val: Bytes, t: Bytes)
    requires 0 <= nameoff < TWO32 && |val| < TWO32 && 0 <= p && p + 12 + Align4(|val|) <= |s|
    requires t == Written(Written(Written(Written(s, p, Put32(PROP)), p + 8, Put32(nameoff)), p + 4, Put32(|val|)), p + 12, val)
    ensures var tok := PropFrom(t, p + 12, nameoff, |val|);
      tok.val == val && |Enc1(tok)| == 12 + Align4(|val|) && Has(t, p, Enc1(tok)) && SameOutside(s, t, p, p + |Enc1(tok)|)
  {
    hide Put32, Written, SameOutside, Align4, WellFormed, Enc1;
    var n := 12 + Align4(|val|);
    var a := Written(s, p, Put32(PROP));
    var b := Written(a, p + 8, Put32(nameoff));
    var c := Written(b, p + 4, Put32(|val|));
    WrittenHas(c, p + 12, val);
    hide Has;
    WrittenHas(s, p, Put32(PROP));
    WrittenHas(a, p + 8, Put32(nameoff));
    WrittenHas(b, p + 4, Put32(|val|));
    WrittenKeeps(a, p + 8, Put32(nameoff), p, Put32(PROP));
    WrittenKeeps(b, p + 4, Put32(|val|), p, Put32(PROP));
    WrittenKeeps(b, p + 4, Put32(|val|), p + 8, Put32(nameoff));
    WrittenKeeps(c, p + 12, val, p, Put32(PROP));
    WrittenKeeps(c, p + 12, val, p + 8, Put32(nameoff));
    WrittenKeeps(c, p + 12, val, p + 4, Put32(|val|));
    var tok := PropFrom(t, p + 12, nameoff, |val|);
    HasThere(t, p + 12 + |val|, Align4(|val|) - |val|);
    PropHas(t, p, nameoff, val, tok.pad);
    PropSize(tok);
    SameSelf(s, p, p + n);
    WrittenInside(s, s, p, p + n, p, Put32(PROP));
    WrittenInside(s, a, p, p + n, p + 8, Put32(nameoff));
    WrittenInside(s, b, p, p + n, p + 4, Put32(|val|));
    WrittenInside(s, c, p, p + n, p + 12, val);
  }

  // ---- closing up -------------------------------------------------------------------------------

  /** The strings moved down to the end of the structure block: a blob in order, still with names counted back. */
  lemma Settled(s: Bytes, h: Header, entries: seq<Reserve>, ts: Tokens, strs: Bytes)
    requires Grown(s, h, entries, ts, strs) && Terminates(entries)
    ensures var g, n := h.(offStrings := h.offStruct + h.sizeStruct), |UpTo(entries)|;
      Holds(Moved(s, g.offStrings, |s| - |strs|, |strs|), g, UpTo(entries), ts, strs) && Ordered(g, n)
  {
    hide Enc, AllFormed, AllWide, Has, RsvBytes, Moved, Terminates, UpTo, RsvOk, HasBlocks, Holds, Ordered;
    GrownHeader(s, h, entries, ts, strs);
    SettledBlocks(s, h, entries, ts, strs);
    UpToOk(entries);
    RsvShortened(Moved(s, h.offStruct + h.sizeStruct, |s| - |strs|, |strs|), h.(offStrings := h.offStruct + h.sizeStruct), entries, ts, strs, |UpTo(entries)|);
  }

  lemma SettledBlocks(s: Bytes, h: Header, entries: seq<Reserve>, ts: Tokens, strs: Bytes)
    requires Grown(s, h, entries, ts, strs)
    ensures AllWide(entries) && AllFormed(ts) && 0 <= h.offStruct + h.sizeStruct <= |s| - |strs|
    ensures var g := h.(offStrings := h.offStruct + h.sizeStruct);
      HasBlocks(Moved(s, g.offStrings, |s| - |strs|, |strs|), g, RsvBytes(entries), Enc(ts), strs) && Ordered(g, |entries|)
  {
    hide Enc, AllFormed, AllWide, Has, RsvBytes, Moved;
    GrownSizes(s, h, entries, ts, strs);
    var d := h.offStruct + h.sizeStruct;
    MovedKeeps(s, d, |s| - |strs|, |strs|, h.offRsv, RsvBytes(entries));
    MovedKeeps(s, d, |s| - |strs|, |strs|, h.offStruct, Enc(ts));
    MovedHas(s, d, |s| - |strs|, strs);
    assert OnWord(h.offStruct);
  }

  /** The first i tokens with their names counted from the start, the others not yet. */
  function Mixed(ts: Tokens, strs: Bytes, i: int): (r: Tokens)
    requires 0 <= i <= |ts|
    ensures |r| == |ts| && forall k :: 0 <= k < |ts| ==> r[k] == if k < i then Fixed1(ts[k], strs) else ts[k]
  {
    Fixed(ts[..i], strs) + ts[i..]
  }

  lemma MixedStep(ts: Tokens, strs: Bytes, i: int)
    requires 0 <= i < |ts|
    ensures Mixed(ts, strs, i + 1) == Mixed(ts, strs, i)[i := Fixed1(ts[i], strs)]
    ensures !ts[i].Prop? ==> Mixed(ts, strs, i + 1) == Mixed(ts, strs, i)
  {
    hide Mixed, Fixed;
    var a, b, c := Mixed(ts, strs, i + 1), Mixed(ts, strs, i), Mixed(ts, strs, i)[i := Fixed1(ts[i], strs)];
    assert forall k :: 0 <= k < |ts| ==> a[k] == c[k];
    if !ts[i].Prop? {
      FixedOther(ts[i], strs);
      assert forall k :: 0 <= k < |ts| ==> a[k] == b[k];
    }
  }

  lemma MixedEnds(ts: Tokens, strs: Bytes)
    requires ts != [] && ts[|ts| - 1].Stop?
    ensures Mixed(ts, strs, 0) == ts && Mixed(ts, strs, |ts| - 1) == Fixed(ts, strs)
  {
    hide Mixed, Fixed;
    var a, b, c := Mixed(ts, strs, 0), Mixed(ts, strs, |ts| - 1), Fixed(ts, strs);
    assert forall k :: 0 <= k < |ts| ==> a[k] == ts[k];
    FixedOther(ts[|ts| - 1], strs);
    assert forall k :: 0 <= k < |ts| ==> b[k] == c[k];
  }

  /** One name offset rewritten in the structure block. */
  lemma NameRewritten(s: Bytes, h: Header, rsv: seq<Reserve>, us: Tokens, strs: Bytes, i: int, nameoff: int)
    requires AllFormed(us) && Holds(s, h, rsv, us, strs) && Ordered(h, |rsv|) && h.totalSize <= |s|
    requires 0 <= i < |us| && us[i].Prop? && 0 <= nameoff < TWO32
    ensures 0 <= h.offStruct && 0 <= Offset(us, i) && h.offStruct + Offset(us, i) + 12 <= |s|
    ensures var t, vs := Written(s, h.offStruct + Offset(us, i) + 8, Put32(nameoff)), us[i := us[i].(nameoff := nameoff)];
      AllFormed(vs) && Holds(t, h, rsv, vs, strs)
  {
    hide Holds, Enc, Enc1, Put32, Offset, Spliced, Has, AllFormed, Written, SameOutside, Align4, Ordered;
    var at := h.offStruct + Offset(us, i);
    FormedAt(us, i);
    var tok := us[i].(nameoff := nameoff);
    OffsetInside(s, h, rsv, us, strs, i);
    TokenHas(s, h, rsv, us, strs, i);
    PropSize(us[i]);
    PropSize(tok);
    DataEnd(h, |rsv|);
    PropHas(s, at, us[i].nameoff, tok.val, tok.pad);
    var t, b := Written(s, at + 8, Put32(nameoff)), Put32(nameoff);
    WrittenHas(s, at + 8, b);
    WrittenKeeps(s, at + 8, b, at, Put32(PROP));
    WrittenKeeps(s, at + 8, b, at + 4, Put32(|tok.val|));
    WrittenKeeps(s, at + 8, b, at + 12, tok.val);
    WrittenKeeps(s, at + 8, b, at + 12 + |tok.val|, tok.pad);
    PropHas(t, at, nameoff, tok.val, tok.pad);
    SameSelf(s, at, at + |Enc1(tok)|);
    WrittenInside(s, s, at, at + |Enc1(tok)|, at + 8, b);
    SplicedSame(s, t, at, at + |Enc1(tok)|, DataSize(h), Enc1(tok));
    TokenEdited(s, t, h, rsv, us, strs, i, tok);
  }

  lemma SameSizeOffset(us: Tokens, vs: Tokens, i: int, k: int)
    requires AllFormed(us) && AllFormed(vs) && 0 <= i < |us| == |vs| && vs == us[i := vs[i]] && |Enc1(vs[i])| == |Enc1(us[i])| && k == i + 1
    ensures Offset(vs, k) == Offset(us, k)
  {
    hide Enc1, WellFormed, AllFormed;
    OffsetStep(us, i);
    OffsetStep(vs, i);
    assert us[..i] == vs[..i];
    assert Offset(us, i) == Offset(vs, i);
    hide Offset;
  }

  /** The finished tokens read back as what was written. */
  lemma FinishedReads(ts: Tokens, strs: Bytes, written: seq<Item>, f: seq<Node>)
    requires Spelling(ts, strs, written) && AllFormed(ts) && |strs| < TWO32 && written == FlatAll(f)
    ensures Reads(Fixed(ts + [Stop], strs), strs, f)
  {
    hide Fixed1, Items, FlatAll, Item1, WellFormed, NamedBack, AllFormed, Terminated, Named, Fixed;
    StopFormed();
    WroteToken(ts, strs, Stop);
    StopSilent(strs);
    FixedFormed(ts + [Stop], strs);
    assert Items(Fixed(ts + [Stop], strs), strs) == FlatAll(f);
    FixedStops(ts, strs);
  }

  lemma StopFormed()
    ensures WellFormed(Stop)
  {
  }

  lemma FixedStops(ts: Tokens, strs: Bytes)
    requires NoStops(ts)
    ensures StopsOnce(Fixed(ts + [Stop], strs))
  {
    hide Fixed, Fixed1;
    FixedKinds(ts + [Stop], strs);
  }

  lemma StopSilent(strs: Bytes)
    ensures Item1(Fixed1(Stop, strs), strs) == []
  {
  }

  lemma FixedKinds(ts: Tokens, strs: Bytes)
    ensures forall i :: 0 <= i < |ts| ==> (Fixed(ts, strs)[i].Stop? <==> ts[i].Stop?)
  {
    hide Fixed;
  }

  class Writer {
    const buf: array<Byte>
    var h: Header

    /** What has been written: the reservation entries, the tokens, the strings, and the items that the
        calls asked for. */
    ghost var entries: seq<Reserve>
    ghost var ts: Tokens
    ghost var strs: Bytes
    ghost var written: seq<Item>

    ghost predicate Valid()
      reads this, buf
    {
      && h.magic == FDT_SW_MAGIC && h.version == LAST_VERSION && h.lastComp == FIRST_VERSION
      && Grown(buf[..], h, entries, ts, strs)
      && Spelling(ts, strs, written)
    }

    /** fdt_create's own state: in order from 48 bytes on. */
    constructor (room: array<Byte>)
      requires HEADER_SIZE <= room.Length < 0x8000_0000
      modifies room
      ensures buf == room && h == NewHeader(room.Length) && entries == [] && ts == [] && strs == [] && written == []
      ensures Valid() <==> 48 <= room.Length
    {
      buf := room;
      h := NewHeader(room.Length);
      entries, ts, strs, written := [], [], [], [];
      new;
      forall i | 0 <= i < room.Length {
        room[i] := 0;
      }
      if room.Length >= 48 { NothingYet(buf[..]); }
    }

    lemma GrabRight(len: int)
      requires Valid() && Sized(h) && 0 <= len < 0x8000_0000
      ensures Grants(h, len) <==> len <= Left(h)
      ensures len <= Left(h) ==> (h.sizeStruct + len) % TWO32 == h.sizeStruct + len
    {
      hide Spelling;
      GrownHeader(buf[..], h, entries, ts, strs);
      hide Grown;
      GrantsFits(h, len);
    }

    /** _fdt_grab_space: the place of the next len bytes of the structure block, or -1. */
    method GrabSpace(len: int) returns (at: int)
      requires Sized(h) && 0 <= len < 0x8000_0000
      modifies this`h
      ensures at == if Grants(old(h), len) then old(h).offStruct + old(h).sizeStruct else -1
      ensures h == if at >= 0 then old(h).(sizeStruct := (old(h).sizeStruct + len) % TWO32) else old(h)
      ensures old(Valid()) ==> (at >= 0 <==> len <= Left(old(h))) && (at >= 0 ==> h.sizeStruct == old(h).sizeStruct + len)
    {
      hide Grown, Spelling;
      if Valid() { GrabRight(len); }
      var offset := h.sizeStruct;
      var spaceleft := (h.totalSize - h.offStruct - h.sizeStrings) % TWO32;
      var end := (offset + len) % TWO32;
      if end < offset || end > spaceleft {
        return -1;
      }
      h := h.(sizeStruct := end);
      return h.offStruct + offset;
    }

    /** The one misuse of fdt_add_reservemap_entry that its tests miss: strings but no token yet, and an
        entry that fits the buffer and not the space in front of the strings. */
    ghost predicate EntryOverStrings()
      reads this
      requires AllFormed(ts)
    {
      |Enc(ts)| == 0 && 48 + 16 * |entries| + 16 <= buf.Length && 48 + 16 * |entries| + 16 + |strs| > buf.Length
    }

    /** fdt_add_reservemap_entry */
    method AddReservemapEntry(addr: int, size: int) returns (err: int)
      requires Valid() && Wide(Reserve(addr, size))
      modifies buf, this`h, this`entries
      ensures Valid() <==> !old(EntryOverStrings())
      ensures err == if |Enc(ts)| != 0 then -ERR_BADSTATE else if 48 + 16 * |old(entries)| + 16 > buf.Length then -ERR_NOSPACE else 0
      ensures entries == if err == 0 then old(entries) + [Reserve(addr, size)] else old(entries)
      ensures err != 0 ==> buf[..] == old(buf[..]) && h == old(h)
    {
      hide Grown, Spelling, Written, Put64, RsvEntry, Enc, SameOutside, Has;
      GrownHeader(buf[..], h, entries, ts, strs);
      if h.sizeStruct != 0 {
        return -ERR_BADSTATE;
      }
      var offset := h.offStruct;
      if offset + 16 > h.totalSize {
        return -ERR_NOSPACE;
      }
      ghost var s, g, e := buf[..], h, Reserve(addr, size);
      WideWords(e);
      PutBytes(buf, offset, Put64(addr));
      PutBytes(buf, offset + 8, Put64(size));
      EntryPut(s, offset, e);
      NoTokensYet(ts);
      h := h.(offStruct := offset + 16);
      entries := entries + [e];
      if offset + 16 + |strs| <= buf.Length {
        GrownEntry(s, buf[..], g, old(entries), strs, e);
      } else {
        NotGrown(buf[..], h, entries, ts, strs);
      }
      return 0;
    }

    /** fdt_finish_reservemap */
    method FinishReservemap() returns (err: int)
      requires Valid()
      modifies buf, this`h, this`entries
      ensures Valid() <==> !old(EntryOverStrings())
      ensures err == if |Enc(ts)| != 0 then -ERR_BADSTATE else if 48 + 16 * |old(entries)| + 16 > buf.Length then -ERR_NOSPACE else 0
      ensures entries == if err == 0 then old(entries) + [Reserve(0, 0)] else old(entries)
      ensures err == 0 ==> Terminates(entries)
    {
      err := AddReservemapEntry(0, 0);
      if err == 0 { assert entries[|entries| - 1].size == 0; }
    }

    /** fdt_begin_node */
    method BeginNode(name: Bytes) returns (err: int)
      requires Valid() && 0 !in name && |name| + 8 < 0x8000_0000
      modifies buf, this`h, this`ts, this`written
      ensures Valid()
      ensures err == if old(h).offStruct + old(h).sizeStruct + 4 + Align4(|name| + 1) + old(h).sizeStrings <= buf.Length then 0 else -ERR_NOSPACE
      ensures written == if err == 0 then old(written) + [Open(name)] else old(written)
    {
      hide Grown, Spelling, Written, Put32, Enc, SameOutside, Has, WellFormed, Align4;
      GrownHeader(buf[..], h, entries, ts, strs);
      ghost var s, g := buf[..], h;
      var nh := GrabSpace(4 + Align4(|name| + 1));
      if nh < 0 {
        return -ERR_NOSPACE;
      }
      PutBytes(buf, nh, Put32(BEGIN_NODE));
      PutBytes(buf, nh + 4, name + [0]);
      ghost var tok := BeginFrom(buf[..], nh + 4, name);
      BeginPut(s, nh, name, buf[..]);
      Spell(ts, strs, written, tok, [Open(name)]);
      GrownToken(s, buf[..], g, entries, ts, strs, tok);
      ts, written := ts + [tok], written + [Open(name)];
      return 0;
    }

    /** fdt_end_node */
    method EndNode() returns (err: int)
      requires Valid()
      modifies buf, this`h, this`ts, this`written
      ensures Valid()
      ensures err == if old(h).offStruct + old(h).sizeStruct + 4 + old(h).sizeStrings <= buf.Length then 0 else -ERR_NOSPACE
      ensures written == if err == 0 then old(written) + [Close] else old(written)
    {
      hide Grown, Spelling, Written, Put32, Enc, SameOutside, Has, WellFormed;
      GrownHeader(buf[..], h, entries, ts, strs);
      ghost var s, g := buf[..], h;
      var en := GrabSpace(4);
      if en < 0 {
        return -ERR_NOSPACE;
      }
      PutBytes(buf, en, Put32(END_NODE));
      WordPut(s, en, Token.EndNode);
      Spell(ts, strs, written, Token.EndNode, [Close]);
      GrownToken(s, buf[..], g, entries, ts, strs, Token.EndNode);
      ts, written := ts + [Token.EndNode], written + [Close];
      return 0;
    }

    /** _fdt_find_add_string: the name's place counted back from the end of the strings, or 0 if it does
        not fit. The test is unsigned: below, the place it lets through lies before the start of the
        buffer, and is not followed. */
    method FindAddString(name: Bytes) returns (offset: int, below: bool)
      requires Valid() && 0 !in name && |name| + buf.Length < 0x8000_0000
      modifies buf, this`h, this`strs
      ensures Valid() && h == old(h).(sizeStrings := h.sizeStrings)
      ensures below <==> !Spelt(old(strs), name) && |old(strs)| + |name| + 1 > buf.Length
      ensures offset == 0 <==> !below && !Spelt(old(strs), name) && old(h).offStruct + old(h).sizeStruct + |name| + 1 + old(h).sizeStrings > buf.Length
      ensures strs == if below || offset == 0 || Spelt(old(strs), name) then old(strs) else name + [0] + old(strs)
      ensures !below && offset != 0 ==> 0 < -offset <= |strs| && CStr(strs, |strs| + offset) == name
      ensures below ==> h == old(h) && buf[..] == old(buf[..]) && buf.Length + offset < 0
    {
      hide Grown, Spelling, Written, CStr, AllFormed, Enc, Has, RsvBytes, Terminated, AllWide, Spells;
      GrownHeader(buf[..], h, entries, ts, strs);
      StringsThere();
      below := false;
      var strtabsize := h.sizeStrings;
      var len := |name| + 1;
      var p := FindStringIn(buf, h.totalSize - strtabsize, strtabsize, name, strs);
      if p >= 0 {
        SpellsInside(strs, p, name);
        return p - strtabsize, below;
      }
      offset := -strtabsize - len;
      var structTop := h.offStruct + h.sizeStruct;
      Wraps(h.totalSize + offset);
      if (h.totalSize + offset) % TWO32 < structTop {
        return 0, below;
      }
      if h.totalSize + offset < 0 {
        return offset, true;
      }
      GrownString(buf[..], h, entries, ts, strs, name + [0]);
      PutBytes(buf, h.totalSize + offset, name + [0]);
      SpellFront(ts, strs, written, name + [0]) by { EndsWithNul(name); }
      FirstString(name, strs);
      strs := name + [0] + strs;
      h := h.(sizeStrings := strtabsize + len);
    }

    lemma Wraps(n: int)
      requires -0x8000_0000 <= n < 0x8000_0000
      ensures n % TWO32 == if n < 0 then n + TWO32 else n
    {
    }

    lemma StringsThere()
      requires Valid()
      ensures Has(buf[..], |buf[..]| - |strs|, strs) && |strs| == h.sizeStrings && Terminated(strs)
    {
      hide AllFormed, Enc, Has, RsvBytes, Fixed, Items;
    }

    lemma EndsWithNul(name: Bytes)
      ensures Terminated(name + [0])
    {
    }

    lemma FirstString(name: Bytes, strs: Bytes)
      requires 0 !in name && Terminated(strs)
      ensures CStr(name + [0] + strs, 0) == name
    {
      CStrIs(name + [0] + strs, 0, name);
    }

    method PutProperty(prop: int, nameoff: int, val: Bytes)
      requires 0 <= nameoff < TWO32 && |val| < TWO32 && 0 <= prop && prop + 12 + Align4(|val|) <= buf.Length
      modifies buf
      ensures var tok := PropFrom(buf[..], prop + 12, nameoff, |val|);
        tok.val == val && |Enc1(tok)| == 12 + Align4(|val|) && Has(buf[..], prop, Enc1(tok)) && SameOutside(old(buf[..]), buf[..], prop, prop + |Enc1(tok)|)
    {
      hide Written, Put32, SameOutside, Has, WellFormed, Enc1;
      ghost var s := buf[..];
      PutBytes(buf, prop, Put32(PROP));
      PutBytes(buf, prop + 8, Put32(nameoff));
      PutBytes(buf, prop + 4, Put32(|val|));
      PutBytes(buf, prop + 12, val);
      PropPut(s, prop, nameoff, val, buf[..]);
    }

    /** fdt_property; below, as in FindAddString. */
    method Property(name: Bytes, val: Bytes) returns (err: int, below: bool)
      requires Valid() && 0 !in name && |name| + buf.Length < 0x8000_0000 && |val| + 16 < 0x8000_0000
      modifies buf, this`h, this`ts, this`strs, this`written
      ensures Valid()
      ensures below <==> !Spelt(old(strs), name) && |old(strs)| + |name| + 1 > buf.Length
      ensures !below ==>
        var need := 12 + Align4(|val|) + if Spelt(old(strs), name) then 0 else |name| + 1;
        err == if old(h).offStruct + old(h).sizeStruct + need + old(h).sizeStrings <= buf.Length then 0 else -ERR_NOSPACE
      ensures below ==> err != 0 && buf[..] == old(buf[..]) && h == old(h)
      ensures written == if err == 0 then old(written) + [Attr(FdtTree.Property(name, val))] else old(written)
    {
      hide Grown, Spelling, Written, Put32, Enc, SameOutside, Has, WellFormed, Align4, CStr, Spelt, AllFormed, Grants;
      GrownHeader(buf[..], h, entries, ts, strs);
      var nameoff;
      nameoff, below := FindAddString(name);
      if below {
        return -ERR_INTERNAL, below;
      }
      GrownHeader(buf[..], h, entries, ts, strs);
      if nameoff == 0 {
        return -ERR_NOSPACE, below;
      }
      ghost var s, g := buf[..], h;
      var prop := GrabSpace(12 + Align4(|val|));
      if prop < 0 {
        return -ERR_NOSPACE, below;
      }
      PutProperty(prop, TWO32 + nameoff, val);
      ghost var tok := PropFrom(buf[..], prop + 12, TWO32 + nameoff, |val|);
      FixedBack(tok, strs);
      Spell(ts, strs, written, tok, [Attr(FdtTree.Property(name, val))]);
      GrownToken(s, buf[..], g, entries, ts, strs, tok);
      ts, written := ts + [tok], written + [Attr(FdtTree.Property(name, val))];
      return 0, below;
    }

    /** fdt_finish: the blob of everything written. */
    method Finish() returns (err: int)
      requires Valid() && Terminates(entries)
      modifies buf, this`h, this`ts
      ensures err == if old(h).offStruct + old(h).sizeStruct + 4 + old(h).sizeStrings <= buf.Length then 0 else -ERR_NOSPACE
      ensures err != 0 ==> Valid() && ts == old(ts)
      ensures err == 0 ==> Current(h) && Ordered(h, |UpTo(entries)|) && h.totalSize == DataSize(h) <= buf.Length
      ensures err == 0 ==> Holds(buf[..], h, UpTo(entries), ts, strs)
      ensures err == 0 ==> forall f :: written == FlatAll(f) ==> Reads(ts, strs, f)
    {
      hide Grown, Spelling, Written, Put32, Enc, SameOutside, Has, Holds, Ordered, Moved, UpTo, Terminates, AllFormed, Reads, Fixed, WellFormed;
      GrownHeader(buf[..], h, entries, ts, strs);
      ghost var s, g, was := buf[..], h, ts;
      var end := GrabSpace(4);
      if end < 0 {
        return -ERR_NOSPACE;
      }
      PutBytes(buf, end, Put32(END));
      WordPut(s, end, Stop);
      WroteToken(ts, strs, Stop) by { SpellsBack(ts, strs, written); }
      GrownToken(s, buf[..], g, entries, ts, strs, Stop);
      ts := ts + [Stop];

      var oldstroffset := h.totalSize - h.sizeStrings;
      var newstroffset := h.offStruct + h.sizeStruct;
      GrownHeader(buf[..], h, entries, ts, strs);
      Settled(buf[..], h, entries, ts, strs);
      MoveBytes(buf, newstroffset, oldstroffset, h.sizeStrings);
      h := h.(offStrings := newstroffset);
      SpellsBack(was, strs, written);
      var next := RewriteNames(UpTo(entries));
      if next < 0 {
        return next;
      }
      forall f | written == FlatAll(f) ensures Reads(ts, strs, f) {
        FinishedReads(was, strs, written, f);
      }
      TotalSet(buf[..], h, UpTo(entries), ts, strs);
      h := h.(totalSize := newstroffset + h.sizeStrings);
      h := h.(magic := FDT_MAGIC);
      return 0;
    }

    lemma SpellsBack(ts: Tokens, strs: Bytes, written: seq<Item>)
      requires Spelling(ts, strs, written)
      ensures NamedBack(ts, strs) && NamedBack(ts + [Stop], strs) && NoStops(ts)
    {
    }

    lemma TotalSet(s: Bytes, h: Header, rsv: seq<Reserve>, ts: Tokens, strs: Bytes)
      requires Holds(s, h, rsv, ts, strs) && Ordered(h, |rsv|)
      ensures var g := h.(totalSize := DataSize(h), magic := FDT_MAGIC); Holds(s, g, rsv, ts, strs) && Ordered(g, |rsv|)
    {
      hide RsvOk, AllFormed, RsvBytes, Enc, Has;
    }

    /** The walk of fdt_finish over the structure block, correcting the name offsets. */
    method RewriteNames(ghost rsv: seq<Reserve>) returns (next: int)
      requires AllFormed(ts) && Holds(buf[..], h, rsv, ts, strs) && Ordered(h, |rsv|) && h.totalSize <= buf.Length
      requires NamedBack(ts, strs) && ts != [] && forall i :: 0 <= i < |ts| ==> (ts[i].Stop? <==> i == |ts| - 1)
      modifies buf, this`ts
      ensures ts == Fixed(old(ts), strs) && Holds(buf[..], h, rsv, ts, strs) && next >= 0
    {
      hide Holds, Ordered, Written, Offset, AllFormed, Enc, Enc1, Fixed, WellFormed, Put32, Get32, TagAt, Mixed, NamedBack, Fixed1;
      ghost var was, i := ts, 0;
      MixedEnds(was, strs);
      StructThere(rsv);
      OffsetZero(ts);
      var offset := 0;
      TagAtToken(ts, 0);
      var tag;
      tag, next := NextTagIn(buf, h.offStruct, h.sizeStruct, offset, Enc(ts));
      while tag != END
        invariant 0 <= i < |was| && AllFormed(ts) && ts == Mixed(was, strs, i) && offset == Offset(ts, i) >= 0
        invariant Holds(buf[..], h, rsv, ts, strs) && tag == TagOf(ts[i]) && next == Offset(ts, i + 1)
        decreases |was| - i
      {
        MixedStep(was, strs, i);
        if tag == PROP {
          RewriteName(offset, i, rsv);
        }
        i := i + 1;
        offset := next;
        StructThere(rsv);
        OffsetsGrow(ts, i, i);
        TagAtToken(ts, i);
        tag, next := NextTagIn(buf, h.offStruct, h.sizeStruct, offset, Enc(ts));
      }
      OffsetsGrow(ts, i + 1, i + 1);
    }

    lemma StructThere(rsv: seq<Reserve>)
      requires AllFormed(ts) && Holds(buf[..], h, rsv, ts, strs)
      ensures Has(buf[..], h.offStruct, Enc(ts)) && |Enc(ts)| == h.sizeStruct < 0x8000_0000 && |strs| == h.sizeStrings < 0x8000_0000
    {
      hide RsvOk, AllFormed, RsvBytes, Enc;
    }

    lemma OffsetZero(ts: Tokens)
      requires AllFormed(ts)
      ensures Offset(ts, 0) == 0
    {
      assert ts[..0] == [];
    }

    /** The name offset of the property at token i counted from the start. */
    method RewriteName(offset: int, ghost i: int, ghost rsv: seq<Reserve>)
      requires AllFormed(ts) && Holds(buf[..], h, rsv, ts, strs) && Ordered(h, |rsv|) && h.totalSize <= buf.Length
      requires 0 <= i < |ts| && ts[i].Prop? && offset == Offset(ts, i)
      modifies buf, this`ts
      ensures AllFormed(ts) && Holds(buf[..], h, rsv, ts, strs) && ts == old(ts)[i := Fixed1(old(ts)[i], strs)]
      ensures Offset(ts, i + 1) == Offset(old(ts), i + 1)
    {
      hide Holds, Ordered, Written, Offset, AllFormed, Enc, Enc1, WellFormed, Put32, Get32;
      StructThere(rsv);
      PropFields(ts, i);
      Get32Inside(buf[..], h.offStruct, Enc(ts), offset + 8);
      var nameoff := Get32(buf[..], h.offStruct + offset + 8);
      nameoff := (nameoff + h.sizeStrings) % TWO32;
      NameRewritten(buf[..], h, rsv, ts, strs, i, nameoff);
      PutBytes(buf, h.offStruct + offset + 8, Put32(nameoff));
      ghost var was := ts;
      ts := ts[i := ts[i].(nameoff := nameoff)];
      FormedAt(was, i);
      FormedAt(ts, i);
      PropSize(was[i]);
      PropSize(ts[i]);
      SameSizeOffset(was, ts, i, i + 1);
    }
  }

  /** fdt_create. From 48 bytes on the writer is in order; below that see CreatedSmall. */
  method Create(room: array<Byte>) returns (err: int, w: Option<Writer>)
    requires room.Length < 0x8000_0000
    modifies room
    ensures err == if room.Length < HEADER_SIZE then -ERR_NOSPACE else 0
    ensures err != 0 ==> w == None && room[..] == old(room[..])
    ensures err == 0 ==> w.Some? && fresh(w.value) && w.value.buf == room && w.value.h == NewHeader(room.Length)
    ensures err == 0 ==> w.value.entries == [] && w.value.strs == [] && w.value.written == []
    ensures err == 0 ==> (w.value.Valid() <==> 48 <= room.Length)
  {
    if room.Length < HEADER_SIZE {
      return -ERR_NOSPACE, None;
    }
    var writer := new Writer(room);
    return 0, Some(writer);
  }
}
