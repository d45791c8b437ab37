/** Setting secure memory aside: is the reserved range inside the memory banks that the device tree lists,
    and what is left of the banks once it is taken out. */
module TzRes {
  import opened FdtFormat
  import opened FdtBlob

  const RES_SIZE: int := 0x0210_0000

  /** A bank of memory, as one entry of a "reg" property gives it. */
  datatype Bank = Bank(start: int, len: int)

  /** Where the bank ends, in 64 bits. */
  function End(b: Bank): int {
    (b.start + b.len) % TWO64
  }

  predicate Within(b: Bank, x: int) {
    b.start <= x < End(b)
  }

  /** Some bank holds the address. */
  predicate InBanks(bs: seq<Bank>, x: int) {
    exists i :: 0 <= i < |bs| && Within(bs[i], x)
  }

  /** A bank whose end is below 2^64. */
  predicate Fits(b: Bank) {
    0 <= b.start && 0 <= b.len && b.start + b.len < TWO64
  }

  predicate Sound(bs: seq<Bank>) {
    forall i :: 0 <= i < |bs| ==> Fits(bs[i])
  }

  /** The end of a bank is where it should be exactly if it is below 2^64; otherwise the bank is taken to
      hold nothing. */
  lemma EndIs(b: Bank)
    requires 0 <= b.start < TWO64 && 0 <= b.len < TWO64
    ensures End(b) == b.start + b.len <==> Fits(b)
    ensures !Fits(b) ==> forall x :: !Within(b, x)
  {
    if Fits(b) {
      assert End(b) == b.start + b.len;
    } else {
      assert End(b) == b.start + b.len - TWO64;
    }
  }

  // ---- cells ------------------------------------------------------------------------------------

  predicate Cells(n: int) {
    n == 1 || n == 2
  }

  /** get_val */
  function GetVal(p: Bytes, o: int, cells: int): (v: int)
    requires Cells(cells) && 0 <= o && o + 4 * cells <= |p|
    ensures 0 <= v < TWO64
  {
    if cells == 1 then Get32(p, o) else Get64(p, o)
  }

  /** put_val, which cuts the value to 32 bits for either size. */
  function PutVal(v: int, cells: int): (b: Bytes)
    requires Cells(cells) && 0 <= v
    ensures |b| == 4 * cells
  {
    if cells == 1 then Put32(v % TWO32) else Put64(v % TWO32)
  }

  /** A value written reads back with its upper 32 bits gone. */
  lemma GetPutVal(a: Bytes, v: int, cells: int, b: Bytes)
    requires Cells(cells) && 0 <= v
    ensures GetVal(a + PutVal(v, cells) + b, |a|, cells) == v % TWO32
  {
    hide Put32, Get32, Put64, Get64;
    if cells == 1 { GetPut(a, v % TWO32, b); } else { GetPut64(a, v % TWO32, b); }
  }

  /** One cell is four bytes, the most significant first. */
  lemma OneCell(p: Bytes, o: int, v: int)
    requires 0 <= o && o + 4 <= |p| && 0 <= v < 0x1_0000_0000
    ensures var b0: int, b1: int, b2: int, b3: int := p[o], p[o + 1], p[o + 2], p[o + 3];
      GetVal(p, o, 1) == b0 * 0x100_0000 + b1 * 0x1_0000 + b2 * 0x100 + b3
    ensures var b := PutVal(v, 1);
      var b0: int, b1: int, b2: int, b3: int := b[0], b[1], b[2], b[3];
      v == b0 * 0x100_0000 + b1 * 0x1_0000 + b2 * 0x100 + b3
  {
    Put32Bytes(v);
    assert v % TWO32 == v;
  }

  /** Two cells are one number, the upper half first. */
  lemma TwoCells(p: Bytes, o: int)
    requires 0 <= o && o + 8 <= |p|
    ensures GetVal(p, o, 2) == GetVal(p, o, 1) * 0x1_0000_0000 + GetVal(p, o + 4, 1)
  {
    hide Get32;
  }

  /** What is written in two cells has nothing in the upper one. */
  lemma TwoCellsWritten(v: int)
    requires 0 <= v
    ensures PutVal(v, 2) == [0, 0, 0, 0] + PutVal(v, 1)
  {
    assert Put32(0) == [0, 0, 0, 0];
    assert v % TWO32 / TWO32 == 0 && v % TWO32 % TWO32 == v % TWO32;
    hide Put32;
  }

  /** 1 GiB at 2 GiB, in two cells each, and the same in one cell. */
  lemma RegRead()
    ensures Banks([0, 0, 0, 0, 0x80, 0, 0, 0, 0, 0, 0, 0, 0x40, 0, 0, 0], 2, 2) == [Bank(0x8000_0000, 0x4000_0000)]
    ensures Banks([0x80, 0, 0, 0, 0x40, 0, 0, 0], 1, 1) == [Bank(0x8000_0000, 0x4000_0000)]
    ensures Banks([0, 0, 0, 0, 0x80, 0, 0, 0, 0x40, 0, 0, 0], 2, 1) == [Bank(0x8000_0000, 0x4000_0000)]
  {
    var a, b, c: Bytes := [0, 0, 0, 0, 0x80, 0, 0, 0, 0, 0, 0, 0, 0x40, 0, 0, 0], [0x80, 0, 0, 0, 0x40, 0, 0, 0], [0, 0, 0, 0, 0x80, 0, 0, 0, 0x40, 0, 0, 0];
    BanksFirst(a, 2, 2);
    BanksFirst(b, 1, 1);
    BanksFirst(c, 2, 1);
    assert a[16..] == [] && b[8..] == [] && c[12..] == [];
    assert Banks([], 2, 2) == [] && Banks([], 1, 1) == [] && Banks([], 2, 1) == [];
  }

  function Entry(ac: int, lc: int): int {
    4 * (ac + lc)
  }

  /** The banks that the property lists. */
  function Banks(p: Bytes, ac: int, lc: int): seq<Bank>
    requires Cells(ac) && Cells(lc)
  {
    if |p| < Entry(ac, lc) then [] else [Bank(GetVal(p, 0, ac), GetVal(p, 4 * ac, lc))] + Banks(p[Entry(ac, lc)..], ac, lc)
  }

  /** Whole entries only. */
  predicate Whole(p: Bytes, ac: int, lc: int)
    requires Cells(ac) && Cells(lc)
  {
    |p| % Entry(ac, lc) == 0
  }

  lemma GetValTail(p: Bytes, o: int, k: int, cells: int)
    requires Cells(cells) && 0 <= o <= |p| && 0 <= k && o + k + 4 * cells <= |p|
    ensures GetVal(p, o + k, cells) == GetVal(p[o..], k, cells)
  {
  }

  /** Reading one entry of the property moves on to the next. */
  lemma NextBank(p: Bytes, o: int, ac: int, lc: int)
    requires Cells(ac) && Cells(lc) && 0 <= o < |p| && Whole(p[o..], ac, lc)
    ensures o + Entry(ac, lc) <= |p| && Whole(p[o + Entry(ac, lc)..], ac, lc)
    ensures Banks(p[o..], ac, lc) == [Bank(GetVal(p, o, ac), GetVal(p, o + 4 * ac, lc))] + Banks(p[o + Entry(ac, lc)..], ac, lc)
  {
    hide GetVal, Whole, Banks;
    WholeTail(p[o..], ac, lc);
    BanksFirst(p[o..], ac, lc);
    GetValTail(p, o, 0, ac);
    GetValTail(p, o, 4 * ac, lc);
    assert p[o..][Entry(ac, lc)..] == p[o + Entry(ac, lc)..];
  }

  lemma BanksFirst(p: Bytes, ac: int, lc: int)
    requires Cells(ac) && Cells(lc) && |p| >= Entry(ac, lc)
    ensures Banks(p, ac, lc) == [Bank(GetVal(p, 0, ac), GetVal(p, 4 * ac, lc))] + Banks(p[Entry(ac, lc)..], ac, lc)
  {
    hide GetVal;
  }

  // ---- is it there? -----------------------------------------------------------------------------

  /** All of [lo, hi) is in the banks. */
  predicate Covered(bs: seq<Bank>, lo: int, hi: int) {
    forall x :: lo <= x < hi ==> InBanks(bs, x)
  }

  /** What is still to be found is [rs, re); the rest of the reserved range is in the banks. */
  predicate Found(bs: seq<Bank>, s: int, rs: int, re: int) {
    s <= rs <= re <= s + RES_SIZE && Covered(bs, s, rs) && Covered(bs, re, s + RES_SIZE)
  }

  /** What one bank does to the range still to be found. */
  function Narrow(b: Bank, rs: int, re: int): (int, int) {
    if b.start <= rs && End(b) > rs then (if End(b) < re then End(b) else re, re)
    else if End(b) >= re && b.start < re then (rs, if b.start > rs then b.start else rs)
    else (rs, re)
  }

  lemma Narrowed(bs: seq<Bank>, i: int, s: int, rs: int, re: int)
    requires 0 <= i < |bs| && Found(bs, s, rs, re) && rs < re
    ensures var r := Narrow(bs[i], rs, re); Found(bs, s, r.0, r.1) && rs <= r.0 && r.1 <= re
    ensures Narrow(bs[i], rs, re) == (rs, re) ==> !Within(bs[i], rs)
    ensures bs[i].start <= rs && End(bs[i]) >= re ==> Covered(bs, s, s + RES_SIZE)
  {
    assert forall x :: Within(bs[i], x) ==> InBanks(bs, x);
  }

  /** tz_res_mem_check_avail: whether the reserved range that starts at s lies in the banks. */
  method CheckAvail(p: Bytes, ac: int, lc: int, s: int) returns (avail: bool)
    requires Cells(ac) && Cells(lc) && Whole(p, ac, lc) && 0 <= s && s + RES_SIZE < TWO64
    ensures avail <==> Covered(Banks(p, ac, lc), s, s + 0x200_0000 + 0x10_0000)
  {
    hide GetVal, Whole, Banks, Covered;
    ghost var bs := Banks(p, ac, lc);
    var resStart, resEnd := s, s + RES_SIZE;
    var lastStart, lastEnd := resStart, resEnd;
    NothingFound(bs, s);
    var first := true;
    while first || lastStart != resStart || lastEnd != resEnd
      invariant Found(bs, s, resStart, resEnd) && resStart < resEnd
      invariant !first && lastStart == resStart && lastEnd == resEnd ==> !InBanks(bs, resStart)
      decreases resEnd - resStart, first || lastStart != resStart || lastEnd != resEnd
    {
      first := false;
      lastStart, lastEnd := resStart, resEnd;
      ghost var i := 0;
      var offs := 0;
      assert p[0..] == p && bs[0..] == bs;
      while offs < |p| && resStart != resEnd
        invariant 0 <= offs <= |p| && Whole(p[offs..], ac, lc) && 0 <= i <= |bs| && bs[i..] == Banks(p[offs..], ac, lc)
        invariant Found(bs, s, resStart, resEnd) && lastStart <= resStart && resEnd <= lastEnd
        invariant lastStart == resStart && lastEnd == resEnd ==> forall k :: 0 <= k < i ==> !Within(bs[k], resStart)
        decreases |p| - offs
      {
        NextBank(p, offs, ac, lc);
        var start := GetVal(p, offs, ac);
        offs := offs + 4 * ac;
        var len := GetVal(p, offs, lc);
        offs := offs + 4 * lc;
        assert bs[i] == bs[i..][0] == Bank(start, len) && bs[i + 1..] == bs[i..][1..];
        var end := (start + len) % TWO64;
        Narrowed(bs, i, s, resStart, resEnd);
        if start <= resStart && end >= resEnd {
          return true;
        }
        if start <= resStart && end > resStart {
          resStart := if end < resEnd then end else resEnd;
        } else if end >= resEnd && start < resEnd {
          resEnd := if start > resStart then start else resStart;
        }
        i := i + 1;
      }
      if resStart == resEnd {
        AllFound(bs, s, resStart);
        return true;
      }
      NothingLeft(p, offs, ac, lc);
    }
    Missing(bs, s, resStart, resEnd);
    return false;
  }

  lemma NothingFound(bs: seq<Bank>, s: int)
    ensures Found(bs, s, s, s + RES_SIZE)
  {
  }

  lemma NothingLeft(p: Bytes, o: int, ac: int, lc: int)
    requires Cells(ac) && Cells(lc) && o == |p|
    ensures Banks(p[o..], ac, lc) == []
  {
  }

  lemma AllFound(bs: seq<Bank>, s: int, r: int)
    requires Found(bs, s, r, r)
    ensures Covered(bs, s, s + RES_SIZE)
  {
  }

  lemma Missing(bs: seq<Bank>, s: int, rs: int, re: int)
    requires Found(bs, s, rs, re) && rs < re && !InBanks(bs, rs)
    ensures !Covered(bs, s, s + RES_SIZE)
  {
  }

  // ---- taking it out ----------------------------------------------------------------------------

  /** What the carving writes for one bank. */
  function Pieces(b: Bank, s: int): (r: seq<Bank>)
    ensures |r| <= 2
  {
    var e := s + RES_SIZE;
    if s == b.start && RES_SIZE == b.len then []
    else if s > b.start && e < End(b) then [Bank(b.start, s - b.start), Bank(e, End(b) - e)]
    else if s > b.start && s < End(b) then [Bank(b.start, s - b.start)]
    else if e < End(b) then [Bank(e, End(b) - e)]
    else []
  }

  predicate Reserved(s: int, x: int) {
    s <= x < s + RES_SIZE
  }

  /** The bank reaches the reserved range, or is empty and not above it. */
  predicate Meets(b: Bank, s: int) {
    b.start <= s + RES_SIZE && (b.len == 0 || End(b) > s)
  }

  /** For one bank the pieces are the bank without the reserved range, exactly when it meets that range: a
      bank wholly below is dropped, one wholly above is widened down to it. */
  lemma PiecesExact(b: Bank, s: int)
    requires Fits(b) && 0 <= s && s + RES_SIZE < TWO64
    ensures (forall x :: InBanks(Pieces(b, s), x) <==> Within(b, x) && !Reserved(s, x)) <==> Meets(b, s)
  {
    EndIs(b);
    var ps := Pieces(b, s);
    forall i | 0 <= i < |ps| ensures End(ps[i]) == ps[i].start + ps[i].len { EndIs(ps[i]); }
    hide End;
    assert forall x :: InBanks(ps, x) <==> (|ps| > 0 && Within(ps[0], x)) || (|ps| > 1 && Within(ps[1], x));
    if !Meets(b, s) {
      var x := if b.start > s + RES_SIZE then s + RES_SIZE else b.start;
      assert !(InBanks(ps, x) <==> Within(b, x) && !Reserved(s, x));
    }
  }

  /** A bank wholly below the reserved range is dropped, and one wholly above is widened down to its end. */
  lemma PiecesElse(b: Bank, s: int)
    requires Fits(b) && 0 < b.len && 0 <= s && s + RES_SIZE < TWO64
    ensures b.start + b.len <= s ==> Pieces(b, s) == []
    ensures s + RES_SIZE < b.start ==> Pieces(b, s) == [Bank(s + RES_SIZE, b.start + b.len - (s + RES_SIZE))]
  {
    EndIs(b);
  }

  function Carved(bs: seq<Bank>, s: int): seq<Bank> {
    if bs == [] then [] else Pieces(bs[0], s) + Carved(bs[1..], s)
  }

  predicate AllMeet(bs: seq<Bank>, s: int) {
    forall i :: 0 <= i < |bs| ==> Meets(bs[i], s)
  }

  lemma InBoth(a: seq<Bank>, b: seq<Bank>, x: int)
    ensures InBanks(a + b, x) <==> InBanks(a, x) || InBanks(b, x)
  {
    if InBanks(a, x) {
      var i :| 0 <= i < |a| && Within(a[i], x);
      assert (a + b)[i] == a[i];
    }
    if InBanks(b, x) {
      var i :| 0 <= i < |b| && Within(b[i], x);
      assert (a + b)[|a| + i] == b[i];
    }
  }

  /** Together the banks that are written are the banks that were read without the reserved range. */
  lemma {:induction false} CarvedExact(bs: seq<Bank>, s: int, x: int)
    requires Sound(bs) && AllMeet(bs, s) && 0 <= s && s + RES_SIZE < TWO64
    ensures InBanks(Carved(bs, s), x) <==> InBanks(bs, x) && !(s <= x < s + 0x200_0000 + 0x10_0000)
  {
    if bs != [] {
      hide InBanks, Pieces;
      CarvedExact(bs[1..], s, x);
      PiecesExact(bs[0], s);
      assert bs == [bs[0]] + bs[1..];
      InBoth([bs[0]], bs[1..], x);
      InBoth(Pieces(bs[0], s), Carved(bs[1..], s), x);
      InOne(bs[0], x);
    } else {
      NoBanks(x);
    }
  }

  lemma InOne(b: Bank, x: int)
    ensures InBanks([b], x) <==> Within(b, x)
  {
    if Within(b, x) { assert Within([b][0], x); }
  }

  lemma NoBanks(x: int)
    ensures !InBanks([], x)
  {
  }

  /** No address is in two banks. */
  predicate Disjoint(bs: seq<Bank>) {
    forall i, j :: 0 <= i < j < |bs| ==> End(bs[i]) <= bs[j].start || End(bs[j]) <= bs[i].start || End(bs[i]) <= bs[i].start || End(bs[j]) <= bs[j].start
  }

  predicate Splits(b: Bank, s: int) {
    s > b.start && s + RES_SIZE < End(b)
  }

  /** Disjoint banks need at most one entry more, because at most one of them reaches past both ends. */
  lemma {:induction false} CarvedSize(bs: seq<Bank>, s: int)
    requires Sound(bs) && Disjoint(bs)
    ensures |Carved(bs, s)| <= |bs| + 1
    ensures (forall i :: 0 <= i < |bs| ==> !Splits(bs[i], s)) ==> |Carved(bs, s)| <= |bs|
  {
    if bs != [] {
      assert Disjoint(bs[1..]);
      CarvedSize(bs[1..], s);
      if Splits(bs[0], s) {
        forall i | 0 <= i < |bs[1..]| ensures !Splits(bs[1..][i], s) {
          assert bs[1..][i] == bs[i + 1];
        }
      } else if forall i :: 0 <= i < |bs| ==> !Splits(bs[i], s) {
        assert forall i :: 0 <= i < |bs[1..]| ==> bs[1..][i] == bs[i + 1];
      }
    }
  }

  // ---- how much is left -------------------------------------------------------------------------

  function Total(bs: seq<Bank>): int {
    if bs == [] then 0 else bs[0].len + Total(bs[1..])
  }

  /** How much of the bank lies in [lo, hi). */
  function Overlap(b: Bank, lo: int, hi: int): int {
    var x := if b.start > lo then b.start else lo;
    var y := if End(b) < hi then End(b) else hi;
    if x < y then y - x else 0
  }

  function Overlaps(bs: seq<Bank>, lo: int, hi: int): int {
    if bs == [] then 0 else Overlap(bs[0], lo, hi) + Overlaps(bs[1..], lo, hi)
  }

  lemma {:induction false} TotalAppend(a: seq<Bank>, b: seq<Bank>)
    ensures Total(a + b) == Total(a) + Total(b)
  {
    if a == [] {
      assert a + b == b;
    } else {
      TotalAppend(a[1..], b);
      assert (a + b)[1..] == a[1..] + b;
    }
  }

  lemma PiecesTotal(b: Bank, s: int)
    requires Fits(b) && Meets(b, s)
    ensures Total(Pieces(b, s)) == b.len - Overlap(b, s, s + RES_SIZE)
  {
    EndIs(b);
    hide End;
    var ps := Pieces(b, s);
    if |ps| == 2 {
      assert Total(ps) == ps[0].len + (ps[1].len + Total(ps[1..][1..]));
    }
  }

  lemma {:induction false} CarvedTotal(bs: seq<Bank>, s: int)
    requires Sound(bs) && AllMeet(bs, s)
    ensures Total(Carved(bs, s)) == Total(bs) - Overlaps(bs, s, s + RES_SIZE)
  {
    if bs != [] {
      CarvedTotal(bs[1..], s);
      PiecesTotal(bs[0], s);
      TotalAppend(Pieces(bs[0], s), Carved(bs[1..], s));
    }
  }

  /** How many banks hold the address. */
  function Holders(bs: seq<Bank>, x: int): int {
    if bs == [] then 0 else (if Within(bs[0], x) then 1 else 0) + Holders(bs[1..], x)
  }

  lemma {:induction false} OneHolder(bs: seq<Bank>, x: int)
    requires Disjoint(bs)
    ensures Holders(bs, x) == if InBanks(bs, x) then 1 else 0
  {
    if bs == [] {
      NoBanks(x);
    } else {
      assert Disjoint(bs[1..]);
      OneHolder(bs[1..], x);
      assert bs == [bs[0]] + bs[1..];
      InBoth([bs[0]], bs[1..], x);
      InOne(bs[0], x);
    }
  }

  lemma {:induction false} OverlapsGrow(bs: seq<Bank>, lo: int, hi: int)
    requires lo <= hi
    ensures Overlaps(bs, lo, hi + 1) == Overlaps(bs, lo, hi) + Holders(bs, hi)
  {
    if bs != [] { OverlapsGrow(bs[1..], lo, hi); }
  }

  lemma {:induction false} OverlapsEmpty(bs: seq<Bank>, lo: int)
    ensures Overlaps(bs, lo, lo) == 0
  {
    if bs != [] { OverlapsEmpty(bs[1..], lo); }
  }

  /** Disjoint banks that cover a range overlap it by its whole length. */
  lemma {:induction false} CoverLength(bs: seq<Bank>, lo: int, hi: int)
    requires Disjoint(bs) && lo <= hi && Covered(bs, lo, hi)
    ensures Overlaps(bs, lo, hi) == hi - lo
    decreases hi - lo
  {
    if lo == hi {
      OverlapsEmpty(bs, lo);
    } else {
      CoverLength(bs, lo, hi - 1);
      OverlapsGrow(bs, lo, hi - 1);
      OneHolder(bs, hi - 1);
    }
  }

  /** After a successful check, carving disjoint banks leaves exactly the reserved amount less. */
  lemma CarvedLess(bs: seq<Bank>, s: int)
    requires Sound(bs) && AllMeet(bs, s) && Disjoint(bs) && Covered(bs, s, s + RES_SIZE)
    ensures Total(Carved(bs, s)) == Total(bs) - RES_SIZE
  {
    CarvedTotal(bs, s);
    CoverLength(bs, s, s + RES_SIZE);
  }

  // ---- the carving pass -------------------------------------------------------------------------

  /** What is left of a bank when put_val has cut its values to 32 bits. */
  function Low(b: Bank): Bank {
    Bank(b.start % TWO32, b.len % TWO32)
  }

  function AllLow(bs: seq<Bank>): (r: seq<Bank>)
    ensures |r| == |bs| && forall i :: 0 <= i < |bs| ==> r[i] == Low(bs[i])
  {
    if bs == [] then [] else [Low(bs[0])] + AllLow(bs[1..])
  }

  /** A bank whose values fit 32 bits. */
  predicate Narrow32(b: Bank) {
    b.start < TWO32 && b.len < TWO32
  }

  /** Nothing is lost exactly if all banks to be written lie below 4 GiB. */
  lemma LowSame(bs: seq<Bank>)
    requires forall i :: 0 <= i < |bs| ==> 0 <= bs[i].start && 0 <= bs[i].len
    ensures AllLow(bs) == bs <==> forall i :: 0 <= i < |bs| ==> Narrow32(bs[i])
  {
    assert forall i :: 0 <= i < |bs| ==> (Low(bs[i]) == bs[i] <==> Narrow32(bs[i])) by {
      forall i | 0 <= i < |bs| ensures Low(bs[i]) == bs[i] <==> Narrow32(bs[i]) { OneLow(bs[i]); }
    }
    hide Low, Narrow32;
    var r := AllLow(bs);
    assert r == bs <==> forall i :: 0 <= i < |bs| ==> r[i] == bs[i];
  }

  lemma OneLow(b: Bank)
    requires 0 <= b.start && 0 <= b.len
    ensures Low(b) == b <==> Narrow32(b)
  {
  }

  /** So 2 GiB at 4 GiB, which the reserved range does not touch, is written back as starting at 0. */
  lemma HighBankLost()
    ensures Low(Bank(0x1_0000_0000, 0x8000_0000)) == Bank(0, 0x8000_0000)
  {
  }

  /** Banks that are split, and banks of which nothing is written. */
  function SplitCount(bs: seq<Bank>, s: int): int {
    if bs == [] then 0 else (if |Pieces(bs[0], s)| == 2 then 1 else 0) + SplitCount(bs[1..], s)
  }

  function GoneCount(bs: seq<Bank>, s: int): int {
    if bs == [] then 0 else (if |Pieces(bs[0], s)| == 0 then 1 else 0) + GoneCount(bs[1..], s)
  }

  lemma {:induction false} CarvedCount(bs: seq<Bank>, s: int)
    ensures |Carved(bs, s)| == |bs| + SplitCount(bs, s) - GoneCount(bs, s)
  {
    hide Pieces;
    if bs != [] { CarvedCount(bs[1..], s); }
  }

  /** In the buffer that tz_res_mem gives, one entry more than the property has, the carving runs over
      exactly when it splits at least two banks more than it drops. */
  lemma OverrunsExactly(p: Bytes, ac: int, lc: int, s: int)
    requires Cells(ac) && Cells(lc) && Whole(p, ac, lc)
    ensures var bs := Banks(p, ac, lc);
      |Carved(bs, s)| * Entry(ac, lc) > |p| + Entry(ac, lc) <==> SplitCount(bs, s) - GoneCount(bs, s) > 1
  {
    hide Banks, Whole, Entry, Carved, SplitCount, GoneCount;
    var bs, e := Banks(p, ac, lc), Entry(ac, lc);
    CarvedCount(bs, s);
    BanksSize(p, ac, lc);
    OneMore(|bs|, e);
    EntryPositive(ac, lc);
    if |Carved(bs, s)| <= |bs| + 1 {
      Scaled(|Carved(bs, s)|, |bs| + 1, e);
    } else {
      OneMore(|bs| + 1, e);
      Scaled(|bs| + 2, |Carved(bs, s)|, e);
    }
  }

  /** Two equal banks around the reserved range do. */
  lemma TwiceOverruns(s: int)
    requires 0 < s && s + RES_SIZE + 1 < TWO32
    ensures var b := Bank(0, s + RES_SIZE + 1); SplitCount([b, b], s) - GoneCount([b, b], s) == 2
  {
    var b := Bank(0, s + RES_SIZE + 1);
    EndIs(b);
    hide End;
    assert |Pieces(b, s)| == 2;
    hide Pieces;
    OneSplit([], b, s);
    OneSplit([b], b, s);
    assert [b] + [] == [b] && [b] + [b] == [b, b];
  }

  lemma OneSplit(bs: seq<Bank>, b: Bank, s: int)
    requires |Pieces(b, s)| == 2
    ensures SplitCount([b] + bs, s) == 1 + SplitCount(bs, s) && GoneCount([b] + bs, s) == GoneCount(bs, s)
  {
    hide Pieces;
    assert ([b] + bs)[1..] == bs;
  }

  function EntryBytesOf(b: Bank, ac: int, lc: int): (r: Bytes)
    requires Cells(ac) && Cells(lc) && 0 <= b.start && 0 <= b.len
    ensures |r| == Entry(ac, lc)
  {
    PutVal(b.start, ac) + PutVal(b.len, lc)
  }

  /** An entry written behind whole entries reads back as one more bank. */
  lemma {:induction false} BankWritten(a: Bytes, b: Bank, ac: int, lc: int)
    requires Cells(ac) && Cells(lc) && Whole(a, ac, lc) && 0 <= b.start && 0 <= b.len
    ensures Whole(a + EntryBytesOf(b, ac, lc), ac, lc)
    ensures Banks(a + EntryBytesOf(b, ac, lc), ac, lc) == Banks(a, ac, lc) + [Low(b)]
    decreases |a|
  {
    hide GetVal, PutVal, Whole, EntryBytesOf;
    var e, n := EntryBytesOf(b, ac, lc), Entry(ac, lc);
    var s := a + e;
    if a == [] {
      FirstBank(b, ac, lc);
      assert s == e;
    } else {
      WholeTail(a, ac, lc);
      BankWritten(a[n..], b, ac, lc);
      assert s[n..] == a[n..] + e;
      GetValHead(a, e, 0, ac);
      GetValHead(a, e, 4 * ac, lc);
      WholeMore(s, ac, lc);
    }
  }

  lemma FirstBank(b: Bank, ac: int, lc: int)
    requires Cells(ac) && Cells(lc) && 0 <= b.start && 0 <= b.len
    ensures Whole(EntryBytesOf(b, ac, lc), ac, lc) && Banks(EntryBytesOf(b, ac, lc), ac, lc) == [Low(b)]
  {
    hide GetVal, PutVal;
    var u, v := PutVal(b.start, ac), PutVal(b.len, lc);
    var s := EntryBytesOf(b, ac, lc);
    assert s == [] + u + v && s == u + v + [];
    GetPutVal([], b.start, ac, v);
    GetPutVal(u, b.len, lc, []);
    assert s[Entry(ac, lc)..] == [];
    assert Banks(s[Entry(ac, lc)..], ac, lc) == [];
  }

  lemma WholeMore(a: Bytes, ac: int, lc: int)
    requires Cells(ac) && Cells(lc) && |a| >= Entry(ac, lc) && Whole(a[Entry(ac, lc)..], ac, lc)
    ensures Whole(a, ac, lc)
  {
    OneMoreWhole(|a|, Entry(ac, lc));
  }

  lemma OneMoreWhole(n: int, e: int)
    requires (e == 8 || e == 12 || e == 16) && (n - e) % e == 0
    ensures n % e == 0
  {
    if e == 8 {
      More8(n);
    } else if e == 12 {
      More12(n);
    } else {
      More16(n);
    }
  }

  lemma More8(n: int)
    ensures (n - 8) % 8 == n % 8
  {
  }

  lemma More12(n: int)
    ensures (n - 12) % 12 == n % 12
  {
  }

  lemma More16(n: int)
    ensures (n - 16) % 16 == n % 16
  {
  }

  lemma WholeTail(a: Bytes, ac: int, lc: int)
    requires Cells(ac) && Cells(lc) && Whole(a, ac, lc) && a != []
    ensures |a| >= Entry(ac, lc) && Whole(a[Entry(ac, lc)..], ac, lc)
  {
    LessOne(|a|, Entry(ac, lc));
  }

  lemma LessOne(n: int, e: int)
    requires 0 < n && (e == 8 || e == 12 || e == 16) && n % e == 0
    ensures n >= e && (n - e) % e == 0
  {
    if e == 8 {
      More8(n);
    } else if e == 12 {
      More12(n);
    } else {
      More16(n);
    }
  }

  lemma GetValHead(a: Bytes, e: Bytes, o: int, cells: int)
    requires Cells(cells) && 0 <= o && o + 4 * cells <= |a|
    ensures GetVal(a + e, o, cells) == GetVal(a, o, cells)
  {
  }

  lemma {:induction false} BanksSize(p: Bytes, ac: int, lc: int)
    requires Cells(ac) && Cells(lc) && Whole(p, ac, lc)
    ensures |Banks(p, ac, lc)| * Entry(ac, lc) == |p|
    decreases |p|
  {
    hide GetVal;
    if p != [] {
      WholeTail(p, ac, lc);
      BanksSize(p[Entry(ac, lc)..], ac, lc);
      OneMore(|Banks(p[Entry(ac, lc)..], ac, lc)|, Entry(ac, lc));
    }
  }

  lemma OneMore(n: int, e: int)
    ensures (n + 1) * e == n * e + e
  {
  }

  /** The pieces of the banks before i, and how much room those behind may still need. */
  lemma {:induction false} CarvedStep(bs: seq<Bank>, s: int, i: int)
    requires 0 <= i < |bs|
    ensures Carved(bs[..i + 1], s) == Carved(bs[..i], s) + Pieces(bs[i], s)
    decreases i
  {
    hide Pieces;
    var c := bs[..i + 1];
    if i == 0 {
      assert c[1..] == [];
      assert Carved(c[1..], s) == [];
    } else {
      CarvedStep(bs[1..], s, i - 1);
      assert c[1..] == bs[1..][..i] && bs[..i][1..] == bs[1..][..i - 1];
    }
  }

  lemma {:induction false} CarvedGrows(bs: seq<Bank>, s: int, i: int)
    requires 0 <= i <= |bs|
    ensures |Carved(bs[..i], s)| <= |Carved(bs, s)|
    decreases |bs| - i
  {
    if i < |bs| {
      CarvedStep(bs, s, i);
      CarvedGrows(bs, s, i + 1);
    } else {
      assert bs[..i] == bs;
    }
  }

  /** The buffer that tz_res_mem gives is large enough for disjoint banks. */
  lemma RoomEnough(p: Bytes, ac: int, lc: int, s: int)
    requires Cells(ac) && Cells(lc) && Whole(p, ac, lc) && Sound(Banks(p, ac, lc)) && Disjoint(Banks(p, ac, lc))
    ensures |Carved(Banks(p, ac, lc), s)| * Entry(ac, lc) <= |p| + Entry(ac, lc)
  {
    var bs, e := Banks(p, ac, lc), Entry(ac, lc);
    CarvedSize(bs, s);
    BanksSize(p, ac, lc);
    OneMore(|bs|, e);
    Scaled(|Carved(bs, s)|, |bs| + 1, e);
  }

  lemma Scaled(n: int, m: int, e: int)
    requires n <= m && 0 <= e
    ensures n * e <= m * e
  {
  }

  /** put_val twice: one bank. */
  method PutBank(data: array<Byte>, offs: int, ac: int, lc: int, b: Bank) returns (next: int)
    requires Cells(ac) && Cells(lc) && 0 <= offs && offs + Entry(ac, lc) <= data.Length && 0 <= b.start && 0 <= b.len
    requires Whole(data[..offs], ac, lc)
    modifies data
    ensures next == offs + Entry(ac, lc) && Whole(data[..next], ac, lc)
    ensures Banks(data[..next], ac, lc) == Banks(old(data[..offs]), ac, lc) + [Low(b)]
  {
    hide PutVal, GetVal, Whole, Banks;
    ghost var s := data[..offs];
    next := offs;
    var v := PutVal(b.start, ac);
    forall i | 0 <= i < |v| { data[next + i] := v[i]; }
    next := next + 4 * ac;
    assert data[..next] == s + v;
    var w := PutVal(b.len, lc);
    forall i | 0 <= i < |w| { data[next + i] := w[i]; }
    next := next + 4 * lc;
    assert data[..next] == s + EntryBytesOf(b, ac, lc);
    BankWritten(s, b, ac, lc);
  }

  /** The banks of ps written one behind the other, as far as the buffer goes. */
  method PutBanks(data: array<Byte>, offs: int, ac: int, lc: int, ps: seq<Bank>) returns (doffs: int, over: bool)
    requires Cells(ac) && Cells(lc) && 0 <= offs <= data.Length && Whole(data[..offs], ac, lc)
    requires forall i :: 0 <= i < |ps| ==> 0 <= ps[i].start && 0 <= ps[i].len
    modifies data
    ensures 0 <= doffs <= data.Length && Whole(data[..doffs], ac, lc)
    ensures over <==> offs + |ps| * Entry(ac, lc) > data.Length
    ensures !over ==> Banks(data[..doffs], ac, lc) == Banks(old(data[..offs]), ac, lc) + AllLow(ps) && doffs == offs + |ps| * Entry(ac, lc)
  {
    hide Whole, Banks, Entry, Low, AllLow;
    EntryPositive(ac, lc);
    var k := 0;
    doffs, over := offs, false;
    NoneLow(ps, Banks(data[..offs], ac, lc));
    while k < |ps|
      invariant 0 <= k <= |ps| && 0 <= doffs <= data.Length && Whole(data[..doffs], ac, lc)
      invariant doffs == offs + k * Entry(ac, lc)
      invariant Banks(data[..doffs], ac, lc) == Banks(old(data[..offs]), ac, lc) + AllLow(ps[..k])
    {
      OneMore(k, Entry(ac, lc));
      if doffs + Entry(ac, lc) > data.Length {
        Scaled(k + 1, |ps|, Entry(ac, lc));
        return doffs, true;
      }
      doffs := PutBank(data, doffs, ac, lc, ps[k]);
      LowMore(Banks(old(data[..offs]), ac, lc), ps, k);
      k := k + 1;
    }
    assert ps[..k] == ps;
  }

  lemma NoneLow(ps: seq<Bank>, bs: seq<Bank>)
    ensures bs + AllLow(ps[..0]) == bs
  {
  }

  lemma LowMore(bs: seq<Bank>, ps: seq<Bank>, k: int)
    requires 0 <= k < |ps|
    ensures bs + AllLow(ps[..k]) + [Low(ps[k])] == bs + AllLow(ps[..k + 1])
  {
    hide Low, AllLow;
    assert AllLow(ps[..k + 1]) == AllLow(ps[..k]) + [Low(ps[k])];
  }

  /** tz_res_mem_carve: the banks without the reserved range, as a property of the same form, each value
      cut to 32 bits. over: the next bank would be written past the end of the buffer, which is noticed only
      when all are written; it is not followed there. */
  method Carve(p: Bytes, ac: int, lc: int, s: int, data: array<Byte>) returns (dlen: int, over: bool)
    requires Cells(ac) && Cells(lc) && Whole(p, ac, lc) && 0 <= s && s + RES_SIZE < TWO32
    modifies data
    ensures over <==> |Carved(Banks(p, ac, lc), s)| * Entry(ac, lc) > data.Length
    ensures 0 <= dlen <= data.Length && Whole(data[..dlen], ac, lc)
    ensures !over ==> Banks(data[..dlen], ac, lc) == AllLow(Carved(Banks(p, ac, lc), s))
  {
    hide GetVal, Whole, Banks, Pieces, Carved, Entry, Low, AllLow;
    ghost var bs, i := Banks(p, ac, lc), 0;
    ghost var e := Entry(ac, lc);
    var poffs, doffs := 0, 0;
    assert p[0..] == p && bs[0..] == bs;
    Empty(data[..0], bs, ac, lc, s);
    EntryIs(ac, lc);
    while poffs < |p|
      invariant 0 <= poffs <= |p| && Whole(p[poffs..], ac, lc) && 0 <= i <= |bs| && bs[i..] == Banks(p[poffs..], ac, lc)
      invariant 0 <= doffs <= data.Length && Whole(data[..doffs], ac, lc) && doffs == |Carved(bs[..i], s)| * e
      invariant Banks(data[..doffs], ac, lc) == AllLow(Carved(bs[..i], s))
    {
      NextBank(p, poffs, ac, lc);
      var start := GetVal(p, poffs, ac);
      poffs := poffs + 4 * ac;
      var len := GetVal(p, poffs, lc);
      poffs := poffs + 4 * lc;
      assert bs[i] == bs[i..][0] == Bank(start, len) && bs[i + 1..] == bs[i..][1..];
      CarvedStep(bs, s, i);
      LowJoined(Carved(bs[..i], s), Pieces(bs[i], s));
      Spread(|Carved(bs[..i], s)|, |Pieces(bs[i], s)|, e);
      doffs, over := CarveOne(data, doffs, ac, lc, s, start, len);
      if over {
        CarvedGrows(bs, s, i + 1);
        EntryPositive(ac, lc);
        Scaled(|Carved(bs[..i + 1], s)|, |Carved(bs, s)|, e);
        return doffs, over;
      }
      i := i + 1;
    }
    NothingLeft(p, poffs, ac, lc);
    assert bs[..i] == bs;
    return doffs, false;
  }

  lemma EntryIs(ac: int, lc: int)
    ensures Entry(ac, lc) == 4 * ac + 4 * lc
  {
  }

  lemma LowJoined(a: seq<Bank>, b: seq<Bank>)
    ensures AllLow(a + b) == AllLow(a) + AllLow(b)
  {
    hide Low;
    var x, y := AllLow(a + b), AllLow(a) + AllLow(b);
    assert forall i :: 0 <= i < |x| ==> x[i] == y[i];
  }

  lemma Empty(d: Bytes, bs: seq<Bank>, ac: int, lc: int, s: int)
    requires Cells(ac) && Cells(lc) && d == []
    ensures Whole(d, ac, lc) && Banks(d, ac, lc) == [] && Carved(bs[..0], s) == [] && AllLow([]) == []
  {
  }

  /** One turn of the carving loop. */
  method CarveOne(data: array<Byte>, offs: int, ac: int, lc: int, s: int, start: int, len: int) returns (doffs: int, over: bool)
    requires Cells(ac) && Cells(lc) && 0 <= s && s + RES_SIZE < TWO32 && 0 <= start && 0 <= len
    requires 0 <= offs <= data.Length && Whole(data[..offs], ac, lc)
    modifies data
    ensures var n := |Pieces(Bank(start, len), s)| * Entry(ac, lc);
      (over <==> offs + n > data.Length) && 0 <= doffs <= data.Length && Whole(data[..doffs], ac, lc)
      && (!over ==> doffs == offs + n && Banks(data[..doffs], ac, lc) == Banks(old(data[..offs]), ac, lc) + AllLow(Pieces(Bank(start, len), s)))
  {
    hide GetVal, Whole, Banks, AllLow, Low, Entry;
    var resEnd := s + RES_SIZE;
    var end := (start + len) % TWO64;
    if s == start && RES_SIZE == len {
      doffs, over := PutBanks(data, offs, ac, lc, []);
    } else if s > start && resEnd < end {
      doffs, over := PutBanks(data, offs, ac, lc, [Bank(start, s - start), Bank(resEnd, end - resEnd)]);
    } else if s > start && s < end {
      doffs, over := PutBanks(data, offs, ac, lc, [Bank(start, s - start)]);
    } else if resEnd < end {
      doffs, over := PutBanks(data, offs, ac, lc, [Bank(resEnd, end - resEnd)]);
    } else {
      doffs, over := PutBanks(data, offs, ac, lc, []);
    }
  }

  lemma Spread(n: int, m: int, e: int)
    ensures (n + m) * e == n * e + m * e
  {
  }

  lemma EntryPositive(ac: int, lc: int)
    requires Cells(ac) && Cells(lc)
    ensures Entry(ac, lc) > 0
  {
  }
}
