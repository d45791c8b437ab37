/** The bytes of a flattened device tree: big-endian words, the tokens of the structure block
    (section 5.4 of the Devicetree Specification) and the strings they refer to (section 5.5). */
module FdtFormat {

  type Byte = x: int | 0 <= x < 256

  type Bytes = seq<Byte>

  const TWO32: int := 0x1_0000_0000

  // ---- tags and errors ----------------------------------------------------------------

  const BEGIN_NODE: int := 1
  const END_NODE: int := 2
  const PROP: int := 3
  const NOP: int := 4
  const END: int := 9

  const ERR_NOTFOUND: int := 1
  const ERR_EXISTS: int := 2
  const ERR_NOSPACE: int := 3
  const ERR_BADOFFSET: int := 4
  const ERR_TRUNCATED: int := 8
  const ERR_BADSTRUCTURE: int := 11

  // ---- big-endian words -----------------------------------------------------------------

  /** cpu_to_fdt32 */
  function Put32(v: int): (s: Bytes)
    requires 0 <= v < TWO32
    ensures |s| == 4
  {
    [v / 0x100_0000, v / 0x1_0000 % 256, v / 0x100 % 256, v % 256]
  }

  /** fdt32_to_cpu of the word at offset o. */
  function Get32(s: Bytes, o: int): (v: int)
    requires 0 <= o && o + 4 <= |s|
    ensures 0 <= v < TWO32
  {
    var b0: int, b1: int, b2: int, b3: int := s[o], s[o + 1], s[o + 2], s[o + 3];
    ((b0 * 256 + b1) * 256 + b2) * 256 + b3
  }

  lemma GetPut(a: Bytes, v: int, b: Bytes)
    requires 0 <= v < TWO32
    ensures Get32(a + Put32(v) + b, |a|) == v
  {
    hide Put32, Get32;
    var s, w := a + Put32(v) + b, Put32(v);
    assert s[|a|] == w[0] && s[|a| + 1] == w[1] && s[|a| + 2] == w[2] && s[|a| + 3] == w[3];
    SameWord(s, |a|, w, 0);
    GetPutAlone(v);
  }

  lemma SameWord(s: Bytes, o: int, t: Bytes, p: int)
    requires 0 <= o && o + 4 <= |s| && 0 <= p && p + 4 <= |t|
    requires s[o] == t[p] && s[o + 1] == t[p + 1] && s[o + 2] == t[p + 2] && s[o + 3] == t[p + 3]
    ensures Get32(s, o) == Get32(t, p)
  {
  }

  lemma GetPutAlone(v: int)
    requires 0 <= v < TWO32
    ensures Get32(Put32(v), 0) == v
  {
    var a, b, c := v / 0x100_0000, v / 0x1_0000, v / 0x100;
    assert b == a * 256 + b % 256 && c == b * 256 + c % 256 && v == c * 256 + v % 256;
  }

  /** The byte at the lowest address is the most significant one. */
  lemma Get32Bytes(s: Bytes, o: int)
    requires 0 <= o && o + 4 <= |s|
    ensures Get32(s, o) / 0x100_0000 == s[o] && Get32(s, o) / 0x1_0000 % 256 == s[o + 1]
    ensures Get32(s, o) / 0x100 % 256 == s[o + 2] && Get32(s, o) % 256 == s[o + 3]
  {
  }

  /** Words compare as numbers as their bytes compare in order. */
  lemma Get32Order(s: Bytes, o: int, t: Bytes, p: int)
    requires 0 <= o && o + 4 <= |s| && 0 <= p && p + 4 <= |t|
    ensures Get32(s, o) < Get32(t, p) <==>
      s[o] < t[p] || (s[o] == t[p] &&
        (s[o + 1] < t[p + 1] || (s[o + 1] == t[p + 1] &&
          (s[o + 2] < t[p + 2] || (s[o + 2] == t[p + 2] && s[o + 3] < t[p + 3])))))
  {
  }

  /** Writing gives the bytes that reading takes. */
  lemma Put32Bytes(v: int)
    requires 0 <= v < TWO32
    ensures var b0: int, b1: int, b2: int, b3: int := Put32(v)[0], Put32(v)[1], Put32(v)[2], Put32(v)[3];
      v == b0 * 0x100_0000 + b1 * 0x1_0000 + b2 * 0x100 + b3
  {
    GetPutAlone(v);
  }

  /** FDT_TAGALIGN */
  function Align4(x: int): (r: int)
    ensures x <= r < x + 4 && r % 4 == 0
  {
    (x + 3) / 4 * 4
  }

  // ---- tokens ---------------------------------------------------------------------------

  /** A token with all its bytes: pad is what the file holds between the end of a name or value and
      the next word boundary. */
  datatype Token =
    | BeginNode(name: Bytes, pad: Bytes)
    | EndNode
    | Prop(nameoff: int, val: Bytes, pad: Bytes)
    | Nop
    | Stop

  predicate WellFormed(t: Token) {
    match t
    case BeginNode(name, pad) => 0 !in name && |pad| == Align4(|name| + 1) - (|name| + 1)
    case Prop(nameoff, val, pad) => 0 <= nameoff < TWO32 && |val| < TWO32 && |pad| == Align4(|val|) - |val|
    case _ => true
  }

  function TagOf(t: Token): int {
    match t
    case BeginNode(_, _) => BEGIN_NODE
    case EndNode => END_NODE
    case Prop(_, _, _) => PROP
    case Nop => NOP
    case Stop => END
  }

  function Body(t: Token): Bytes
    requires WellFormed(t)
  {
    match t
    case BeginNode(name, pad) => name + [0] + pad
    case Prop(nameoff, val, pad) => Put32(|val|) + Put32(nameoff) + val + pad
    case _ => []
  }

  function Enc1(t: Token): (s: Bytes)
    requires WellFormed(t)
    ensures 4 <= |s|
  {
    Put32(TagOf(t)) + Body(t)
  }

  predicate AllFormed(ts: seq<Token>) {
    forall i :: 0 <= i < |ts| ==> WellFormed(ts[i])
  }

  /** The structure block that the tokens make. */
  function Enc(ts: seq<Token>): Bytes
    requires AllFormed(ts)
  {
    if ts == [] then [] else Enc1(ts[0]) + Enc(ts[1..])
  }

  lemma {:induction false} EncAppend(a: seq<Token>, b: seq<Token>)
    requires AllFormed(a) && AllFormed(b)
    ensures AllFormed(a + b) && Enc(a + b) == Enc(a) + Enc(b)
  {
    hide Enc1, WellFormed;
    if a == [] {
      assert a + b == b;
    } else {
      EncAppend(a[1..], b);
      assert (a + b)[1..] == a[1..] + b;
      assert Enc1(a[0]) + (Enc(a[1..]) + Enc(b)) == (Enc1(a[0]) + Enc(a[1..])) + Enc(b);
    }
  }

  /** The offset of token i. */
  function Offset(ts: seq<Token>, i: int): (o: int)
    requires AllFormed(ts) && 0 <= i <= |ts|
    ensures 0 <= o
  {
    |Enc(ts[..i])|
  }

  lemma Enc1Words(t: Token)
    requires WellFormed(t)
    ensures OnWord(|Enc1(t)|)
  {
    hide OnWord, Align4, Put32;
    match t {
      case BeginNode(name, _) =>
        assert |Enc1(t)| == 4 + Align4(|name| + 1);
        WordsMore(|name| + 1, 1);
      case Prop(_, val, _) =>
        assert |Enc1(t)| == 12 + Align4(|val|);
        WordsMore(|val|, 3);
      case _ =>
        WordsMore(0, 1);
    }
  }

  lemma WordsMore(x: int, n: int)
    ensures OnWord(4 * n + Align4(x)) && Align4(0) == 0
  {
  }

  lemma SplitAt(ts: seq<Token>, i: int)
    requires AllFormed(ts) && 0 <= i <= |ts|
    ensures AllFormed(ts[..i]) && AllFormed(ts[i..]) && Enc(ts) == Enc(ts[..i]) + Enc(ts[i..])
    ensures Offset(ts, i) <= |Enc(ts)| && Enc(ts)[..Offset(ts, i)] == Enc(ts[..i]) && Enc(ts)[Offset(ts, i)..] == Enc(ts[i..])
  {
    assert ts == ts[..i] + ts[i..];
    EncAppend(ts[..i], ts[i..]);
  }

  lemma OffsetStep(ts: seq<Token>, i: int)
    requires AllFormed(ts) && 0 <= i < |ts|
    ensures Offset(ts, i + 1) == Offset(ts, i) + |Enc1(ts[i])|
    ensures Offset(ts, i + 1) <= |Enc(ts)| && Enc(ts)[Offset(ts, i)..Offset(ts, i + 1)] == Enc1(ts[i])
  {
    assert ts[..i + 1] == ts[..i] + [ts[i]];
    EncAppend(ts[..i], [ts[i]]);
    assert Enc([ts[i]]) == Enc1(ts[i]) + Enc([]) == Enc1(ts[i]);
    SplitAt(ts, i + 1);
    assert Enc(ts)[Offset(ts, i)..Offset(ts, i + 1)] == Enc(ts)[..Offset(ts, i + 1)][Offset(ts, i)..];
  }

  lemma {:induction false} EncAligned(ts: seq<Token>)
    requires AllFormed(ts)
    ensures OnWord(|Enc(ts)|)
  {
    if ts == [] {
      ZeroOnWord();
    } else {
      hide Enc1, WellFormed, OnWord;
      EncAligned(ts[1..]);
      Enc1Words(ts[0]);
      Sum4(|Enc1(ts[0])|, |Enc(ts[1..])|);
    }
  }

  lemma OffsetAligned(ts: seq<Token>, i: int)
    requires AllFormed(ts) && 0 <= i <= |ts|
    ensures OnWord(Offset(ts, i))
  {
    EncAligned(ts[..i]);
  }

  predicate OnWord(x: int) {
    x % 4 == 0
  }

  lemma ZeroOnWord()
    ensures OnWord(0)
  {
  }

  lemma Sum4(x: int, y: int)
    requires OnWord(x) && OnWord(y)
    ensures OnWord(x + y)
  {
  }

  // ---- fdt_next_tag -----------------------------------------------------------------------

  /** The position just after the first zero at or after o, or -1. */
  function AfterZero(s: Bytes, o: int): (r: int)
    requires 0 <= o
    ensures r == -1 || o < r <= |s|
    decreases |s| - o
  {
    if o >= |s| then -1 else if s[o] == 0 then o + 1 else AfterZero(s, o + 1)
  }

  /** fdt_next_tag on the structure block s: the tag and the offset of the next one, or END and an error. */
  function TagAt(s: Bytes, start: int): (int, int)
    requires 0 <= start
  {
    if start + 4 > |s| then (END, -ERR_TRUNCATED) else
    var tag := Get32(s, start);
    if tag == BEGIN_NODE then
      var off := AfterZero(s, start + 4);
      if off < 0 then (END, -ERR_BADSTRUCTURE) else (tag, Align4(off))
    else if tag == PROP then
      if start + 8 > |s| then (END, -ERR_BADSTRUCTURE) else
      var off := (start + 12 + Get32(s, start + 4)) % TWO32;
      if off < start || off > |s| then (END, -ERR_BADSTRUCTURE) else (tag, Align4(off))
    else if tag == END_NODE || tag == NOP || tag == END then (tag, Align4(start + 4))
    else (END, -ERR_BADSTRUCTURE)
  }

  /** Everything that fdt_next_tag can answer, on any bytes: TRUNCATED where no tag fits, BADSTRUCTURE
      for an unknown tag, for a name without a NUL, for a property cut short in its length or behind it, and
      otherwise the tag and the next word boundary. */
  lemma TagCases(s: Bytes, start: int)
    requires 0 <= start
    ensures start + 4 > |s| ==> TagAt(s, start) == (9, -8)
    ensures start + 4 <= |s| && Get32(s, start) !in {1, 2, 3, 4, 9} ==> TagAt(s, start) == (9, -11)
    ensures start + 4 <= |s| && Get32(s, start) in {2, 4, 9} ==> TagAt(s, start) == (Get32(s, start), Align4(start + 4))
    ensures start + 4 <= |s| < start + 8 && Get32(s, start) == 3 ==> TagAt(s, start) == (9, -11)
    ensures start + 8 <= |s| && Get32(s, start) == 3 ==>
      var end := (start + 12 + Get32(s, start + 4)) % 0x1_0000_0000;
      TagAt(s, start) == if start <= end <= |s| then (3, Align4(end)) else (9, -11)
  {
    hide Get32, Align4, AfterZero;
  }

  /** A begin whose name ends at z, or does not end. */
  lemma TagNamed(s: Bytes, start: int, z: int)
    requires 0 <= start && start + 4 <= z <= |s| && Get32(s, start) == 1 && (forall k :: start + 4 <= k < z ==> s[k] != 0) && (z < |s| ==> s[z] == 0)
    ensures TagAt(s, start) == if z < |s| then (1, Align4(z + 1)) else (9, -11)
  {
    hide Get32, Align4, AfterZero;
    FirstZero(s, start + 4, z);
  }

  lemma {:induction false} FirstZero(s: Bytes, o: int, z: int)
    requires 0 <= o <= z <= |s| && (forall k :: o <= k < z ==> s[k] != 0) && (z < |s| ==> s[z] == 0)
    ensures AfterZero(s, o) == if z < |s| then z + 1 else -1
    decreases z - o
  {
    if o < z {
      FirstZero(s, o + 1, z);
    }
  }

  lemma {:induction false} AfterZeroAt(a: Bytes, name: Bytes, b: Bytes, k: nat)
    requires 0 !in name && k <= |name|
    ensures AfterZero(a + (name + [0] + b), |a| + k) == |a| + |name| + 1
    decreases |name| - k
  {
    var s := a + (name + [0] + b);
    if k < |name| {
      assert s[|a| + k] == name[k] && name[k] in name;
      AfterZeroAt(a, name, b, k + 1);
    } else {
      assert s[|a| + k] == 0;
    }
  }

  lemma PlainTag(a: Bytes, t: Token, b: Bytes)
    requires WellFormed(t) && !t.BeginNode? && !t.Prop? && |a| % 4 == 0
    ensures TagAt(a + Enc1(t) + b, |a|) == (TagOf(t), |a| + |Enc1(t)|)
  {
    hide Put32, Get32;
    assert Enc1(t) == Put32(TagOf(t));
    GetPut(a, TagOf(t), b);
  }

  lemma BeginTag(a: Bytes, t: Token, b: Bytes)
    requires WellFormed(t) && t.BeginNode? && |a| % 4 == 0
    ensures TagAt(a + Enc1(t) + b, |a|) == (TagOf(t), |a| + |Enc1(t)|)
  {
    hide Put32, Get32;
    var s := a + Enc1(t) + b;
    assert s == a + Put32(BEGIN_NODE) + (t.name + [0] + t.pad + b);
    GetPut(a, BEGIN_NODE, t.name + [0] + t.pad + b);
    assert s == (a + Put32(BEGIN_NODE)) + (t.name + [0] + (t.pad + b));
    AfterZeroAt(a + Put32(BEGIN_NODE), t.name, t.pad + b, 0);
    AlignedSum(|a| + 4, |t.name| + 1);
  }

  lemma PropTag(a: Bytes, t: Token, b: Bytes)
    requires WellFormed(t) && t.Prop? && |a| % 4 == 0 && |a| + |Enc1(t)| < TWO32
    ensures TagAt(a + Enc1(t) + b, |a|) == (TagOf(t), |a| + |Enc1(t)|)
  {
    hide Put32, Get32;
    var s, rest := a + Enc1(t) + b, Put32(t.nameoff) + t.val + t.pad + b;
    assert s == a + Put32(PROP) + (Put32(|t.val|) + rest);
    GetPut(a, PROP, Put32(|t.val|) + rest);
    assert s == (a + Put32(PROP)) + Put32(|t.val|) + rest;
    GetPut(a + Put32(PROP), |t.val|, rest);
    AlignedSum(|a| + 12, |t.val|);
  }

  lemma AlignedSum(x: int, y: int)
    requires x % 4 == 0
    ensures Align4(x + y) == x + Align4(y)
  {
  }

  /** On a structure block made of tokens, fdt_next_tag reads each token and steps to the next. */
  lemma TagAtToken(ts: seq<Token>, i: int)
    requires AllFormed(ts) && 0 <= i < |ts| && |Enc(ts)| < TWO32
    ensures TagAt(Enc(ts), Offset(ts, i)) == (TagOf(ts[i]), Offset(ts, i + 1))
  {
    hide Enc, Enc1, WellFormed, TagAt;
    OffsetStep(ts, i);
    OffsetAligned(ts, i);
    SplitAt(ts, i);
    SplitAt(ts, i + 1);
    var a, b := Enc(ts[..i]), Enc(ts[i + 1..]);
    assert Enc(ts) == a + Enc1(ts[i]) + b by {
      assert Enc(ts) == Enc(ts)[..Offset(ts, i)] + Enc(ts)[Offset(ts, i)..Offset(ts, i + 1)] + Enc(ts)[Offset(ts, i + 1)..];
    }
    if ts[i].BeginNode? {
      BeginTag(a, ts[i], b);
    } else if ts[i].Prop? {
      PropTag(a, ts[i], b);
    } else {
      PlainTag(a, ts[i], b);
    }
  }

  /** The fields of a property in the structure block. */
  lemma PropFields(ts: seq<Token>, i: int)
    requires AllFormed(ts) && 0 <= i < |ts| && ts[i].Prop?
    ensures 0 <= Offset(ts, i) && Offset(ts, i) + 12 + |ts[i].val| <= Offset(ts, i + 1) <= |Enc(ts)|
    ensures Get32(Enc(ts), Offset(ts, i) + 4) == |ts[i].val| && Get32(Enc(ts), Offset(ts, i) + 8) == ts[i].nameoff
    ensures Enc(ts)[Offset(ts, i) + 12..Offset(ts, i) + 12 + |ts[i].val|] == ts[i].val
  {
    hide Enc1, Put32, Get32, Enc, Offset, WellFormed;
    var t, o := ts[i], Offset(ts, i);
    OffsetStep(ts, i);
    PropWords(t);
    Get32Inside(Enc(ts), o, Enc1(t), 4);
    Get32Inside(Enc(ts), o, Enc1(t), 8);
    SliceInside(Enc(ts), o, Enc1(t), 12, 12 + |t.val|);
  }

  /** The name in a node's begin. */
  lemma BeginFields(ts: seq<Token>, i: int)
    requires AllFormed(ts) && 0 <= i < |ts| && ts[i].BeginNode?
    ensures 0 !in ts[i].name && 0 <= Offset(ts, i) && Offset(ts, i + 1) == Offset(ts, i) + 4 + Align4(|ts[i].name| + 1) <= |Enc(ts)|
    ensures Enc(ts)[Offset(ts, i) + 4..Offset(ts, i) + 4 + |ts[i].name|] == ts[i].name
    ensures Enc(ts)[Offset(ts, i) + 4 + |ts[i].name|] == 0
  {
    hide Enc1, Put32, Enc, Offset, WellFormed;
    var t, o := ts[i], Offset(ts, i);
    OffsetStep(ts, i);
    BeginWords(t);
    SliceInside(Enc(ts), o, Enc1(t), 4, 4 + |t.name|);
    ByteInside(Enc(ts), o, Enc1(t), 4 + |t.name|);
  }

  lemma ByteInside(s: Bytes, o: int, b: Bytes, x: int)
    requires 0 <= o && o + |b| <= |s| && s[o..o + |b|] == b && 0 <= x < |b|
    ensures s[o + x] == b[x]
  {
    assert s[o..o + |b|][x] == s[o + x];
  }

  lemma BeginWords(t: Token)
    requires WellFormed(t) && t.BeginNode?
    ensures 0 !in t.name
    ensures var b := Enc1(t); |b| == 4 + Align4(|t.name| + 1) && b[4..4 + |t.name|] == t.name && b[4 + |t.name|] == 0
  {
    hide Put32;
  }

  /** Equal stretches have equal parts. */
  lemma SubSlices(s: Bytes, x: int, t: Bytes, y: int, n: int, i: int, j: int)
    requires 0 <= x && x + n <= |s| && 0 <= y && y + n <= |t| && 0 <= i <= j <= n && s[x..x + n] == t[y..y + n]
    ensures s[x + i..x + j] == t[y + i..y + j]
  {
    var u, v := s[x + i..x + j], t[y + i..y + j];
    forall k | 0 <= k < j - i ensures u[k] == v[k] {
      var m := i + k;
      assert s[x..x + n][m] == s[x + m] && t[y..y + n][m] == t[y + m];
    }
  }

  /** Equal ends begin alike. */
  lemma SubTails(s: Bytes, t: Bytes, to: int, i: int, j: int)
    requires |s| == |t| && 0 <= to <= i <= j <= |s| && s[to..] == t[to..]
    ensures s[i..j] == t[i..j]
  {
    var u, v := s[i..j], t[i..j];
    forall k | 0 <= k < j - i ensures u[k] == v[k] {
      var m := i + k - to;
      assert s[to..][m] == s[i + k] && t[to..][m] == t[i + k];
    }
  }

  lemma SubHeads(s: Bytes, t: Bytes, at: int, i: int, j: int)
    requires |s| == |t| && 0 <= i <= j <= at <= |s| && s[..at] == t[..at]
    ensures s[i..j] == t[i..j]
  {
    var u, v := s[i..j], t[i..j];
    forall k | 0 <= k < j - i ensures u[k] == v[k] {
      assert s[..at][i + k] == s[i + k] && t[..at][i + k] == t[i + k];
    }
  }

  lemma SliceInside(s: Bytes, o: int, b: Bytes, x: int, y: int)
    requires 0 <= o && o + |b| <= |s| && s[o..o + |b|] == b && 0 <= x <= y <= |b|
    ensures s[o + x..o + y] == b[x..y]
  {
    assert b[0..0 + |b|] == b;
    SubSlices(s, o, b, 0, |b|, x, y);
  }

  lemma Get32Inside(s: Bytes, o: int, b: Bytes, k: int)
    requires 0 <= o && o + |b| <= |s| && s[o..o + |b|] == b && 0 <= k && k + 4 <= |b|
    ensures Get32(s, o + k) == Get32(b, k)
  {
    assert forall m :: 0 <= m < |b| ==> s[o + m] == b[m];
  }

  lemma PropWords(t: Token)
    requires WellFormed(t) && t.Prop?
    ensures var b := Enc1(t); |b| >= 12 + |t.val| && Get32(b, 4) == |t.val| && Get32(b, 8) == t.nameoff && b[12..12 + |t.val|] == t.val
  {
    hide Put32, Get32;
    var g, l, n := Put32(PROP), Put32(|t.val|), Put32(t.nameoff);
    assert Enc1(t) == g + l + (n + t.val + t.pad) == (g + l) + n + (t.val + t.pad);
    GetPut(g, |t.val|, n + t.val + t.pad);
    GetPut(g + l, t.nameoff, t.val + t.pad);
  }

  /** On any bytes whatever, a step that reports no error moves forward, except from a property whose
      length is exactly 2^32 - 12: its 32-bit sum comes back to where it started. */
  lemma TagProgress(s: Bytes, start: int)
    requires 0 <= start < TWO32 - 8 && start % 4 == 0 && TagAt(s, start).1 >= 0 && |s| < TWO32
    ensures TagAt(s, start).1 > start <==> !(Get32(s, start) == PROP && Get32(s, start + 4) == TWO32 - 12)
    ensures TagAt(s, start).1 >= start && TagAt(s, start).1 % 4 == 0
  {
    hide Get32;
  }

  /** The block that makes it stand still. */
  lemma TagStandsStill()
    ensures TagAt(Put32(PROP) + Put32(TWO32 - 12) + Put32(0), 0) == (PROP, 0)
  {
    var s := Put32(PROP) + Put32(TWO32 - 12) + Put32(0);
    assert s == [] + Put32(PROP) + (Put32(TWO32 - 12) + Put32(0));
    GetPut([], PROP, Put32(TWO32 - 12) + Put32(0));
    GetPut(Put32(PROP), TWO32 - 12, Put32(0));
  }
}
