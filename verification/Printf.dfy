/** kprintf and vsnprintf: formats read, numbers turned into digits, fields padded, and the output cut to
    the buffer while its whole length is still counted. */
module Printf {

  /** An argument: an integer (or pointer) as it was passed, a string, or a null string. */
  datatype Arg = Number(v: int) | Text(s: string) | NullText

  const TWO64: int := 0x1_0000_0000_0000_0000
  const BUFSIZE: int := 23

  // ---- digits -----------------------------------------------------------------------------------

  const LOWER: string := "0123456789abcdef"
  const UPPER: string := "0123456789ABCDEF"

  function Digit(n: int, digits: string): char
    requires 0 <= n < 16 && |digits| == 16
  {
    digits[n]
  }

  predicate Base(b: int) {
    b == 8 || b == 10 || b == 16
  }

  lemma DivMod(u: int, b: int)
    requires 0 <= u && Base(b)
    ensures u == (u / b) * b + u % b && 0 <= u % b < b && 0 <= u / b
    ensures u < b ==> u / b == 0 && u % b == u
    ensures u >= b ==> u / b < u
  {
    if b == 8 {
      assert u == u / 8 * 8 + u % 8;
    } else if b == 10 {
      assert u == u / 10 * 10 + u % 10;
    } else {
      assert u == u / 16 * 16 + u % 16;
    }
  }

  /** The digits of u, most significant first; zero has one. */
  function Digits(u: int, b: int, digits: string): (s: string)
    requires 0 <= u && Base(b) && |digits| == 16
    ensures |s| >= 1
    decreases u
  {
    DivMod(u, b);
    (if u < b then "" else Digits(u / b, b, digits)) + [Digit(u % b, digits)]
  }

  /** The number that a digit stands for in either case; -1 for other characters. */
  function DigitValue(c: char): int {
    if '0' <= c <= '9' then c as int - '0' as int
    else if 'a' <= c <= 'f' then c as int - 'a' as int + 10
    else if 'A' <= c <= 'F' then c as int - 'A' as int + 10
    else -1
  }

  /** The number that a string of digits stands for. */
  function Parse(s: string, b: int): int {
    if s == "" then 0 else Parse(s[..|s| - 1], b) * b + DigitValue(s[|s| - 1])
  }

  lemma DigitOk(n: int, digits: string)
    requires 0 <= n < 16 && (digits == LOWER || digits == UPPER)
    ensures |digits| == 16 && DigitValue(Digit(n, digits)) == n
  {
  }

  /** The digits stand for the number. */
  lemma {:induction false} DigitsParse(u: int, b: int, digits: string)
    requires 0 <= u && Base(b) && (digits == LOWER || digits == UPPER)
    ensures |digits| == 16 && Parse(Digits(u, b, digits), b) == u
    decreases u
  {
    DivMod(u, b);
    DigitOk(u % b, digits);
    DigitsStep(u, b, digits);
    hide Digit, DigitValue, Digits;
    var s, c := Digits(u, b, digits), Digit(u % b, digits);
    if u < b {
      ParseMore("", c, b);
    } else {
      DigitsParse(u / b, b, digits);
      ParseMore(Digits(u / b, b, digits), c, b);
    }
  }

  lemma ParseMore(s: string, c: char, b: int)
    ensures Parse(s + [c], b) == Parse(s, b) * b + DigitValue(c)
    ensures Parse("", b) == 0 && [c] == "" + [c]
  {
    assert (s + [c])[..|s|] == s;
  }

  function Pow(b: int, k: int): int
    requires 0 <= k
    decreases k
  {
    if k == 0 then 1 else b * Pow(b, k - 1)
  }

  /** A number has at most k digits exactly when it is less than the base to the power of k. */
  lemma {:induction false} DigitsLength(u: int, b: int, digits: string, k: int)
    requires 0 <= u && Base(b) && |digits| == 16 && 1 <= k
    ensures |Digits(u, b, digits)| <= k <==> u < Pow(b, k)
    decreases k
  {
    var p := Pow(b, k - 1);
    if u < b {
      PowAtLeast(b, k);
    } else if k == 1 {
      DivMod(u, b);
      assert Pow(b, 1) == b * Pow(b, 0) == b;
    } else {
      DivMod(u, b);
      DigitsLength(u / b, b, digits, k - 1);
      Scale(u, b, p);
    }
  }

  lemma {:induction false} PowAtLeast(b: int, k: int)
    requires 2 <= b && 1 <= k
    ensures Pow(b, k) >= b
    decreases k
  {
    if k > 1 {
      PowAtLeast(b, k - 1);
      assert b * Pow(b, k - 1) >= b * 1;
    }
  }

  lemma Scale(u: int, b: int, p: int)
    requires 0 <= u && Base(b)
    ensures u / b < p <==> u < b * p
  {
    DivMod(u, b);
    if b == 8 {
      assert u / 8 < p <==> u < 8 * p;
    } else if b == 10 {
      assert u / 10 < p <==> u < 10 * p;
    } else {
      assert u / 16 < p <==> u < 16 * p;
    }
  }

  /** Twenty-two octal digits are enough for 64 bits, and needed: with the '#' zero they fill the buffer. */
  lemma OctalDigits(u: int, digits: string)
    requires 0 <= u < TWO64 && |digits| == 16
    ensures |Digits(u, 8, digits)| <= 22 && |Digits(u, 10, digits)| <= 22 && |Digits(u, 16, digits)| <= 22
    ensures |Digits(TWO64 - 1, 8, digits)| == 22
  {
    DigitsLength(u, 8, digits, 22);
    DigitsLength(u, 10, digits, 22);
    DigitsLength(u, 16, digits, 22);
    DigitsLength(TWO64 - 1, 8, digits, 22);
    DigitsLength(TWO64 - 1, 8, digits, 21);
    Powers();
  }

  lemma Powers()
    ensures Pow(8, 21) == 0x8000_0000_0000_0000 && Pow(8, 22) == 4 * TWO64
    ensures Pow(10, 22) >= TWO64 && Pow(16, 22) >= TWO64
  {
    assert Pow(8, 4) == 4096 && Pow(10, 4) == 10000 && Pow(16, 4) == 65536;
    PowAdd(8, 4, 4);
    PowAdd(8, 8, 8);
    PowAdd(8, 16, 4);
    assert Pow(8, 21) == 8 * Pow(8, 20) && Pow(8, 22) == 8 * Pow(8, 21);
    PowAdd(10, 4, 4);
    PowAdd(10, 8, 8);
    PowAdd(10, 16, 4);
    assert Pow(10, 21) == 10 * Pow(10, 20) && Pow(10, 22) == 10 * Pow(10, 21);
    PowAdd(16, 4, 4);
    PowAdd(16, 8, 8);
    PowAdd(16, 16, 4);
    assert Pow(16, 21) == 16 * Pow(16, 20) && Pow(16, 22) == 16 * Pow(16, 21);
  }

  lemma {:induction false} PowAdd(b: int, j: int, k: int)
    requires 0 <= j && 0 <= k
    ensures Pow(b, j + k) == Pow(b, j) * Pow(b, k)
    decreases k
  {
    if k > 0 {
      PowAdd(b, j, k - 1);
    }
  }

  /** The loops that write the digits of u backwards into the end of the conversion buffer. */
  method PutDigits(bf: array<char>, u0: int, b: int, digits: string) returns (cp: int)
    requires bf.Length == BUFSIZE && 0 <= u0 < TWO64 && Base(b) && |digits| == 16
    modifies bf
    ensures 1 <= cp <= BUFSIZE && bf[cp..] == Digits(u0, b, digits)
  {
    hide Digits;
    OctalDigits(u0, digits);
    var u := u0;
    cp := BUFSIZE;
    assert bf[cp..] == "";
    if b == 10 {
      while u >= 10
        invariant 0 <= u && 1 <= cp <= BUFSIZE
        invariant Digits(u0, b, digits) == Digits(u, b, digits) + bf[cp..]
      {
        DigitsStep(u, b, digits);
        ghost var tail := bf[cp..];
        cp := cp - 1;
        bf[cp] := Digit(u % 10, digits);
        assert bf[cp..] == [Digit(u % b, digits)] + tail;
        u := u / 10;
      }
      DigitsStep(u, b, digits);
      ghost var tail := bf[cp..];
      cp := cp - 1;
      bf[cp] := Digit(u, digits);
      assert bf[cp..] == [Digit(u, digits)] + tail;
    } else {
      var more := true;
      while more
        invariant 0 <= u && 1 <= cp <= BUFSIZE
        invariant more ==> Digits(u0, b, digits) == Digits(u, b, digits) + bf[cp..]
        invariant !more ==> Digits(u0, b, digits) == bf[cp..]
        decreases u, more
      {
        DigitsStep(u, b, digits);
        DivMod(u, b);
        ghost var tail := bf[cp..];
        cp := cp - 1;
        bf[cp] := Digit(u % b, digits);
        assert bf[cp..] == [Digit(u % b, digits)] + tail;
        u := u / b;
        more := u != 0;
      }
    }
  }

  lemma DigitsStep(u: int, b: int, digits: string)
    requires 0 <= u && Base(b) && |digits| == 16
    ensures u < b ==> Digits(u, b, digits) == [Digit(u, digits)]
    ensures u >= b ==> 0 <= u / b < u && Digits(u, b, digits) == Digits(u / b, b, digits) + [Digit(u % b, digits)]
  {
    DivMod(u, b);
    hide Digit;
  }

  // ---- directives -------------------------------------------------------------------------------

  datatype Flags = Flags(
    alt: bool, hexPrefix: bool, left: bool, long: bool, quad: bool, short: bool, max: bool, ptr: bool, size: bool, zero: bool)

  /** What stands between '%' and the conversion letter; sign is empty or one character, prec is -1 if absent. */
  datatype Directive = Directive(flags: Flags, width: int, prec: int, sign: string)

  const NO_FLAGS: Flags := Flags(false, false, false, false, false, false, false, false, false, false)
  const START: Directive := Directive(NO_FLAGS, 0, -1, "")

  /** A directive read: its conversion letter, and where the format and the arguments go on. */
  datatype Reading = Reading(d: Directive, letter: char, next: int, arg: int)

  /** The character at i; the NUL behind the end. */
  function At(fmt: string, i: int): char {
    if 0 <= i < |fmt| then fmt[i] else '\0'
  }

  predicate IsDigit(c: char) {
    '0' <= c <= '9'
  }

  function IntAt(args: seq<Arg>, a: int): int {
    if 0 <= a < |args| && args[a].Number? then args[a].v else 0
  }

  /** The decimal number n continued by the digits at i, and the position behind them. */
  function Decimal(fmt: string, i: int, n: int): (r: (int, int))
    ensures r.1 >= i && (i >= 0 && IsDigit(At(fmt, i)) ==> r.1 > i)
    decreases |fmt| - i
  {
    if 0 <= i && IsDigit(At(fmt, i)) then Decimal(fmt, i + 1, 10 * n + (At(fmt, i) as int - '0' as int)) else (n, i)
  }

  /** The directive from position i on, continuing d. */
  function Read(fmt: string, i: int, args: seq<Arg>, a: int, d: Directive): (r: Reading)
    requires 0 <= i
    ensures r.next > i
    ensures d.sign != "-" ==> r.d.sign != "-"
    decreases |fmt| - i
  {
    var ch, n := At(fmt, i), i + 1;
    if i >= |fmt| then Reading(d, ch, n, a)
    else if ch == ' ' then Read(fmt, n, args, a, if d.sign == "" then d.(sign := " ") else d)
    else if ch == '#' then Read(fmt, n, args, a, d.(flags := d.flags.(alt := true)))
    else if ch == '*' then
      var w := IntAt(args, a);
      Read(fmt, n, args, a + 1, if w >= 0 then d.(width := w) else d.(width := -w, flags := d.flags.(left := true)))
    else if ch == '-' then Read(fmt, n, args, a, d.(flags := d.flags.(left := true)))
    else if ch == '+' then Read(fmt, n, args, a, d.(sign := "+"))
    else if ch == '.' then
      if At(fmt, n) == '*' then
        var p := IntAt(args, a);
        Read(fmt, n + 1, args, a + 1, d.(prec := if p < 0 then -1 else p))
      else
        var p := Decimal(fmt, n, 0);
        Read(fmt, p.1, args, a, d.(prec := p.0))
    else if ch == '0' then Read(fmt, n, args, a, d.(flags := d.flags.(zero := true)))
    else if IsDigit(ch) then
      var w := Decimal(fmt, i, 0);
      Read(fmt, w.1, args, a, d.(width := w.0))
    else if ch == 'h' then Read(fmt, n, args, a, d.(flags := d.flags.(short := true)))
    else if ch == 'j' then Read(fmt, n, args, a, d.(flags := d.flags.(max := true)))
    else if ch == 'l' then
      if At(fmt, n) == 'l' then Read(fmt, n + 1, args, a, d.(flags := d.flags.(quad := true)))
      else Read(fmt, n, args, a, d.(flags := d.flags.(long := true)))
    else if ch == 'q' then Read(fmt, n, args, a, d.(flags := d.flags.(quad := true)))
    else if ch == 't' then Read(fmt, n, args, a, d.(flags := d.flags.(ptr := true)))
    else if ch == 'z' then Read(fmt, n, args, a, d.(flags := d.flags.(size := true)))
    else Reading(d, ch, n, a)
  }

  // ---- directives written out -------------------------------------------------------------------

  /** The text s stands in the format at i. */
  predicate Stands(fmt: string, i: int, s: string) {
    0 <= i && i + |s| <= |fmt| && fmt[i..i + |s|] == s
  }

  lemma StandsBoth(fmt: string, i: int, x: string, y: string)
    requires Stands(fmt, i, x + y)
    ensures Stands(fmt, i, x) && Stands(fmt, i + |x|, y)
    ensures y != "" ==> At(fmt, i + |x|) == y[0]
  {
    var w := fmt[i..i + |x + y|];
    assert w[..|x|] == x && w[|x|..] == y;
    assert fmt[i..i + |x|] == w[..|x|];
    assert fmt[i + |x|..i + |x| + |y|] == w[|x|..];
    assert y != "" ==> fmt[i + |x|..i + |x| + |y|][0] == y[0];
  }

  /** A character that ends a directive. */
  predicate IsLetter(c: char) {
    && c != ' ' && c != '#' && c != '*' && c != '-' && c != '+' && c != '.' && !('0' <= c <= '9')
    && c != 'h' && c != 'j' && c != 'l' && c != 'q' && c != 't' && c != 'z'
  }

  /** The letters of the number conversions. */
  predicate IsNumeric(c: char) {
    c == 'd' || c == 'i' || c == 'D' || c == 'o' || c == 'O' || c == 'u' || c == 'U' || c == 'x' || c == 'X' || c == 'p'
  }

  function Opt(on: bool, c: char): string {
    if on then [c] else ""
  }

  /** The sizes and the letter of a directive. */
  function SizesText(f: Flags, letter: char): (s: string)
    ensures s != "" && (IsLetter(letter) ==> !IsDigit(s[0]) && s[0] != '*')
  {
    Opt(f.short, 'h') + (Opt(f.max, 'j') + (Opt(f.long, 'l') + WideText(f, letter)))
  }

  function WideText(f: Flags, letter: char): (s: string)
    ensures s != "" && (IsLetter(letter) ==> !IsDigit(s[0]) && s[0] != '*' && s[0] != 'l')
  {
    Opt(f.quad, 'q') + (Opt(f.ptr, 't') + (Opt(f.size, 'z') + [letter]))
  }

  function PrecText(d: Directive, letter: char): (s: string)
    ensures s != "" && (IsLetter(letter) ==> !IsDigit(s[0]))
  {
    (if d.prec >= 0 then "." + Digits(d.prec, 10, LOWER) else "") + SizesText(d.flags, letter)
  }

  function WidthText(d: Directive, letter: char): string {
    (if d.width > 0 then Digits(d.width, 10, LOWER) else "") + PrecText(d, letter)
  }

  function FlagsText(f: Flags, sign: string, rest: string): string {
    Opt(f.alt, '#') + (Opt(f.left, '-') + (sign + (Opt(f.zero, '0') + rest)))
  }

  /** A directive as one writes it: flags, width, precision, sizes, letter. */
  function Spelled(d: Directive, letter: char): string {
    FlagsText(d.flags, d.sign, WidthText(d, letter))
  }

  /** What can be written out: hexPrefix is set by conversions only. */
  predicate Writable(d: Directive) {
    !d.flags.hexPrefix && 0 <= d.width && -1 <= d.prec && d.sign in {"", " ", "+"}
  }

  /** The flag that a character sets. */
  function SetBy(d: Directive, c: char): Directive {
    match c
    case '#' => d.(flags := d.flags.(alt := true))
    case '-' => d.(flags := d.flags.(left := true))
    case '0' => d.(flags := d.flags.(zero := true))
    case 'h' => d.(flags := d.flags.(short := true))
    case 'j' => d.(flags := d.flags.(max := true))
    case 'l' => d.(flags := d.flags.(long := true))
    case 'q' => d.(flags := d.flags.(quad := true))
    case 't' => d.(flags := d.flags.(ptr := true))
    case 'z' => d.(flags := d.flags.(size := true))
    case _ => d
  }

  function SetIf(d: Directive, on: bool, c: char): Directive {
    if on then SetBy(d, c) else d
  }

  lemma FlagReads(fmt: string, i: int, on: bool, c: char, rest: string, args: seq<Arg>, a: int, d: Directive)
    requires Stands(fmt, i, Opt(on, c) + rest) && c in "#-0hjlqtz" && rest != "" && (c == 'l' ==> rest[0] != 'l')
    ensures var n := i + |Opt(on, c)|; Stands(fmt, n, rest) && Read(fmt, i, args, a, d) == Read(fmt, n, args, a, SetIf(d, on, c))
  {
    hide Stands, SetBy;
    StandsBoth(fmt, i, Opt(on, c), rest);
    if on {
      assert Stands(fmt, i, [c]);
      OneThere(fmt, i, c);
      ReadFlag(fmt, i, args, a, d);
    }
  }

  lemma OneThere(fmt: string, i: int, c: char)
    requires Stands(fmt, i, [c])
    ensures 0 <= i < |fmt| && fmt[i] == c
  {
    assert fmt[i..i + 1][0] == c;
  }

  lemma ReadFlag(fmt: string, i: int, args: seq<Arg>, a: int, d: Directive)
    requires 0 <= i < |fmt| && fmt[i] in "#-0hjlqtz" && (fmt[i] == 'l' ==> At(fmt, i + 1) != 'l')
    ensures Read(fmt, i, args, a, d) == Read(fmt, i + 1, args, a, SetBy(d, fmt[i]))
  {
    hide Decimal;
  }

  /** The sizes read, and the letter. */
  lemma SizesRead(fmt: string, i: int, f: Flags, letter: char, args: seq<Arg>, a: int, d: Directive)
    requires Stands(fmt, i, SizesText(f, letter)) && IsLetter(letter)
    requires !(d.flags.short || d.flags.max || d.flags.long || d.flags.quad || d.flags.ptr || d.flags.size)
    ensures Read(fmt, i, args, a, d) ==
      Reading(d.(flags := d.flags.(short := f.short, max := f.max, long := f.long, quad := f.quad, ptr := f.ptr, size := f.size)), letter, i + |SizesText(f, letter)|, a)
  {
    hide Stands, Read, Opt, SetIf, IsLetter, WideText;
    var q := WideText(f, letter);
    var l := Opt(f.long, 'l') + q;
    var k, e := i, d;
    FlagReads(fmt, k, f.short, 'h', Opt(f.max, 'j') + l, args, a, e);
    k, e := k + |Opt(f.short, 'h')|, SetIf(e, f.short, 'h');
    FlagReads(fmt, k, f.max, 'j', l, args, a, e);
    k, e := k + |Opt(f.max, 'j')|, SetIf(e, f.max, 'j');
    FlagReads(fmt, k, f.long, 'l', q, args, a, e);
    k, e := k + |Opt(f.long, 'l')|, SetIf(e, f.long, 'l');
    WideRead(fmt, k, f, letter, args, a, e);
    SizesSet(f, d);
  }

  lemma WideRead(fmt: string, i: int, f: Flags, letter: char, args: seq<Arg>, a: int, d: Directive)
    requires Stands(fmt, i, WideText(f, letter)) && IsLetter(letter)
    ensures Read(fmt, i, args, a, d) == Reading(SetIf(SetIf(SetIf(d, f.quad, 'q'), f.ptr, 't'), f.size, 'z'), letter, i + |WideText(f, letter)|, a)
  {
    hide Stands, Read, Opt, SetIf, IsLetter;
    var z := Opt(f.size, 'z') + [letter];
    var k, e := i, d;
    FlagReads(fmt, k, f.quad, 'q', Opt(f.ptr, 't') + z, args, a, e);
    k, e := k + |Opt(f.quad, 'q')|, SetIf(e, f.quad, 'q');
    FlagReads(fmt, k, f.ptr, 't', z, args, a, e);
    k, e := k + |Opt(f.ptr, 't')|, SetIf(e, f.ptr, 't');
    FlagReads(fmt, k, f.size, 'z', [letter], args, a, e);
    k, e := k + |Opt(f.size, 'z')|, SetIf(e, f.size, 'z');
    OneThere(fmt, k, letter);
    LetterReads(fmt, k, args, a, e);
  }

  lemma SizesSet(f: Flags, d: Directive)
    requires !(d.flags.short || d.flags.max || d.flags.long || d.flags.quad || d.flags.ptr || d.flags.size)
    ensures SetIf(SetIf(SetIf(SetIf(SetIf(SetIf(d, f.short, 'h'), f.max, 'j'), f.long, 'l'), f.quad, 'q'), f.ptr, 't'), f.size, 'z') ==
      d.(flags := d.flags.(short := f.short, max := f.max, long := f.long, quad := f.quad, ptr := f.ptr, size := f.size))
  {
  }

  lemma LetterReads(fmt: string, i: int, args: seq<Arg>, a: int, d: Directive)
    requires 0 <= i < |fmt| && IsLetter(fmt[i])
    ensures Read(fmt, i, args, a, d) == Reading(d, fmt[i], i + 1, a)
  {
    hide Decimal;
  }

  predicate AllDigits(s: string) {
    forall k :: 0 <= k < |s| ==> IsDigit(s[k])
  }

  /** A decimal number is read to its end. */
  lemma {:induction false} DecimalReads(fmt: string, i: int, s: string, k: int)
    requires Stands(fmt, i, s) && AllDigits(s) && 0 <= k <= |s|
    ensures Decimal(fmt, i, 0) == Decimal(fmt, i + k, Parse(s[..k], 10))
    decreases k
  {
    if k > 0 {
      DecimalReads(fmt, i, s, k - 1);
      assert s[..k][..k - 1] == s[..k - 1] && fmt[i..i + |s|][k - 1] == s[k - 1];
      assert IsDigit(s[k - 1]);
    }
  }

  /** Decimal digits are digits, and do not begin with a zero unless that is the number. */
  lemma {:induction false} DecimalDigits(u: int)
    requires 0 <= u
    ensures AllDigits(Digits(u, 10, LOWER)) && (u > 0 ==> Digits(u, 10, LOWER)[0] != '0')
    decreases u
  {
    DivMod(u, 10);
    DigitsStep(u, 10, LOWER);
    if u >= 10 { DecimalDigits(u / 10); }
  }

  lemma NumberReads(fmt: string, i: int, u: int, rest: string)
    requires 0 <= u && Stands(fmt, i, Digits(u, 10, LOWER) + rest) && rest != "" && !IsDigit(rest[0])
    ensures var n := i + |Digits(u, 10, LOWER)|; Stands(fmt, n, rest) && Decimal(fmt, i, 0) == (u, n)
    ensures Stands(fmt, i, Digits(u, 10, LOWER)) && AllDigits(Digits(u, 10, LOWER)) && (u > 0 ==> Digits(u, 10, LOWER)[0] != '0')
  {
    hide Digits, Stands;
    var s := Digits(u, 10, LOWER);
    StandsBoth(fmt, i, s, rest);
    DecimalDigits(u);
    DecimalReads(fmt, i, s, |s|);
    assert s[..|s|] == s;
    DigitsParse(u, 10, LOWER);
  }

  lemma PrecReads(fmt: string, i: int, d: Directive, letter: char, args: seq<Arg>, a: int, e: Directive)
    requires Stands(fmt, i, PrecText(d, letter)) && IsLetter(letter) && -1 <= d.prec && e.prec == -1
    ensures var n := i + |PrecText(d, letter)| - |SizesText(d.flags, letter)|;
      Stands(fmt, n, SizesText(d.flags, letter)) && Read(fmt, i, args, a, e) == Read(fmt, n, args, a, e.(prec := d.prec))
  {
    hide Stands, SizesText, Digits;
    var rest := SizesText(d.flags, letter);
    if d.prec >= 0 {
      var s := Digits(d.prec, 10, LOWER);
      assert "." + s + rest == "." + (s + rest);
      StandsBoth(fmt, i, ".", s + rest);
      OneThere(fmt, i, '.');
      NumberReads(fmt, i + 1, d.prec, rest);
      assert IsDigit(s[0]) && (s + rest)[0] == s[0];
      PointReads(fmt, i, args, a, e);
    } else {
      assert "" + rest == rest;
    }
  }

  lemma PointReads(fmt: string, i: int, args: seq<Arg>, a: int, d: Directive)
    requires 0 <= i < |fmt| && fmt[i] == '.' && At(fmt, i + 1) != '*'
    ensures var p := Decimal(fmt, i + 1, 0); Read(fmt, i, args, a, d) == Read(fmt, p.1, args, a, d.(prec := p.0))
  {
    hide Decimal;
  }

  lemma WidthReads(fmt: string, i: int, d: Directive, letter: char, args: seq<Arg>, a: int, e: Directive)
    requires Stands(fmt, i, WidthText(d, letter)) && IsLetter(letter) && 0 <= d.width && e.width == 0
    ensures var n := i + |WidthText(d, letter)| - |PrecText(d, letter)|;
      Stands(fmt, n, PrecText(d, letter)) && Read(fmt, i, args, a, e) == Read(fmt, n, args, a, e.(width := d.width))
  {
    hide Stands, PrecText, Digits;
    var rest := PrecText(d, letter);
    if d.width > 0 {
      NumberReads(fmt, i, d.width, rest);
      var s := Digits(d.width, 10, LOWER);
      FirstThere(fmt, i, s);
      DigitReads(fmt, i, args, a, e);
    } else {
      assert "" + rest == rest;
    }
  }

  lemma FirstThere(fmt: string, i: int, s: string)
    requires Stands(fmt, i, s) && s != ""
    ensures 0 <= i < |fmt| && fmt[i] == s[0]
  {
    assert fmt[i..i + |s|][0] == s[0];
  }

  lemma DigitReads(fmt: string, i: int, args: seq<Arg>, a: int, d: Directive)
    requires 0 <= i < |fmt| && IsDigit(fmt[i]) && fmt[i] != '0'
    ensures var w := Decimal(fmt, i, 0); 0 <= w.1 && Read(fmt, i, args, a, d) == Read(fmt, w.1, args, a, d.(width := w.0))
  {
    hide Decimal;
  }

  lemma SignReads(fmt: string, i: int, sign: string, rest: string, args: seq<Arg>, a: int, d: Directive)
    requires Stands(fmt, i, sign + rest) && sign in {"", " ", "+"} && d.sign == ""
    ensures Stands(fmt, i + |sign|, rest) && Read(fmt, i, args, a, d) == Read(fmt, i + |sign|, args, a, d.(sign := sign))
  {
    StandsBoth(fmt, i, sign, rest);
    if sign != "" { OneThere(fmt, i, sign[0]); }
    hide Decimal;
  }

  /** A directive written out reads back: the flags, the width, the precision and the letter that were
      meant, and the format goes on behind it. */
  lemma DirectiveReads(fmt: string, i: int, d: Directive, letter: char, args: seq<Arg>, a: int)
    requires Stands(fmt, i, Spelled(d, letter)) && Writable(d) && IsLetter(letter)
    ensures Read(fmt, i, args, a, START) == Reading(d, letter, i + |Spelled(d, letter)|, a)
  {
    hide Stands, Read, WidthText, PrecText, SizesText, FlagsText, IsLetter;
    var f, w := d.flags, WidthText(d, letter);
    WidthSome(d, letter);
    FlagsRead(fmt, i, f, d.sign, w, args, a);
    var k, e := i + |FlagsText(f, d.sign, w)| - |w|, Directive(NO_FLAGS.(alt := f.alt, left := f.left, zero := f.zero), 0, -1, d.sign);
    WidthReads(fmt, k, d, letter, args, a, e);
    k, e := k + |w| - |PrecText(d, letter)|, e.(width := d.width);
    PrecReads(fmt, k, d, letter, args, a, e);
    k, e := k + |PrecText(d, letter)| - |SizesText(f, letter)|, e.(prec := d.prec);
    SizesRead(fmt, k, f, letter, args, a, e);
  }

  /** The flags read, and what stands behind them. */
  lemma FlagsRead(fmt: string, i: int, f: Flags, sign: string, rest: string, args: seq<Arg>, a: int)
    requires Stands(fmt, i, FlagsText(f, sign, rest)) && sign in {"", " ", "+"} && rest != ""
    ensures var k := i + |FlagsText(f, sign, rest)| - |rest|;
      Stands(fmt, k, rest)
      && Read(fmt, i, args, a, START) == Read(fmt, k, args, a, Directive(NO_FLAGS.(alt := f.alt, left := f.left, zero := f.zero), 0, -1, sign))
  {
    hide Stands, Read, Opt, SetIf;
    var z := Opt(f.zero, '0') + rest;
    var k, e := i, START;
    FlagReads(fmt, k, f.alt, '#', Opt(f.left, '-') + (sign + z), args, a, e);
    k, e := k + |Opt(f.alt, '#')|, SetIf(e, f.alt, '#');
    FlagReads(fmt, k, f.left, '-', sign + z, args, a, e);
    k, e := k + |Opt(f.left, '-')|, SetIf(e, f.left, '-');
    Fresh(f, sign);
    SignReads(fmt, k, sign, z, args, a, e);
    k, e := k + |sign|, e.(sign := sign);
    FlagReads(fmt, k, f.zero, '0', rest, args, a, e);
  }

  /** What the leading flags make of a fresh directive. */
  lemma Fresh(f: Flags, sign: string)
    ensures var e := SetIf(SetIf(START, f.alt, '#'), f.left, '-');
      e.sign == "" && SetIf(e.(sign := sign), f.zero, '0') == Directive(NO_FLAGS.(alt := f.alt, left := f.left, zero := f.zero), 0, -1, sign)
  {
  }

  /** A directive whose width and precision are arguments: a negative width asks for the left side, and a
      negative precision for none. */
  lemma StarsRead(fmt: string, i: int, f: Flags, sign: string, letter: char, args: seq<Arg>, a: int)
    requires Stands(fmt, i, FlagsText(f, sign, "*" + (".*" + SizesText(f, letter))))
    requires sign in {"", " ", "+"} && !f.hexPrefix && IsLetter(letter)
    requires 0 <= a && a + 1 < |args| && args[a].Number? && args[a + 1].Number?
    ensures var w, p := args[a].v, args[a + 1].v;
      var n := i + |FlagsText(f, sign, "*" + (".*" + SizesText(f, letter)))|;
      Read(fmt, i, args, a, START) ==
        Reading(Directive(f.(left := f.left || w < 0), if w < 0 then -w else w, if p < 0 then -1 else p, sign), letter, n, a + 2)
  {
    hide Stands, Read, SizesText, FlagsText, IsLetter;
    var s := SizesText(f, letter);
    var w := "*" + (".*" + s);
    FlagsRead(fmt, i, f, sign, w, args, a);
    var k, e := i + |FlagsText(f, sign, w)| - |w|, Directive(NO_FLAGS.(alt := f.alt, left := f.left, zero := f.zero), 0, -1, sign);
    StandsBoth(fmt, k, "*", ".*" + s);
    OneThere(fmt, k, '*');
    StarReads(fmt, k, args, a, e);
    StandsBoth(fmt, k + 1, ".*", s);
    TwoThere(fmt, k + 1, '.', '*');
    PointStarReads(fmt, k + 1, args, a + 1, if args[a].v >= 0 then e.(width := args[a].v) else e.(width := -args[a].v, flags := e.flags.(left := true)));
    StarSizes(fmt, k + 3, f, letter, args, a + 2, e, args[a].v, if args[a + 1].v < 0 then -1 else args[a + 1].v);
  }

  lemma StarSizes(fmt: string, i: int, f: Flags, letter: char, args: seq<Arg>, a: int, e: Directive, w: int, p: int)
    requires Stands(fmt, i, SizesText(f, letter)) && IsLetter(letter) && !f.hexPrefix
    requires e == Directive(NO_FLAGS.(alt := f.alt, left := f.left, zero := f.zero), 0, -1, e.sign)
    ensures var x := if w >= 0 then e.(width := w) else e.(width := -w, flags := e.flags.(left := true));
      Read(fmt, i, args, a, x.(prec := p)) == Reading(Directive(f.(left := f.left || w < 0), if w < 0 then -w else w, p, e.sign), letter, i + |SizesText(f, letter)|, a)
  {
    hide Stands, Read, SizesText, IsLetter;
    var x := if w >= 0 then e.(width := w) else e.(width := -w, flags := e.flags.(left := true));
    SizesRead(fmt, i, f, letter, args, a, x.(prec := p));
  }

  lemma TwoThere(fmt: string, i: int, c: char, c': char)
    requires Stands(fmt, i, [c, c'])
    ensures 0 <= i && i + 1 < |fmt| && fmt[i] == c && fmt[i + 1] == c'
  {
    assert fmt[i..i + 2][0] == c && fmt[i..i + 2][1] == c';
  }

  lemma StarReads(fmt: string, i: int, args: seq<Arg>, a: int, d: Directive)
    requires 0 <= i < |fmt| && fmt[i] == '*' && 0 <= a < |args| && args[a].Number?
    ensures var w := args[a].v;
      Read(fmt, i, args, a, d) == Read(fmt, i + 1, args, a + 1, if w >= 0 then d.(width := w) else d.(width := -w, flags := d.flags.(left := true)))
  {
    hide Decimal;
  }

  lemma PointStarReads(fmt: string, i: int, args: seq<Arg>, a: int, d: Directive)
    requires 0 <= i && i + 1 < |fmt| && fmt[i] == '.' && fmt[i + 1] == '*' && 0 <= a < |args| && args[a].Number?
    ensures Read(fmt, i, args, a, d) == Read(fmt, i + 2, args, a + 1, d.(prec := if args[a].v < 0 then -1 else args[a].v))
  {
    hide Decimal;
  }

  /** A plus wins over a blank, wherever it stands. */
  lemma PlusWins(fmt: string, i: int, args: seq<Arg>, a: int)
    requires Stands(fmt, i, " +") || Stands(fmt, i, "+ ")
    ensures Read(fmt, i, args, a, START) == Read(fmt, i + 2, args, a, START.(sign := "+"))
  {
    if Stands(fmt, i, " +") { TwoThere(fmt, i, ' ', '+'); } else { TwoThere(fmt, i, '+', ' '); }
    hide Decimal;
  }

  lemma WidthSome(d: Directive, letter: char)
    ensures WidthText(d, letter) != ""
  {
  }

  // ---- conversions ------------------------------------------------------------------------------

  /** The bits of the argument that the size flags ask for, as a signed number. */
  function Signed(f: Flags, v: int): int {
    var u := Unsigned(f, v);
    var half := if f.max then TWO64 / 2 else if f.ptr || f.size then 0x8000_0000
      else if f.quad then TWO64 / 2 else if f.long then 0x8000_0000 else if f.short then 0x8000 else 0x8000_0000;
    if u >= half then u - 2 * half else u
  }

  function Unsigned(f: Flags, v: int): (u: int)
    ensures 0 <= u < TWO64
  {
    if f.max then v % TWO64 else if f.ptr || f.size then v % 0x1_0000_0000
    else if f.quad then v % TWO64 else if f.long then v % 0x1_0000_0000 else if f.short then v % 0x1_0000 else v % 0x1_0000_0000
  }

  /** What a conversion prints, before padding: sign or 0x prefix (with that letter), at least dprec digits, the body. */
  datatype Field = Field(sign: string, prefix: string, dprec: int, body: string, width: int, left: bool, zero: bool)

  datatype Conversion = Print(f: Field, arg: int) | Silent(arg: int) | Stop

  /** The text of a number: digits, the octal zero of '#', or nothing for zero with precision zero. */
  function NumberText(u: int, b: int, digits: string, alt: bool, prec: int): string
    requires 0 <= u && Base(b) && |digits| == 16
  {
    if u == 0 && prec == 0 then ""
    else
      var s := Digits(u, b, digits);
      if b == 8 && alt && s[0] != '0' then "0" + s else s
  }

  function NumberField(u: int, b: int, digits: string, d: Directive, sign: string, letter: char): Field
    requires 0 <= u && Base(b) && |digits| == 16
  {
    Field(sign, if sign == "" && d.flags.hexPrefix then ['0', letter] else "", d.prec, NumberText(u, b, digits, d.flags.alt, d.prec),
      d.width, d.flags.left, d.flags.zero && d.prec < 0)
  }

  function TextField(body: string, d: Directive): Field {
    Field("", "", 0, body, d.width, d.flags.left, d.flags.zero)
  }

  function TextOf(args: seq<Arg>, a: int): string {
    if 0 <= a < |args| && args[a].Text? then args[a].s else "(null)"
  }

  function CharOf(v: int): char {
    (v % 256) as char
  }

  function Convert(r: Reading, args: seq<Arg>): Conversion {
    var d, a, ch := r.d, r.arg, r.letter;
    var long := d.(flags := d.flags.(long := true));
    if ch == 'c' then Print(TextField([CharOf(IntAt(args, a))], d), a + 1)
    else if ch == 'd' || ch == 'i' || ch == 'D' then
      var e := if ch == 'D' then long else d;
      var v := Signed(e.flags, IntAt(args, a));
      Print(NumberField(if v < 0 then -v else v, 10, LOWER, e, if v < 0 then "-" else d.sign, ch), a + 1)
    else if ch == 'n' then Silent(a + 1)
    else if ch == 'o' || ch == 'O' then
      var e := if ch == 'O' then long else d;
      Print(NumberField(Unsigned(e.flags, IntAt(args, a)), 8, LOWER, e, "", ch), a + 1)
    else if ch == 'p' then
      Print(NumberField(IntAt(args, a) % 0x1_0000_0000, 16, LOWER, d.(flags := d.flags.(hexPrefix := true)), "", 'x'), a + 1)
    else if ch == 's' then
      var t := TextOf(args, a);
      Print(TextField(if 0 <= d.prec < |t| then t[..d.prec] else t, d), a + 1)
    else if ch == 'u' || ch == 'U' then
      var e := if ch == 'U' then long else d;
      Print(NumberField(Unsigned(e.flags, IntAt(args, a)), 10, LOWER, e, "", ch), a + 1)
    else if ch == 'x' || ch == 'X' then
      var u := Unsigned(d.flags, IntAt(args, a));
      var e := if d.flags.alt && u != 0 then d.(flags := d.flags.(hexPrefix := true)) else d;
      Print(NumberField(u, 16, if ch == 'x' then LOWER else UPPER, e, "", ch), a + 1)
    else if ch == '\0' then Stop
    else Print(TextField([ch], d), a)
  }

  // ---- fields -----------------------------------------------------------------------------------

  function Times(c: char, n: int): (s: string)
    ensures |s| == if n > 0 then n else 0
  {
    if n <= 0 then "" else seq(n, i => c)
  }

  function Max(x: int, y: int): int { if x < y then y else x }

  function Min(x: int, y: int): int { if x < y then x else y }

  /** The size of a field without the padding to its width. */
  function RealSize(f: Field): int {
    Max(f.dprec, |f.body|) + |f.sign| + |f.prefix|
  }

  /** The field as it is printed. */
  function Render(f: Field): string {
    var pad := f.width - RealSize(f);
    (if !f.left && !f.zero then Times(' ', pad) else "")
    + f.sign + f.prefix
    + (if !f.left && f.zero then Times('0', pad) else "")
    + Times('0', f.dprec - |f.body|)
    + f.body
    + (if f.left then Times(' ', pad) else "")
  }

  /** A field takes its width, or its real size if that is more: what kprintf adds to its count. */
  lemma FieldLength(f: Field)
    ensures |Render(f)| == Max(f.width, RealSize(f))
  {
  }

  /** The whole output for the format from i on, whatever the size of the buffer. */
  function Output(fmt: string, i: int, args: seq<Arg>, a: int): string
    requires 0 <= i
    decreases |fmt| - i
  {
    if i >= |fmt| then ""
    else if fmt[i] != '%' then [fmt[i]] + Output(fmt, i + 1, args, a)
    else
      var r := Read(fmt, i + 1, args, a, START);
      match Convert(r, args)
      case Print(f, a') => Render(f) + Output(fmt, r.next, args, a')
      case Silent(a') => Output(fmt, r.next, args, a')
      case Stop => ""
  }

  /** What a %n stores: the count so far, through the pointer that is this argument, in the size of the flags. */
  datatype Stored = Stored(arg: int, flags: Flags, count: int)

  /** The stores of the format from i on, with n characters already counted. */
  function Stores(fmt: string, i: int, args: seq<Arg>, a: int, n: int): seq<Stored>
    requires 0 <= i
    decreases |fmt| - i
  {
    if i >= |fmt| then []
    else if fmt[i] != '%' then Stores(fmt, i + 1, args, a, n + 1)
    else
      var r := Read(fmt, i + 1, args, a, START);
      match Convert(r, args)
      case Print(f, a') => Stores(fmt, r.next, args, a', n + |Render(f)|)
      case Silent(a') => [Stored(a' - 1, r.d.flags, n)] + Stores(fmt, r.next, args, a', n)
      case Stop => []
  }

  /** The counts stored never fall and never exceed the whole count. */
  lemma {:induction false} StoredCounts(fmt: string, i: int, args: seq<Arg>, a: int, n: int)
    requires 0 <= i
    ensures forall k :: 0 <= k < |Stores(fmt, i, args, a, n)| ==> n <= Stores(fmt, i, args, a, n)[k].count <= n + |Output(fmt, i, args, a)|
    ensures forall j, k :: 0 <= j < k < |Stores(fmt, i, args, a, n)| ==> Stores(fmt, i, args, a, n)[j].count <= Stores(fmt, i, args, a, n)[k].count
    decreases |fmt| - i
  {
    hide Read, Convert, Render;
    if i < |fmt| {
      if fmt[i] != '%' {
        StoredCounts(fmt, i + 1, args, a, n + 1);
      } else {
        var r := Read(fmt, i + 1, args, a, START);
        match Convert(r, args)
        case Print(f, b) => StoredCounts(fmt, r.next, args, b, n + |Render(f)|);
        case Silent(b) => StoredCounts(fmt, r.next, args, b, n);
        case Stop =>
      }
    }
  }

  /** A decimal conversion of an int prints the number: its digits stand for its magnitude, and a minus says it is negative. */
  lemma DecimalPrints(v: int)
    requires -0x8000_0000 <= v < 0x8000_0000
    ensures var c := Convert(Reading(START, 'd', 0, 0), [Number(v)]);
      c.Print? && Parse(c.f.body, 10) == (if v < 0 then -v else v) && (c.f.sign == "-" <==> v < 0)
  {
    hide Digits, Parse, Signed;
    IntSigned(v);
    DigitsParse(if v < 0 then -v else v, 10, LOWER);
  }

  /** The number that a conversion prints, as the flags select it from the argument. */
  function Selected(f: Flags, letter: char, v: int): int {
    if letter == 'd' || letter == 'i' then Signed(f, v)
    else if letter == 'D' then Signed(f.(long := true), v)
    else if letter == 'O' || letter == 'U' then Unsigned(f.(long := true), v)
    else if letter == 'p' then v % 0x1_0000_0000
    else Unsigned(f, v)
  }

  function BaseOf(letter: char): int {
    if letter == 'o' || letter == 'O' then 8 else if letter == 'x' || letter == 'X' || letter == 'p' then 16 else 10
  }

  /** Both selections agree with the argument modulo the size asked for, 64 bits for j and ll or q, 16 for h
      and 32 otherwise, t and z before q, and l before h; the signed one lies around zero. */
  lemma SelectedAgrees(f: Flags, v: int)
    ensures var m :=
        if f.max || (f.quad && !f.ptr && !f.size) then 0x1_0000_0000_0000_0000
        else if f.short && !f.ptr && !f.size && !f.long then 0x1_0000
        else 0x1_0000_0000;
      0 <= Unsigned(f, v) < m && -m <= 2 * Signed(f, v) < m && (v - Unsigned(f, v)) % m == 0
      && (Unsigned(f, v) == Signed(f, v) || Unsigned(f, v) == Signed(f, v) + m)
  {
    if f.max || (f.quad && !f.ptr && !f.size) {
      Remainder64(v);
    } else if f.short && !f.ptr && !f.size && !f.long {
      Remainder16(v);
    } else {
      Remainder32(v);
    }
  }

  lemma Remainder64(v: int)
    ensures 0 <= v % TWO64 < TWO64 && (v - v % TWO64) % TWO64 == 0
  {
    assert v - v % TWO64 == v / TWO64 * TWO64;
  }

  lemma Remainder32(v: int)
    ensures 0 <= v % 0x1_0000_0000 < 0x1_0000_0000 && (v - v % 0x1_0000_0000) % 0x1_0000_0000 == 0
  {
    assert v - v % 0x1_0000_0000 == v / 0x1_0000_0000 * 0x1_0000_0000;
  }

  lemma Remainder16(v: int)
    ensures 0 <= v % 0x1_0000 < 0x1_0000 && (v - v % 0x1_0000) % 0x1_0000 == 0
  {
    assert v - v % 0x1_0000 == v / 0x1_0000 * 0x1_0000;
  }

  /** Zeros in front change no number. */
  lemma {:induction false} ZerosParse(n: int, s: string, b: int)
    ensures Parse(Times('0', n) + s, b) == Parse(s, b)
    decreases |s|, n
  {
    hide Parse, DigitValue;
    if s != "" {
      var t, c := s[..|s| - 1], s[|s| - 1];
      ZerosParse(n, t, b);
      assert s == t + [c] && Times('0', n) + s == Times('0', n) + t + [c];
      ParseMore(Times('0', n) + t, c, b);
      ParseMore(t, c, b);
    } else if n > 0 {
      ZerosParse(n - 1, "", b);
      assert Times('0', n) + "" == (Times('0', n - 1) + "") + ['0'];
      ParseMore(Times('0', n - 1) + "", '0', b);
      ParseMore("", '0', b);
      ZeroDigit();
    } else {
      assert Times('0', n) + "" == "";
    }
  }

  lemma ZeroDigit()
    ensures DigitValue('0') == 0
  {
  }

  lemma TextParse(u: int, b: int, digits: string, alt: bool, prec: int)
    requires 0 <= u && Base(b) && (digits == LOWER || digits == UPPER)
    ensures |digits| == 16 && Parse(NumberText(u, b, digits, alt, prec), b) == u
  {
    hide Digits, Parse;
    DigitsParse(u, b, digits);
    ZerosParse(1, Digits(u, b, digits), b);
    assert Times('0', 1) == "0";
    ParseMore("", '0', b);
  }

  /** Whatever the directive, a number conversion prints the number its flags select: the body and the
      zeros of the precision stand for its magnitude, and a minus says it is negative. */
  lemma NumberPrints(r: Reading, args: seq<Arg>)
    requires IsNumeric(r.letter) && r.d.sign != "-"
    ensures var c := Convert(r, args); var v := Selected(r.d.flags, r.letter, IntAt(args, r.arg));
      c.Print? && c.arg == r.arg + 1 && (c.f.sign == "-" <==> v < 0)
      && Parse(c.f.body, BaseOf(r.letter)) == (if v < 0 then -v else v)
      && Parse(Times('0', c.f.dprec - |c.f.body|) + c.f.body, BaseOf(r.letter)) == (if v < 0 then -v else v)
  {
    hide Parse, Times, NumberText, Signed, Unsigned;
    var f := Convert(r, args).f;
    ConvertsNumber(r, args);
    var v := Selected(r.d.flags, r.letter, IntAt(args, r.arg));
    TextParse(if v < 0 then -v else v, BaseOf(r.letter), if r.letter == 'X' then UPPER else LOWER, r.d.flags.alt, r.d.prec);
    ZerosParse(f.dprec - |f.body|, f.body, BaseOf(r.letter));
  }

  lemma ConvertsNumber(r: Reading, args: seq<Arg>)
    requires IsNumeric(r.letter) && r.d.sign != "-"
    ensures var c := Convert(r, args); var v := Selected(r.d.flags, r.letter, IntAt(args, r.arg));
      c.Print? && c.arg == r.arg + 1 && (c.f.sign == "-" <==> v < 0)
      && c.f.body == NumberText(if v < 0 then -v else v, BaseOf(r.letter), if r.letter == 'X' then UPPER else LOWER, r.d.flags.alt, r.d.prec)
  {
    hide NumberText, Signed, Unsigned;
    ModFits(IntAt(args, r.arg));
  }

  lemma ModFits(v: int)
    ensures 0 <= v % 0x1_0000_0000
  {
  }

  lemma IntSigned(v: int)
    requires -0x8000_0000 <= v < 0x8000_0000
    ensures Signed(NO_FLAGS, v) == v
  {
    if v < 0 {
      assert v == -1 * 0x1_0000_0000 + (v + 0x1_0000_0000);
    }
  }

  // ---- what a directive prints ------------------------------------------------------------------

  lemma DirectiveAt(fmt: string, i: int, d: Directive, letter: char, args: seq<Arg>, a: int)
    requires Stands(fmt, i, "%" + Spelled(d, letter)) && Writable(d) && IsLetter(letter)
    ensures 0 <= i < |fmt| && fmt[i] == '%' && Read(fmt, i + 1, args, a, START) == Reading(d, letter, i + 1 + |Spelled(d, letter)|, a)
  {
    hide Spelled, Read, IsLetter, Stands;
    StandsBoth(fmt, i, "%", Spelled(d, letter));
    OneThere(fmt, i, '%');
    DirectiveReads(fmt, i + 1, d, letter, args, a);
  }

  /** Where whole begins, u is printed in a field of that width, and rest follows: blanks or zeros fill the
      field in front of u, or blanks behind it. */
  predicate Laid(whole: string, u: string, width: int, left: bool, zero: bool, rest: string) {
    var pad := if width > |u| then width - |u| else 0;
    && |whole| == pad + |u| + |rest| && whole[pad + |u|..] == rest
    && if left then whole[..|u|] == u && forall k :: |u| <= k < |u| + pad ==> whole[k] == ' '
       else whole[pad..pad + |u|] == u && forall k :: 0 <= k < pad ==> whole[k] == if zero then '0' else ' '
  }

  lemma TextLaid(u: string, d: Directive, rest: string)
    ensures Laid(Render(TextField(u, d)) + rest, u, d.width, d.flags.left, d.flags.zero, rest)
    ensures |Render(TextField(u, d))| == if d.width > |u| then d.width else |u|
  {
    var f := TextField(u, d);
    var pad := d.width - |u|;
    FieldLength(f);
    if d.flags.left {
      assert Render(f) == u + Times(' ', pad);
    } else {
      assert Render(f) == Times(if d.flags.zero then '0' else ' ', pad) + u;
    }
  }

  /** A directive that prints the text u and goes on with argument b. */
  lemma TextAt(fmt: string, i: int, d: Directive, letter: char, args: seq<Arg>, a: int, u: string, b: int, count: int)
    requires Stands(fmt, i, "%" + Spelled(d, letter)) && Writable(d) && IsLetter(letter)
    requires forall n :: Convert(Reading(d, letter, n, a), args) == Print(TextField(u, d), b)
    ensures var n := i + 1 + |Spelled(d, letter)|;
      Laid(Output(fmt, i, args, a), u, d.width, d.flags.left, d.flags.zero, Output(fmt, n, args, b))
      && Stores(fmt, i, args, a, count) == Stores(fmt, n, args, b, count + |Output(fmt, i, args, a)| - |Output(fmt, n, args, b)|)
  {
    hide Spelled, Read, IsLetter, Stands, Convert, Render, TextField, Output, Stores, Laid;
    DirectiveAt(fmt, i, d, letter, args, a);
    OutputStep(fmt, i, args, a);
    StoresStep(fmt, i, args, a, count);
    var n := i + 1 + |Spelled(d, letter)|;
    assert Convert(Reading(d, letter, n, a), args) == Print(TextField(u, d), b);
    TextLaid(u, d, Output(fmt, n, args, b));
  }

  /** %s prints its argument, cut to the precision; for a null string, "(null)". */
  lemma StringPrints(fmt: string, i: int, d: Directive, args: seq<Arg>, a: int, count: int)
    requires Stands(fmt, i, "%" + Spelled(d, 's')) && Writable(d) && 0 <= a < |args| && (args[a].Text? || args[a].NullText?)
    ensures var n := i + 1 + |Spelled(d, 's')|;
      var t := if args[a].Text? then args[a].s else "(null)";
      Laid(Output(fmt, i, args, a), if 0 <= d.prec < |t| then t[..d.prec] else t, d.width, d.flags.left, d.flags.zero, Output(fmt, n, args, a + 1))
      && Stores(fmt, i, args, a, count) == Stores(fmt, n, args, a + 1, count + |Output(fmt, i, args, a)| - |Output(fmt, n, args, a + 1)|)
  {
    hide Spelled, Stands, Output, Stores, Laid;
    var t := if args[a].Text? then args[a].s else "(null)";
    TextAt(fmt, i, d, 's', args, a, if 0 <= d.prec < |t| then t[..d.prec] else t, a + 1, count);
  }

  /** %c prints one character. */
  lemma CharPrints(fmt: string, i: int, d: Directive, args: seq<Arg>, a: int, count: int)
    requires Stands(fmt, i, "%" + Spelled(d, 'c')) && Writable(d) && 0 <= a < |args| && args[a].Number?
    ensures var n := i + 1 + |Spelled(d, 'c')|;
      Laid(Output(fmt, i, args, a), [(args[a].v % 256) as char], d.width, d.flags.left, d.flags.zero, Output(fmt, n, args, a + 1))
      && Stores(fmt, i, args, a, count) == Stores(fmt, n, args, a + 1, count + |Output(fmt, i, args, a)| - |Output(fmt, n, args, a + 1)|)
  {
    hide Spelled, Stands, Output, Stores, Laid;
    TextAt(fmt, i, d, 'c', args, a, [(args[a].v % 256) as char], a + 1, count);
  }

  /** A letter that is no conversion prints itself and takes no argument; so does '%'. */
  lemma OtherPrints(fmt: string, i: int, d: Directive, letter: char, args: seq<Arg>, a: int, count: int)
    requires Stands(fmt, i, "%" + Spelled(d, letter)) && Writable(d) && IsLetter(letter) && letter != '\0' && letter != 'c' && letter != 's' && letter != 'n' && !IsNumeric(letter)
    ensures var n := i + 1 + |Spelled(d, letter)|;
      Laid(Output(fmt, i, args, a), [letter], d.width, d.flags.left, d.flags.zero, Output(fmt, n, args, a))
      && Stores(fmt, i, args, a, count) == Stores(fmt, n, args, a, count + |Output(fmt, i, args, a)| - |Output(fmt, n, args, a)|)
  {
    hide Spelled, Stands, Output, Stores, Laid, IsLetter;
    TextAt(fmt, i, d, letter, args, a, [letter], a, count);
  }

  /** %n prints nothing and stores the count so far through its argument. */
  lemma CountStored(fmt: string, i: int, d: Directive, args: seq<Arg>, a: int, count: int)
    requires Stands(fmt, i, "%" + Spelled(d, 'n')) && Writable(d)
    ensures var n := i + 1 + |Spelled(d, 'n')|;
      Output(fmt, i, args, a) == Output(fmt, n, args, a + 1)
      && Stores(fmt, i, args, a, count) == [Stored(a, d.flags, count)] + Stores(fmt, n, args, a + 1, count)
  {
    hide Spelled, Stands, Output, Stores, Read;
    DirectiveAt(fmt, i, d, 'n', args, a);
    OutputStep(fmt, i, args, a);
    StoresStep(fmt, i, args, a, count);
  }

  /** A '%' at the end ends the output. */
  lemma EndsThere(fmt: string, i: int, args: seq<Arg>, a: int, count: int)
    requires 0 <= i && i + 1 == |fmt| && fmt[i] == '%'
    ensures Output(fmt, i, args, a) == "" && Stores(fmt, i, args, a, count) == []
  {
    OutputStep(fmt, i, args, a);
    StoresStep(fmt, i, args, a, count);
  }

  /** Everything else prints itself. */
  lemma PlainPrints(fmt: string, i: int, args: seq<Arg>, a: int, count: int)
    requires 0 <= i < |fmt| && fmt[i] != '%'
    ensures Output(fmt, i, args, a) == [fmt[i]] + Output(fmt, i + 1, args, a)
    ensures Stores(fmt, i, args, a, count) == Stores(fmt, i + 1, args, a, count + 1)
  {
    hide Output, Stores;
    OutputStep(fmt, i, args, a);
    StoresStep(fmt, i, args, a, count);
  }

  /** A number in a field of that width: its sign or prefix, then its digits; blanks fill the field in front
      or behind, zeros between the two. */
  predicate NumberLaid(whole: string, head: string, digits: string, width: int, left: bool, zero: bool, rest: string) {
    var core := |head| + |digits|;
    var pad := if width > core then width - core else 0;
    && |whole| == pad + core + |rest| && whole[pad + core..] == rest
    && (if left then whole[..core] == head + digits && forall k :: core <= k < core + pad ==> whole[k] == ' '
        else if zero then whole[..|head|] == head && whole[|head| + pad..pad + core] == digits && forall k :: |head| <= k < |head| + pad ==> whole[k] == '0'
        else whole[pad..pad + core] == head + digits && forall k :: 0 <= k < pad ==> whole[k] == ' ')
  }

  lemma FieldLaid(f: Field, rest: string)
    ensures var digits := Times('0', f.dprec - |f.body|) + f.body;
      NumberLaid(Render(f) + rest, f.sign + f.prefix, digits, f.width, f.left, f.zero, rest)
      && |digits| == Max(f.dprec, |f.body|)
  {
    hide Times, NumberLaid;
    var digits, head := Times('0', f.dprec - |f.body|) + f.body, f.sign + f.prefix;
    var pad := f.width - RealSize(f);
    if f.left {
      assert Render(f) == head + digits + Times(' ', pad);
      LaidLeft(head, digits, Times(' ', pad), f.width, f.zero, rest) by { AllOf(' ', pad); }
    } else if f.zero {
      assert Render(f) == head + Times('0', pad) + digits;
      LaidZero(head, Times('0', pad), digits, f.width, rest) by { AllOf('0', pad); }
    } else {
      assert Render(f) == Times(' ', pad) + (head + digits);
      LaidRight(Times(' ', pad), head, digits, f.width, rest) by { AllOf(' ', pad); }
    }
  }

  lemma AllOf(c: char, n: int)
    ensures forall k :: 0 <= k < |Times(c, n)| ==> Times(c, n)[k] == c
  {
  }

  lemma ThreeParts(a: string, b: string, c: string)
    ensures var w := a + b + c; w[..|a|] == a && w[|a|..|a| + |b|] == b && w[|a| + |b|..] == c && w[..|a| + |b|] == a + b
  {
  }

  lemma LaidLeft(head: string, digits: string, fill: string, width: int, zero: bool, rest: string)
    requires |fill| == Max(width - |head| - |digits|, 0) && forall k :: 0 <= k < |fill| ==> fill[k] == ' '
    ensures NumberLaid(head + digits + fill + rest, head, digits, width, true, zero, rest)
  {
    var core := |head| + |digits|;
    var w := (head + digits) + fill + rest;
    ThreeParts(head + digits, fill, rest);
    forall k | core <= k < core + |fill| ensures w[k] == ' ' {
      assert w[core..core + |fill|][k - core] == fill[k - core];
    }
  }

  lemma LaidZero(head: string, fill: string, digits: string, width: int, rest: string)
    requires |fill| == Max(width - |head| - |digits|, 0) && forall k :: 0 <= k < |fill| ==> fill[k] == '0'
    ensures NumberLaid(head + fill + digits + rest, head, digits, width, false, true, rest)
  {
    var w := head + fill + digits + rest;
    ThreeParts(head, fill, digits + rest);
    ThreeParts(head + fill, digits, rest);
    assert w == head + fill + (digits + rest);
    forall k | |head| <= k < |head| + |fill| ensures w[k] == '0' {
      assert w[|head|..|head| + |fill|][k - |head|] == fill[k - |head|];
    }
  }

  lemma LaidRight(fill: string, head: string, digits: string, width: int, rest: string)
    requires |fill| == Max(width - |head| - |digits|, 0) && forall k :: 0 <= k < |fill| ==> fill[k] == ' '
    ensures NumberLaid(fill + (head + digits) + rest, head, digits, width, false, false, rest)
  {
    var w := fill + (head + digits) + rest;
    ThreeParts(fill, head + digits, rest);
    forall k | 0 <= k < |fill| ensures w[k] == ' ' {
      assert w[..|fill|][k] == fill[k];
    }
  }

  /** What the letters ask for: d, i and D print the sign, p and #x a prefix. */
  lemma ConvertsHead(r: Reading, args: seq<Arg>)
    requires IsNumeric(r.letter) && r.d.sign != "-" && !r.d.flags.hexPrefix
    ensures var c := Convert(r, args); var v := Selected(r.d.flags, r.letter, IntAt(args, r.arg));
      c.Print? && c.f.sign == (if v < 0 then "-" else if r.letter == 'd' || r.letter == 'i' || r.letter == 'D' then r.d.sign else "")
      && c.f.prefix == (if r.letter == 'p' || ((r.letter == 'x' || r.letter == 'X') && r.d.flags.alt && v != 0) then (if r.letter == 'X' then "0X" else "0x") else "")
      && c.f.dprec == r.d.prec && c.f.width == r.d.width && c.f.left == r.d.flags.left && c.f.zero == (r.d.flags.zero && r.d.prec < 0)
  {
    hide Convert, Selected;
    if r.letter == 'd' || r.letter == 'i' || r.letter == 'D' {
      SignedHead(r, args);
    } else if r.letter == 'x' || r.letter == 'X' || r.letter == 'p' {
      HexHead(r, args);
    } else {
      PlainHead(r, args);
    }
  }

  predicate HeadIs(r: Reading, args: seq<Arg>, v: int, sign: string, prefix: string) {
    var c := Convert(r, args);
    && v == Selected(r.d.flags, r.letter, IntAt(args, r.arg))
    && c.Print? && c.f.sign == sign && c.f.prefix == prefix
    && c.f.dprec == r.d.prec && c.f.width == r.d.width && c.f.left == r.d.flags.left && c.f.zero == (r.d.flags.zero && r.d.prec < 0)
  }

  lemma SignedHead(r: Reading, args: seq<Arg>)
    requires (r.letter == 'd' || r.letter == 'i' || r.letter == 'D') && !r.d.flags.hexPrefix
    ensures var v := Selected(r.d.flags, r.letter, IntAt(args, r.arg)); HeadIs(r, args, v, if v < 0 then "-" else r.d.sign, "")
  {
    hide NumberText, Signed, Unsigned;
  }

  lemma HexHead(r: Reading, args: seq<Arg>)
    requires (r.letter == 'x' || r.letter == 'X' || r.letter == 'p') && !r.d.flags.hexPrefix
    ensures var v := Selected(r.d.flags, r.letter, IntAt(args, r.arg));
      HeadIs(r, args, v, "", if r.letter == 'p' || (r.d.flags.alt && v != 0) then (if r.letter == 'X' then "0X" else "0x") else "") && v >= 0
  {
    hide NumberText, Signed, Unsigned;
    ModFits(IntAt(args, r.arg));
  }

  lemma PlainHead(r: Reading, args: seq<Arg>)
    requires (r.letter == 'o' || r.letter == 'O' || r.letter == 'u' || r.letter == 'U') && !r.d.flags.hexPrefix
    ensures var v := Selected(r.d.flags, r.letter, IntAt(args, r.arg)); HeadIs(r, args, v, "", "") && v >= 0
  {
    hide NumberText, Signed, Unsigned;
  }

  /** How many digits a number needs: none for zero with precision zero, and one more for the octal zero of '#'. */
  predicate Needs(u: int, b: int, alt: bool, prec: int, n: int)
    requires 0 <= u && Base(b)
  {
    if u == 0 then n == if prec == 0 then 0 else 1
    else
      var k := if b == 8 && alt then n - 1 else n;
      1 <= k && Pow(b, k - 1) <= u < Pow(b, k)
  }

  lemma TextNeeds(u: int, b: int, digits: string, alt: bool, prec: int)
    requires 0 <= u && Base(b) && (digits == LOWER || digits == UPPER)
    ensures |digits| == 16 && Needs(u, b, alt, prec, |NumberText(u, b, digits, alt, prec)|)
    ensures forall k :: 0 <= k < |NumberText(u, b, digits, alt, prec)| ==> NumberText(u, b, digits, alt, prec)[k] in digits
  {
    DigitsIn(u, b, digits);
    assert digits[0] == '0' && '0' in digits;
    TextFromDigits(u, b, digits, alt, prec);
  }

  lemma TextFromDigits(u: int, b: int, digits: string, alt: bool, prec: int)
    requires 0 <= u && Base(b) && |digits| == 16 && '0' in digits
    requires (forall k :: 0 <= k < |Digits(u, b, digits)| ==> Digits(u, b, digits)[k] in digits)
    requires (Digits(u, b, digits)[0] == '0' <==> u == 0) && (u == 0 ==> |Digits(u, b, digits)| == 1)
    ensures Needs(u, b, alt, prec, |NumberText(u, b, digits, alt, prec)|)
    ensures forall k :: 0 <= k < |NumberText(u, b, digits, alt, prec)| ==> NumberText(u, b, digits, alt, prec)[k] in digits
  {
    hide Digits, Pow;
    if u > 0 { DigitsNeeded(u, b, digits); }
  }

  lemma DigitsNeeded(u: int, b: int, digits: string)
    requires 0 < u && Base(b) && |digits| == 16
    ensures Pow(b, |Digits(u, b, digits)| - 1) <= u < Pow(b, |Digits(u, b, digits)|)
  {
    hide Digits, Pow;
    var n := |Digits(u, b, digits)|;
    DigitsLength(u, b, digits, n);
    if n > 1 { DigitsLength(u, b, digits, n - 1); }
    PowZero(b);
  }

  lemma PowZero(b: int)
    ensures Pow(b, 0) == 1
  {
  }

  lemma DigitIn(n: int, digits: string)
    requires 0 <= n < 16 && (digits == LOWER || digits == UPPER)
    ensures |digits| == 16 && Digit(n, digits) in digits && (Digit(n, digits) == '0' <==> n == 0)
  {
    assert digits[n] in digits;
  }

  /** The digits are digits of that case, and only zero begins with one. */
  lemma {:induction false} DigitsIn(u: int, b: int, digits: string)
    requires 0 <= u && Base(b) && (digits == LOWER || digits == UPPER)
    ensures |digits| == 16 && forall k :: 0 <= k < |Digits(u, b, digits)| ==> Digits(u, b, digits)[k] in digits
    ensures Digits(u, b, digits)[0] == '0' <==> u == 0
    ensures u == 0 ==> |Digits(u, b, digits)| == 1
    decreases u
  {
    hide Digits, Digit;
    DivMod(u, b);
    DigitsStep(u, b, digits);
    DigitIn(u % b, digits);
    if u >= b { DigitsIn(u / b, b, digits); }
  }

  /** A number conversion, whatever its directive: sign or prefix, and digits that stand for the number
      selected, as many as it needs or the precision asks for, in a field of the width. */
  lemma NumberPrinted(fmt: string, i: int, d: Directive, letter: char, args: seq<Arg>, a: int, count: int) returns (digits: string, need: int)
    requires Stands(fmt, i, "%" + Spelled(d, letter)) && Writable(d) && IsNumeric(letter) && 0 <= a < |args| && args[a].Number?
    ensures var n := i + 1 + |Spelled(d, letter)|;
      var v, b := Selected(d.flags, letter, args[a].v), BaseOf(letter);
      var sign := if v < 0 then "-" else if letter == 'd' || letter == 'i' || letter == 'D' then d.sign else "";
      var prefix := if letter == 'p' || ((letter == 'x' || letter == 'X') && d.flags.alt && v != 0) then (if letter == 'X' then "0X" else "0x") else "";
      NumberLaid(Output(fmt, i, args, a), sign + prefix, digits, d.width, d.flags.left, d.flags.zero && d.prec < 0, Output(fmt, n, args, a + 1))
      && Stores(fmt, i, args, a, count) == Stores(fmt, n, args, a + 1, count + |Output(fmt, i, args, a)| - |Output(fmt, n, args, a + 1)|)
      && Parse(digits, b) == (if v < 0 then -v else v)
      && Needs(if v < 0 then -v else v, b, d.flags.alt, d.prec, need) && |digits| == (if d.prec > need then d.prec else need)
    ensures forall k :: 0 <= k < |digits| ==> digits[k] in (if letter == 'X' then "0123456789ABCDEF" else "0123456789abcdef")
  {
    hide Spelled, Stands, Output, Stores, Read, Convert, Render, NumberLaid, NumberText, Parse, Selected, Needs, Times, Writable;
    DirectiveAt(fmt, i, d, letter, args, a) by { NumberLetter(letter, d); }
    OutputStep(fmt, i, args, a);
    StoresStep(fmt, i, args, a, count);
    NumberLetter(letter, d);
    var r := Reading(d, letter, i + 1 + |Spelled(d, letter)|, a);
    ConvertsNumber(r, args);
    ConvertsHead(r, args);
    NumberPrints(r, args);
    var f := Convert(r, args).f;
    var v := Selected(d.flags, letter, args[a].v);
    FieldLaid(f, Output(fmt, r.next, args, a + 1));
    TextNeeds(if v < 0 then -v else v, BaseOf(letter), if letter == 'X' then UPPER else LOWER, d.flags.alt, d.prec);
    digits, need := Times('0', f.dprec - |f.body|) + f.body, |f.body|;
    ZerosAre(f.dprec - |f.body|);
  }

  lemma ZerosAre(n: int)
    ensures forall k :: 0 <= k < |Times('0', n)| ==> Times('0', n)[k] == '0'
  {
  }

  lemma NumberLetter(letter: char, d: Directive)
    requires IsNumeric(letter) && Writable(d)
    ensures IsLetter(letter) && d.sign != "-" && !d.flags.hexPrefix
  {
  }

  /** Zeros that fill the field change nothing: what stands behind sign and prefix is still the number. */
  lemma ZeroPadded(whole: string, head: string, digits: string, width: int, rest: string, b: int)
    requires NumberLaid(whole, head, digits, width, false, true, rest)
    ensures Parse(whole[|head|..|whole| - |rest|], b) == Parse(digits, b)
  {
    hide Parse;
    var core := |head| + |digits|;
    var pad := if width > core then width - core else 0;
    var z := whole[|head|..|head| + pad];
    assert forall k :: 0 <= k < pad ==> z[k] == whole[|head| + k] == '0' && Times('0', pad)[k] == '0';
    assert z == Times('0', pad);
    assert whole[|head|..|whole| - |rest|] == z + digits;
    ZerosParse(pad, digits, b);
  }

  // ---- output -----------------------------------------------------------------------------------

  /** The buffer holds as much of the output as fits, up to pos. */
  predicate Holding(buf: seq<char>, pos: int, e: string) {
    pos == Min(|buf|, |e|) && buf[..pos] == e[..pos]
  }

  /** KPRINTF_PUTCHAR */
  method PutChar(buf: array<char>, pos: int, c: char, ghost e: string) returns (next: int)
    requires Holding(buf[..], pos, e)
    modifies buf
    ensures Holding(buf[..], next, e + [c])
  {
    next := pos;
    if pos < buf.Length {
      buf[pos] := c;
      next := pos + 1;
    }
  }

  /** n times the same character. */
  method PutTimes(buf: array<char>, pos: int, c: char, n: int, ghost e: string) returns (next: int)
    requires Holding(buf[..], pos, e)
    modifies buf
    ensures Holding(buf[..], next, e + Times(c, n))
  {
    hide Holding;
    next := pos;
    var k := n;
    ghost var done := 0;
    assert e + Times(c, 0) == e;
    while k > 0
      invariant done == (if n > 0 then n else 0) - (if k > 0 then k else 0) && done >= 0 && (n <= 0 ==> k == n)
      invariant Holding(buf[..], next, e + Times(c, done))
    {
      next := PutChar(buf, next, c, e + Times(c, done));
      assert e + Times(c, done) + [c] == e + Times(c, done + 1);
      done := done + 1;
      k := k - 1;
    }
    assert Times(c, done) == Times(c, n);
  }

  method PutString(buf: array<char>, pos: int, s: string, ghost e: string) returns (next: int)
    requires Holding(buf[..], pos, e)
    modifies buf
    ensures Holding(buf[..], next, e + s)
  {
    hide Holding;
    next := pos;
    var k := 0;
    assert e + s[..0] == e;
    while k < |s|
      invariant 0 <= k <= |s| && Holding(buf[..], next, e + s[..k])
    {
      next := PutChar(buf, next, s[k], e + s[..k]);
      assert e + s[..k] + [s[k]] == e + s[..k + 1];
      k := k + 1;
    }
    assert s[..k] == s;
  }

  /** The end of the conversion loop: a field printed, and what it adds to the count. */
  method PutField(buf: array<char>, pos: int, f: Field, ghost e: string) returns (next: int, count: int)
    requires Holding(buf[..], pos, e)
    modifies buf
    ensures Holding(buf[..], next, e + Render(f)) && count == |Render(f)|
  {
    hide Holding, Times;
    var size := |f.body|;
    var realsz := if f.dprec > size then f.dprec else size;
    realsz := realsz + |f.sign| + |f.prefix|;
    count := if f.width > realsz then f.width else realsz;
    FieldLength(f);
    next := pos;
    var pad := f.width - realsz;
    ghost var a := if !f.left && !f.zero then Times(' ', pad) else "";
    if !f.left && !f.zero {
      next := PutTimes(buf, next, ' ', pad, e);
    } else {
      assert e + "" == e;
    }
    next := PutString(buf, next, f.sign, e + a);
    next := PutString(buf, next, f.prefix, e + a + f.sign);
    ghost var b := if !f.left && f.zero then Times('0', pad) else "";
    ghost var g := e + a + f.sign + f.prefix;
    if !f.left && f.zero {
      next := PutTimes(buf, next, '0', pad, g);
    } else {
      assert g + "" == g;
    }
    next := PutTimes(buf, next, '0', f.dprec - size, g + b);
    next := PutString(buf, next, f.body, g + b + Times('0', f.dprec - size));
    ghost var c := if f.left then Times(' ', pad) else "";
    ghost var k := g + b + Times('0', f.dprec - size) + f.body;
    if f.left {
      next := PutTimes(buf, next, ' ', pad, k);
    } else {
      assert k + "" == k;
    }
    Pieces(e, a, f.sign, f.prefix, b, Times('0', f.dprec - size), f.body, c);
  }

  lemma Pieces(e: string, a: string, s: string, p: string, b: string, z: string, t: string, c: string)
    ensures e + a + s + p + b + z + t + c == e + (a + s + p + b + z + t + c)
  {
  }

  // ---- kprintf ----------------------------------------------------------------------------------

  /** The decimal number at i, digit by digit. */
  method ScanDecimal(fmt: string, i: int) returns (n: int, j: int)
    requires 0 <= i
    ensures (n, j) == Decimal(fmt, i, 0) && j >= i
  {
    n, j := 0, i;
    while IsDigit(At(fmt, j))
      invariant 0 <= i <= j && Decimal(fmt, i, 0) == Decimal(fmt, j, n)
      decreases |fmt| - j
    {
      n := 10 * n + (At(fmt, j) as int - '0' as int);
      j := j + 1;
    }
  }

  /** The switch over flags, width, precision and sizes, up to the conversion letter. */
  method ReadDirective(fmt: string, start: int, args: seq<Arg>, firstArg: int) returns (r: Reading)
    requires 0 <= start
    ensures r == Read(fmt, start, args, firstArg, START)
  {
    hide Decimal;
    var i, a, d := start, firstArg, START;
    while i < |fmt|
      invariant 0 <= i && Read(fmt, start, args, firstArg, START) == Read(fmt, i, args, a, d)
      decreases |fmt| - i
    {
      var ch := fmt[i];
      var more;
      more, i, a, d := FlagStep(fmt, ch, i, args, a, d);
      if !more {
        return Reading(d, ch, i, a);
      }
    }
    return Reading(d, '\0', i + 1, a);
  }

  /** One turn of the switch; more is false at a conversion letter. */
  method FlagStep(fmt: string, ch: char, i: int, args: seq<Arg>, a: int, d: Directive) returns (more: bool, next: int, arg: int, e: Directive)
    requires 0 <= i < |fmt| && ch == fmt[i]
    ensures next > i
    ensures more ==> Read(fmt, i, args, a, d) == Read(fmt, next, args, arg, e)
    ensures !more ==> Read(fmt, i, args, a, d) == Reading(e, ch, next, arg)
  {
    hide Decimal;
    more, next, arg, e := true, i + 1, a, d;
    match ch {
      case ' ' =>
        if e.sign == "" { e := e.(sign := " "); }
      case '#' =>
        e := e.(flags := e.flags.(alt := true));
      case '*' =>
        e := e.(width := IntAt(args, arg));
        arg := arg + 1;
        if e.width < 0 {
          e := e.(width := -e.width);
          e := e.(flags := e.flags.(left := true));
        }
      case '-' =>
        e := e.(flags := e.flags.(left := true));
      case '+' =>
        e := e.(sign := "+");
      case '.' =>
        if At(fmt, next) == '*' {
          var n := IntAt(args, arg);
          e, next, arg := e.(prec := if n < 0 then -1 else n), next + 1, arg + 1;
        } else {
          var n;
          n, next := ScanDecimal(fmt, next);
          e := e.(prec := n);
        }
      case '0' =>
        e := e.(flags := e.flags.(zero := true));
      case 'h' =>
        e := e.(flags := e.flags.(short := true));
      case 'j' =>
        e := e.(flags := e.flags.(max := true));
      case 'l' =>
        if At(fmt, next) == 'l' {
          next := next + 1;
          e := e.(flags := e.flags.(quad := true));
        } else {
          e := e.(flags := e.flags.(long := true));
        }
      case 'q' =>
        e := e.(flags := e.flags.(quad := true));
      case 't' =>
        e := e.(flags := e.flags.(ptr := true));
      case 'z' =>
        e := e.(flags := e.flags.(size := true));
      case _ =>
        if IsDigit(ch) {
          var n;
          n, next := ScanDecimal(fmt, i);
          DecimalMoves(fmt, i);
          e := e.(width := n);
        } else {
          more := false;
        }
    }
  }

  lemma DecimalMoves(fmt: string, i: int)
    requires 0 <= i && IsDigit(At(fmt, i))
    ensures Decimal(fmt, i, 0).1 > i
  {
  }

  /** A number converted in the local buffer. */
  method ConvertNumber(u: int, b: int, digits: string, alt: bool, prec: int) returns (s: string)
    requires 0 <= u < TWO64 && Base(b) && |digits| == 16
    ensures s == NumberText(u, b, digits, alt, prec)
  {
    hide Digits;
    var bf := new char[BUFSIZE];
    var cp := BUFSIZE;
    if u != 0 || prec != 0 {
      cp := PutDigits(bf, u, b, digits);
      ghost var t := bf[cp..];
      if b == 8 && alt && bf[cp] != '0' {
        cp := cp - 1;
        bf[cp] := '0';
        assert bf[cp..] == "0" + t;
      }
    }
    return bf[cp..];
  }

  method MakeNumber(u: int, b: int, digits: string, d: Directive, sign: string, letter: char) returns (f: Field)
    requires 0 <= u < TWO64 && Base(b) && |digits| == 16
    ensures f == NumberField(u, b, digits, d, sign, letter)
  {
    hide NumberText;
    var body := ConvertNumber(u, b, digits, d.flags.alt, d.prec);
    var zero := d.flags.zero;
    if d.prec >= 0 { zero := false; }
    return Field(sign, if sign == "" && d.flags.hexPrefix then ['0', letter] else "", d.prec, body, d.width, d.flags.left, zero);
  }

  /** The conversion that the letter asks for. */
  method ConvertOne(r: Reading, args: seq<Arg>) returns (c: Conversion)
    ensures c == Convert(r, args)
  {
    hide NumberField, Unsigned;
    var d, a, ch := r.d, r.arg, r.letter;
    var v := IntAt(args, a);
    var f;
    match ch {
      case 'd' | 'i' | 'D' =>
        if ch == 'D' { d := d.(flags := d.flags.(long := true)); }
        v := Signed(d.flags, v);
        SignedFits(d.flags, IntAt(args, a));
        var sign := d.sign;
        if v < 0 {
          v, sign := -v, "-";
        }
        f := MakeNumber(v, 10, LOWER, d, sign, ch);
      case 'o' | 'O' =>
        if ch == 'O' { d := d.(flags := d.flags.(long := true)); }
        f := MakeNumber(Unsigned(d.flags, v), 8, LOWER, d, "", ch);
      case 'p' =>
        f := MakeNumber(v % 0x1_0000_0000, 16, LOWER, d.(flags := d.flags.(hexPrefix := true)), "", 'x');
      case 'u' | 'U' =>
        if ch == 'U' { d := d.(flags := d.flags.(long := true)); }
        f := MakeNumber(Unsigned(d.flags, v), 10, LOWER, d, "", ch);
      case 'x' | 'X' =>
        var u := Unsigned(d.flags, v);
        if d.flags.alt && u != 0 { d := d.(flags := d.flags.(hexPrefix := true)); }
        f := MakeNumber(u, 16, if ch == 'x' then LOWER else UPPER, d, "", ch);
      case 'c' =>
        f := TextField([CharOf(v)], d);
      case 's' =>
        var t := TextOf(args, a);
        f := TextField(if 0 <= d.prec < |t| then t[..d.prec] else t, d);
      case 'n' =>
        return Silent(a + 1);
      case _ =>
        if ch == '\0' {
          return Stop;
        }
        return Print(TextField([ch], d), a);
    }
    return Print(f, a + 1);
  }

  lemma SignedFits(f: Flags, v: int)
    ensures -TWO64 < Signed(f, v) < TWO64
  {
  }

  /** kprintf into a buffer: how far the buffer is filled, the length of the whole output, and what was stored. */
  method Kprintf(fmt: string, args: seq<Arg>, buf: array<char>) returns (ret: int, pos: int, stored: seq<Stored>)
    requires '\0' !in fmt
    modifies buf
    ensures Holding(buf[..], pos, Output(fmt, 0, args, 0)) && ret == |Output(fmt, 0, args, 0)|
    ensures stored == Stores(fmt, 0, args, 0, 0)
  {
    hide Holding, Output, Read, Convert, Render, Stores;
    var i, a := 0, 0;
    ghost var e := "";
    ret, pos, stored := 0, 0, [];
    assert Holding(buf[..], 0, "") by { NothingHeld(buf[..]); }
    while i < |fmt|
      invariant 0 <= i && ret == |e| && Holding(buf[..], pos, e) && Output(fmt, 0, args, 0) == e + Output(fmt, i, args, a)
      invariant Stores(fmt, 0, args, 0, 0) == stored + Stores(fmt, i, args, a, ret)
      decreases |fmt| - i
    {
      OutputStep(fmt, i, args, a);
      StoresStep(fmt, i, args, a, ret);
      if fmt[i] != '%' {
        ret := ret + 1;
        pos := PutChar(buf, pos, fmt[i], e);
        Joined(e, [fmt[i]], Output(fmt, i + 1, args, a));
        e := e + [fmt[i]];
        i := i + 1;
      } else {
        var r := ReadDirective(fmt, i + 1, args, a);
        var c := ConvertOne(r, args);
        match c {
          case Stop =>
            assert e + "" == e && stored + [] == stored;
            return;
          case Silent(next) =>
            StoredThen(stored, Stored(next - 1, r.d.flags, ret), Stores(fmt, r.next, args, next, ret));
            stored := stored + [Stored(next - 1, r.d.flags, ret)];
            i, a := r.next, next;
          case Print(f, next) =>
            var count;
            pos, count := PutField(buf, pos, f, e);
            ret := ret + count;
            Joined(e, Render(f), Output(fmt, r.next, args, next));
            e := e + Render(f);
            i, a := r.next, next;
        }
      }
    }
    OutputEnd(fmt, i, args, a, ret);
    assert e + "" == e && stored + [] == stored;
  }

  lemma StoredThen(x: seq<Stored>, y: Stored, z: seq<Stored>)
    ensures x + ([y] + z) == (x + [y]) + z
  {
  }

  lemma StoresStep(fmt: string, i: int, args: seq<Arg>, a: int, n: int)
    requires 0 <= i < |fmt|
    ensures fmt[i] != '%' ==> Stores(fmt, i, args, a, n) == Stores(fmt, i + 1, args, a, n + 1)
    ensures fmt[i] == '%' ==>
      var r := Read(fmt, i + 1, args, a, START);
      match Convert(r, args)
      case Print(f, next) => Stores(fmt, i, args, a, n) == Stores(fmt, r.next, args, next, n + |Render(f)|)
      case Silent(next) => Stores(fmt, i, args, a, n) == [Stored(next - 1, r.d.flags, n)] + Stores(fmt, r.next, args, next, n)
      case Stop => Stores(fmt, i, args, a, n) == []
  {
    hide Read, Convert, Render;
  }

  lemma Joined(e: string, x: string, y: string)
    ensures e + (x + y) == (e + x) + y
  {
  }

  lemma NothingHeld(s: string)
    ensures Holding(s, 0, "")
  {
  }

  lemma OutputStep(fmt: string, i: int, args: seq<Arg>, a: int)
    requires 0 <= i < |fmt|
    ensures fmt[i] != '%' ==> Output(fmt, i, args, a) == [fmt[i]] + Output(fmt, i + 1, args, a)
    ensures fmt[i] == '%' ==> match Convert(Read(fmt, i + 1, args, a, START), args)
      case Print(f, next) => Output(fmt, i, args, a) == Render(f) + Output(fmt, Read(fmt, i + 1, args, a, START).next, args, next)
      case Silent(next) => Output(fmt, i, args, a) == Output(fmt, Read(fmt, i + 1, args, a, START).next, args, next)
      case Stop => Output(fmt, i, args, a) == ""
  {
    hide Read, Convert, Render;
  }

  lemma OutputEnd(fmt: string, i: int, args: seq<Arg>, a: int, n: int)
    requires |fmt| <= i && 0 <= i
    ensures Output(fmt, i, args, a) == "" && Stores(fmt, i, args, a, n) == []
  {
  }

  /** vsnprintf: the whole output's length, and as much of the output as fits with a NUL behind it. */
  method Vsnprintf(buf: array<char>, fmt: string, args: seq<Arg>) returns (ret: int, stored: seq<Stored>)
    requires '\0' !in fmt
    modifies buf
    ensures ret == |Output(fmt, 0, args, 0)| && stored == Stores(fmt, 0, args, 0, 0)
    ensures buf.Length > 0 ==>
      var n := Min(buf.Length - 1, ret);
      buf[..n] == Output(fmt, 0, args, 0)[..n] && buf[n] == '\0'
  {
    hide Output, Stores;
    var pos;
    ret, pos, stored := Kprintf(fmt, args, buf);
    ghost var e := Output(fmt, 0, args, 0);
    if buf.Length > 0 {
      var n := if buf.Length <= ret then buf.Length - 1 else ret;
      assert buf[..n] == buf[..pos][..n] == e[..pos][..n] == e[..n];
      buf[n] := '\0';
    }
  }
}
