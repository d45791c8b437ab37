/** Division without a divide instruction: normalise the divisor, then subtract and shift back, at 32 or 64
    bits, and the signed forms on top of it. */
module Division {

  predicate Width(w: int) {
    w == 32 || w == 64
  }

  /** Two to the power of the width. */
  function Range(w: int): (r: int)
    requires Width(w)
    ensures r >= 0x1_0000_0000
  {
    if w == 32 then 0x1_0000_0000 else 0x1_0000_0000_0000_0000
  }

  function Wrap(x: int, w: int): (r: int)
    requires Width(w)
    ensures 0 <= r < Range(w)
    ensures 0 <= x < Range(w) ==> r == x
  {
    x % Range(w)
  }

  /** Is the top bit clear? */
  predicate TopClear(p: int, w: int)
    requires Width(w) && 0 <= p
  {
    p / (Range(w) / 2) == 0
  }

  lemma TopClearIs(p: int, w: int)
    requires Width(w) && 0 <= p
    ensures TopClear(p, w) <==> 2 * p < Range(w)
  {
  }

  predicate PowerOfTwo(i: int)
    decreases i
  {
    i == 1 || (i > 1 && i % 2 == 0 && PowerOfTwo(i / 2))
  }

  /** division_qr and division_lqr. Division by zero leaves all ones for a remainder, and no quotient. */
  method DivisionQr(numerator: int, divisor: int, w: int) returns (q: int, r: int)
    requires Width(w) && 0 <= numerator < Range(w) && 0 <= divisor < Range(w)
    ensures divisor == 0 ==> q == 0 && r == Range(w) - 1
    ensures divisor != 0 ==> numerator == q * divisor + r && 0 <= r < divisor && 0 <= q <= numerator
  {
    hide Range, Wrap, TopClear, PowerOfTwo;
    var n, p, i := numerator, divisor, 1;
    q := 0;
    if p == 0 {
      return 0, Range(w) - 1;
    }
    One(divisor);
    TopClearIs(p, w);
    while TopClear(p, w)
      invariant 0 < p < Range(w) && Scaled(p, divisor, i) && (TopClear(p, w) <==> 2 * p < Range(w))
      decreases Range(w) - p
    {
      Doubled(p, divisor, i);
      i := Wrap(i * 2, w);
      p := Wrap(p * 2, w);
      TopClearIs(p, w);
    }
    while i > 0
      invariant 0 <= q && 0 <= n && 0 <= i && 0 <= p
      invariant i > 0 ==> Scaled(p, divisor, i) && n < 2 * p && numerator == 2 * (q * p) + n
      invariant i == 0 ==> numerator == q * divisor + n && n < divisor
    {
      Turn(numerator, q, p, n);
      Halved(p, divisor, i);
      q := Wrap(q * 2, w);
      ghost var double := q;
      if n >= p {
        n := n - p;
        q := q + 1;
      }
      assert numerator == q * p + n;
      Regroup(q, p);
      p := p / 2;
      i := i / 2;
    }
    Larger(q, divisor);
    return q, n;
  }

  /** p is the divisor shifted up by as many places as i is. */
  predicate Scaled(p: int, d: int, i: int) {
    PowerOfTwo(i) && d > 0 && p == d * i
  }

  lemma One(d: int)
    requires d > 0
    ensures Scaled(d, d, 1)
  {
  }

  lemma Doubled(p: int, d: int, i: int)
    requires Scaled(p, d, i)
    ensures Scaled(2 * p, d, 2 * i) && 0 < i <= p
  {
    PowerPositive(i);
    Larger(i, d);
    assert PowerOfTwo(2 * i);
    assert d * (2 * i) == 2 * (d * i);
  }

  lemma PowerPositive(i: int)
    requires PowerOfTwo(i)
    ensures i > 0
  {
  }

  lemma Halved(p: int, d: int, i: int)
    requires Scaled(p, d, i)
    ensures i > 1 ==> Scaled(p / 2, d, i / 2) && p == 2 * (p / 2) && i / 2 > 0
    ensures i <= 1 ==> i == 1 && p == d && i / 2 == 0
    ensures p > 0
  {
    PowerPositive(i);
    Larger(d, i);
    if i > 1 {
      var j := i / 2;
      assert i == 2 * j;
      assert d * i == 2 * (d * j) by { assert d * (2 * j) == 2 * (d * j); }
      PowerPositive(j);
    }
  }

  lemma Regroup(q: int, p: int)
    ensures p == 2 * (p / 2) ==> q * p == 2 * (q * (p / 2))
  {
    var h := p / 2;
    assert q * (2 * h) == 2 * (q * h);
  }

  /** One subtract-and-shift turn: the quotient gets its next bit and the remainder its next bound. */
  lemma Turn(numerator: int, q: int, p: int, n: int)
    requires 0 <= q && 0 < p && 0 <= n < 2 * p && numerator == 2 * (q * p) + n
    ensures numerator == (q * 2) * p + n && numerator == (q * 2 + 1) * p + (n - p)
    ensures 2 * q <= numerator
  {
    assert (q * 2) * p == 2 * (q * p);
    assert (q * 2 + 1) * p == 2 * (q * p) + p;
    Larger(q, p);
  }

  lemma Larger(x: int, y: int)
    requires 0 <= x && 1 <= y
    ensures x <= x * y && x <= y * x
  {
  }

  /** Quotient and remainder of naturals. */
  predicate Divides(n: int, d: int, q: int, r: int) {
    n == q * d + r && 0 <= r < d && 0 <= q
  }

  /** There is only one such pair. */
  lemma DividesOnce(n: int, d: int, q: int, r: int, q': int, r': int)
    requires Divides(n, d, q, r) && Divides(n, d, q', r')
    ensures q == q' && r == r'
  {
    if q < q' {
      Apart(q, q', d);
      assert false;
    } else if q' < q {
      Apart(q', q, d);
      assert false;
    }
  }

  lemma Apart(q: int, q': int, d: int)
    requires q < q' && d > 0
    ensures q * d + d <= q' * d
  {
    assert (q' - q) * d >= d by { Larger(d, q' - q); }
    assert q' * d == q * d + (q' - q) * d;
  }

  /** uint_div_qr and ul_div_qr: the results negated, in the machine's width, as asked. The ghost results are
      the quotient and remainder before that. */
  method UnsignedDivQr(numerator: int, divisor: int, negateQ: bool, negateR: bool, w: int) returns (q: int, r: int, ghost u: int, ghost v: int)
    requires Width(w) && 0 <= numerator < Range(w) && 0 <= divisor < Range(w)
    ensures divisor != 0 ==> Divides(numerator, divisor, u, v) && u <= numerator
    ensures divisor == 0 ==> u == 0 && v == Range(w) - 1
    ensures q == (if negateQ then Wrap(-u, w) else u) && r == (if negateR then Wrap(-v, w) else v)
  {
    hide Range, Wrap;
    q, r := DivisionQr(numerator, divisor, w);
    u, v := q, r;
    if negateQ { q := Wrap(-q, w); }
    if negateR { r := Wrap(-r, w); }
  }

  /** __aeabi_uidivmod, __aeabi_uidiv and __ul_divmod. */
  method UnsignedDivMod(numerator: int, divisor: int, w: int) returns (q: int, r: int)
    requires Width(w) && 0 <= numerator < Range(w) && 0 <= divisor < Range(w)
    ensures divisor != 0 ==> Divides(numerator, divisor, q, r)
    ensures divisor == 0 ==> q == 0 && r == Range(w) - 1
  {
    ghost var u, v;
    q, r, u, v := UnsignedDivQr(numerator, divisor, false, false, w);
  }

  // ---- signed -----------------------------------------------------------------------------------

  predicate IsSigned(x: int, w: int)
    requires Width(w)
  {
    -Range(w) <= 2 * x < Range(w)
  }

  /** The bits of an unsigned word read as a signed one. */
  function AsSigned(x: int, w: int): (r: int)
    requires Width(w) && 0 <= x < Range(w)
    ensures IsSigned(r, w)
  {
    if 2 * x < Range(w) then x else x - Range(w)
  }

  function Abs(x: int): int {
    if x < 0 then -x else x
  }

  /** Division as section 6.5.5 of ISO C99 has it: the quotient truncated toward zero, the remainder with the numerator's sign. */
  predicate Truncates(n: int, d: int, q: int, r: int) {
    n == q * d + r && Abs(r) < Abs(d) && (r == 0 || (r < 0 <==> n < 0))
  }

  /** __aeabi_idivmod, __aeabi_idiv and __l_divmod. */
  method SignedDivMod(numerator: int, divisor: int, w: int) returns (q: int, r: int)
    requires Width(w) && IsSigned(numerator, w) && IsSigned(divisor, w)
    ensures IsSigned(q, w) && IsSigned(r, w)
    ensures divisor != 0 ==> (Truncates(numerator, divisor, q, r) <==> !(2 * numerator == -Range(w) && divisor == -1))
    ensures 2 * numerator == -Range(w) && divisor == -1 ==> q == numerator && r == 0
    ensures divisor == 0 ==> q == 0 && r == if numerator < 0 then 1 else -1
  {
    hide Range, Wrap;
    EvenRange(w);
    var n, d, negateQ, negateR := numerator, divisor, false, false;
    if (n < 0 && d > 0) || (n > 0 && d < 0) {
      negateQ := true;
    }
    if n < 0 {
      n := Wrap(-n, w);
      negateR := true;
    }
    if d < 0 {
      d := Wrap(-d, w);
    }

    ghost var u, v;
    q, r, u, v := UnsignedDivQr(n, d, negateQ, negateR, w);
    Signs(numerator, divisor, u, v, q, r, w);
    q, r := AsSigned(q, w), AsSigned(r, w);
  }

  lemma EvenRange(w: int)
    requires Width(w)
    ensures Range(w) % 2 == 0
  {
  }

  lemma WrapNegated(x: int, w: int)
    requires Width(w) && 0 <= x < Range(w)
    ensures Wrap(-x, w) == if x == 0 then 0 else Range(w) - x
  {
    if x > 0 {
      assert -x == -1 * Range(w) + (Range(w) - x);
    }
  }

  /** Giving the results their signs makes them the truncated quotient and remainder. */
  lemma Signs(n: int, d: int, u: int, v: int, q: int, r: int, w: int)
    requires Width(w) && IsSigned(n, w) && IsSigned(d, w)
    requires d != 0 ==> Divides(Abs(n), Abs(d), u, v) && u <= Abs(n)
    requires d == 0 ==> u == 0 && v == Range(w) - 1
    requires q == (if (n < 0 && d > 0) || (n > 0 && d < 0) then Wrap(-u, w) else u) && r == (if n < 0 then Wrap(-v, w) else v)
    ensures 0 <= q < Range(w) && 0 <= r < Range(w)
    ensures d != 0 ==> (Truncates(n, d, AsSigned(q, w), AsSigned(r, w)) <==> !(2 * n == -Range(w) && d == -1))
    ensures 2 * n == -Range(w) && d == -1 ==> AsSigned(q, w) == n && AsSigned(r, w) == 0
    ensures d == 0 ==> AsSigned(q, w) == 0 && AsSigned(r, w) == if n < 0 then 1 else -1
  {
    hide Range, Wrap;
    WrapNegated(u, w);
    WrapNegated(v, w);
    if d != 0 {
      var x, y := if (n < 0 && d > 0) || (n > 0 && d < 0) then -u else u, if n < 0 then -v else v;
      assert n == x * d + y by { Signed(n, d, u, v, x, y); }
      assert AsSigned(r, w) == y;
      if 2 * u < Range(w) || x < 0 {
        assert AsSigned(q, w) == x;
      } else {
        Overflows(n, d, u, v, w);
      }
    }
  }

  lemma Signed(n: int, d: int, u: int, v: int, x: int, y: int)
    requires d != 0 && Divides(Abs(n), Abs(d), u, v)
    requires x == (if (n < 0 && d > 0) || (n > 0 && d < 0) then -u else u) && y == (if n < 0 then -v else v)
    ensures n == x * d + y
  {
    assert (-u) * d == -(u * d) && u * (-d) == -(u * d) && (-u) * (-d) == u * d;
  }

  /** Only the least number divided by -1 has a quotient too large. */
  lemma Overflows(n: int, d: int, u: int, v: int, w: int)
    requires Width(w) && IsSigned(n, w) && d != 0 && Divides(Abs(n), Abs(d), u, v) && u <= Abs(n) && 2 * u >= Range(w)
    ensures 2 * n == -Range(w) && Abs(d) == 1 && v == 0 && u == Abs(n)
  {
    hide Range;
    if Abs(d) > 1 {
      Larger2(u, Abs(d));
      assert false;
    }
  }

  lemma Larger2(x: int, y: int)
    requires 0 < x && 2 <= y
    ensures 2 * x <= x * y
  {
  }
}
