/** human_readable, the part in integer arithmetic: exact rounding through repeated division. */
module Human {
  import opened Bytes
  import opened Decimal

  datatype Style = Ceiling | Nearest | Floor

  // v is num / den rounded in this style; a tie goes to the even neighbour.
  predicate Rounds(style: Style, num: nat, den: nat, v: nat) {
    RoundsTo(style, num, den, v, v * den)
  }

  // The same with the product vd = v * den.
  predicate RoundsTo(style: Style, num: nat, den: nat, v: nat, vd: int) {
    match style
    case Ceiling => num <= vd < num + den
    case Floor => vd <= num < vd + den
    case Nearest => 2 * num <= 2 * vd + den && 2 * vd <= 2 * num + den
                    && (2 * num == 2 * vd + den || 2 * vd == 2 * num + den ==> v % 2 == 0)
  }

  // The decision of a style between a quotient and the next number.
  predicate RoundsUp(style: Style, q: nat, rem: nat, den: nat) {
    match style
    case Ceiling => rem > 0
    case Floor => false
    case Nearest => 2 * rem > den || (2 * rem == den && q % 2 == 1)
  }

  // num / den rounded in this style.
  function Rounded(style: Style, num: nat, den: nat): nat
    requires den > 0
  {
    num / den + if RoundsUp(style, num / den, num % den, den) then 1 else 0
  }

  // The rounded number is the only one that Rounds describes.
  lemma RoundedIs(style: Style, num: nat, den: nat, v: nat)
    requires den > 0
    ensures Rounds(style, num, den, v) <==> v == Rounded(style, num, den)
  {
    var q, r := DivMod(num, den);
    if v < q {
      MulBelow(v, q, den);
    } else if v > q + 1 {
      MulBelow(q + 1, v, den);
    }
    RoundsNear(style, num, den, q, r, v, q * den, v * den);
  }

  // In numbers: the neighbour above or below, or the nearest one, and the even one of two.
  lemma RoundedInNumbers(style: Style, num: nat, den: nat)
    requires den > 0
    ensures var off := Rounded(style, num, den) * den - num;
            && (style.Ceiling? ==> 0 <= off < den) && (style.Floor? ==> -(den as int) < off <= 0)
            && (style.Nearest? ==> -(den as int) <= 2 * off <= den
                                   && (2 * off == den || 2 * off == -(den as int) ==> Rounded(style, num, den) % 2 == 0))
  {
    RoundedIs(style, num, den, Rounded(style, num, den));
  }

  lemma RoundsNear(style: Style, num: nat, den: nat, q: nat, r: nat, v: nat, qd: int, vd: int)
    requires r < den && num == qd + r
    requires v < q ==> vd + den <= qd
    requires v == q ==> vd == qd
    requires v == q + 1 ==> vd == qd + den
    requires v > q + 1 ==> vd >= qd + 2 * den
    ensures RoundsTo(style, num, den, v, vd) <==> v == q + if RoundsUp(style, q, r, den) then 1 else 0
  {
  }

  // amt is num / den without the fraction.
  ghost predicate FloorOf(num: nat, den: nat, amt: nat) {
    amt * den <= num < amt * den + den
  }

  lemma FloorIs(num: nat, den: nat, amt: nat)
    requires den > 0 && FloorOf(num, den, amt)
    ensures num / den == amt && num % den == num - amt * den
  {
    var q, r := DivMod(num, den);
    if amt < q {
      MulBelow(amt, q, den);
    } else if amt > q {
      MulBelow(q, amt, den);
    }
  }

  // How the remainder of a division by den compares with nothing and with half of den.
  function Class(rem: int, den: int): nat {
    if rem == 0 then 0 else if 2 * rem < den then 1 else if 2 * rem == den then 2 else 3
  }

  // amt.tenths is num / den cut behind the first decimal, and rounding says what was cut off.
  ghost predicate Classified(num: nat, den: nat, amt: nat, tenths: nat, rounding: nat) {
    && tenths < 10
    && (10 * amt + tenths) * den <= 10 * num < (10 * amt + tenths) * den + den
    && rounding == Class(10 * num - (10 * amt + tenths) * den, den)
  }

  // ---- One division step

  function NextRounding(r2: nat, rounding: nat, base: nat): nat {
    if r2 < base then (if r2 + rounding != 0 then 1 else 0)
    else 2 + if base < r2 + rounding then 1 else 0
  }

  // Half of the new divisor decides, because the base is even: sd is s * den, hd half of it.
  lemma ClassOfSum(s: nat, rem: nat, den: nat, half: nat, sd: int, hd: int)
    requires 0 <= sd && 0 <= hd && rem < den && s < 2 * half
    requires (sd == 0 <==> s == 0) && (s < half ==> sd + den <= hd) && (s == half ==> sd == hd) && (s > half ==> sd >= hd + den)
    ensures var rounding := Class(rem, den);
            NextRounding(2 * s + rounding / 2, rounding, 2 * half) == Class(sd + rem, 2 * hd)
  {
  }

  lemma MulLe(a: nat, b: nat, c: nat)
    requires a <= b
    ensures a * c <= b * c
  {
  }

  lemma MulBelow(a: nat, b: nat, c: nat)
    requires a < b
    ensures a * c + c <= b * c
  {
    var d := b - a - 1;
    assert b * c == (a + 1 + d) * c == a * c + c + d * c;
  }

  lemma Products(s: nat, den: nat, half: nat)
    requires den > 0
    ensures s * den == 0 <==> s == 0
    ensures s < half ==> s * den + den <= half * den
    ensures s > half ==> s * den >= half * den + den
  {
    if s < half {
      MulBelow(s, half, den);
    } else if s > half {
      MulBelow(half, s, den);
    }
  }

  // With sd = s * den: the quotient and the remainder after dividing by base once more.
  lemma SplitProduct(v: nat, v': nat, s: nat, den: nat, base: nat)
    requires v == v' * base + s
    ensures v * den == v' * (base * den) + s * den
  {
    assert v * den == (v' * base) * den + s * den;
    assert (v' * base) * den == v' * (base * den);
  }

  // The same with the products named.
  lemma StepLinear(num: nat, den: nat, v: nat, s: nat, half: nat, base: nat, rounding: nat,
                   vd: int, sd: int, hd: int, w: int)
    requires 0 <= vd && 0 <= sd && 0 <= hd && vd <= 10 * num < vd + den && rounding == Class(10 * num - vd, den)
    requires base == 2 * half && s < base
    requires (sd == 0 <==> s == 0) && (s < half ==> sd + den <= hd) && (s == half ==> sd == hd) && (s > half ==> sd >= hd + den)
    requires sd + den <= 2 * hd && vd == w + sd
    ensures w <= 10 * num < w + 2 * hd
    ensures NextRounding(2 * s + rounding / 2, rounding, base) == Class(10 * num - w, 2 * hd)
  {
    ClassOfSum(s, 10 * num - vd, den, half, sd, hd);
  }

  lemma TwiceProduct(half: nat, den: nat)
    ensures (2 * half) * den == 2 * (half * den)
  {
  }

  // The products of one step, and how they compare.
  lemma StepProducts(v: nat, w: nat, s: nat, half: nat, base: nat, den: nat, bd: nat)
    returns (vd: int, sd: int, hd: int, wbd: int)
    requires base == 2 * half && v == w * base + s && s < base && den > 0 && bd == base * den
    ensures vd == v * den && wbd == w * bd && bd == 2 * hd && vd == wbd + sd
    ensures 0 <= vd && 0 <= sd && 0 <= hd && sd + den <= bd
    ensures (sd == 0 <==> s == 0) && (s < half ==> sd + den <= hd) && (s == half ==> sd == hd) && (s > half ==> sd >= hd + den)
  {
    SplitProduct(v, w, s, den, base);
    Products(s, den, half);
    Products(s, den, base);
    TwiceProduct(half, den);
    vd, sd, hd, wbd := v * den, s * den, half * den, w * bd;
  }

  // The step with v = amt.tenths and w the same after the step, both counted in tenths.
  lemma TenthsStep(num: nat, den: nat, v: nat, w: nat, s: nat, half: nat, base: nat, rounding: nat, bd: nat)
    requires base == 2 * half && v == w * base + s && s < base && den > 0 && bd == base * den
    requires v * den <= 10 * num < v * den + den && rounding == Class(10 * num - v * den, den)
    ensures w * bd <= 10 * num < w * bd + bd
    ensures NextRounding(2 * s + rounding / 2, rounding, base) == Class(10 * num - w * bd, bd)
  {
    var vd, sd, hd, wbd := StepProducts(v, w, s, half, base, den, bd);
    StepLinear(num, den, v, s, half, base, rounding, vd, sd, hd, wbd);
  }

  // The classification stays exact when the number is divided by an even base: q and m are the
  // quotient and the remainder of amt, w and s those of the next digit.
  lemma DivideStep(num: nat, den: nat, amt: nat, tenths: nat, rounding: nat, base: nat, half: nat, q: nat, m: nat, w: nat, s: nat)
    requires Classified(num, den, amt, tenths, rounding) && base == 2 * half
    requires amt == q * base + m && m < base && 10 * m + tenths == w * base + s && s < base
    ensures Classified(num, base * den, q, w, NextRounding(2 * s + rounding / 2, rounding, base))
  {
    assert w < 10 by {
      if w >= 10 {
        MulLe(10, w, base);
      }
    }
    assert 10 * amt + tenths == (10 * q + w) * base + s by {
      assert 10 * (q * base) == (10 * q) * base;
      assert (10 * q + w) * base == (10 * q) * base + w * base;
    }
    TenthsStep(num, den, 10 * amt + tenths, 10 * q + w, s, half, base, rounding, base * den);
  }

  // ---- From one block size to another

  lemma DivMod(n: nat, d: nat) returns (q: nat, r: nat)
    requires d > 0
    ensures n == q * d + r && r < d && q == n / d && r == n % d
  {
    q, r := n / d, n % d;
  }

  method QuotRem(n: nat, d: nat) returns (q: nat, r: nat)
    requires d > 0
    ensures n == q * d + r && r < d && q == n / d && r == n % d
  {
    q, r := n / d, n % d;
  }

  // What the divisor path computes from the remainder of the first division, in 64 bits.
  function WrappedTenths(rem: nat, divisor: nat): nat
    requires divisor > 0
  {
    rem * 10 % UINT64_RANGE / divisor
  }

  function WrappedRest(rem: nat, divisor: nat): nat
    requires divisor > 0
  {
    rem * 10 % UINT64_RANGE % divisor
  }

  function RoundingOf(rest: nat, divisor: nat): nat {
    var r2 := rest * 2 % UINT64_RANGE;
    if r2 < divisor then (if 0 < r2 then 1 else 0) else 2 + if divisor < r2 then 1 else 0
  }

  function WrappedRounding(rem: nat, divisor: nat): nat
    requires divisor > 0
  {
    RoundingOf(WrappedRest(rem, divisor), divisor)
  }

  predicate RemainderFits(rem: nat, divisor: nat)
    requires divisor > 0
  {
    rem * 10 < UINT64_RANGE && WrappedRest(rem, divisor) * 2 < UINT64_RANGE
  }

  // The arithmetic of the divisor path does not wrap around.
  predicate DivisionFits(n: nat, divisor: nat)
    requires divisor > 0
  {
    RemainderFits(n % divisor, divisor)
  }

  lemma WrappedFirst(n: nat, d: nat, q: nat, r: nat, w: nat, t: nat, s: nat, rounding: nat)
    requires 0 < d < UINT64_RANGE && n == q * d + r && r * 10 >= w + UINT64_RANGE && w == t * d + s
    ensures !Classified(n, d, q, t, rounding)
  {
    assert (10 * q + t) * d == 10 * (q * d) + t * d;
  }

  lemma NotWrapped(n: nat, d: nat, q: nat, r: nat, t: nat, s: nat, rounding: nat)
    requires d > 0 && n == q * d + r && r < d && r * 10 == t * d + s && s < d
    ensures Classified(n, d, q, t, rounding) <==> rounding == Class(s, d)
  {
    assert (10 * q + t) * d == 10 * (q * d) + t * d;
    assert t < 10 by {
      if t >= 10 {
        MulLe(10, t, d);
      }
    }
  }

  // The digits are an exact classification of n / divisor exactly when nothing wraps around.
  lemma WrappedExactly(n: nat, divisor: nat, q: nat, rem: nat)
    requires n < UINT64_RANGE && 0 < divisor < UINT64_RANGE && n == q * divisor + rem && rem < divisor
    ensures var tenths, rounding := WrappedTenths(rem, divisor), WrappedRounding(rem, divisor);
            && (Classified(n, divisor, q, tenths, rounding) <==> RemainderFits(rem, divisor))
            && q <= n && tenths < 10 && rounding < 4
  {
    var r10 := rem * 10 % UINT64_RANGE;
    var t, s := DivMod(r10, divisor);
    DividedRight(n, divisor, q, rem, r10, t, s, s * 2 % UINT64_RANGE, RoundingOf(s, divisor));
    QuotientBounds(n, divisor, q, rem, r10, t, s);
  }

  method Divide(n: nat, divisor: nat) returns (amt: nat, tenths: nat, rounding: nat)
    requires n < UINT64_RANGE && 0 < divisor < UINT64_RANGE
    ensures amt == n / divisor
    ensures tenths == WrappedTenths(n % divisor, divisor) && rounding == WrappedRounding(n % divisor, divisor)
    ensures Classified(n, divisor, amt, tenths, rounding) <==> DivisionFits(n, divisor)
    ensures amt <= n && tenths < 10 && rounding < 4
  {
    var q, r := QuotRem(n, divisor);
    var r10 := r * 10 % UINT64_RANGE;
    var t, s := QuotRem(r10, divisor);
    var r2 := s * 2 % UINT64_RANGE;
    amt := q;
    tenths := t;
    rounding := if r2 < divisor then (if 0 < r2 then 1 else 0) else 2 + (if divisor < r2 then 1 else 0);
    WrappedExactly(n, divisor, q, r);
  }

  // From ten units on nothing wraps around.
  lemma LargeQuotientFits(n: nat, divisor: nat, q: nat, rem: nat)
    requires n < UINT64_RANGE && divisor > 0 && n == q * divisor + rem && rem < divisor && q >= 10
    ensures RemainderFits(rem, divisor)
  {
    MulLe(10, q, divisor);
    var t, s := DivMod(rem * 10 % UINT64_RANGE, divisor);
  }

  lemma DividedRight(n: nat, d: nat, q: nat, r: nat, r10: nat, t: nat, s: nat, r2: nat, rounding: nat)
    requires 0 < d < UINT64_RANGE && n == q * d + r && r < d && r10 == r * 10 % UINT64_RANGE && r10 == t * d + s && s < d
    requires r2 == s * 2 % UINT64_RANGE
    requires rounding == if r2 < d then (if 0 < r2 then 1 else 0) else 2 + (if d < r2 then 1 else 0)
    ensures Classified(n, d, q, t, rounding) <==> r * 10 < UINT64_RANGE && s * 2 < UINT64_RANGE
  {
    if r * 10 >= UINT64_RANGE {
      WrappedFirst(n, d, q, r, r10, t, s, rounding);
    } else {
      NotWrapped(n, d, q, r, t, s, rounding);
    }
  }

  lemma QuotientBounds(n: nat, d: nat, q: nat, r: nat, r10: nat, t: nat, s: nat)
    requires d > 0 && n == q * d + r && r < d && r10 <= r * 10 && r10 == t * d + s
    ensures q <= n && t < 10
  {
    MulLe(1, d, q);
    if t >= 10 {
      MulLe(10, t, d);
    }
  }

  lemma ScaleClass(rem: nat, den: nat, k: nat)
    requires k > 0
    ensures Class(rem * k, den * k) == Class(rem, den)
  {
    if 2 * rem < den {
      MulBelow(2 * rem, den, k);
    } else if 2 * rem > den {
      MulBelow(den, 2 * rem, k);
    }
    assert rem * k == 0 <==> rem == 0;
    assert 2 * (rem * k) == (2 * rem) * k;
  }

  lemma MulOrder(a: int, b: int, k: nat)
    requires k > 0
    ensures a <= b <==> a * k <= b * k
    ensures (b - a) * k == b * k - a * k
  {
    var d := b - a;
    assert b * k == a * k + d * k;
    if d >= 0 {
      assert d * k >= 0;
    } else {
      var e := -d - 1;
      assert d * k == -(e * k) - k && e * k >= 0;
    }
  }

  lemma ScaleProducts(num: nat, v: nat, den: nat, k: nat) returns (n10: int, vd: int)
    ensures n10 == 10 * num && 10 * (num * k) == n10 * k
    ensures vd == v * den && v * (den * k) == vd * k && (vd + den) * k == vd * k + den * k
  {
    n10, vd := 10 * num, v * den;
  }

  // The quotient is the same after multiplying both numbers.
  lemma ScaleBoth(num: nat, den: nat, k: nat, amt: nat, tenths: nat, rounding: nat)
    requires k > 0 && den > 0
    ensures Classified(num * k, den * k, amt, tenths, rounding) <==> Classified(num, den, amt, tenths, rounding)
  {
    var v := 10 * amt + tenths;
    var n10, vd := ScaleProducts(num, v, den, k);
    MulOrder(vd, n10, k);
    MulOrder(vd + den, n10, k);
    if vd <= 10 * num {
      ScaleClass(10 * num - vd, den, k);
    }
  }

  // The decision to round up that follows from the wrapped digits is the right one.
  predicate DecidesRight(style: Style, q: nat, rem: nat, divisor: nat)
    requires divisor > 0
  {
    UnitsUp(style, q, WrappedTenths(rem, divisor), WrappedRounding(rem, divisor)) == RoundsUp(style, q, rem, divisor)
  }

  predicate RoundsRight(style: Style, n: nat, divisor: nat)
    requires divisor > 0
  {
    DecidesRight(style, n / divisor, n % divisor, divisor)
  }

  // The conversion can be done in integer arithmetic.
  predicate IntegerPath(n: nat, from: nat, to: nat)
    requires to > 0
  {
    if to <= from then from % to == 0 && n * (from / to) < UINT64_RANGE
    else from != 0 && to % from == 0
  }

  // And the digits are exact.
  predicate ExactPath(n: nat, from: nat, to: nat)
    requires to > 0
  {
    IntegerPath(n, from, to) && (to > from ==> DivisionFits(n, to / from))
  }

  const HALF_RANGE: nat := 0x8000_0000_0000_0000
  const QUARTER_RANGE: nat := 0x4000_0000_0000_0000

  // The remainders for which the divisor path rounds the right way, exact digits or not.
  predicate RoundingFits(style: Style, q: nat, rem: nat, divisor: nat) {
    match style
    case Floor => true
    case Nearest => rem * 10 < UINT64_RANGE || 2 * rem < divisor || (2 * rem == divisor && q % 2 == 0)
    case Ceiling => divisor <= HALF_RANGE || rem == 0 || rem % QUARTER_RANGE != 0
  }

  // The number is printed as it should be.
  predicate RightPath(style: Style, n: nat, from: nat, to: nat)
    requires to > 0
  {
    IntegerPath(n, from, to) && (to > from ==> to / from > 0 && RoundingFits(style, n / (to / from), n % (to / from), to / from))
  }

  lemma OverflowDetected(n: nat, m: nat, amt: nat)
    requires n < UINT64_RANGE && m > 0 && amt == n * m % UINT64_RANGE
    ensures amt / m == n <==> n * m < UINT64_RANGE
  {
    var q, r := DivMod(amt, m);
    if n * m < UINT64_RANGE {
      assert amt == n * m;
      if q < n {
        MulBelow(q, n, m);
      } else if q > n {
        MulBelow(n, q, m);
      }
    } else {
      assert amt < n * m;
      ProductOrder(q, n, m);
    }
  }

  lemma ProductOrder(q: nat, n: nat, m: nat)
    requires m > 0
    ensures q < n <==> q * m < n * m
  {
    if q < n {
      MulBelow(q, n, m);
    } else {
      MulLe(n, q, m);
    }
  }

  lemma WholeNumber(n: nat, m: nat, from: nat, to: nat, amt: nat)
    requires to > 0 && from == m * to && amt == n * m
    ensures Classified(n * from, to, amt, 0, 0)
  {
    assert n * from == amt * to by {
      assert n * (m * to) == (n * m) * to;
    }
    assert (10 * amt) * to == 10 * (amt * to);
  }

  lemma PositiveFactor(a: nat, b: nat)
    ensures a * b > 0 ==> a > 0
  {
  }

  // The larger unit is a multiple of the smaller one: n * multiplier units, unless that overflows.
  method Multiply(n: nat, multiplier: nat, ghost from: nat, ghost to: nat) returns (exact: bool, amt: nat)
    requires n < UINT64_RANGE && from == multiplier * to && to > 0 && multiplier > 0
    ensures exact <==> n * multiplier < UINT64_RANGE
    ensures amt < UINT64_RANGE && (exact ==> Classified(n * from, to, amt, 0, 0))
  {
    amt := n * multiplier % UINT64_RANGE;
    OverflowDetected(n, multiplier, amt);
    exact := amt / multiplier == n;
    if exact {
      WholeNumber(n, multiplier, from, to, amt);
    }
  }

  lemma FloorOfQuotient(n: nat, divisor: nat, from: nat)
    requires divisor > 0 && from > 0
    ensures FloorOf(n * from, divisor * from, n / divisor)
  {
    var q, r := DivMod(n, divisor);
    assert n * from == q * (divisor * from) + r * from;
    MulBelow(r, divisor, from);
  }

  // What the digits are: the whole units, and behind them an exact classification or, below ten
  // units, what the wrapped products give.
  ghost predicate Converted(n: nat, from: nat, to: nat, amt: nat, tenths: nat, rounding: nat) {
    && FloorOf(n * from, to, amt) && tenths < 10 && rounding < 4 && to > 0
    && (Classified(n * from, to, amt, tenths, rounding) <==> ExactPath(n, from, to))
    && (to > from > 0 ==> to / from > 0 && amt == n / (to / from)
                          && tenths == WrappedTenths(n % (to / from), to / from)
                          && rounding == WrappedRounding(n % (to / from), to / from))
  }

  // n / divisor of the larger units.
  method DivideUnits(n: nat, divisor: nat, ghost from: nat, ghost to: nat) returns (amt: nat, tenths: nat, rounding: nat)
    requires n < UINT64_RANGE && to == divisor * from && 0 < from < to < UINT64_RANGE && 0 < divisor == to / from
    requires IntegerPath(n, from, to)
    ensures Converted(n, from, to, amt, tenths, rounding) && amt <= n
  {
    MulLe(1, from, divisor);
    amt, tenths, rounding := Divide(n, divisor);
    ScaleBoth(n, divisor, from, amt, tenths, rounding);
    FloorOfQuotient(n, divisor, from);
  }

  // n blocks of size from in blocks of size to.
  method Convert(n: nat, from: nat, to: nat) returns (exact: bool, amt: nat, tenths: nat, rounding: nat)
    requires n < UINT64_RANGE && from < UINT64_RANGE && 0 < to < UINT64_RANGE
    ensures exact == IntegerPath(n, from, to) && amt < UINT64_RANGE && tenths < 10 && rounding < 4
    ensures exact ==> Converted(n, from, to, amt, tenths, rounding)
  {
    exact, amt, tenths, rounding := false, 0, 0, 0;
    if to <= from {
      var multiplier, rest := QuotRem(from, to);
      if rest == 0 {
        PositiveFactor(multiplier, to);
        exact, amt := Multiply(n, multiplier, from, to);
        if exact {
          ClassifiedFloor(n * from, to, amt, 0, 0);
          assert Converted(n, from, to, amt, 0, 0);
        }
      }
    } else if from != 0 {
      var divisor, rest := QuotRem(to, from);
      if rest == 0 {
        PositiveFactor(divisor, from);
        exact := true;
        amt, tenths, rounding := DivideUnits(n, divisor, from, to);
      }
    }
  }

  // ---- Rounding

  predicate TenthsUp(style: Style, tenths: nat, rounding: nat) {
    if style == Nearest then 2 < rounding + tenths % 2 else style == Ceiling && 0 < rounding
  }

  predicate UnitsUp(style: Style, amt: nat, tenths: nat, rounding: nat) {
    if style == Nearest then 5 < tenths + (if 0 < rounding + amt % 2 then 1 else 0)
    else style == Ceiling && 0 < tenths + rounding
  }

  lemma RoundsTenths(style: Style, num: nat, den: nat, amt: nat, tenths: nat, rounding: nat, v: nat)
    requires Classified(num, den, amt, tenths, rounding)
    requires v == 10 * amt + tenths + (if TenthsUp(style, tenths, rounding) then 1 else 0)
    ensures Rounds(style, 10 * num, den, v)
  {
    var cut := 10 * amt + tenths;
    NextProduct(cut, den);
    CutTenths(style, 10 * num, den, amt, tenths, rounding, cut, cut * den);
  }

  lemma NextProduct(v: nat, den: nat)
    ensures (v + 1) * den == v * den + den
  {
  }

  lemma CutTenths(style: Style, num: nat, den: nat, amt: nat, tenths: nat, rounding: nat, cut: nat, cd: int)
    requires cut == 10 * amt + tenths && cd <= num < cd + den && rounding == Class(num - cd, den)
    ensures if TenthsUp(style, tenths, rounding) then RoundsTo(style, num, den, cut + 1, cd + den)
            else RoundsTo(style, num, den, cut, cd)
  {
    assert cut % 2 == tenths % 2;
  }

  lemma TenthsProducts(amt: nat, tenths: nat, den: nat) returns (ad: int, td: int)
    requires tenths < 10
    ensures ad == amt * den && 0 <= td && (10 * amt + tenths) * den == 10 * ad + td && (amt + 1) * den == ad + den
    ensures tenths < 5 ==> td + den <= 5 * den
    ensures tenths == 5 ==> td == 5 * den
    ensures tenths > 5 ==> td >= 6 * den
    ensures td + den <= 10 * den && (tenths == 0 ==> td == 0) && (tenths > 0 ==> td >= den)
  {
    ad, td := amt * den, tenths * den;
    MulBelow(tenths, 10, den);
    if tenths < 5 {
      MulBelow(tenths, 5, den);
    } else if tenths > 5 {
      MulLe(6, tenths, den);
    }
    if tenths > 0 {
      MulLe(1, tenths, den);
    }
    assert (10 * amt + tenths) * den == 10 * (amt * den) + tenths * den;
  }

  lemma ClassifiedFloor(num: nat, den: nat, amt: nat, tenths: nat, rounding: nat)
    requires Classified(num, den, amt, tenths, rounding)
    ensures FloorOf(num, den, amt)
  {
    var ad, td := TenthsProducts(amt, tenths, den);
  }

  lemma RoundsUnits(style: Style, num: nat, den: nat, amt: nat, tenths: nat, rounding: nat, v: nat)
    requires Classified(num, den, amt, tenths, rounding)
    requires v == amt + (if UnitsUp(style, amt, tenths, rounding) then 1 else 0)
    ensures Rounds(style, num, den, v)
  {
    var ad, td := TenthsProducts(amt, tenths, den);
  }

  // A whole number of tenths that ends in 0 is also the rounded number of units.
  lemma TenthsToUnits(style: Style, num: nat, den: nat, amt: nat)
    requires den > 0 && Rounds(style, 10 * num, den, 10 * amt)
    ensures Rounds(style, num, den, amt)
  {
    assert (10 * amt) * den == 10 * (amt * den);
  }

  // The carry to the next unit: base units are one unit of the next size, exactly.
  lemma Carry(style: Style, num: nat, den: nat, base: nat, bd: nat)
    requires den > 0 && base >= 1000 && bd == base * den && num < bd && Rounds(style, num, den, base)
    ensures Rounds(style, 10 * num, bd, 10) && Rounds(style, num, bd, 1)
  {
    MulLe(1000, base, den);
  }

  // Rounding goes to one of the two neighbours, also after both numbers are multiplied.
  lemma RoundedBounds(style: Style, num: nat, den: nat, amt: nat)
    requires den > 0 && FloorOf(num, den, amt)
    ensures amt <= Rounded(style, num, den) <= amt + 1
  {
    FloorIs(num, den, amt);
  }

  lemma RoundedScaled(style: Style, n: nat, divisor: nat, from: nat)
    requires divisor > 0 && from > 0 && divisor * from > 0
    ensures Rounded(style, n * from, divisor * from) == Rounded(style, n, divisor)
  {
    var q, r := DivMod(n, divisor);
    FloorOfQuotient(n, divisor, from);
    FloorIs(n * from, divisor * from, q);
    assert n * from - q * (divisor * from) == r * from;
    ScaleUp(style, q, r, divisor, from, r * from, divisor * from);
  }

  lemma ScaleUp(style: Style, q: nat, r: nat, d: nat, k: nat, rk: nat, dk: nat)
    requires k > 0 && rk == r * k && dk == d * k
    ensures RoundsUp(style, q, rk, dk) == RoundsUp(style, q, r, d)
  {
    MulOrder(2 * r, d, k);
    MulOrder(d, 2 * r, k);
    PositiveFactor(r, k);
    assert (2 * r) * k == 2 * rk;
    assert r > 0 ==> rk > 0 by {
      if r > 0 {
        MulLe(1, r, k);
      }
    }
  }

  // Exact digits lead to the right decision.
  lemma ClassifiedDecides(style: Style, num: nat, den: nat, amt: nat, rem: nat, tenths: nat, rounding: nat)
    requires Classified(num, den, amt, tenths, rounding) && num == amt * den + rem && rem < den
    ensures UnitsUp(style, amt, tenths, rounding) == RoundsUp(style, amt, rem, den)
  {
    var v := amt + if UnitsUp(style, amt, tenths, rounding) then 1 else 0;
    RoundsUnits(style, num, den, amt, tenths, rounding, v);
    NextProduct(amt, den);
    RoundsNear(style, num, den, amt, rem, v, amt * den, v * den);
  }

  lemma FitsDecides(style: Style, n: nat, divisor: nat, q: nat, rem: nat)
    requires n < UINT64_RANGE && 0 < divisor < UINT64_RANGE && n == q * divisor + rem && rem < divisor
    requires RemainderFits(rem, divisor)
    ensures DecidesRight(style, q, rem, divisor)
  {
    WrappedExactly(n, divisor, q, rem);
    ClassifiedDecides(style, n, divisor, q, rem, WrappedTenths(rem, divisor), WrappedRounding(rem, divisor));
  }

  // ---- When digits that are not exact are rounded the right way

  // A wrapped product leaves less than five tenths.
  lemma WrappedTenthsAreFew(rem: nat, divisor: nat)
    requires rem < divisor < UINT64_RANGE && rem * 10 >= UINT64_RANGE
    ensures WrappedTenths(rem, divisor) < 5
  {
    var r10 := rem * 10 % UINT64_RANGE;
    var t, s := DivMod(r10, divisor);
    if t >= 5 {
      MulLe(5, t, divisor);
    }
  }

  lemma NearestDecides(n: nat, divisor: nat, q: nat, rem: nat)
    requires n < UINT64_RANGE && 0 < divisor < UINT64_RANGE && n == q * divisor + rem && rem < divisor
    ensures DecidesRight(Nearest, q, rem, divisor) <==> RoundingFits(Nearest, q, rem, divisor)
  {
    if RemainderFits(rem, divisor) {
      FitsDecides(Nearest, n, divisor, q, rem);
    } else if rem * 10 < UINT64_RANGE {
      var t, s := DivMod(rem * 10, divisor);
      if t >= 2 {
        MulLe(2, t, divisor);
      }
    } else {
      WrappedTenthsAreFew(rem, divisor);
    }
  }

  // Which numbers lose everything when multiplied by ten, and which all but the top bit.
  lemma TenTimes(rem: nat)
    requires rem < UINT64_RANGE
    ensures rem * 10 % UINT64_RANGE == 0 <==> rem == 0 || rem == HALF_RANGE
    ensures rem * 10 % UINT64_RANGE == HALF_RANGE <==> rem == QUARTER_RANGE || rem == 3 * QUARTER_RANGE
    ensures rem % QUARTER_RANGE == 0 <==> rem == 0 || rem == QUARTER_RANGE || rem == HALF_RANGE || rem == 3 * QUARTER_RANGE
  {
    var k := rem * 10 / UINT64_RANGE;
    assert rem * 10 % UINT64_RANGE == rem * 10 - k * UINT64_RANGE && k < 10;
  }

  lemma CeilingDecides(divisor: nat, q: nat, rem: nat)
    requires rem < divisor < UINT64_RANGE
    ensures DecidesRight(Ceiling, q, rem, divisor) <==> RoundingFits(Ceiling, q, rem, divisor)
  {
    var r10 := rem * 10 % UINT64_RANGE;
    var t, s := DivMod(r10, divisor);
    TenTimes(rem);
    assert UnitsUp(Ceiling, q, t, RoundingOf(s, divisor)) <==> t > 0 || s * 2 % UINT64_RANGE != 0;
    assert s * 2 % UINT64_RANGE == 0 <==> s == 0 || s == HALF_RANGE;
  }

  // The closed form: rounding down never fails, rounding to nearest fails for remainders of half
  // a unit and more whose tenfold wraps, rounding up for multiples of 2^62 under a divisor above 2^63.
  lemma RoundsRightExactly(style: Style, n: nat, divisor: nat)
    requires n < UINT64_RANGE && 0 < divisor < UINT64_RANGE
    ensures RoundsRight(style, n, divisor) <==> RoundingFits(style, n / divisor, n % divisor, divisor)
  {
    var q, rem := DivMod(n, divisor);
    match style
    case Floor =>
    case Nearest => NearestDecides(n, divisor, q, rem);
    case Ceiling => CeilingDecides(divisor, q, rem);
  }

  // 0.6 units come out as 0.1 and a bit, and 0 is printed where 1 is nearer.
  lemma DivisionCanWrap()
    ensures var n, divisor := 2767011611056432742, QUARTER_RANGE;
            && !DivisionFits(n, divisor) && WrappedTenths(n, divisor) == 1 && WrappedRounding(n, divisor) == 3
            && n / divisor == 0 && n % divisor == n && !RoundingFits(Nearest, 0, n, divisor)
            && !RoundsRight(Nearest, n, divisor) && Rounded(Nearest, n, divisor) == 1
  {
  }

  // Nearly half a unit comes out as exactly nothing, and 0 is printed for the next number above.
  lemma CeilingCanFail()
    ensures var n, divisor := QUARTER_RANGE, HALF_RANGE + 1;
            && WrappedTenths(n, divisor) == 0 && WrappedRounding(n, divisor) == 0
            && n / divisor == 0 && n % divisor == n && !RoundingFits(Ceiling, 0, n, divisor)
            && !RoundsRight(Ceiling, n, divisor) && Rounded(Ceiling, n, divisor) == 1
  {
  }

  // It does not always matter: 0.4 units come out as 0.0 and a bit, and are rounded as they should be.
  lemma WrappingCanBeHarmless(style: Style)
    ensures var n, divisor := 1844674407370955162, QUARTER_RANGE;
            && !DivisionFits(n, divisor) && WrappedTenths(n, divisor) == 0 && WrappedRounding(n, divisor) == 1
            && n / divisor == 0 && n % divisor == n && RoundsRight(style, n, divisor)
  {
    var n, divisor := 1844674407370955162, QUARTER_RANGE;
    assert n / divisor == 0 && n % divisor == n;
    assert RoundsUp(style, 0, n, divisor) == UnitsUp(style, 0, 0, 1) == (style == Ceiling);
  }

  // ---- Writing

  const POINT: byte := 46
  const EXPONENT_MAX: nat := 8
  const LONGEST_HUMAN_READABLE: nat := 651
  const SUFFIX_LENGTH_MAX: nat := 3

  lemma {:induction false} DigitsLength(n: nat, k: nat)
    requires k > 0 && n < Power10(k)
    ensures |Digits(n)| <= k
  {
    if n >= 10 {
      DigitsLength(n / 10, k - 1);
    }
  }

  // The digits are written from the last one to the first.
  method WriteDigits(buf: array<byte>, end: nat, number: nat) returns (p: nat)
    requires |Digits(number)| <= end <= buf.Length
    modifies buf
    ensures p + |Digits(number)| == end && buf[p..end] == Digits(number)
    ensures forall i :: 0 <= i < buf.Length && !(p <= i < end) ==> buf[i] == old(buf[i])
  {
    p := end;
    var amt, more := number, true;
    assert Digits(number) + buf[p..end] == Digits(number);
    while more
      invariant p <= end && (more ==> |Digits(amt)| <= p)
      invariant Digits(number) == (if more then Digits(amt) else []) + buf[p..end]
      invariant forall i :: 0 <= i < buf.Length && !(p <= i < end) ==> buf[i] == old(buf[i])
      decreases if more then amt + 1 else 0
    {
      var digit := amt % 10;
      ghost var behind := buf[p..end];
      p := p - 1;
      buf[p] := digit + ZERO;
      assert buf[p..end] == [digit + ZERO] + behind;
      amt := amt / 10;
      more := amt != 0;
    }
  }

  // ".d" in front of the suffix.
  method WriteTenths(buf: array<byte>, end: nat, tenths: nat) returns (p: nat)
    requires 2 <= end <= buf.Length && tenths < 10
    modifies buf
    ensures p == end - 2 && buf[p..end] == [POINT, ZERO + tenths]
  {
    p := end - 1;
    buf[p] := ZERO + tenths;
    p := p - 1;
    buf[p] := POINT;
  }

  // ---- The function

  // One unit of the output in units of n / from: to * base ^ exponent.
  function Unit(to: nat, base: nat, exponent: nat): (r: nat)
    requires to > 0 && base > 0
    ensures r > 0
  {
    if exponent == 0 then to else Product(base, Unit(to, base, exponent - 1))
  }

  function Product(a: nat, b: nat): (r: nat)
    requires a > 0 && b > 0
    ensures r == a * b && r > 0
  {
    MulLe(1, a, b);
    a * b
  }

  // What is printed: units, and one decimal or none.
  datatype Shown = Whole(units: nat) | OneDecimal(units: nat, tenths: nat)

  function Text(shown: Shown): seq<byte>
    requires shown.OneDecimal? ==> shown.tenths < 10
  {
    match shown
    case Whole(units) => Digits(units)
    case OneDecimal(units, tenths) => Digits(units) + [POINT, ZERO + tenths]
  }

  // The printed number is num / den rounded at its last digit.
  predicate Faithful(style: Style, num: nat, den: nat, shown: Shown) {
    match shown
    case Whole(units) => Rounds(style, num, den, units)
    case OneDecimal(units, tenths) => tenths < 10 && Rounds(style, 10 * num, den, 10 * units + tenths)
  }

  // What should be printed for num / den: in a larger unit with one decimal if the number, rounded
  // to tenths, is below ten and does not end in a zero that is to be suppressed; rounded to whole
  // units otherwise.
  function Display(style: Style, num: nat, den: nat, scaled: bool, suppress: bool): Shown
    requires den > 0
  {
    var v := Rounded(style, 10 * num, den);
    if scaled && v < 100 && (suppress ==> v % 10 != 0) then OneDecimal(v / 10, v % 10)
    else Whole(Rounded(style, num, den))
  }

  lemma DisplayIsFaithful(style: Style, num: nat, den: nat, scaled: bool, suppress: bool)
    requires den > 0
    ensures Faithful(style, num, den, Display(style, num, den, scaled, suppress))
  {
    RoundedIs(style, num, den, Rounded(style, num, den));
    RoundedIs(style, 10 * num, den, Rounded(style, 10 * num, den));
  }

  lemma UnitInNumbers(to: nat, base: nat, exponent: nat)
    requires to > 0 && base > 0
    ensures Unit(to, base, 0) == to && Unit(to, base, exponent + 1) == base * Unit(to, base, exponent)
  {
  }

  // v * den is close to x: above or at it, below or at it, or no further than half of den.
  predicate IsClose(style: Style, x: nat, den: nat, v: nat) {
    match style
    case Ceiling => x <= v * den < x + den
    case Floor => x < v * den + den && v * den <= x
    case Nearest => 2 * x <= 2 * (v * den) + den && 2 * (v * den) <= 2 * x + den
  }

  // The printed number, in tenths or in units.
  function Count(shown: Shown, inTenths: bool): nat {
    match shown
    case Whole(units) => if inTenths then 10 * units else units
    case OneDecimal(units, tenths) => 10 * units + tenths
  }

  // In a larger unit and below ten, the number is close to num / den when counted in tenths, with the
  // decimal or without; otherwise when counted in units, and there is no decimal.
  predicate IsPrinted(style: Style, num: nat, den: nat, scaled: bool, suppress: bool, shown: Shown) {
    var inTenths := scaled && num < 10 * den;
    && IsClose(style, if inTenths then 10 * num else num, den, Count(shown, inTenths))
    && (shown.OneDecimal? ==> inTenths && shown.units < 10 && shown.tenths < 10 && (shown.tenths == 0 ==> !suppress))
    && (inTenths && shown.Whole? ==> suppress || shown.units == 10)
  }

  lemma DisplayIsPrinted(style: Style, num: nat, den: nat, scaled: bool, suppress: bool)
    requires den > 0
    ensures IsPrinted(style, num, den, scaled, suppress, Display(style, num, den, scaled, suppress))
  {
    var v, u := Rounded(style, 10 * num, den), Rounded(style, num, den);
    RoundedIs(style, 10 * num, den, v);
    RoundedIs(style, num, den, u);
    if scaled && num < 10 * den {
      RoundedBelowTen(style, num, den, v);
      if v % 10 == 0 {
        var k := v / 10;
        TenthsToUnits(style, num, den, k);
        RoundedIs(style, num, den, k);
      }
    } else if scaled {
      FromTenOn(style, num, den, v);
    }
  }

  // The same without these words. The printed number is never as much as one tenth, or one unit, off;
  // it is on the side that the style says; there is a decimal exactly in a larger unit, below ten,
  // unless it would be a zero that is suppressed or the number was rounded up to ten.
  lemma PrintedInNumbers(style: Style, num: nat, den: nat, scaled: bool, suppress: bool, shown: Shown, off: int)
    requires den > 0 && IsPrinted(style, num, den, scaled, suppress, shown)
    requires off == if shown.OneDecimal? then (10 * shown.units + shown.tenths) * den - 10 * num
                    else if scaled && num < 10 * den then 10 * shown.units * den - 10 * num
                    else shown.units * den - num
    ensures -(den as int) < off < den
    ensures (style.Ceiling? ==> off >= 0) && (style.Floor? ==> off <= 0) && (style.Nearest? ==> -(den as int) <= 2 * off <= den)
    ensures shown.OneDecimal? ==>
              scaled && num < 10 * den && shown.units < 10 && shown.tenths < 10 && (shown.tenths == 0 ==> !suppress)
    ensures shown.Whole? && scaled && num < 10 * den ==> suppress || shown.units == 10
  {
  }

  lemma RoundedBelowTen(style: Style, num: nat, den: nat, v: nat)
    requires den > 0 && num < 10 * den && Rounds(style, 10 * num, den, v)
    ensures v <= 100
  {
    if v > 100 {
      MulBelow(100, v, den);
    }
  }

  lemma FromTenOn(style: Style, num: nat, den: nat, v: nat)
    requires den > 0 && num >= 10 * den && Rounds(style, 10 * num, den, v)
    ensures v >= 100
  {
    if v < 100 {
      MulBelow(v, 100, den);
    }
  }

  // The unit is the smallest one in which the rounded number is below the base, or the largest there is.
  ghost predicate Proper(style: Style, num: nat, to: nat, base: nat, exponent: nat)
    requires to > 0 && base > 0
  {
    && exponent <= EXPONENT_MAX
    && (exponent < EXPONENT_MAX ==> Rounded(style, num, Unit(to, base, exponent)) < base)
    && (exponent > 0 ==> Rounded(style, num, Unit(to, base, exponent - 1)) >= base)
  }

  lemma ProperInNumbers(style: Style, num: nat, to: nat, base: nat, exponent: nat)
    requires to > 0 && base > 0
    ensures Proper(style, num, to, base, exponent)
       <==> exponent <= 8 && (exponent < 8 ==> Rounded(style, num, Unit(to, base, exponent)) < base)
            && (exponent > 0 ==> Rounded(style, num, Unit(to, base, exponent - 1)) >= base)
  {
  }

  lemma StepBounds(amt: nat, base: nat, q: nat, m: nat, tenths: nat, w: nat, s: nat)
    requires base > 0 && amt == q * base + m && m < base && tenths < 10 && m * 10 + tenths == w * base + s
    ensures q <= amt && w < 10 && (base <= amt ==> q >= 1)
  {
    MulLe(1, base, q);
    if w >= 10 {
      MulLe(10, w, base);
    }
  }

  // Divide by the base until the number is below it or there is no larger unit.
  method Scale(base: nat, amt0: nat, tenths0: nat, rounding0: nat, ghost num: nat, ghost to: nat)
    returns (amt: nat, tenths: nat, rounding: nat, exponent: nat)
    requires (base == 1000 || base == 1024) && base <= amt0 && tenths0 < 10 && rounding0 < 4 && to > 0
    requires Classified(num, to, amt0, tenths0, rounding0)
    ensures Classified(num, Unit(to, base, exponent), amt, tenths, rounding)
    ensures 1 <= exponent <= EXPONENT_MAX && 1 <= amt <= amt0 && tenths < 10 && rounding < 4
    ensures amt < base || exponent == EXPONENT_MAX
  {
    amt, tenths, rounding, exponent := amt0, tenths0, rounding0, 0;
    var again := true;
    while again
      invariant exponent <= EXPONENT_MAX && 1 <= amt <= amt0 && tenths < 10 && rounding < 4
      invariant if again then base <= amt && exponent < EXPONENT_MAX else exponent > 0 && (amt < base || exponent == EXPONENT_MAX)
      invariant Classified(num, Unit(to, base, exponent), amt, tenths, rounding)
      decreases EXPONENT_MAX - exponent, if again then 1 else 0
    {
      amt, tenths, rounding := ScaleOnce(base, amt, tenths, rounding, num, Unit(to, base, exponent), Unit(to, base, exponent + 1));
      exponent := exponent + 1;
      again := base <= amt && exponent < EXPONENT_MAX;
    }
  }

  // The body of the loop.
  method ScaleOnce(base: nat, amt0: nat, tenths0: nat, rounding0: nat, ghost num: nat, ghost den: nat, ghost bd: nat)
    returns (amt: nat, tenths: nat, rounding: nat)
    requires (base == 1000 || base == 1024) && base <= amt0 && tenths0 < 10 && rounding0 < 4 && den > 0 && bd == base * den
    requires Classified(num, den, amt0, tenths0, rounding0)
    ensures Classified(num, bd, amt, tenths, rounding)
    ensures 1 <= amt <= amt0 && tenths < 10 && rounding < 4
  {
    var q, m := QuotRem(amt0, base);
    var r10 := m * 10 + tenths0;
    var w, s := QuotRem(r10, base);
    var r2 := s * 2 + rounding0 / 2;
    DivideStep(num, den, amt0, tenths0, rounding0, base, base / 2, q, m, w, s);
    StepBounds(amt0, base, q, m, tenths0, w, s);
    amt := q;
    tenths := w;
    rounding := if r2 < base then (if r2 + rounding0 != 0 then 1 else 0) else 2 + (if base < r2 + rounding0 then 1 else 0);
  }

  // Scaled to less than ten units: one decimal, unless it is a zero to be suppressed.
  method RoundScaled(style: Style, suppress: bool, amt0: nat, tenths0: nat, rounding0: nat, ghost num: nat, ghost den: nat)
    returns (shown: Shown)
    requires amt0 < 10 && tenths0 < 10 && den > 0 && Classified(num, den, amt0, tenths0, rounding0)
    ensures shown == Display(style, num, den, true, suppress)
    ensures shown.units <= 10
  {
    var amt, tenths := amt0, tenths0;
    if TenthsUp(style, tenths, rounding0) {
      tenths := tenths + 1;
      if tenths == 10 {
        amt, tenths := amt + 1, 0;
      }
    }
    ghost var v := 10 * amt + tenths;
    RoundsTenths(style, num, den, amt0, tenths0, rounding0, v);
    RoundedIs(style, 10 * num, den, v);
    if amt < 10 && (tenths != 0 || !suppress) {
      shown := OneDecimal(amt, tenths);
    } else {
      shown := Whole(amt);
      TenthsToUnits(style, num, den, amt);
      RoundedIs(style, num, den, amt);
    }
  }

  // Ten units and more are shown without a decimal.
  lemma NoDecimal(style: Style, num: nat, den: nat, amt: nat)
    requires den > 0 && FloorOf(num, den, amt) && amt >= 10
    ensures Rounded(style, 10 * num, den) >= 100
  {
    var q, r := DivMod(10 * num, den);
    MulLe(10, amt, den);
    if q < 100 {
      MulBelow(q, 100, den);
    }
  }

  // No decimal: round to units, and carry into the next unit if there is one. Digits that are not
  // exact are below ten.
  method RoundWhole(style: Style, base: nat, autoscale: bool, suppress: bool, amt0: nat, tenths: nat, rounding: nat, exponent0: nat,
                    ghost exact: bool, ghost num: nat, ghost to: nat)
    returns (shown: Shown, exponent: nat)
    requires (base == 1000 || base == 1024) && to > 0 && tenths < 10 && exponent0 <= EXPONENT_MAX
    requires if exact then Classified(num, Unit(to, base, exponent0), amt0, tenths, rounding) else amt0 < 10 && exponent0 == 0
    requires if autoscale then amt0 < base || exponent0 == EXPONENT_MAX else exponent0 == 0
    requires exponent0 > 0 ==> amt0 >= 10 && Rounded(style, num, Unit(to, base, exponent0 - 1)) >= base
    ensures exact ==> shown == Display(style, num, Unit(to, base, exponent), exponent > 0, suppress)
    ensures exact && autoscale ==> Proper(style, num, to, base, exponent)
    ensures !exact ==> exponent == 0 && shown == Whole(amt0 + if UnitsUp(style, amt0, tenths, rounding) then 1 else 0)
    ensures exponent <= EXPONENT_MAX && (!autoscale ==> exponent == 0) && shown.units <= amt0 + 1
    ensures shown.OneDecimal? ==> shown.tenths < 10
  {
    var amt := amt0 + if UnitsUp(style, amt0, tenths, rounding) then 1 else 0;
    exponent := exponent0;
    if exact {
      WholeRounded(style, num, Unit(to, base, exponent), amt0, tenths, rounding, amt);
    }
    if amt != amt0 && autoscale && amt == base && exponent < EXPONENT_MAX {
      BelowNext(num, Unit(to, base, exponent), amt0, tenths, rounding);
      CarryShown(style, num, Unit(to, base, exponent), base, Unit(to, base, exponent + 1), suppress);
      exponent := exponent + 1;
      shown := if suppress then Whole(1) else OneDecimal(1, 0);
    } else {
      shown := Whole(amt);
    }
  }

  lemma WholeRounded(style: Style, num: nat, den: nat, amt0: nat, tenths: nat, rounding: nat, amt: nat)
    requires den > 0 && Classified(num, den, amt0, tenths, rounding)
    requires amt == amt0 + if UnitsUp(style, amt0, tenths, rounding) then 1 else 0
    ensures Rounded(style, num, den) == amt && Rounds(style, num, den, amt)
    ensures amt0 >= 10 ==> Rounded(style, 10 * num, den) >= 100
  {
    RoundsUnits(style, num, den, amt0, tenths, rounding, amt);
    RoundedIs(style, num, den, amt);
    if amt0 >= 10 {
      ClassifiedFloor(num, den, amt0, tenths, rounding);
      NoDecimal(style, num, den, amt0);
    }
  }

  lemma CarryShown(style: Style, num: nat, den: nat, base: nat, bd: nat, suppress: bool)
    requires den > 0 && base >= 1000 && bd == base * den > 0 && num < bd && Rounds(style, num, den, base)
    ensures Rounded(style, num, bd) == 1
    ensures Display(style, num, bd, true, suppress) == if suppress then Whole(1) else OneDecimal(1, 0)
  {
    Carry(style, num, den, base, bd);
    RoundedIs(style, num, bd, 1);
    RoundedIs(style, 10 * num, bd, 10);
  }

  lemma BelowNext(num: nat, den: nat, amt: nat, tenths: nat, rounding: nat)
    requires Classified(num, den, amt, tenths, rounding)
    ensures num < (amt + 1) * den
  {
    var ad, td := TenthsProducts(amt, tenths, den);
  }

  // At least one unit is at least base of the smaller unit.
  lemma UnitBelow(style: Style, num: nat, den: nat, base: nat, bd: nat, amt: nat)
    requires den > 0 && base > 0 && bd == base * den && FloorOf(num, bd, amt) && amt >= 1
    ensures Rounded(style, num, den) >= base
  {
    var q, r := DivMod(num, den);
    MulLe(1, amt, bd);
    if q < base {
      MulBelow(q, base, den);
    }
  }

  // What to print, and in which unit.
  method Choose(style: Style, base: nat, autoscale: bool, suppress: bool, amt0: nat, tenths0: nat, rounding0: nat,
                ghost exact: bool, ghost num: nat, ghost to: nat)
    returns (shown: Shown, exponent: nat)
    requires (base == 1000 || base == 1024) && to > 0 && tenths0 < 10 && rounding0 < 4
    requires if exact then Classified(num, to, amt0, tenths0, rounding0) else amt0 < 10
    ensures exact ==> shown == Display(style, num, Unit(to, base, exponent), exponent > 0, suppress)
    ensures exact && autoscale ==> Proper(style, num, to, base, exponent)
    ensures !exact ==> exponent == 0 && shown == Whole(amt0 + if UnitsUp(style, amt0, tenths0, rounding0) then 1 else 0)
    ensures exponent <= EXPONENT_MAX && (!autoscale ==> exponent == 0) && shown.units <= amt0 + 10
    ensures shown.OneDecimal? ==> shown.tenths < 10
  {
    var amt, tenths, rounding := amt0, tenths0, rounding0;
    exponent := 0;
    if autoscale && base <= amt {
      amt, tenths, rounding, exponent := Scale(base, amt0, tenths0, rounding0, num, to);
      ClassifiedFloor(num, Unit(to, base, exponent), amt, tenths, rounding);
      UnitBelow(style, num, Unit(to, base, exponent - 1), base, Unit(to, base, exponent), amt);
      if amt < 10 {
        RoundedBounds(style, num, Unit(to, base, exponent), amt);
        shown := RoundScaled(style, suppress, amt, tenths, rounding, num, Unit(to, base, exponent));
        return;
      }
    }
    shown, exponent := RoundWhole(style, base, autoscale, suppress, amt, tenths, rounding, exponent, exact, num, to);
  }

  // The digits in front of the suffix; units is below ten to the twenty-first.
  method Write(buf: array<byte>, end: nat, shown: Shown) returns (p: nat)
    requires 64 <= end <= buf.Length && shown.units < Power10(21) && (shown.OneDecimal? ==> shown.tenths < 10)
    modifies buf
    ensures p <= end && buf[p..end] == Text(shown)
  {
    DigitsLength(shown.units, 21);
    match shown
    case Whole(units) =>
      p := WriteDigits(buf, end, units);
    case OneDecimal(units, tenths) =>
      var point := WriteTenths(buf, end, tenths);
      ghost var tail := buf[point..end];
      p := WriteDigits(buf, point, units);
      assert buf[point..end] == tail;
      assert buf[p..end] == buf[p..point] + tail;
  }

  // Digits that are not exact are below ten and come from the divisor path; what is printed for
  // them is right for exactly the remainders of the closed form.
  lemma InexactDisplay(style: Style, n: nat, from: nat, to: nat, base: nat, amt: nat, tenths: nat, rounding: nat, suppress: bool)
    requires n < UINT64_RANGE && 0 < to < UINT64_RANGE && base >= 1000
    requires IntegerPath(n, from, to) && !ExactPath(n, from, to) && Converted(n, from, to, amt, tenths, rounding)
    ensures amt < 10 && Proper(style, n * from, to, base, 0)
    ensures Whole(amt + if UnitsUp(style, amt, tenths, rounding) then 1 else 0) == Display(style, n * from, to, false, suppress)
            <==> RightPath(style, n, from, to)
  {
    var q, rest := DivMod(to, from);
    var divisor := to / from;
    var q', r := DivMod(n, divisor);
    if q' >= 10 {
      LargeQuotientFits(n, divisor, q', r);
    }
    RoundedBounds(style, n * from, to, amt);
    assert to == divisor * from;
    RoundedScaled(style, n, divisor, from);
    MulLe(1, from, divisor);
    RoundsRightExactly(style, n, divisor);
  }

  lemma ExactIsRight(style: Style, n: nat, from: nat, to: nat)
    requires n < UINT64_RANGE && 0 < to < UINT64_RANGE && ExactPath(n, from, to)
    ensures RightPath(style, n, from, to)
  {
    if to > from {
      var q, rest := DivMod(to, from);
      MulLe(1, from, q);
      var divisor := to / from;
      var q', rem := DivMod(n, divisor);
      FitsDecides(style, n, divisor, q', rem);
      RoundsRightExactly(style, n, divisor);
    }
  }

  // What is printed for n, in which unit. ok is false where the program falls back on floating
  // point.
  method Show(n: nat, style: Style, base: nat, autoscale: bool, suppress: bool, from: nat, to: nat)
    returns (ok: bool, exponent: int, shown: Shown)
    requires n < UINT64_RANGE && from < UINT64_RANGE && 0 < to < UINT64_RANGE && (base == 1000 || base == 1024)
    ensures ok == IntegerPath(n, from, to) && shown.units < UINT64_RANGE + 10 && (shown.OneDecimal? ==> shown.tenths < 10)
    ensures ok ==> if autoscale then 0 <= exponent <= 8 && Proper(style, n * from, to, base, exponent) else exponent == -1
    ensures ok ==> (shown == Display(style, n * from, UnitAt(to, base, exponent), exponent > 0, suppress)
                    <==> RightPath(style, n, from, to))
  {
    var amt, tenths, rounding;
    ok, amt, tenths, rounding := Convert(n, from, to);
    exponent, shown := -1, Whole(0);
    if ok {
      ghost var exact := ExactPath(n, from, to);
      if exact {
        ExactIsRight(style, n, from, to);
      } else {
        InexactDisplay(style, n, from, to, base, amt, tenths, rounding, suppress);
      }
      var power;
      shown, power := Choose(style, base, autoscale, suppress, amt, tenths, rounding, exact, n * from, to);
      if autoscale {
        exponent := power;
      }
    }
  }

  // The unit of the output; without scaling it is the smallest one.
  function UnitAt(to: nat, base: nat, exponent: int): (r: nat)
    requires to > 0 && base > 0
    ensures r > 0
  {
    Unit(to, base, if exponent < 0 then 0 else exponent)
  }

  lemma DigitsFit(units: nat)
    requires units < UINT64_RANGE + 10
    ensures units < Power10(21)
  {
    assert Power10(11) == 100000000000;
  }

  // The number that is printed in front of the suffix. It is the number that should be printed for
  // exactly the inputs of RightPath, and then it is as close as IsPrinted says; the unit is always the
  // right one.
  method HumanReadable(n: nat, buf: array<byte>, style: Style, base: nat, autoscale: bool, suppress: bool, from: nat, to: nat)
    returns (ok: bool, p: nat, exponent: int, ghost shown: Shown)
    requires n < UINT64_RANGE && from < UINT64_RANGE && 0 < to < UINT64_RANGE
    requires (base == 1000 || base == 1024) && buf.Length == LONGEST_HUMAN_READABLE
    modifies buf
    ensures ok <==> if to <= from then from % to == 0 && n * (from / to) < 0x1_0000_0000_0000_0000 else from != 0 && to % from == 0
    ensures ok ==> (shown.OneDecimal? ==> shown.tenths < 10) && p <= buf.Length - SUFFIX_LENGTH_MAX
                   && buf[p..buf.Length - SUFFIX_LENGTH_MAX]
                      == Digits(shown.units) + if shown.OneDecimal? then [46, 48 + shown.tenths] else []
    ensures ok ==> if autoscale then 0 <= exponent <= 8 && Proper(style, n * from, to, base, exponent) else exponent == -1
    ensures ok ==> (shown == Display(style, n * from, UnitAt(to, base, exponent), exponent > 0, suppress)
                    <==> RightPath(style, n, from, to))
    ensures ok && RightPath(style, n, from, to) ==>
              IsPrinted(style, n * from, UnitAt(to, base, exponent), exponent > 0, suppress, shown)
  {
    var what;
    ok, exponent, what := Show(n, style, base, autoscale, suppress, from, to);
    p, shown := LONGEST_HUMAN_READABLE - SUFFIX_LENGTH_MAX, what;
    if ok {
      DisplayIsPrinted(style, n * from, UnitAt(to, base, exponent), exponent > 0, suppress);
      DigitsFit(what.units);
      p := Write(buf, p, what);
    }
  }
}
