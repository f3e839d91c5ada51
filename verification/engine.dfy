/**
 The BigInt engine of bigint.c: a signed magnitude stored as base-256 digits,
 least significant first, with a sign of +1 or -1. Every operation returns a
 new value; the C code's heap cells become immutable sequences.
 */
module Engine {
  import opened Magnitude

  /** The sign field: 1 for positive or zero, -1 for negative. */
  type Sign = s: int | s == 1 || s == -1 witness 1

  /** One BigInt: its digit cells (the first `length` bytes of the C array) and its sign. */
  datatype BigInt = BigInt(digits: seq<Digit>, sign: Sign)

  /** The integer a BigInt denotes: its magnitude with the sign applied. */
  function Value(a: BigInt): int
  {
    if a.sign == 1 then Mag(a.digits) else 0 - Mag(a.digits)
  }

  /** The engine's own zero test: a single digit that is 0. */
  predicate IsZero(a: BigInt)
  {
    |a.digits| == 1 && a.digits[0] == 0
  }

  /** The representation invariant every public constructor and operation
      establishes: trimmed digits, and zero always carries sign +1. */
  predicate Canonical(a: BigInt)
  {
    Normal(a.digits) && (IsZero(a) ==> a.sign == 1)
  }

  function Sgn(x: int): int
  {
    if x > 0 then 1 else if x < 0 then -1 else 0
  }

  function Abs(x: int): nat
  {
    if x < 0 then -x else x
  }

  /** C99 integer division: the quotient rounded toward zero. */
  function TruncDiv(x: int, y: int): int
    requires y != 0
  {
    if (x >= 0) == (y > 0) then Abs(x) / Abs(y) else -(Abs(x) / Abs(y))
  }

  /** C99 remainder: the magnitude's remainder, carrying the dividend's sign. */
  function TruncRem(x: int, y: int): int
    requires y != 0
  {
    if x >= 0 then Abs(x) % Abs(y) else -(Abs(x) % Abs(y))
  }

  /** The outcome of `bigint_div`: BIGINT_OK with quotient and remainder, or
      BIGINT_ERR_DIV0 with no output. */
  datatype DivOutcome = DivOk(quotient: BigInt, remainder: BigInt) | ErrDiv0

  /** The canonical zero, as `bigint_from_int(0)` builds it. */
  const Zero: BigInt := BigInt([0], 1)

  lemma CanonicalMag(a: BigInt)
    requires Canonical(a)
    ensures Mag(a.digits) == Abs(Value(a))
    ensures Mag(a.digits) == 0 <==> IsZero(a)
    ensures Value(a) < 0 <==> a.sign == -1
  {
    NormalZero(a.digits);
  }

  /** Each integer has exactly one canonical representation. */
  lemma CanonicalUnique(a: BigInt, b: BigInt)
    requires Canonical(a) && Canonical(b) && Value(a) == Value(b)
    ensures a == b
  {
    CanonicalMag(a);
    CanonicalMag(b);
    NormalUnique(a.digits, b.digits);
  }

  /** The division-remainder law for the C99 operators. */
  lemma TruncDivRem(x: int, y: int)
    requires y != 0
    ensures x == TruncDiv(x, y) * y + TruncRem(x, y)
    ensures Abs(TruncRem(x, y)) < Abs(y)
  {
    var ax: int, ay: int := Abs(x), Abs(y);
    var q: int, r: int := ax / ay, ax % ay;
    EuclidParts(ax, ay);
    NegateFactors(q, ay);
    if x >= 0 && y > 0 {
      assert TruncDiv(x, y) == q && TruncRem(x, y) == r;
    } else if x >= 0 {
      assert y == 0 - ay;
      assert TruncDiv(x, y) == 0 - q && TruncRem(x, y) == r;
    } else if y > 0 {
      assert x == 0 - ax;
      assert TruncDiv(x, y) == 0 - q && TruncRem(x, y) == 0 - r;
    } else {
      assert x == 0 - ax && y == 0 - ay;
      assert TruncDiv(x, y) == q && TruncRem(x, y) == 0 - r;
    }
  }

  lemma EuclidParts(m: int, n: int)
    requires 0 <= m && 0 < n
    ensures m == (m / n) * n + m % n && 0 <= m % n < n
  {
  }

  /** Euclidean division of naturals has one answer. */
  lemma DivModUnique(m: nat, n: nat, q: nat, r: nat)
    requires n > 0 && r < n && m == q * n + r
    ensures q == m / n && r == m % n
  {
    var q', r' := m / n, m % n;
    assert m == q' * n + r';
    if q < q' {
      MulMonotone(n, q + 1, q');
      assert false;
    } else if q' < q {
      MulMonotone(n, q' + 1, q);
      assert false;
    }
  }

  // ---------------------------------------------------------------------------
  // Internal helpers: bigint_trim, cmp_abs, add_abs, sub_abs
  // ---------------------------------------------------------------------------

  /** `bigint_trim`: drop most-significant zero digits (keeping at least one)
      and give a zero result the sign +1. */
  method Trim(a: BigInt) returns (r: BigInt)
    ensures Mag(r.digits) == Mag(a.digits) && Value(r) == Value(a)
    ensures |r.digits| <= |a.digits| && r.digits == a.digits[..|r.digits|]
    ensures |a.digits| >= 1 ==> Canonical(r)
    ensures !IsZero(r) ==> r.sign == a.sign
  {
    var n := |a.digits|;
    assert a.digits[..n] == a.digits;
    while n > 1 && a.digits[n - 1] == 0
      invariant 0 <= n <= |a.digits|
      invariant |a.digits| >= 1 ==> n >= 1
      invariant Mag(a.digits[..n]) == Mag(a.digits)
    {
      MagTake(a.digits, n - 1);
      assert Pow(n - 1) * a.digits[n - 1] == 0;
      n := n - 1;
    }
    var sign := a.sign;
    if n == 1 && a.digits[0] == 0 {
      sign := 1;
    }
    r := BigInt(a.digits[..n], sign);
    if |a.digits| >= 1 {
      NormalZero(r.digits);
    }
  }

  /** `cmp_abs`: a longer digit sequence wins; at equal length the first
      differing digit from the top decides. */
  method CmpAbs(a: BigInt, b: BigInt) returns (c: int)
    ensures |a.digits| != |b.digits| ==> c == (if |a.digits| > |b.digits| then 1 else -1)
    ensures |a.digits| == |b.digits| ==> c == Sgn(Mag(a.digits) - Mag(b.digits))
    ensures Normal(a.digits) && Normal(b.digits) ==> c == Sgn(Mag(a.digits) - Mag(b.digits))
  {
    if |a.digits| != |b.digits| {
      if |a.digits| > |b.digits| {
        c := 1;
        if Normal(a.digits) && Normal(b.digits) {
          LongerIsLarger(a.digits, b.digits);
        }
      } else {
        c := -1;
        if Normal(a.digits) && Normal(b.digits) {
          LongerIsLarger(b.digits, a.digits);
        }
      }
      return;
    }
    var i := |a.digits|;
    while i > 0
      invariant 0 <= i <= |a.digits|
      invariant a.digits[i..] == b.digits[i..]
    {
      i := i - 1;
      if a.digits[i] != b.digits[i] {
        if a.digits[i] > b.digits[i] {
          MagCompareAt(b.digits, a.digits, i);
          c := 1;
        } else {
          MagCompareAt(a.digits, b.digits, i);
          c := -1;
        }
        return;
      }
      assert a.digits[i..] == [a.digits[i]] + a.digits[i + 1..];
      assert b.digits[i..] == [b.digits[i]] + b.digits[i + 1..];
    }
    assert a.digits == a.digits[0..] && b.digits == b.digits[0..];
    c := 0;
  }

  lemma AddDigitStep(m: int, c: int, p: int, p1: int, la: int, lb: int, da: int, db: int)
    requires m + p * c == la + lb && da + db + c >= 0 && p1 == Radix * p
    ensures var sum := da + db + c;
      (m + p * (sum % Radix)) + p1 * (sum / Radix) == (la + p * da) + (lb + p * db)
  {
    var sum := da + db + c;
    ScaleDivMod(p, sum);
    assert p * sum == p * da + p * db + p * c;
  }

  /** One column of `add_abs`: the digit and carry out keep the running sum
      exact. The pending carry is held as one more digit on top of `ds`. */
  lemma AddStep(a: seq<Digit>, b: seq<Digit>, ds: seq<Digit>, carry: Digit, i: nat)
    requires |ds| == i && carry <= 1
    requires Mag(ds + [carry]) == Low(a, i) + Low(b, i)
    ensures var sum := DigitAt(a, i) + DigitAt(b, i) + carry;
      sum / Radix <= 1 &&
      Mag(ds + [sum % Radix] + [sum / Radix]) == Low(a, i + 1) + Low(b, i + 1)
  {
    var sum := DigitAt(a, i) + DigitAt(b, i) + carry;
    var d, c := sum % Radix, sum / Radix;
    MagSnoc(ds, carry);
    MagSnoc(ds, d);
    MagSnoc(ds + [d], c);
    LowStep(a, i);
    LowStep(b, i);
    assert Pow(i + 1) == Radix * Pow(i);
    AddDigitStep(Mag(ds), carry, Pow(i), Pow(i + 1), Low(a, i), Low(b, i), DigitAt(a, i), DigitAt(b, i));
  }

  /** The digit loop of `add_abs`: addition with carry over
      max(len a, len b) + 1 positions. */
  method AddDigits(a: seq<Digit>, b: seq<Digit>) returns (ds: seq<Digit>)
    ensures |ds| == (if |a| > |b| then |a| else |b|) + 1
    ensures Mag(ds) == Mag(a) + Mag(b)
  {
    var len := (if |a| > |b| then |a| else |b|) + 1;
    ds := [];
    var carry: Digit := 0;
    var i := 0;
    MagSnoc(ds, 0);
    while i < len
      invariant 0 <= i <= len && |ds| == i
      invariant 0 <= carry <= 1
      invariant Mag(ds + [carry]) == Low(a, i) + Low(b, i)
      // past both inputs only the carry is added, so none goes out of the top cell
      invariant i > |a| && i > |b| ==> carry == 0
    {
      var sum := DigitAt(a, i) + DigitAt(b, i) + carry;
      var d: Digit := sum % Radix;
      AddStep(a, b, ds, carry, i);
      ds := ds + [d];
      carry := sum / Radix;
      i := i + 1;
    }
    LowAll(a, len);
    LowAll(b, len);
    MagSnoc(ds, 0);
  }

  /** `add_abs`: the digit sum of the two magnitudes, with sign +1, trimmed. */
  method AddAbs(a: BigInt, b: BigInt) returns (r: BigInt)
    ensures Canonical(r) && r.sign == 1
    ensures Mag(r.digits) == Mag(a.digits) + Mag(b.digits)
  {
    var ds := AddDigits(a.digits, b.digits);
    r := Trim(BigInt(ds, 1));
  }

  lemma SubDigitStep(m: int, bo: int, p: int, la: int, lb: int, da: int, db: int, diff: int, bo2: int)
    requires m == la - lb + bo * p && diff == da - db - bo + Radix * bo2
    ensures m + p * diff == (la + p * da) - (lb + p * db) + bo2 * (Radix * p)
  {
    assert p * diff == p * da - p * db - p * bo + (Radix * p) * bo2;
  }

  /** `sub_abs`: digit-wise subtraction with borrow over the digits of `a`;
      the source requires |a| >= |b|. */
  method SubAbs(a: BigInt, b: BigInt) returns (r: BigInt)
    requires Mag(b.digits) <= Mag(a.digits)
    ensures r.sign == 1 && Mag(r.digits) == Mag(a.digits) - Mag(b.digits)
    ensures |a.digits| >= 1 ==> Canonical(r)
  {
    var ds: seq<Digit> := [];
    var borrow := 0;
    var i := 0;
    while i < |a.digits|
      invariant 0 <= i <= |a.digits| && |ds| == i
      invariant 0 <= borrow <= 1
      invariant Mag(ds) == Low(a.digits, i) - Low(b.digits, i) + borrow * Pow(i)
    {
      var diff := a.digits[i] - DigitAt(b.digits, i) - borrow;
      var next := 0;
      if diff < 0 {
        diff := diff + Radix;
        next := 1;
      }
      SubDigitStep(Mag(ds), borrow, Pow(i), Low(a.digits, i), Low(b.digits, i),
                   a.digits[i], DigitAt(b.digits, i), diff, next);
      LowStep(a.digits, i);
      LowStep(b.digits, i);
      MagSnoc(ds, diff);
      ds := ds + [diff];
      borrow := next;
      i := i + 1;
    }
    MagBound(a.digits);
    LowAll(a.digits, i);
    if |b.digits| > i {
      MagTruncate(b.digits, i);
    } else {
      LowAll(b.digits, i);
    }
    MagBound(ds);
    // no borrow is left over, because |a| - |b| >= 0 and ds has |a| digits
    assert borrow == 0;
    r := Trim(BigInt(ds, 1));
  }

  // ---------------------------------------------------------------------------
  // Public operations
  // ---------------------------------------------------------------------------

  /** `bigint_from_int`: the base-256 digits of |value| by repeated division,
      with the sign of `value`. */
  method FromInt(value: int) returns (r: BigInt)
    ensures Canonical(r) && Value(r) == value
    ensures Mag(r.digits) == Abs(value)
    ensures r.sign == (if value < 0 then -1 else 1)
    ensures value == 0 ==> r == Zero
  {
    var sign: Sign := if value < 0 then -1 else 1;
    var u: nat := Abs(value);
    if u == 0 {
      r := BigInt([0], sign);
      return;
    }
    var ds: seq<Digit> := [];
    while u > 0
      invariant Mag(ds) + Pow(|ds|) * u == Abs(value)
      invariant u > 0 || (|ds| >= 1 && ds[|ds| - 1] != 0)
      decreases u
    {
      var d: Digit := u % Radix;
      MagSnoc(ds, d);
      ScaleDivMod(Pow(|ds|), u);
      ds := ds + [d];
      u := u / Radix;
    }
    r := BigInt(ds, sign);
    NormalZero(ds);
  }

  /** `bigint_cmp` on canonical operands: -1, 0 or 1 as the sign of a - b. */
  method Cmp(a: BigInt, b: BigInt) returns (c: int)
    requires Canonical(a) && Canonical(b)
    ensures c == Sgn(Value(a) - Value(b))
  {
    CanonicalMag(a);
    CanonicalMag(b);
    if a.sign != b.sign {
      c := if a.sign > b.sign then 1 else -1;
      return;
    }
    var m := CmpAbs(a, b);
    c := if a.sign == 1 then m else -m;
  }

  /** `bigint_add`: same signs add magnitudes; different signs subtract the
      smaller magnitude from the larger, and equal magnitudes give zero. */
  method Add(a: BigInt, b: BigInt) returns (r: BigInt)
    requires Canonical(a) && Canonical(b)
    ensures Canonical(r) && Value(r) == Value(a) + Value(b)
  {
    var res: BigInt;
    if a.sign == b.sign {
      res := AddAbs(a, b);
      res := res.(sign := a.sign);
    } else {
      var c := CmpAbs(a, b);
      if c == 0 {
        r := FromInt(0);
        return;
      }
      if c > 0 {
        res := SubAbs(a, b);
      } else {
        res := SubAbs(b, a);
      }
      res := res.(sign := if c > 0 then a.sign else b.sign);
    }
    r := Trim(res);
  }

  /** The negated operand `bigint_sub` builds: the sign flips, except that
      zero keeps the sign +1. */
  function Negate(b: BigInt): (r: BigInt)
    ensures r.digits == b.digits
    ensures Canonical(b) ==> Canonical(r) && Value(r) == -Value(b)
  {
    var s: Sign := if |b.digits| == 1 && b.digits[0] == 0 then 1 else -(b.sign as int);
    assert IsZero(b) ==> Mag(b.digits) == b.digits[0] + Radix * Mag(b.digits[1..]);
    b.(sign := s)
  }

  /** `bigint_sub`: addition of the negated second operand. */
  method Sub(a: BigInt, b: BigInt) returns (r: BigInt)
    requires Canonical(a) && Canonical(b)
    ensures Canonical(r) && Value(r) == Value(a) - Value(b)
  {
    r := Add(a, Negate(b));
  }

  lemma DigitProduct(x: Digit, y: Digit)
    ensures 0 <= x * y <= 255 * 255
  {
    MulMonotone(x, y, 255);
    MulMonotone(255, x, 255);
  }

  lemma MulDigitStep(m: int, m2: int, x: int, c: int, p: int, pi: int, pj: int,
                     ai: int, bj: int, base: int, lowB: int, lowB2: int, prod: int)
    requires m + c * p == base + ai * pi * lowB
    requires prod == ai * bj + x + c && prod >= 0
    requires m2 + p * x == m + p * (prod % Radix)
    requires p == pi * pj && lowB2 == lowB + pj * bj
    ensures m2 + (prod / Radix) * (Radix * p) == base + ai * pi * lowB2
  {
    ScaleDivMod(p, prod);
    assert p * prod == p * (ai * bj) + p * x + p * c;
    assert p * (ai * bj) == ai * pi * (pj * bj);
    assert ai * pi * lowB2 == ai * pi * lowB + ai * pi * (pj * bj);
  }


  /** The inner-loop step of `bigint_mul` keeps the row's accounting exact. */
  lemma MulCellStep(res: seq<Digit>, cur: seq<Digit>, ai: Digit, bs: seq<Digit>, i: nat, j: nat,
                    carry: int, prod: int, weight: int)
    requires j < |bs| && i + j < |cur| && weight == ai * Pow(i)
    requires Mag(cur) + carry * Pow(i + j) == Mag(res) + weight * Mag(bs[..j])
    requires prod == ai * bs[j] + cur[i + j] + carry && prod >= 0
    ensures Mag(cur[i + j := prod % Radix]) + (prod / Radix) * Pow(i + j + 1)
            == Mag(res) + weight * Mag(bs[..j + 1])
  {
    MagUpdate(cur, i + j, prod % Radix);
    PowAdd(i, j);
    MagTake(bs, j);
    MulDigitStep(Mag(cur), Mag(cur[i + j := prod % Radix]), cur[i + j], carry, Pow(i + j),
                 Pow(i), Pow(j), ai, bs[j], Mag(res), Mag(bs[..j]), Mag(bs[..j + 1]), prod);
  }

  /** One row of `bigint_mul`: adds digit `ai` times `bs`, shifted by `i`
      positions, into the cells of `res`, then stores the final carry in cell
      i + len(b), which no earlier row has written. */
  method MulRow(res: seq<Digit>, ai: Digit, bs: seq<Digit>, i: nat) returns (res': seq<Digit>)
    requires i + |bs| < |res|
    requires forall k :: i + |bs| <= k < |res| ==> res[k] == 0
    ensures |res'| == |res|
    ensures forall k :: i + |bs| < k < |res| ==> res'[k] == 0
    ensures Mag(res') == Mag(res) + ai * Pow(i) * Mag(bs)
  {
    var n := |bs|;
    res' := res;
    var carry := 0;
    var j := 0;
    ghost var weight := ai * Pow(i);
    while j < n
      invariant 0 <= j <= n && |res'| == |res|
      invariant 0 <= carry <= 255
      invariant forall k :: i + n <= k < |res| ==> res'[k] == 0
      invariant Mag(res') + carry * Pow(i + j) == Mag(res) + weight * Mag(bs[..j])
    {
      DigitProduct(ai, bs[j]);
      var prod := ai * bs[j] + res'[i + j] + carry;
      // prod <= 255 * 255 + 255 + 255 == 65535, so the carry stays <= 255
      assert prod <= 65535;
      MulCellStep(res, res', ai, bs, i, j, carry, prod, weight);
      res' := res'[i + j := prod % Radix];
      carry := prod / Radix;
      j := j + 1;
    }
    // cell i + len(b) is still 0, so adding the carry (<= 255) cannot overflow
    assert res'[i + n] == 0;
    assert bs[..n] == bs;
    CarryStore(res, res', i + n, carry, weight * Mag(bs));
    res' := res'[i + n := res'[i + n] + carry];
  }

  lemma CarryStore(res: seq<Digit>, cur: seq<Digit>, k: nat, carry: Digit, added: int)
    requires k < |cur| && cur[k] == 0
    requires Mag(cur) + carry * Pow(k) == Mag(res) + added
    ensures Mag(cur[k := carry]) == Mag(res) + added
  {
    MagUpdate(cur, k, carry);
  }


  /** The digit loops of `bigint_mul`: len(a) + len(b) zeroed cells, and for
      every digit of `a` one row of `b` added in at that digit's position. */
  method MulDigits(xs: seq<Digit>, ys: seq<Digit>) returns (res: seq<Digit>)
    ensures |res| == |xs| + |ys|
    ensures Mag(res) == Mag(xs) * Mag(ys)
  {
    var m, n := |xs|, |ys|;
    res := seq(m + n, _ => 0);
    MagZeros(m + n);
    var i := 0;
    while i < m
      invariant 0 <= i <= m && |res| == m + n
      invariant forall k :: i + n <= k < m + n ==> res[k] == 0
      invariant Mag(res) == Mag(xs[..i]) * Mag(ys)
    {
      var res' := MulRow(res, xs[i], ys, i);
      MagTake(xs, i);
      MulRowStep(Mag(res), Mag(res'), Mag(xs[..i]), Mag(xs[..i + 1]), Pow(i), xs[i], Mag(ys));
      res := res';
      i := i + 1;
    }
    assert xs[..m] == xs;
  }

  /** `bigint_mul`: the digit product, with sign +1 when the signs agree and
      -1 otherwise, trimmed. */
  method Mul(a: BigInt, b: BigInt) returns (r: BigInt)
    ensures Value(r) == Value(a) * Value(b)
    ensures Mag(r.digits) == Mag(a.digits) * Mag(b.digits)
    ensures |a.digits| + |b.digits| >= 1 ==> Canonical(r)
    ensures !IsZero(r) ==> r.sign == (if a.sign == b.sign then 1 else -1)
  {
    var res := MulDigits(a.digits, b.digits);
    var sign: Sign := if a.sign == b.sign then 1 else -1;
    SignedProduct(a, b, BigInt(res, sign));
    r := Trim(BigInt(res, sign));
  }

  lemma MulRowStep(m: int, m2: int, lowA: int, lowA2: int, pi: int, ai: int, mb: int)
    requires m == lowA * mb && m2 == m + ai * pi * mb && lowA2 == lowA + pi * ai
    ensures m2 == lowA2 * mb
  {
    assert lowA2 * mb == lowA * mb + (pi * ai) * mb;
  }

  /** The product's sign rule: like signs give +, unlike give -. */
  lemma SignedProduct(a: BigInt, b: BigInt, p: BigInt)
    requires Mag(p.digits) == Mag(a.digits) * Mag(b.digits)
    requires p.sign == (if a.sign == b.sign then 1 else -1)
    ensures Value(p) == Value(a) * Value(b)
  {
    NegateFactors(Mag(a.digits), Mag(b.digits));
  }

  lemma NegateFactors(x: int, y: int)
    ensures (0 - x) * y == 0 - x * y && x * (0 - y) == 0 - x * y && (0 - x) * (0 - y) == x * y
  {
  }

  /** `q * |b| <= |rem|`: the trial multiple of the divisor still fits. */
  predicate Fits(q: int, b: BigInt, rem: BigInt)
  {
    q * Mag(b.digits) <= Mag(rem.digits)
  }

  lemma FitsMonotone(w: int, v: int, b: BigInt, rem: BigInt)
    requires w <= v && !Fits(w, b, rem)
    ensures !Fits(v, b, rem)
  {
    MulMonotone(Mag(b.digits), w, v);
  }

  /** One probe of the binary search: `cmp_abs(b * mid, rem) <= 0`. */
  method TrialFits(b: BigInt, rem: BigInt, mid: Digit) returns (fits: bool)
    requires Normal(rem.digits)
    ensures fits <==> Fits(mid, b, rem)
  {
    var m := FromInt(mid);
    var p := Mul(b, m);
    p := p.(sign := 1);
    ProductMag(Mag(p.digits), Mag(b.digits), Mag(m.digits), mid);
    var c := CmpAbs(p, rem);
    fits := c <= 0;
  }

  /** The binary search of `bigint_div` over [0, 255]: the largest digit whose
      multiple of |b| does not exceed the running remainder. */
  method QuotientDigit(b: BigInt, rem: BigInt) returns (qd: Digit)
    requires Normal(rem.digits)
    ensures Fits(qd, b, rem)
    ensures forall v :: qd < v < Radix ==> !Fits(v, b, rem)
  {
    var lo, hi := 0, Radix - 1;
    qd := 0;
    while lo <= hi
      invariant 0 <= lo <= hi + 1 <= Radix
      invariant Fits(qd, b, rem)
      invariant (lo == 0 && qd == 0) || (lo >= 1 && qd == lo - 1)
      invariant hi == Radix - 1 || !Fits(hi + 1, b, rem)
      decreases hi - lo
    {
      var mid := (lo + hi) / 2;
      var fits := TrialFits(b, rem, mid);
      if fits {
        qd := mid;
        lo := mid + 1;
      } else {
        hi := mid - 1;
      }
    }
    forall v | qd < v < Radix
      ensures !Fits(v, b, rem)
    {
      FitsMonotone(hi + 1, v, b, rem);
    }
  }

  lemma DivStep(ai: int, rm: int, qm: int, mb: int, qd: int, s: int, rm2: int)
    requires s == ai + Radix * rm && rm2 == s - qd * mb
    ensures ai + Radix * (qm * mb + rm) == (qd + Radix * qm) * mb + rm2
  {
    assert (qd + Radix * qm) * mb == qd * mb + Radix * (qm * mb);
  }

  lemma NextDigitFits(s: int, qd: int, mb: int, ai: Digit, rm: int)
    requires 0 <= rm < mb && s == ai + Radix * rm && 0 <= qd < Radix
    requires qd == Radix - 1 || s < (qd + 1) * mb
    ensures s < (qd + 1) * mb && s - qd * mb < mb
  {
    assert (qd + 1) * mb == qd * mb + mb;
    if qd == Radix - 1 {
      MulMonotone(Radix, rm, mb - 1);
    }
  }

  /** `rem = rem * RADIX + ai` in `bigint_div`: every digit moves up one cell
      and `ai` enters at the bottom. */
  method ShiftIn(rem: BigInt, ai: Digit) returns (shifted: BigInt)
    requires Canonical(rem) && rem.sign == 1
    ensures Canonical(shifted) && shifted.sign == 1
    ensures Mag(shifted.digits) == ai + Radix * Mag(rem.digits)
  {
    shifted := Trim(BigInt([ai] + rem.digits, 1));
    assert ([ai] + rem.digits)[1..] == rem.digits;
  }

  /** `rem = rem - qd * b` in `bigint_div`, on magnitudes. */
  method SubtractMultiple(rem: BigInt, b: BigInt, qd: Digit) returns (rem': BigInt)
    requires Canonical(rem) && Fits(qd, b, rem)
    ensures Canonical(rem') && rem'.sign == 1
    ensures Mag(rem'.digits) == Mag(rem.digits) - qd * Mag(b.digits)
  {
    var qb := FromInt(qd);
    var sub := Mul(b, qb);
    sub := sub.(sign := 1);
    ProductMag(Mag(sub.digits), Mag(b.digits), Mag(qb.digits), qd);
    rem' := SubAbs(rem, sub);
  }

  lemma ProductMag(ms: int, mb: int, mq: int, qd: int)
    requires ms == mb * mq && mq == qd
    ensures ms == qd * mb
  {
  }

  /** One step of `bigint_div`'s main loop: shift the running remainder up one
      position and bring in digit `ai`, find the quotient digit by binary
      search, and subtract that multiple of |b|. */
  method LongDivDigit(rem: BigInt, ai: Digit, b: BigInt) returns (qd: Digit, rem': BigInt)
    requires Canonical(rem) && rem.sign == 1 && Mag(rem.digits) < Mag(b.digits)
    ensures Canonical(rem') && rem'.sign == 1
    ensures Mag(rem'.digits) < Mag(b.digits)
    ensures Mag(rem'.digits) == ai + Radix * Mag(rem.digits) - qd * Mag(b.digits)
  {
    var shifted := ShiftIn(rem, ai);
    qd := QuotientDigit(b, shifted);
    if qd < Radix - 1 {
      assert !Fits(qd + 1, b, shifted);
    }
    NextDigitFits(Mag(shifted.digits), qd, Mag(b.digits), ai, Mag(rem.digits));
    rem' := SubtractMultiple(shifted, b, qd);
  }

  /** The main loop of `bigint_div`: the digits of `a` are brought into the
      running remainder from the most significant down, each yielding the
      quotient digit at the same position. */
  method LongDivision(a: seq<Digit>, b: BigInt) returns (quot: seq<Digit>, rem: BigInt)
    requires Mag(b.digits) > 0
    ensures |quot| == |a|
    ensures Canonical(rem) && rem.sign == 1 && Mag(rem.digits) < Mag(b.digits)
    ensures Mag(a) == Mag(quot) * Mag(b.digits) + Mag(rem.digits)
  {
    var n := |a|;
    var mb := Mag(b.digits);
    quot := seq(n, _ => 0);
    rem := FromInt(0);
    var i := n;
    while i > 0
      invariant 0 <= i <= n && |quot| == n
      invariant Canonical(rem) && rem.sign == 1
      invariant Mag(rem.digits) < mb
      invariant Mag(a[i..]) == Mag(quot[i..]) * mb + Mag(rem.digits)
    {
      i := i - 1;
      var qd, rem' := LongDivDigit(rem, a[i], b);
      var oldQuot := quot;
      quot := quot[i := qd];
      assert a[i..][1..] == a[i + 1..];
      assert quot[i..][1..] == oldQuot[i + 1..];
      DivStep(a[i], Mag(rem.digits), Mag(oldQuot[i + 1..]), mb, qd,
              a[i] + Radix * Mag(rem.digits), Mag(rem'.digits));
      rem := rem';
    }
    assert a[0..] == a && quot[0..] == quot;
  }

  /** Magnitudes from Euclidean division, signed by the rules of `bigint_div`,
      are exactly the C99 truncated quotient and remainder. */
  lemma TruncatedParts(a: BigInt, b: BigInt, q: BigInt, r: BigInt)
    requires Canonical(a) && Canonical(b) && Canonical(q) && Canonical(r) && !IsZero(b)
    requires Mag(a.digits) == Mag(q.digits) * Mag(b.digits) + Mag(r.digits)
    requires Mag(r.digits) < Mag(b.digits)
    requires !IsZero(q) ==> q.sign == a.sign * b.sign
    requires !IsZero(r) ==> r.sign == a.sign
    ensures Value(q) == TruncDiv(Value(a), Value(b))
    ensures Value(r) == TruncRem(Value(a), Value(b))
  {
    CanonicalMag(a);
    CanonicalMag(b);
    CanonicalMag(q);
    CanonicalMag(r);
    DivModUnique(Mag(a.digits), Mag(b.digits), Mag(q.digits), Mag(r.digits));
    if !IsZero(q) {
      MulAtLeast(Mag(b.digits), Mag(q.digits));
    }
  }

  /** `bigint_div`: truncating long division of canonical operands. */
  method Div(a: BigInt, b: BigInt) returns (out: DivOutcome)
    requires Canonical(a) && Canonical(b)
    ensures out.ErrDiv0? <==> Value(b) == 0
    ensures out.DivOk? ==> Canonical(out.quotient) && Canonical(out.remainder)
    ensures out.DivOk? ==> Value(out.quotient) == TruncDiv(Value(a), Value(b))
    ensures out.DivOk? ==> Value(out.remainder) == TruncRem(Value(a), Value(b))
    ensures out.DivOk? ==> Value(a) == Value(out.quotient) * Value(b) + Value(out.remainder)
    ensures out.DivOk? ==> Abs(Value(out.remainder)) < Abs(Value(b))
    ensures out.DivOk? && !IsZero(out.quotient) ==> out.quotient.sign == a.sign * b.sign
    ensures out.DivOk? && !IsZero(out.remainder) ==> out.remainder.sign == a.sign
    ensures Value(b) != 0 && Mag(a.digits) < Mag(b.digits) ==> out == DivOk(Zero, a)
  {
    CanonicalMag(a);
    CanonicalMag(b);
    if |b.digits| == 1 && b.digits[0] == 0 {
      return ErrDiv0;
    }
    var c := CmpAbs(a, b);
    if c < 0 {
      var zero := FromInt(0);
      out := DivOk(zero, a);
      TruncatedParts(a, b, zero, a);
      TruncDivRem(Value(a), Value(b));
      return;
    }
    var quot, rem := LongDivision(a.digits, b);
    var qt := Trim(BigInt(quot, 1));
    var q := qt.(sign := if a.sign == b.sign then 1 else -1);
    var r := rem.(sign := a.sign);
    if IsZero(q) {
      q := q.(sign := 1);
    }
    if IsZero(r) {
      r := r.(sign := 1);
    }
    out := DivOk(q, r);
    TruncatedParts(a, b, q, r);
    TruncDivRem(Value(a), Value(b));
  }
}
