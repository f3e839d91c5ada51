/**
 Positional arithmetic on base-256 digit sequences, least significant digit
 first: the representation every BigInt magnitude uses. `Mag` is the
 interpretation function; the lemmas relate it to concatenation, prefixes,
 single-cell updates and the bounds a sequence of a given length can reach.
 */
module Magnitude {

  /** The radix of the representation (RADIX in bigint.h). */
  const Radix: int := 256

  /** One digit: the value range of an `unsigned char` cell. */
  type Digit = d: int | 0 <= d < 256

  /** Radix^k. */
  function Pow(k: nat): (p: nat)
    ensures p >= 1
  {
    if k == 0 then 1 else Radix * Pow(k - 1)
  }

  /** The natural number denoted by `ds`, least significant digit first. */
  function Mag(ds: seq<Digit>): nat
  {
    if |ds| == 0 then 0 else ds[0] + Radix * Mag(ds[1..])
  }

  /** The digit at position `i`, reading absent positions as 0. */
  function DigitAt(ds: seq<Digit>, i: nat): Digit
  {
    if i < |ds| then ds[i] else 0
  }

  /** The value of the lowest `i` positions of `ds` (absent positions read as 0). */
  function Low(ds: seq<Digit>, i: nat): nat
  {
    if i <= |ds| then Mag(ds[..i]) else Mag(ds)
  }

  /** A trimmed magnitude: at least one digit, and no most-significant zero
      digit unless the number is the single digit 0. */
  predicate Normal(ds: seq<Digit>)
  {
    |ds| >= 1 && (|ds| == 1 || ds[|ds| - 1] != 0)
  }

  lemma {:induction false} PowAdd(i: nat, j: nat)
    ensures Pow(i + j) == Pow(i) * Pow(j)
  {
    if i > 0 {
      PowAdd(i - 1, j);
      assert Pow(i + j) == Radix * (Pow(i - 1) * Pow(j));
      assert Pow(i) == Radix * Pow(i - 1);
    }
  }

  lemma {:induction false} PowMonotone(i: nat, j: nat)
    requires i <= j
    ensures Pow(i) <= Pow(j)
  {
    if i < j {
      PowMonotone(i, j - 1);
    }
  }

  /** A sequence of n digits denotes less than Radix^n. */
  lemma {:induction false} MagBound(s: seq<Digit>)
    ensures Mag(s) < Pow(|s|)
  {
    if |s| > 0 {
      MagBound(s[1..]);
      assert Mag(s[1..]) <= Pow(|s| - 1) - 1;
      assert Radix * Mag(s[1..]) <= Radix * Pow(|s| - 1) - Radix;
    }
  }

  lemma {:induction false} MagConcat(s: seq<Digit>, t: seq<Digit>)
    ensures Mag(s + t) == Mag(s) + Pow(|s|) * Mag(t)
  {
    if |s| == 0 {
      assert s + t == t;
    } else {
      assert (s + t)[1..] == s[1..] + t;
      MagConcat(s[1..], t);
      assert Mag(s + t) == s[0] + Radix * Mag(s[1..] + t);
      assert Pow(|s|) == Radix * Pow(|s| - 1);
      ShiftedSum(Mag(s[1..]), Pow(|s| - 1), Mag(t));
    }
  }

  lemma ShiftedSum(m: int, p: int, x: int)
    ensures Radix * (m + p * x) == Radix * m + (Radix * p) * x
  {
  }

  lemma MagSplit(s: seq<Digit>, i: nat)
    requires i <= |s|
    ensures Mag(s) == Mag(s[..i]) + Pow(i) * Mag(s[i..])
  {
    assert s == s[..i] + s[i..];
    MagConcat(s[..i], s[i..]);
  }

  /** Appending one more significant digit. */
  lemma MagSnoc(s: seq<Digit>, d: Digit)
    ensures Mag(s + [d]) == Mag(s) + Pow(|s|) * d
  {
    MagConcat(s, [d]);
    assert [d][1..] == [];
    assert Mag([d]) == d;
  }

  /** Growing a prefix by one digit. */
  lemma MagTake(s: seq<Digit>, i: nat)
    requires i < |s|
    ensures Mag(s[..i + 1]) == Mag(s[..i]) + Pow(i) * s[i]
  {
    assert s[..i + 1] == s[..i] + [s[i]];
    MagSnoc(s[..i], s[i]);
  }

  lemma LowStep(s: seq<Digit>, i: nat)
    ensures Low(s, i + 1) == Low(s, i) + Pow(i) * DigitAt(s, i)
  {
    if i < |s| {
      MagTake(s, i);
    } else if i == |s| {
      assert s[..i] == s;
    }
  }

  lemma LowAll(s: seq<Digit>, i: nat)
    requires |s| <= i
    ensures Low(s, i) == Mag(s)
  {
    assert s[..|s|] == s;
  }

  /** Replacing the digit at position i changes the value by the difference times Radix^i. */
  lemma MagUpdate(s: seq<Digit>, i: nat, v: Digit)
    requires i < |s|
    ensures Mag(s[i := v]) + Pow(i) * s[i] == Mag(s) + Pow(i) * v
  {
    var s' := s[i := v];
    MagSplit(s, i);
    MagSplit(s', i);
    assert s'[..i] == s[..i];
    assert s[i..][1..] == s'[i..][1..];
    var tail := Mag(s[i..][1..]);
    assert Mag(s[i..]) == s[i] + Radix * tail;
    assert Mag(s'[i..]) == v + Radix * tail;
    ReplaceLowDigit(Mag(s[..i]), Pow(i), tail, s[i], v);
  }

  lemma ReplaceLowDigit(lo: int, p: int, tail: int, a: int, v: int)
    ensures (lo + p * (v + Radix * tail)) + p * a == (lo + p * (a + Radix * tail)) + p * v
  {
  }

  /** A normal magnitude of n >= 2 digits is at least Radix^(n-1). */
  lemma MagTopNonzero(s: seq<Digit>)
    requires |s| >= 1 && s[|s| - 1] != 0
    ensures Pow(|s| - 1) <= Mag(s)
  {
    MagSplit(s, |s| - 1);
    assert Mag(s[|s| - 1..]) == s[|s| - 1] + Radix * Mag(s[|s| - 1..][1..]);
  }

  lemma NormalZero(s: seq<Digit>)
    requires Normal(s)
    ensures Mag(s) == 0 <==> s == [0]
  {
    if |s| >= 2 {
      MagTopNonzero(s);
    } else {
      assert Mag(s) == s[0] + Radix * Mag(s[1..]);
    }
  }

  /** A magnitude below Radix^k loses nothing when cut to its lowest k digits. */
  lemma MagTruncate(s: seq<Digit>, k: nat)
    requires k <= |s| && Mag(s) < Pow(k)
    ensures Mag(s[..k]) == Mag(s)
  {
    MagSplit(s, k);
    MagBound(s[..k]);
    HighPartZero(Mag(s), Mag(s[..k]), Pow(k), Mag(s[k..]));
  }

  /** x == lo + p * hi with x < p forces hi == 0. */
  lemma HighPartZero(x: int, lo: nat, p: nat, hi: nat)
    requires x == lo + p * hi && x < p
    ensures hi == 0 && x == lo
  {
    if hi > 0 {
      MulAtLeast(p, hi);
    }
  }

  lemma DigitDivMod(x: int, d: int, y: int)
    requires 0 <= d < Radix && x == d + Radix * y
    ensures d == x % Radix && y == x / Radix
  {
  }

  /** Equal-length sequences with equal values are equal. */
  lemma {:induction false} MagInjective(s: seq<Digit>, t: seq<Digit>)
    requires |s| == |t| && Mag(s) == Mag(t)
    ensures s == t
  {
    if |s| > 0 {
      DigitDivMod(Mag(s), s[0], Mag(s[1..]));
      DigitDivMod(Mag(t), t[0], Mag(t[1..]));
      MagInjective(s[1..], t[1..]);
      assert s == [s[0]] + s[1..];
      assert t == [t[0]] + t[1..];
    }
  }

  /** Each number has exactly one normal digit sequence. */
  lemma NormalUnique(s: seq<Digit>, t: seq<Digit>)
    requires Normal(s) && Normal(t) && Mag(s) == Mag(t)
    ensures s == t
  {
    if |s| < |t| {
      MagBound(s);
      MagTopNonzero(t);
      PowMonotone(|s|, |t| - 1);
      assert false;
    } else if |t| < |s| {
      MagBound(t);
      MagTopNonzero(s);
      PowMonotone(|t|, |s| - 1);
      assert false;
    }
    MagInjective(s, t);
  }

  /** At equal length, the first differing digit from the most-significant
      end decides the order of the values. */
  lemma MagCompareAt(s: seq<Digit>, t: seq<Digit>, i: nat)
    requires |s| == |t| && i < |s| && s[i + 1..] == t[i + 1..] && s[i] < t[i]
    ensures Mag(s) < Mag(t)
  {
    MagSplit(s, i);
    MagSplit(t, i);
    MagBound(s[..i]);
    assert s[i..][1..] == s[i + 1..];
    assert t[i..][1..] == t[i + 1..];
    assert Mag(s[i..]) < Mag(t[i..]);
    LowerPrefixLoses(Mag(s[..i]), Mag(t[..i]), Pow(i), Mag(s[i..]), Mag(t[i..]));
  }

  /** A difference in the high part outweighs any low part below p. */
  lemma LowerPrefixLoses(ls: nat, lt: nat, p: nat, x: nat, y: nat)
    requires ls < p && x < y
    ensures ls + p * x < lt + p * y
  {
    var d := y - x;
    assert p * y == p * x + p * d;
    MulAtLeast(p, d);
  }

  lemma {:induction false} MulAtLeast(p: nat, d: nat)
    requires d >= 1
    ensures p * d >= p
  {
    if d > 1 {
      MulAtLeast(p, d - 1);
      assert p * d == p * (d - 1) + p;
    }
  }
  /** Of two normal magnitudes, the one with more digits is larger. */
  lemma LongerIsLarger(s: seq<Digit>, t: seq<Digit>)
    requires Normal(s) && Normal(t) && |s| > |t|
    ensures Mag(s) > Mag(t)
  {
    MagBound(t);
    MagTopNonzero(s);
    PowMonotone(|t|, |s| - 1);
  }

  /** A run of zero digits denotes 0. */
  lemma {:induction false} MagZeros(n: nat)
    ensures Mag(seq(n, _ => 0)) == 0
  {
    if n > 0 {
      assert seq(n, _ => 0)[1..] == seq(n - 1, _ => 0);
      MagZeros(n - 1);
    }
  }

  /** Splitting x into its low digit and the rest, scaled by p. */
  lemma ScaleDivMod(p: int, x: int)
    ensures p * x == p * (x % Radix) + (Radix * p) * (x / Radix)
  {
    var q, r := x / Radix, x % Radix;
    assert x == Radix * q + r;
    assert p * x == p * (Radix * q) + p * r;
  }

  lemma {:induction false} MulMonotone(p: nat, x: int, y: int)
    requires x <= y
    ensures p * x <= p * y
  {
    if x < y {
      MulAtLeast(p, y - x);
      assert p * y == p * x + p * (y - x);
    }
  }
}
