/**
 Decimal text at the boundary of the BigInt engine: `bigint_from_str`, which
 builds the value with the engine's own multiply and add, and the digit
 generation of `bigint_print`, which divides by ten until nothing is left.
 `ParseValue` and `DecimalString` are the reference meanings of the two
 directions; the lemmas in the middle show that they invert each other.
 */
module Decimal {
  import opened Magnitude
  import opened Engine

  /** `isdigit` in the C locale: ASCII '0'..'9'. */
  predicate IsDigitChar(c: char)
  {
    '0' <= c <= '9'
  }

  predicate AllDigits(ds: string)
  {
    forall k :: 0 <= k < |ds| ==> IsDigitChar(ds[k])
  }

  /** `c - '0'`: the digit a digit character stands for. */
  function DigitValue(c: char): int
  {
    (c as int) - ('0' as int)
  }

  /** `'0' + d` for a decimal digit d. */
  function DigitChar(d: int): (c: char)
    requires 0 <= d < 10
    ensures IsDigitChar(c) && DigitValue(c) == d
  {
    (('0' as int) + d) as char
  }

  lemma CharOfDigitValue(c: char)
    requires IsDigitChar(c)
    ensures 0 <= DigitValue(c) < 10 && DigitChar(DigitValue(c)) == c
  {
  }

  /** The digits the parser's scan takes from the front of `t`: it stops at
      the first character that is not a digit. */
  function DigitRun(t: string): string
  {
    if |t| == 0 || !IsDigitChar(t[0]) then [] else [t[0]] + DigitRun(t[1..])
  }

  /** The number a string of digits denotes, most significant first:
      `result = result * 10 + (c - '0')` over the string. */
  function DecimalValue(ds: string): int
  {
    if |ds| == 0 then 0 else 10 * DecimalValue(ds[..|ds| - 1]) + DigitValue(ds[|ds| - 1])
  }

  /** What `bigint_from_str` denotes: an optional '-' or '+', then the value
      of the digits up to the first character that is not a digit. An empty
      string, a lone sign, or text that does not start with a digit gives 0. */
  function ParseValue(s: string): int
  {
    if |s| == 0 then 0
    else if s[0] == '-' then 0 - DecimalValue(DigitRun(s[1..]))
    else if s[0] == '+' then DecimalValue(DigitRun(s[1..]))
    else DecimalValue(DigitRun(s))
  }

  /** The decimal numeral of n without leading zeros ("0" for zero). */
  function NatToDecimal(n: nat): (s: string)
    ensures |s| >= 1
  {
    (if n < 10 then "" else NatToDecimal(n / 10)) + [DigitChar(n % 10)]
  }

  /** The text `bigint_print` writes for the integer n. */
  function DecimalString(n: int): string
  {
    if n < 0 then "-" + NatToDecimal(-n) else NatToDecimal(n)
  }

  /** A numeral with no leading zero (or just "0"). */
  predicate PlainDigits(ds: string)
  {
    |ds| >= 1 && AllDigits(ds) && (ds[0] == '0' ==> |ds| == 1)
  }

  /** The texts `bigint_print` can produce: a plain numeral, with a '-' in
      front of a nonzero one. */
  predicate CanonicalText(s: string)
  {
    PlainDigits(s) || (|s| >= 2 && s[0] == '-' && PlainDigits(s[1..]) && s[1] != '0')
  }

  // ---------------------------------------------------------------------------
  // Lemmas about the reference functions
  // ---------------------------------------------------------------------------

  /** The scan takes the longest prefix made of digits. */
  lemma {:induction false} DigitRunMaximal(t: string)
    ensures |DigitRun(t)| <= |t| && DigitRun(t) == t[..|DigitRun(t)|]
    ensures AllDigits(DigitRun(t))
    ensures |DigitRun(t)| < |t| ==> !IsDigitChar(t[|DigitRun(t)|])
  {
    if |t| > 0 && IsDigitChar(t[0]) {
      DigitRunMaximal(t[1..]);
      var rest := DigitRun(t[1..]);
      assert DigitRun(t) == [t[0]] + rest;
      assert t[..|rest| + 1] == [t[0]] + t[1..][..|rest|];
    }
  }

  lemma {:induction false} DigitRunOfDigits(ds: string)
    requires AllDigits(ds)
    ensures DigitRun(ds) == ds
  {
    if |ds| > 0 {
      DigitRunOfDigits(ds[1..]);
      assert ds == [ds[0]] + ds[1..];
    }
  }

  /** A string of digits denotes a natural number. */
  lemma {:induction false} DecimalValueNat(ds: string)
    requires AllDigits(ds)
    ensures DecimalValue(ds) >= 0
  {
    if |ds| > 0 {
      DecimalValueNat(ds[..|ds| - 1]);
    }
  }

  /** Appending one digit: the value is ten times the old one plus the digit. */
  lemma DecimalValueSnoc(ds: string, c: char)
    ensures DecimalValue(ds + [c]) == 10 * DecimalValue(ds) + DigitValue(c)
  {
    assert (ds + [c])[..|ds|] == ds;
  }

  /** A leading '0' does not change the value. */
  lemma {:induction false} DecimalValueLeadingZero(ds: string)
    ensures DecimalValue("0" + ds) == DecimalValue(ds)
  {
    if |ds| > 0 {
      var init := ds[..|ds| - 1];
      DecimalValueLeadingZero(init);
      assert ("0" + ds)[..|ds|] == "0" + init;
    }
  }

  /** The numeral of n is plain, and starts with '0' only for zero. */
  lemma {:induction false} NatToDecimalPlain(n: nat)
    ensures PlainDigits(NatToDecimal(n))
    ensures NatToDecimal(n)[0] == '0' <==> n == 0
  {
    var s := NatToDecimal(n);
    if n < 10 {
      assert s == [DigitChar(n)];
    } else {
      NatToDecimalPlain(n / 10);
      var init := NatToDecimal(n / 10);
      assert s == init + [DigitChar(n % 10)];
      assert s[0] == init[0];
    }
  }

  /** Reading back a rendered natural number gives the number. */
  lemma {:induction false} DecimalValueOfNatToDecimal(n: nat)
    ensures DecimalValue(NatToDecimal(n)) == n
  {
    var init := if n < 10 then "" else NatToDecimal(n / 10);
    var s := NatToDecimal(n);
    assert s == init + [DigitChar(n % 10)];
    assert s[..|s| - 1] == init;
    if n >= 10 {
      DecimalValueOfNatToDecimal(n / 10);
    }
  }

  /** Rendering the value of a plain numeral gives the numeral. */
  lemma {:induction false} NatToDecimalOfDecimalValue(ds: string)
    requires PlainDigits(ds)
    ensures DecimalValue(ds) >= 0 && NatToDecimal(DecimalValue(ds)) == ds
  {
    if |ds| == 1 {
      SingleNumeral(ds);
    } else {
      var init, last := ds[..|ds| - 1], ds[|ds| - 1];
      PlainInit(ds);
      NatToDecimalOfDecimalValue(init);
      CharOfDigitValue(last);
      NatToDecimalSnoc(DecimalValue(init), DigitValue(last));
      assert ds == init + [last];
    }
  }

  lemma SingleNumeral(ds: string)
    requires |ds| == 1 && IsDigitChar(ds[0])
    ensures DecimalValue(ds) >= 0 && NatToDecimal(DecimalValue(ds)) == ds
  {
    CharOfDigitValue(ds[0]);
    DecimalValueSnoc([], ds[0]);
    assert [] + [ds[0]] == ds;
  }

  /** Dropping the last digit of a plain numeral of two or more digits leaves
      a plain numeral of nonzero value. */
  lemma PlainInit(ds: string)
    requires PlainDigits(ds) && |ds| >= 2
    ensures PlainDigits(ds[..|ds| - 1])
    ensures DecimalValue(ds) == 10 * DecimalValue(ds[..|ds| - 1]) + DigitValue(ds[|ds| - 1])
    ensures DecimalValue(ds[..|ds| - 1]) > 0
  {
    var init := ds[..|ds| - 1];
    assert init[0] == ds[0];
    DecimalValueOfPlain(init);
  }

  /** A numeral that starts with a nonzero digit has a nonzero value. */
  lemma {:induction false} DecimalValueOfPlain(ds: string)
    requires |ds| >= 1 && AllDigits(ds) && ds[0] != '0'
    ensures DecimalValue(ds) > 0
  {
    var init := ds[..|ds| - 1];
    if |ds| > 1 {
      assert init[0] == ds[0];
      DecimalValueOfPlain(init);
    } else {
      assert DecimalValue(init) == 0;
    }
  }

  /** The numeral of 10 * w + d is the numeral of w followed by the digit d. */
  lemma NatToDecimalSnoc(w: nat, d: int)
    requires w > 0 && 0 <= d < 10
    ensures NatToDecimal(10 * w + d) == NatToDecimal(w) + [DigitChar(d)]
  {
    TenDivMod(10 * w + d, w, d);
  }

  lemma TenDivMod(v: int, w: int, d: int)
    requires 0 <= d < 10 && v == 10 * w + d
    ensures v / 10 == w && v % 10 == d
  {
  }

  /** Parsing what `bigint_print` writes gives back the number. */
  lemma ParseDecimalString(n: int)
    ensures ParseValue(DecimalString(n)) == n
  {
    var m: nat := if n < 0 then -n else n;
    var digits := NatToDecimal(m);
    NatToDecimalPlain(m);
    DigitRunOfDigits(digits);
    DecimalValueOfNatToDecimal(m);
    if n < 0 {
      assert DecimalString(n)[1..] == digits;
    }
  }

  /** Printing the value of a canonical text gives back the text. */
  lemma DecimalStringOfParse(s: string)
    requires CanonicalText(s)
    ensures DecimalString(ParseValue(s)) == s
  {
    if PlainDigits(s) {
      DigitRunOfDigits(s);
      NatToDecimalOfDecimalValue(s);
    } else {
      NegativeText(s);
    }
  }

  lemma NegativeText(s: string)
    requires |s| >= 2 && s[0] == '-' && PlainDigits(s[1..]) && s[1] != '0'
    ensures DecimalString(ParseValue(s)) == s
  {
    var ds := s[1..];
    DigitRunOfDigits(ds);
    NatToDecimalOfDecimalValue(ds);
    DecimalValueOfPlain(ds);
    var v := DecimalValue(ds);
    assert ParseValue(s) == 0 - v;
    assert DecimalString(0 - v) == "-" + NatToDecimal(v);
    assert s == "-" + ds;
  }

  /** Everything `bigint_print` writes is a canonical text. */
  lemma DecimalStringCanonical(n: int)
    ensures CanonicalText(DecimalString(n))
  {
    var m: nat := if n < 0 then -n else n;
    NatToDecimalPlain(m);
    if n < 0 {
      assert DecimalString(n)[1..] == NatToDecimal(m);
    }
  }

  // ---------------------------------------------------------------------------
  // bigint_from_str and the digit generation of bigint_print
  // ---------------------------------------------------------------------------

  /** A leading '0' in the text does not change the value of its digit run. */
  lemma SkipZero(t: string)
    requires |t| >= 1 && t[0] == '0'
    ensures DecimalValue(DigitRun(t)) == DecimalValue(DigitRun(t[1..]))
  {
    assert DigitRun(t) == "0" + DigitRun(t[1..]);
    DecimalValueLeadingZero(DigitRun(t[1..]));
  }

  /** The leading-zero loop of `bigint_from_str`: skips '0' characters from
      `start` as long as another character follows, so a lone "0" is kept.
      The value of the digit run is unchanged. */
  method SkipLeadingZeros(s: string, start: nat) returns (k: nat)
    requires start <= |s|
    ensures start <= k <= |s|
    ensures forall i :: start <= i < k ==> s[i] == '0'
    ensures k == |s| || s[k] != '0' || k + 1 == |s|
    ensures DecimalValue(DigitRun(s[k..])) == DecimalValue(DigitRun(s[start..]))
  {
    k := start;
    while k < |s| && s[k] == '0' && k + 1 < |s|
      invariant start <= k <= |s|
      invariant forall i :: start <= i < k ==> s[i] == '0'
      invariant DecimalValue(DigitRun(s[k..])) == DecimalValue(DigitRun(s[start..]))
    {
      SkipZero(s[k..]);
      assert s[k..][1..] == s[k + 1..];
      k := k + 1;
    }
  }

  /** Taking one more digit character into the scanned run. */
  lemma RunStep(s: string, from: nat, k: nat)
    requires from <= k < |s| && IsDigitChar(s[k])
    requires DigitRun(s[from..]) == s[from..k] + DigitRun(s[k..])
    ensures DigitRun(s[from..]) == s[from..k + 1] + DigitRun(s[k + 1..])
    ensures DecimalValue(s[from..k + 1]) == 10 * DecimalValue(s[from..k]) + DigitValue(s[k])
  {
    var run, c, rest := s[from..k], s[k], s[k + 1..];
    assert s[from..k + 1] == run + [c];
    DecimalValueSnoc(run, c);
    assert s[k..] == [c] + rest;
    assert DigitRun(s[k..]) == [c] + DigitRun(rest);
    ConcatAssoc(run, [c], DigitRun(rest));
  }

  lemma ConcatAssoc(x: string, y: string, z: string)
    ensures x + (y + z) == (x + y) + z
  {
  }

  /** The scan stops at the end of the text or at a non-digit. */
  lemma RunEnd(s: string, from: nat, k: nat)
    requires from <= k <= |s| && (k == |s| || !IsDigitChar(s[k]))
    requires DigitRun(s[from..]) == s[from..k] + DigitRun(s[k..])
    ensures DigitRun(s[from..]) == s[from..k]
  {
  }

  /** One step of the digit loop: `result * 10 + (c - '0')`, computed with
      the engine's Mul and Add. */
  method AppendDigit(result: BigInt, ten: BigInt, c: char) returns (r: BigInt)
    requires Canonical(result) && Canonical(ten) && Value(ten) == 10
    ensures Canonical(r) && Value(r) == 10 * Value(result) + DigitValue(c)
  {
    var tmp := Mul(result, ten);
    var digit := FromInt(DigitValue(c));
    r := Add(tmp, digit);
  }

  /** The digit loop of `bigint_from_str`: `result = result * 10 + digit`
      with the engine's Mul and Add for every character from `from` up to the
      first non-digit, which is where `k` stops. */
  method AccumulateDigits(s: string, from: nat) returns (result: BigInt, k: nat)
    requires from <= |s|
    ensures from <= k <= |s| && s[from..k] == DigitRun(s[from..])
    ensures Canonical(result) && result.sign == 1
    ensures Mag(result.digits) == DecimalValue(DigitRun(s[from..]))
  {
    result := FromInt(0);
    var ten := FromInt(10);
    k := from;
    while k < |s| && IsDigitChar(s[k])
      invariant from <= k <= |s|
      invariant DigitRun(s[from..]) == s[from..k] + DigitRun(s[k..])
      invariant Canonical(result) && Value(result) == DecimalValue(s[from..k])
    {
      result := AppendDigit(result, ten, s[k]);
      RunStep(s, from, k);
      k := k + 1;
    }
    RunEnd(s, from, k);
    DigitRunMaximal(s[from..]);
    DecimalValueNat(DigitRun(s[from..]));
    CanonicalMag(result);
  }

  /** `bigint_from_str`: optional sign, leading zeros skipped, digits
      accumulated; the sign is applied last and the result trimmed, so "-"
      and "-0" give +0. */
  method FromStr(s: string) returns (r: BigInt)
    ensures Canonical(r) && Value(r) == ParseValue(s)
  {
    if |s| == 0 {
      r := FromInt(0);
      return;
    }
    var sign: Sign := 1;
    var start := 0;
    if s[0] == '-' {
      sign := -1;
      start := 1;
    } else if s[0] == '+' {
      start := 1;
    }
    var k := SkipLeadingZeros(s, start);
    var result, _ := AccumulateDigits(s, k);
    result := result.(sign := sign);
    r := Trim(result);
    if start == 1 {
      assert s[1..] == s[start..];
    } else {
      assert s == s[start..];
    }
  }

  /** The digits still to be produced for the value t: none once t is 0. */
  function Pending(t: nat): string
  {
    if t == 0 then "" else NatToDecimal(t)
  }

  /** A canonical value below the radix is a single digit. */
  lemma SingleDigit(r: BigInt)
    requires Canonical(r) && Mag(r.digits) < Radix
    ensures r.digits == [Mag(r.digits)]
  {
    if |r.digits| >= 2 {
      MagTopNonzero(r.digits);
      assert false;
    }
  }

  /** One division of `bigint_print`'s loop: `bigint_div(tmp, ten, &q, &r)`
      and the digit `r->digits[0]`. */
  method DivideByTen(tmp: BigInt, ten: BigInt) returns (q: BigInt, d: int)
    requires Canonical(tmp) && tmp.sign == 1 && Canonical(ten) && Value(ten) == 10
    ensures Canonical(q) && q.sign == 1
    ensures 0 <= d < 10 && Value(tmp) == 10 * Value(q) + d
  {
    var res := Div(tmp, ten);
    assert res.DivOk?;
    q := res.quotient;
    var rem := res.remainder;
    CanonicalMag(q);
    CanonicalMag(rem);
    SingleDigit(rem);
    d := rem.digits[0];
  }

  /** Peeling the last digit off the pending numeral. */
  lemma PendingStep(t: nat, q: nat, d: int)
    requires t > 0 && 0 <= d < 10 && t == 10 * q + d
    ensures Pending(t) == Pending(q) + [DigitChar(d)]
  {
    if q > 0 {
      NatToDecimalSnoc(q, d);
    }
  }

  /** The collected digits and the pending ones still make up the whole numeral. */
  lemma CollectStep(whole: string, out: string, t: nat, t': nat, d: int)
    requires t > 0 && 0 <= d < 10 && t == 10 * t' + d
    requires whole == Pending(t) + out
    ensures t' < t && whole == Pending(t') + ([DigitChar(d)] + out)
  {
    PendingStep(t, t', d);
  }

  /** The division loop of `bigint_print`: while the sign-stripped copy is
      not zero, divide it by ten and collect the remainder digit. The source
      fills a buffer least significant digit first and reverses it; here each
      digit is put in front of those already collected. */
  method CollectDigits(start: BigInt) returns (out: string)
    requires Canonical(start) && start.sign == 1
    ensures out == Pending(Value(start))
  {
    var tmp := start;
    var ten := FromInt(10);
    var zero := FromInt(0);
    out := [];
    var c := Cmp(tmp, zero);
    ghost var t: nat := Value(tmp);
    ghost var whole := Pending(t);
    while c != 0
      invariant Canonical(tmp) && tmp.sign == 1 && t == Value(tmp)
      invariant c == 0 <==> t == 0
      invariant whole == Pending(t) + out
      decreases t
    {
      var q, d := DivideByTen(tmp, ten);
      ghost var t' := Value(q);
      CollectStep(whole, out, t, t', d);
      out := [DigitChar(d)] + out;
      tmp := q;
      t := t';
      c := Cmp(tmp, zero);
    }
  }

  /** The digit generation of `bigint_print`: the collected digits, "0" when
      none were collected, and '-' in front for a negative value. */
  method ToDecimal(a: BigInt) returns (text: string)
    requires Canonical(a)
    ensures text == DecimalString(Value(a))
  {
    CanonicalMag(a);
    var out := CollectDigits(a.(sign := 1));
    if |out| == 0 {
      out := "0";
    }
    if a.sign == -1 {
      out := "-" + out;
    }
    text := out;
  }
}
