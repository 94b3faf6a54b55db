/** Decimal digit strings, and the few JavaScript string and number primitives the
    date helpers are built from: `Number.prototype.toString` on integers (radix 10),
    `String.prototype.padStart` and `String.prototype.slice`. */
module Decimal {
  import opened Wrappers

  predicate IsDigit(c: char) {
    '0' <= c <= '9'
  }

  predicate AllDigits(s: string) {
    forall i :: 0 <= i < |s| ==> IsDigit(s[i])
  }

  function DigitValue(c: char): (d: nat)
    requires IsDigit(c)
    ensures d < 10
  {
    c as int - '0' as int
  }

  function DigitChar(d: nat): (c: char)
    requires d < 10
    ensures IsDigit(c) && DigitValue(c) == d
  {
    ('0' as int + d) as char
  }

  function Pow10(k: nat): (p: nat)
    ensures p >= 1
  {
    if k == 0 then 1 else 10 * Pow10(k - 1)
  }

  lemma {:induction false} Pow10Monotone(i: nat, j: nat)
    requires i <= j
    ensures Pow10(i) <= Pow10(j)
    decreases j - i
  {
    if i < j {
      Pow10Monotone(i, j - 1);
    }
  }

  /** The value a string of decimal digits denotes, most significant digit first. */
  function ParseDigits(s: string): (n: nat)
    requires AllDigits(s)
    ensures n < Pow10(|s|)
  {
    if s == [] then 0 else 10 * ParseDigits(s[..|s| - 1]) + DigitValue(s[|s| - 1])
  }

  /** The last `k` decimal digits of `n`, with leading zeros. */
  function FixedDigits(n: nat, k: nat): (s: string)
    ensures |s| == k && AllDigits(s)
  {
    if k == 0 then [] else FixedDigits(n / 10, k - 1) + [DigitChar(n % 10)]
  }

  /** `Number.prototype.toString()` of a non-negative integer: its decimal digits,
      without leading zeros ("0" for zero). */
  function NatToString(n: nat): (s: string)
    ensures |s| >= 1 && AllDigits(s)
  {
    if n < 10 then [DigitChar(n)] else NatToString(n / 10) + [DigitChar(n % 10)]
  }

  /** The decimal form of `n` denotes `n`, and has no leading zero: a form of two
      or more digits belongs to a number of at least `10^(|s| - 1)`. */
  lemma {:induction false} NatToStringSpec(n: nat)
    ensures ParseDigits(NatToString(n)) == n
    ensures |NatToString(n)| == 1 || NatToString(n)[0] != '0'
    ensures |NatToString(n)| >= 2 ==> Pow10(|NatToString(n)| - 1) <= n
  {
    if n >= 10 {
      var prefix := NatToString(n / 10);
      var s := NatToString(n);
      NatToStringSpec(n / 10);
      assert s[..|s| - 1] == prefix && s[0] == prefix[0];
    }
  }

  /** `Number.prototype.toString()` of an integer: a minus sign for negatives. */
  function IntToString(n: int): (s: string)
    ensures |s| >= 1 && (s[0] == '-' || IsDigit(s[0]))
  {
    if n < 0 then "-" + NatToString(-n) else NatToString(n)
  }

  /** A non-negative integer is written as its digits; a negative one as a minus
      sign followed by the digits of its magnitude. */
  lemma IntToStringSpec(n: int)
    ensures n >= 0 ==> AllDigits(IntToString(n)) && ParseDigits(IntToString(n)) == n
    ensures n < 0 ==> var s := IntToString(n);
                      |s| >= 2 && s[0] == '-' && AllDigits(s[1..]) && ParseDigits(s[1..]) == -n
  {
    if n < 0 {
      NatToStringSpec(-n);
      assert IntToString(n)[1..] == NatToString(-n);
    } else {
      NatToStringSpec(n);
    }
  }

  /** `Number::toString` of a number that is NaN or an integer. JavaScript writes an
      integer below 10^21 in magnitude as its decimal digits, the only integers this
      model formats; larger ones would take exponent form, which is not modelled. */
  function NumberToString(v: Option<int>): (s: string)
    ensures v.None? <==> s == "NaN"
    ensures v.Some? ==> s == IntToString(v.value)
  {
    match v
    case None => "NaN"
    case Some(n) =>
      assert IntToString(n)[0] != "NaN"[0];
      IntToString(n)
  }

  /** `i` copies of the character `c`. */
  function Repeat(c: char, i: nat): (r: string)
    ensures |r| == i
    ensures forall j :: 0 <= j < i ==> r[j] == c
  {
    seq(i, _ => c)
  }

  /** `String.prototype.padStart(len, fill)` with a one-character filler. */
  function PadStart(s: string, len: nat, fill: char): (r: string)
    ensures |r| == if |s| >= len then |s| else len
    ensures forall i :: 0 <= i < |r| - |s| ==> r[i] == fill
  {
    if |s| >= len then s else Repeat(fill, len - |s|) + s
  }

  /** The padded string ends with the string it pads. */
  lemma PadStartSuffix(s: string, len: nat, fill: char)
    ensures var r := PadStart(s, len, fill); r[|r| - |s|..] == s
  {
  }

  function Min(a: int, b: int): int {
    if a <= b then a else b
  }

  /** `String.prototype.slice(start, end)` for non-negative arguments: both ends are
      clamped to the length, and an empty string results when end <= start. */
  function Slice(s: string, start: nat, end: nat): (r: string)
    ensures |r| == if Min(end, |s|) <= Min(start, |s|) then 0 else Min(end, |s|) - Min(start, |s|)
    ensures forall i :: 0 <= i < |r| ==> r[i] == s[start + i]
  {
    var from := Min(start, |s|);
    var to := Min(end, |s|);
    if to <= from then [] else s[from..to]
  }

  lemma {:induction false} ParseFixed(n: nat, k: nat)
    requires n < Pow10(k)
    ensures ParseDigits(FixedDigits(n, k)) == n
  {
    if k > 0 {
      var s := FixedDigits(n, k);
      assert s[..k - 1] == FixedDigits(n / 10, k - 1);
      ParseFixed(n / 10, k - 1);
    }
  }

  lemma {:induction false} FixedParse(s: string)
    requires AllDigits(s)
    ensures FixedDigits(ParseDigits(s), |s|) == s
  {
    if s != [] {
      var p := s[..|s| - 1];
      var n := ParseDigits(s);
      assert n / 10 == ParseDigits(p) && n % 10 == DigitValue(s[|s| - 1]);
      FixedParse(p);
      assert DigitChar(DigitValue(s[|s| - 1])) == s[|s| - 1];
      assert s == p + [s[|s| - 1]];
    }
  }

  lemma {:induction false} FixedZeros(i: nat)
    ensures FixedDigits(0, i) == Repeat('0', i)
  {
    if i > 0 {
      FixedZeros(i - 1);
    }
  }

  /** Widening a representation only adds leading zeros. */
  lemma {:induction false} FixedWiden(n: nat, j: nat, i: nat)
    requires n < Pow10(j)
    ensures FixedDigits(n, i + j) == Repeat('0', i) + FixedDigits(n, j)
  {
    if j == 0 {
      FixedZeros(i);
    } else {
      FixedWiden(n / 10, j - 1, i);
      assert i + j - 1 == i + (j - 1);
    }
  }

  lemma CanonicalIsFixed(n: nat)
    ensures NatToString(n) == FixedDigits(n, |NatToString(n)|)
    ensures n < Pow10(|NatToString(n)|)
  {
    NatToStringSpec(n);
    FixedParse(NatToString(n));
  }

  /** A number below `10^k` has at most `k` digits. */
  lemma {:induction false} CanonicalLength(n: nat, k: nat)
    requires k >= 1 && n < Pow10(k)
    ensures |NatToString(n)| <= k
  {
    if n >= 10 {
      if k == 1 {
        assert false;
      } else {
        CanonicalLength(n / 10, k - 1);
        assert NatToString(n) == NatToString(n / 10) + [DigitChar(n % 10)];
      }
    }
  }

  /** A number of at least `10^k` has more than `k` digits. */
  lemma {:induction false} CanonicalLengthAbove(n: nat, k: nat)
    requires Pow10(k) <= n
    ensures |NatToString(n)| > k
  {
    if k > 0 {
      CanonicalLengthAbove(n / 10, k - 1);
      assert NatToString(n) == NatToString(n / 10) + [DigitChar(n % 10)];
    }
  }

  /** Zero-padding a fixed-width representation widens it. */
  lemma PadFixedWider(s: string, n: nat, k: nat)
    requires |s| < k && n < Pow10(|s|) && s == FixedDigits(n, |s|)
    ensures PadStart(s, k, '0') == FixedDigits(n, k)
  {
    FixedWiden(n, |s|, k - |s|);
    assert k - |s| + |s| == k;
  }

  /** Padding the decimal form of `n` to width `k` gives its `k` last digits. */
  lemma PadToFixed(n: nat, k: nat)
    requires k >= 1 && n < Pow10(k)
    ensures PadStart(NatToString(n), k, '0') == FixedDigits(n, k)
  {
    var s := NatToString(n);
    CanonicalLength(n, k);
    CanonicalIsFixed(n);
    if |s| < k {
      PadFixedWider(s, n, k);
    }
  }

  /** A fixed-width digit field is the representation of exactly one value. */
  lemma FixedMatches(n: nat, w: string)
    requires AllDigits(w) && n < Pow10(|w|)
    ensures FixedDigits(n, |w|) == w <==> n == ParseDigits(w)
  {
    if FixedDigits(n, |w|) == w {
      ParseFixed(n, |w|);
    }
    if n == ParseDigits(w) {
      FixedParse(w);
    }
  }

  /** Padding the decimal form of `n` with zeros to the width of a digit field
      yields that field exactly when `n` is the field's value. */
  lemma PaddedMatches(n: nat, w: string)
    requires AllDigits(w) && |w| >= 1 && n < Pow10(|w|)
    ensures PadStart(NatToString(n), |w|, '0') == w <==> n == ParseDigits(w)
  {
    PadToFixed(n, |w|);
    FixedMatches(n, w);
  }

  /** A digit field of width `|w|` whose value has `|w|` digits is that value's
      decimal form. */
  lemma CanonicalOfField(n: nat, w: string)
    requires AllDigits(w) && |w| >= 1 && Pow10(|w| - 1) <= n && n == ParseDigits(w)
    ensures NatToString(n) == w
  {
    CanonicalLength(n, |w|);
    CanonicalLengthAbove(n, |w| - 1);
    CanonicalIsFixed(n);
    FixedMatches(n, w);
  }

  /** The unpadded decimal form of `n` equals a digit field of width two or more
      exactly when `n` is the field's value and has no fewer digits than the field. */
  lemma UnpaddedMatches(n: int, w: string)
    requires AllDigits(w) && |w| >= 2
    ensures IntToString(n) == w <==> n >= Pow10(|w| - 1) && n == ParseDigits(w)
  {
    var s := IntToString(n);
    IntToStringSpec(n);
    if n < 0 {
      assert !IsDigit(s[0]) && IsDigit(w[0]);
    } else {
      assert s == NatToString(n);
      NatToStringSpec(n);
      if n >= Pow10(|w| - 1) && n == ParseDigits(w) {
        CanonicalOfField(n, w);
      }
    }
  }

  /** A number below `10^k`, zero-padded to width `k`, is a field of exactly `k`
      digits that denotes it. */
  lemma PadDigits(n: nat, k: nat)
    requires k >= 1 && n < Pow10(k)
    ensures var p := PadStart(NatToString(n), k, '0');
            |p| == k && AllDigits(p) && ParseDigits(p) == n
  {
    PaddedMatches(n, FixedDigits(n, k));
    ParseFixed(n, k);
  }
}
