/** Positional notation in radix 2, 10 and 16: the value of a digit string
    (what `parseInt(s, radix)` computes on a string of valid digits) and the
    canonical rendering of a number (what `Number.prototype.toString(radix)`
    produces: lower-case digits, no leading zero, "0" for zero). */
module Radix {
  import opened Text
  import opened Arith

  type Base = b: nat | 2 <= b <= 16 witness 2

  function DigitValue(c: char): (d: nat)
    ensures d < 16
  {
    if '0' <= c <= '9' then c as nat - '0' as nat
    else if 'a' <= c <= 'f' then c as nat - 'a' as nat + 10
    else if 'A' <= c <= 'F' then c as nat - 'A' as nat + 10
    else 0
  }

  /** The lower-case digit character for `d`. */
  function DigitChar(d: nat): (c: char)
    requires d < 16
    ensures IsHexDigit(c) && !('A' <= c <= 'F')
    ensures DigitValue(c) == d
  {
    if d < 10 then ('0' as nat + d) as char else ('a' as nat + d - 10) as char
  }

  predicate IsDigit(c: char, base: nat) {
    IsHexDigit(c) && DigitValue(c) < base
  }

  predicate AllDigits(s: string, base: nat) {
    forall i :: 0 <= i < |s| ==> IsDigit(s[i], base)
  }

  /** Digits of `base` with no upper-case letter: the alphabet `toString(radix)` writes. */
  predicate LowerDigits(s: string, base: nat) {
    forall i :: 0 <= i < |s| ==> IsDigit(s[i], base) && !('A' <= s[i] <= 'F')
  }

  /** The rendering `toString(radix)` produces. */
  predicate Canonical(s: string, base: nat) {
    |s| >= 1 && LowerDigits(s, base) && (|s| > 1 ==> s[0] != '0')
  }

  /** Big-endian value of a digit string. */
  function Value(s: string, base: nat): nat {
    if |s| == 0 then 0 else Value(s[..|s| - 1], base) * base + DigitValue(s[|s| - 1])
  }

  /** `n.toString(base)`. */
  function ToRadix(n: nat, base: Base): (s: string)
    ensures Canonical(s, base)
    ensures Value(s, base) == n
    decreases n
  {
    if n < base then [DigitChar(n)]
    else
      var q, r := n / base, n % base;
      var prefix := ToRadix(q, base);
      var last := DigitChar(r);
      CanonicalSnoc(n, base, prefix, last);
      prefix + [last]
  }

  /** The `w`-digit rendering of `v` modulo `base^w`, with leading zeros. */
  function Fixed(v: nat, base: Base, w: nat): (s: string)
    ensures |s| == w && LowerDigits(s, base)
  {
    if w == 0 then [] else Fixed(v / base, base, w - 1) + [DigitChar(v % base)]
  }

  /** Appending the last digit of `n` to the rendering of `n / base`. */
  lemma CanonicalSnoc(n: nat, base: Base, prefix: string, last: char)
    requires n >= base
    requires Canonical(prefix, base) && Value(prefix, base) == n / base
    requires last == DigitChar(n % base)
    ensures Canonical(prefix + [last], base)
    ensures Value(prefix + [last], base) == n
  {
    assert Value(prefix + [last], base) == n by {
      ValueSnoc(prefix, last, base);
      DivMod(n, base);
    }
    assert prefix[0] != '0' by {
      if |prefix| == 1 {
        assert Value(prefix, base) == DigitValue(prefix[0]) by {
          assert prefix[..0] == [];
        }
        DivMod(n, base);
      }
    }
    assert (prefix + [last])[0] == prefix[0];
  }

  lemma ValueSnoc(s: string, c: char, base: nat)
    ensures Value(s + [c], base) == Value(s, base) * base + DigitValue(c)
  {
    assert (s + [c])[..|s|] == s;
  }

  lemma {:induction false} ValueConcat(s: string, t: string, base: nat)
    ensures Value(s + t, base) == Value(s, base) * Pow(base, |t|) + Value(t, base)
    decreases |t|
  {
    if |t| == 0 {
      assert s + t == s;
    } else {
      var t', c := t[..|t| - 1], t[|t| - 1];
      assert s + t == (s + t') + [c];
      assert t == t' + [c];
      ValueSnoc(s + t', c, base);
      ValueSnoc(t', c, base);
      ValueConcat(s, t', base);
      Regroup(Value(s, base), Pow(base, |t'|), Value(t', base), base, DigitValue(c));
    }
  }

  lemma {:induction false} ValueBound(s: string, base: nat)
    requires base >= 1 && AllDigits(s, base)
    ensures Value(s, base) < Pow(base, |s|)
    decreases |s|
  {
    if |s| > 0 {
      var s' := s[..|s| - 1];
      assert AllDigits(s', base);
      ValueBound(s', base);
      assert Value(s, base) == Value(s', base) * base + DigitValue(s[|s| - 1]);
      assert DigitValue(s[|s| - 1]) < base;
      MulAddBelow(Value(s', base), base, DigitValue(s[|s| - 1]), Pow(base, |s'|));
      assert Pow(base, |s|) == base * Pow(base, |s'|);
    }
  }

  lemma {:induction false} ValueZeros(k: nat, base: nat)
    ensures Value(Zeros(k), base) == 0
    decreases k
  {
    if k > 0 {
      assert Zeros(k)[..k - 1] == Zeros(k - 1);
      ValueZeros(k - 1, base);
    }
  }

  /** Leading zeros do not change the value. */
  lemma ValueZerosPrefix(k: nat, s: string, base: nat)
    ensures Value(Zeros(k) + s, base) == Value(s, base)
  {
    ValueConcat(Zeros(k), s, base);
    ValueZeros(k, base);
  }

  /** A string whose leading digit is non-zero is at least `base^(|s|-1)`. */
  lemma ValueLeading(s: string, base: nat)
    requires |s| >= 1 && base >= 1
    ensures Value(s, base) >= DigitValue(s[0]) * Pow(base, |s| - 1)
  {
    assert s == [s[0]] + s[1..];
    ValueConcat([s[0]], s[1..], base);
    assert Value([s[0]], base) == DigitValue(s[0]) by {
      assert [s[0]][..0] == [];
    }
  }

  /** Case does not change the value of a digit string. */
  lemma {:induction false} ValueCase(s: string, base: nat)
    ensures Value(ToUpper(s), base) == Value(s, base)
    ensures Value(ToLower(s), base) == Value(s, base)
    decreases |s|
  {
    if |s| > 0 {
      var s' := s[..|s| - 1];
      assert ToUpper(s)[..|s| - 1] == ToUpper(s');
      assert ToLower(s)[..|s| - 1] == ToLower(s');
      ValueCase(s', base);
    }
  }

  lemma {:induction false} ValueInjective(s: string, t: string, base: Base)
    requires |s| == |t| && LowerDigits(s, base) && LowerDigits(t, base)
    requires Value(s, base) == Value(t, base)
    ensures s == t
    decreases |s|
  {
    if |s| > 0 {
      var n := |s| - 1;
      var s', t' := s[..n], t[..n];
      DivModUnique(Value(s, base), base, Value(s', base), DigitValue(s[n]));
      DivModUnique(Value(t, base), base, Value(t', base), DigitValue(t[n]));
      assert LowerDigits(s', base) && LowerDigits(t', base);
      ValueInjective(s', t', base);
      DigitInjective(s[n], t[n]);
      assert s == s' + [s[n]] && t == t' + [t[n]];
    }
  }

  /** Two lower-case digits with the same value are the same character. */
  lemma DigitInjective(c: char, d: char)
    requires IsHexDigit(c) && !('A' <= c <= 'F') && IsHexDigit(d) && !('A' <= d <= 'F')
    requires DigitValue(c) == DigitValue(d)
    ensures c == d
  {
  }

  lemma {:induction false} ValueFixed(v: nat, base: Base, w: nat)
    ensures Value(Fixed(v, base, w), base) == v % Pow(base, w)
    decreases w
  {
    if w > 0 {
      var q, r, p := v / base, v % base, Pow(base, w - 1);
      var prefix, last := Fixed(q, base, w - 1), DigitChar(r);
      var pv := Value(prefix, base);
      assert pv == q % p by {
        ValueFixed(q, base, w - 1);
      }
      assert Value(prefix + [last], base) == pv * base + r by {
        ValueSnoc(prefix, last, base);
      }
      assert pv * base + r == v % Pow(base, w) by {
        FixedStep(v, base, p, Pow(base, w), pv);
      }
      assert Fixed(v, base, w) == prefix + [last];
    }
  }

  /** One digit more of a fixed-width rendering: the arithmetic of `ValueFixed`. */
  lemma FixedStep(v: nat, base: Base, p: nat, pw: nat, prefixValue: nat)
    requires p > 0 && pw == base * p && prefixValue == v / base % p
    ensures prefixValue * base + v % base == v % pw
  {
    DivDiv(v, base, p);
  }

  /** The upper-cased fixed-width rendering of a number that fits reads back as that number. */
  lemma UpperFixed(v: nat, base: Base, w: nat)
    requires v < Pow(base, w)
    ensures var h := ToUpper(Fixed(v, base, w)); |h| == w && AllDigits(h, base) && Value(h, base) == v
  {
    var f := Fixed(v, base, w);
    ValueFixed(v, base, w);
    ValueCase(f, base);
    DivModUnique(v, Pow(base, w), 0, v);
  }

  /** The first digit of a `w`-digit rendering is the number of whole
      `base^(w-1)` parts of the number, when that is a digit. */
  lemma FixedLead(v: nat, base: Base, w: nat, q: nat, r: nat)
    requires 1 <= w && q < base && r < Pow(base, w - 1) && v == q * Pow(base, w - 1) + r
    ensures Fixed(v, base, w)[0] == DigitChar(q)
  {
    var p := Pow(base, w - 1);
    DivModUnique(v, p, q, r);
    DivModUnique(q, base, 0, q);
    var head := Fixed(q, base, 1);
    assert head == [DigitChar(q)] by {
      assert head == Fixed(q / base, base, 0) + [DigitChar(q % base)];
    }
    FixedSplit(v, base, 1, w - 1, q);
    assert Fixed(v, base, w) == head + Fixed(v, base, w - 1);
  }

  /** Splitting a fixed-width rendering into its high and low digits: the high
      digits render `top`, the number of whole `base^lo` parts of `v`. */
  lemma {:induction false} FixedSplit(v: nat, base: Base, hi: nat, lo: nat, top: nat)
    requires top == v / Pow(base, lo)
    ensures Fixed(v, base, hi + lo) == Fixed(top, base, hi) + Fixed(v, base, lo)
    decreases lo
  {
    if lo == 0 {
      DivModUnique(v, 1, v, 0);
    } else {
      DivMod(v, base);
      var q: nat := v / base;
      var d := [DigitChar(v % base)];
      var p := Pow(base, lo - 1);
      assert top == q / p by {
        DivDiv(v, base, p);
        assert Pow(base, lo) == base * p;
      }
      var high, low := Fixed(top, base, hi), Fixed(q, base, lo - 1);
      assert Fixed(q, base, hi + (lo - 1)) == high + low by {
        FixedSplit(q, base, hi, lo - 1, top);
      }
      assert Fixed(v, base, hi + lo) == (high + low) + d;
      assert Fixed(v, base, lo) == low + d;
      assert (high + low) + d == high + (low + d);
    }
  }

  /** The low `lo` digits of a wider rendering are the `lo`-digit rendering. */
  lemma FixedLow(v: nat, base: Base, hi: nat, lo: nat)
    ensures Fixed(v, base, hi + lo)[hi..] == Fixed(v, base, lo)
  {
    var p := Pow(base, lo);
    DivMod(v, p);
    FixedSplit(v, base, hi, lo, v / p);
  }

  lemma {:induction false} ToRadixShort(n: nat, base: Base, k: nat)
    requires k >= 1 && n < Pow(base, k)
    ensures |ToRadix(n, base)| <= k
    decreases k
  {
    if n >= base {
      assert k >= 2;
      assert n / base < Pow(base, k - 1) by {
        if n / base >= Pow(base, k - 1) {
          MulMonotone(Pow(base, k - 1), n / base, base);
        }
      }
      ToRadixShort(n / base, base, k - 1);
    }
  }

  lemma {:induction false} ToRadixLong(n: nat, base: Base, k: nat)
    requires Pow(base, k) <= n
    ensures |ToRadix(n, base)| >= k + 1
    decreases k
  {
    if k > 0 {
      assert n >= base by {
        PowMonotone(base, 1, k);
      }
      assert Pow(base, k - 1) <= n / base by {
        DivModUnique(Pow(base, k), base, Pow(base, k - 1), 0);
        if n / base < Pow(base, k - 1) {
          MulMonotone(n / base + 1, Pow(base, k - 1), base);
        }
      }
      ToRadixLong(n / base, base, k - 1);
    }
  }

  /** Padding the rendering of `v` to `w` digits gives the fixed-width rendering. */
  lemma PadToRadix(v: nat, base: Base, w: nat)
    requires w >= 1 && v < Pow(base, w)
    ensures |ToRadix(v, base)| <= w
    ensures Zeros(w - |ToRadix(v, base)|) + ToRadix(v, base) == Fixed(v, base, w)
  {
    ToRadixShort(v, base, w);
    var r := ToRadix(v, base);
    var p := Zeros(w - |r|) + r;
    ValueZerosPrefix(w - |r|, r, base);
    ValueFixed(v, base, w);
    DivModUnique(v, Pow(base, w), 0, v);
    ValueInjective(p, Fixed(v, base, w), base);
  }

  /** Rendering the value of a digit string without leading zero gives back the
      string, lower-cased. */
  lemma ToRadixOfValue(s: string, base: Base)
    requires |s| >= 1 && AllDigits(s, base)
    requires |s| > 1 ==> DigitValue(s[0]) != 0
    ensures ToRadix(Value(s, base), base) == ToLower(s)
  {
    var v := Value(s, base);
    var r := ToRadix(v, base);
    assert |r| == |s| by {
      ToRadixWidth(s, base);
    }
    LowerOfDigits(s, base);
    ValueInjective(r, ToLower(s), base);
  }

  /** Lower-casing a digit string keeps it a digit string of the same value. */
  lemma LowerOfDigits(s: string, base: Base)
    requires AllDigits(s, base)
    ensures LowerDigits(ToLower(s), base) && Value(ToLower(s), base) == Value(s, base)
  {
    ValueCase(s, base);
  }

  /** A digit string without leading zero is as long as the rendering of its value. */
  lemma ToRadixWidth(s: string, base: Base)
    requires |s| >= 1 && AllDigits(s, base)
    requires |s| > 1 ==> DigitValue(s[0]) != 0
    ensures |ToRadix(Value(s, base), base)| == |s|
  {
    var v := Value(s, base);
    ValueBound(s, base);
    ToRadixShort(v, base, |s|);
    if |s| > 1 {
      ValueLeading(s, base);
      MulAtLeast(DigitValue(s[0]), Pow(base, |s| - 1));
      ToRadixLong(v, base, |s| - 1);
    }
  }

  /** Every digit string of `base` is rendered by `Fixed` at its own width. */
  lemma FixedOfValue(s: string, base: Base)
    requires AllDigits(s, base)
    ensures Fixed(Value(s, base), base, |s|) == ToLower(s)
  {
    var v := Value(s, base);
    assert Value(Fixed(v, base, |s|), base) == v by {
      ValueBound(s, base);
      ValueFixed(v, base, |s|);
      DivModUnique(v, Pow(base, |s|), 0, v);
    }
    LowerOfDigits(s, base);
    ValueInjective(Fixed(v, base, |s|), ToLower(s), base);
  }

  /** The leading `k` digits are the value divided by the weight of the rest. */
  lemma ValuePrefix(s: string, k: nat, base: Base)
    requires k <= |s| && AllDigits(s, base)
    ensures Value(s[..k], base) == Value(s, base) / Pow(base, |s| - k)
  {
    assert s == s[..k] + s[k..];
    ValueConcat(s[..k], s[k..], base);
    assert AllDigits(s[k..], base);
    ValueBound(s[k..], base);
    DivModUnique(Value(s, base), Pow(base, |s| - k), Value(s[..k], base), Value(s[k..], base));
  }

  lemma {:induction false} FixedZero(base: Base, w: nat)
    ensures Fixed(0, base, w) == Zeros(w)
    decreases w
  {
    if w > 0 {
      FixedZero(base, w - 1);
      assert DigitChar(0) == '0';
    }
  }

  /** The value of two hex digits. */
  lemma TwoDigits(s: string)
    requires |s| == 2
    ensures Value(s, 16) == DigitValue(s[0]) * 16 + DigitValue(s[1])
  {
    assert Value(s[..1], 16) == DigitValue(s[0]) by {
      assert s[..1][..0] == [];
      assert s[..1][0] == s[0];
    }
    assert s[..2 - 1] == s[..1];
  }
}
