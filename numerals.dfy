/** The subsets of Python's `int()`, `float()` and `str()` that the spider's cell texts go through. */
module Numerals {
  import opened Results

  predicate IsDigit(c: char)
  {
    '0' <= c <= '9'
  }

  function DigitValue(c: char): nat
    requires IsDigit(c)
  {
    c as int - '0' as int
  }

  function Digit(d: nat): (c: char)
    requires d < 10
    ensures IsDigit(c) && DigitValue(c) == d
  {
    ('0' as int + d) as char
  }

  /** A string of decimal digits only (possibly empty). */
  predicate IsNumeral(s: string)
  {
    forall i :: 0 <= i < |s| ==> IsDigit(s[i])
  }

  /** The value of a string of decimal digits, read most significant digit first. */
  function NumeralValue(s: string): nat
    requires IsNumeral(s)
  {
    if s == [] then 0 else 10 * NumeralValue(s[..|s| - 1]) + DigitValue(s[|s| - 1])
  }

  function Pow10(n: nat): (p: nat)
    ensures p >= 1
  {
    if n == 0 then 1 else 10 * Pow10(n - 1)
  }

  /** Digits appended after a numeral shift its value left by their count. */
  lemma {:induction false} NumeralValueAppend(w: string, f: string)
    requires IsNumeral(w) && IsNumeral(f)
    ensures IsNumeral(w + f)
    ensures NumeralValue(w + f) == NumeralValue(w) * Pow10(|f|) + NumeralValue(f)
    decreases |f|
  {
    if f == [] {
      assert w + f == w;
    } else {
      var g, d := f[..|f| - 1], f[|f| - 1];
      NumeralValueAppend(w, g);
      var a, p, vg := NumeralValue(w), Pow10(|g|), NumeralValue(g);
      assert IsNumeral(w + f) && NumeralValue(w + f) == 10 * (a * p + vg) + DigitValue(d) by {
        assert w + f == (w + g) + [d];
      }
      assert NumeralValue(f) == 10 * vg + DigitValue(d);
      ShiftDigit(a, p, vg, DigitValue(d));
    }
  }

  lemma ShiftDigit(a: int, p: int, v: int, d: int)
    ensures 10 * (a * p + v) + d == a * (10 * p) + (10 * v + d)
  {
  }

  /** `str(n)` for a non-negative int: its shortest decimal numeral, with no leading zero. */
  function ShowNat(n: nat): (s: string)
    ensures s != [] && IsNumeral(s)
    ensures NumeralValue(s) == n
    ensures s[0] == '0' ==> n == 0
    ensures |s| == 1 || s[0] != '0'
  {
    if n < 10 then [Digit(n)]
    else
      var s := ShowNat(n / 10) + [Digit(n % 10)];
      assert s[..|s| - 1] == ShowNat(n / 10);
      s
  }

  /** `str(i)` for an int: a '-' before the magnitude of a negative value. */
  function ShowInt(i: int): (s: string)
    ensures s != [] && (s[0] == '-' <==> i < 0)
    ensures forall k :: 1 <= k < |s| ==> IsDigit(s[k])
    ensures i >= 0 ==> IsNumeral(s) && (|s| == 1 || s[0] != '0')
    ensures i < 0 ==> |s| >= 2 && IsNumeral(s[1..]) && (|s| == 2 || s[1] != '0')
  {
    if i < 0 then "-" + ShowNat(-i) else ShowNat(i)
  }

  /** The non-negative value of a non-empty string of digits; None for anything else. */
  function ParseNat(s: string): (r: Option<nat>)
    ensures r.Some? <==> s != [] && IsNumeral(s)
  {
    if s != [] && IsNumeral(s) then Some(NumeralValue(s)) else None
  }

  /** `int(s)`: an optional '+' or '-' followed by one or more ASCII digits; None for any other text (README lists the forms Python also accepts). */
  function ParseInt(s: string): (r: Option<int>)
    ensures r.Some? <==> s != [] && (ParseNat(s).Some? || ((s[0] == '-' || s[0] == '+') && ParseNat(s[1..]).Some?))
  {
    if s != [] && (s[0] == '-' || s[0] == '+') then
      match ParseNat(s[1..])
      case None => None
      case Some(m) => var v: int := m; Some(if s[0] == '-' then -v else v)
    else
      match ParseNat(s)
      case None => None
      case Some(m) => Some(m)
  }

  /** A sign before digits: `int("+" + d)` is `int(d)`, and `int("-" + d)` is its negation. */
  lemma ParseIntSign(d: string)
    requires d != [] && IsNumeral(d)
    ensures ParseInt(d) == Some(NumeralValue(d))
    ensures ParseInt("+" + d) == Some(NumeralValue(d))
    ensures ParseInt("-" + d) == Some(-(NumeralValue(d) as int))
  {
    assert ("+" + d)[0] == '+' && ("+" + d)[1..] == d;
    assert ("-" + d)[0] == '-' && ("-" + d)[1..] == d;
  }

  /** `int(str(i)) == i`: every int reads back from the text Python writes for it. */
  lemma ParseShowInt(i: int)
    ensures ParseInt(ShowInt(i)) == Some(i)
  {
    if i < 0 {
      assert ShowInt(i)[1..] == ShowNat(-i);
    }
  }

  /** The position of the first '.' in `s`, or `|s|` when there is none. */
  function PointIndex(s: string): (k: nat)
    ensures k <= |s|
    ensures '.' !in s[..k]
    ensures k < |s| ==> s[k] == '.'
  {
    if s == [] || s[0] == '.' then 0
    else
      var k := 1 + PointIndex(s[1..]);
      assert s[..k] == [s[0]] + s[1..][..k - 1];
      k
  }

  /** `x` divided by ten `k` times. */
  function Tenths(x: real, k: nat): real
  {
    if k == 0 then x else Tenths(x, k - 1) / 10.0
  }

  /** Dividing by ten `k` times is dividing by 10 to the `k`. */
  lemma {:induction false} TenthsPow10(x: real, k: nat)
    ensures Tenths(x, k) == x / Pow10(k) as real
  {
    if k > 0 {
      TenthsPow10(x, k - 1);
      var p := Pow10(k - 1) as real;
      assert Pow10(k) as real == 10.0 * p;
      assert x / p / 10.0 == x / (10.0 * p);
    }
  }

  /** The number a whole part and fraction digits denote: the whole part, then tenths, hundredths, ... */
  function DecimalValue(whole: nat, fraction: string): real
    requires IsNumeral(fraction)
  {
    whole as real + Tenths(NumeralValue(fraction) as real, |fraction|)
  }

  /** The value of a decimal with digits `whole` before the point and `fraction` after it, at least one digit in all. */
  function DecimalOfParts(whole: string, fraction: string): Option<real>
  {
    if IsNumeral(whole) && IsNumeral(fraction) && |whole| + |fraction| > 0 then
      Some(DecimalValue(NumeralValue(whole), fraction))
    else
      None
  }

  /** `float(s)` without sign: digits, an optional '.', digits, with at least one digit in all. */
  function ParseUnsignedDecimal(s: string): Option<real>
  {
    var k := PointIndex(s);
    DecimalOfParts(s[..k], if k < |s| then s[k + 1..] else [])
  }

  /** `float(s)` for decimal notation: an optional sign, then an unsigned decimal; None for any other text (README lists the forms Python also accepts). */
  function ParseDecimal(s: string): Option<real>
  {
    if s != [] && (s[0] == '-' || s[0] == '+') then
      match ParseUnsignedDecimal(s[1..])
      case None => None
      case Some(v) => Some(if s[0] == '-' then -v else v)
    else
      ParseUnsignedDecimal(s)
  }

  /** Decimal notation without a sign: ASCII digits with at most one '.', and at least one digit. */
  predicate UnsignedDecimalText(d: string)
  {
    && (exists k :: 0 <= k < |d| && IsDigit(d[k]))
    && (forall k :: 0 <= k < |d| ==> IsDigit(d[k]) || d[k] == '.')
    && (forall j, k :: 0 <= j < k < |d| && d[j] == '.' ==> d[k] != '.')
  }

  /** Decimal notation: an optional '+' or '-', then an unsigned decimal. */
  predicate DecimalText(s: string)
  {
    if s != [] && (s[0] == '-' || s[0] == '+') then UnsignedDecimalText(s[1..]) else UnsignedDecimalText(s)
  }

  /** `float()` without a sign reads exactly the unsigned decimal texts and refuses every other text. */
  lemma UnsignedDecimalDomain(d: string)
    ensures ParseUnsignedDecimal(d).Some? <==> UnsignedDecimalText(d)
  {
    var k := PointIndex(d);
    var whole, fraction := d[..k], if k < |d| then d[k + 1..] else [];
    assert ParseUnsignedDecimal(d) == DecimalOfParts(whole, fraction);
    forall m | 0 <= m < k
      ensures d[m] != '.'
    {
      assert d[m] == d[..k][m];
    }
    if ParseUnsignedDecimal(d).Some? {
      forall i | 0 <= i < |d|
        ensures IsDigit(d[i]) || d[i] == '.'
      {
        if i < k { assert d[i] == whole[i]; }
        else if i > k { assert d[i] == fraction[i - k - 1]; }
      }
      forall j, i | 0 <= j < i < |d| && d[j] == '.'
        ensures d[i] != '.'
      {
        assert i > k;
        assert d[i] == fraction[i - k - 1];
      }
      if whole != [] { assert IsDigit(d[0]) by { assert d[0] == whole[0]; } }
      else { assert IsDigit(d[k + 1]) by { assert d[k + 1] == fraction[0]; } }
    }
    if UnsignedDecimalText(d) {
      assert IsNumeral(whole) by {
        forall i | 0 <= i < |whole| ensures IsDigit(whole[i])
        {
          assert whole[i] == d[i];
        }
      }
      assert IsNumeral(fraction) by {
        forall i | 0 <= i < |fraction| ensures IsDigit(fraction[i])
        {
          assert fraction[i] == d[k + 1 + i];
          assert d[k] == '.';
        }
      }
      var m :| 0 <= m < |d| && IsDigit(d[m]);
      if m < k { assert |whole| > 0; }
      else { assert m > k && |fraction| > 0; }
    }
  }

  /** `float()` reads exactly the decimal texts and refuses every other text, as `tosize` does with its `ValueError`. */
  lemma ParseDecimalDomain(s: string)
    ensures ParseDecimal(s).Some? <==> DecimalText(s)
  {
    if s != [] && (s[0] == '-' || s[0] == '+') {
      UnsignedDecimalDomain(s[1..]);
    } else {
      UnsignedDecimalDomain(s);
    }
  }

  /** A numeral without a point reads as its integer value. */
  lemma ParseDecimalOfNumeral(s: string)
    requires s != [] && IsNumeral(s)
    ensures ParseDecimal(s) == Some(NumeralValue(s) as real)
  {
    assert '.' !in s;
    assert PointIndex(s) == |s|;
    assert s[..|s|] == s;
  }

  /** Where the first point of `s` comes after the digits `w` and is followed by the digits `f`, `float` reads `w` as the whole part and `f` as the fraction. */
  lemma UnsignedDecimalAt(s: string, w: string, f: string)
    requires IsNumeral(w) && IsNumeral(f) && f != []
    requires |w| < |s| && PointIndex(s) == |w| && s[..|w|] == w && s[|w| + 1..] == f
    ensures ParseUnsignedDecimal(s) == Some(DecimalValue(NumeralValue(w), f))
  {
    assert ParseUnsignedDecimal(s) == DecimalOfParts(w, f);
  }

  /** `float(w + "." + f)` is the whole part plus the fraction digits read as tenths, hundredths, ... */
  lemma ParseDecimalParts(w: string, f: string)
    requires IsNumeral(w) && IsNumeral(f) && f != []
    ensures ParseDecimal(w + "." + f) == Some(DecimalValue(NumeralValue(w), f))
  {
    var s := w + "." + f;
    assert ParseDecimal(s) == ParseUnsignedDecimal(s) by {
      if w != [] { assert s[0] == w[0]; } else { assert s[0] == '.'; }
    }
    assert PointIndex(s) == |w| by {
      assert s[|w|] == '.';
      assert s[..|w|] == w;
    }
    assert s[..|w|] == w && s[|w| + 1..] == f;
    UnsignedDecimalAt(s, w, f);
  }

  /** `float(w + ".")`: a point with no digits after it reads as the whole part. */
  lemma ParseDecimalTrailingPoint(w: string)
    requires w != [] && IsNumeral(w)
    ensures ParseDecimal(w + ".") == Some(NumeralValue(w) as real)
  {
    var s := w + ".";
    assert s[0] == w[0];
    assert PointIndex(s) == |w| by {
      assert s[|w|] == '.';
      assert s[..|w|] == w;
    }
    assert s[..|w|] == w && s[|w| + 1..] == [];
    assert ParseUnsignedDecimal(s) == DecimalOfParts(w, []);
  }

  /** An unsigned decimal starts with a digit or a point, so `float(d)` is its unsigned reading. */
  lemma UnsignedDecimalRead(d: string)
    requires UnsignedDecimalText(d)
    ensures ParseDecimal(d) == ParseUnsignedDecimal(d) && ParseDecimal(d).Some?
  {
    UnsignedDecimalDomain(d);
    assert d != [] && (IsDigit(d[0]) || d[0] == '.');
  }

  /**
   * `float("-" + d)` is the negation of the unsigned reading `v` of `d`, which UnsignedDecimalRead
   * shows is `float(d)`; UnsignedDecimalDomain says which `d` have one.
   */
  lemma NegativeDecimal(d: string, v: real)
    requires ParseUnsignedDecimal(d) == Some(v)
    ensures ParseDecimal("-" + d) == Some(-v)
  {
    var s := "-" + d;
    assert s[0] == '-' && s[1..] == d;
  }

  /** `float("+" + d)` is the unsigned reading `v` of `d`, as `float(d)` is. */
  lemma PositiveDecimal(d: string, v: real)
    requires ParseUnsignedDecimal(d) == Some(v)
    ensures ParseDecimal("+" + d) == Some(v)
  {
    var s := "+" + d;
    assert s[0] == '+' && s[1..] == d;
  }

  /** "-1.5" reads as -1.5. */
  lemma NegativeExample()
    ensures ParseDecimal("-1.5") == Some(-1.5)
  {
    var d := "1.5";
    assert PointIndex(d) == 1 by { assert d[1] == '.' && d[..1] == "1"; }
    assert d[..1] == "1" && d[2..] == "5";
    UnsignedDecimalAt(d, "1", "5");
    assert DecimalValue(NumeralValue("1"), "5") == 1.5 by {
      assert NumeralValue("1") == 1 && NumeralValue("5") == 5 && Tenths(5.0, 1) == 0.5;
    }
    NegativeDecimal(d, 1.5);
    assert "-1.5" == "-" + d;
  }

  /** `float(w + "." + f)` is the value of the digits with the point taken out, over 10 to the number of fraction digits. */
  lemma ParseDecimalPointShift(w: string, f: string)
    requires IsNumeral(w) && IsNumeral(f) && f != []
    ensures ParseDecimal(w + "." + f) == Some(NumeralValue(w + f) as real / Pow10(|f|) as real)
  {
    var a, v, p := NumeralValue(w), NumeralValue(f), Pow10(|f|);
    ParseDecimalParts(w, f);
    assert DecimalValue(a, f) == NumeralValue(w + f) as real / p as real by {
      TenthsPow10(v as real, |f|);
      NumeralValueAppend(w, f);
      ScaleBack(NumeralValue(w + f), a, v, p);
    }
  }

  /** Dividing `a * p + v` by `p` gives back `a` plus the fraction `v / p`. */
  lemma ScaleBack(n: nat, a: nat, v: nat, p: nat)
    requires p >= 1 && n == a * p + v
    ensures n as real / p as real == a as real + v as real / p as real
  {
    var x, y, q := a as real, v as real, p as real;
    assert n as real == x * q + y;
    assert (x * q + y) / q == x * q / q + y / q;
  }
}
