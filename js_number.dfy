/**
 * JavaScript's `Number(text)` applied to a string, as the save handlers use it
 * on the typed count. The accepted forms follow the StringNumericLiteral grammar
 * of ECMA-262: surrounding white space is ignored, a blank string is 0, a
 * decimal literal may carry a sign, a fraction and an exponent, and 0x/0o/0b
 * literals are unsigned integers. Every other string converts to NaN, which
 * is `None` here. Values are exact reals, not IEEE doubles.
 */
module JsNumber {
  import opened Wrappers

  /** StrWhiteSpaceChar: the WhiteSpace and LineTerminator code points. */
  predicate IsStrWhiteSpace(c: char) {
    var n := c as int;
    n == 0x09 || n == 0x0A || n == 0x0B || n == 0x0C || n == 0x0D
    || n == 0x20 || n == 0xA0 || n == 0x1680 || 0x2000 <= n <= 0x200A
    || n == 0x2028 || n == 0x2029 || n == 0x202F || n == 0x205F
    || n == 0x3000 || n == 0xFEFF
  }

  function TrimStart(s: string): string
  {
    if s != [] && IsStrWhiteSpace(s[0]) then TrimStart(s[1..]) else s
  }

  function TrimEnd(s: string): string
  {
    if s != [] && IsStrWhiteSpace(s[|s| - 1]) then TrimEnd(s[..|s| - 1]) else s
  }

  /** The value of a digit or letter (letters count from 10), or -1 for anything else. */
  function DigitValue(c: char): int
  {
    if '0' <= c <= '9' then c as int - '0' as int
    else if 'a' <= c <= 'z' then c as int - 'a' as int + 10
    else if 'A' <= c <= 'Z' then c as int - 'A' as int + 10
    else -1
  }

  predicate AllDigits(s: string, radix: nat)
  {
    forall i {:trigger DigitValue(s[i])} :: 0 <= i < |s| ==> 0 <= DigitValue(s[i]) < radix
  }

  /** The number a string of digits in base `radix` denotes, most significant digit first. */
  function DigitsValue(s: string, radix: nat): nat
    requires AllDigits(s, radix)
  {
    if s == [] then 0
    else DigitsValue(s[..|s| - 1], radix) * radix + DigitValue(s[|s| - 1])
  }

  /** The position of the first character of `s` that is in `marks`, or `|s|` when there is none. */
  function FirstIndex(s: string, marks: set<char>): (i: nat)
    ensures i <= |s|
    ensures forall j :: 0 <= j < i ==> s[j] !in marks
    ensures i < |s| ==> s[i] in marks
  {
    if s == [] || s[0] in marks then 0 else 1 + FirstIndex(s[1..], marks)
  }

  /** A non-decimal integer literal after its 0x, 0o or 0b prefix: at least one digit. */
  function NonDecimal(digits: string, radix: nat): Option<real>
  {
    if digits != [] && AllDigits(digits, radix) then Some(DigitsValue(digits, radix) as real) else None
  }

  /** The value `0.fraction` of the digits after a decimal point. */
  function FractionValue(fraction: string): real
    requires AllDigits(fraction, 10)
  {
    if fraction == [] then 0.0 else (DigitValue(fraction[0]) as real + FractionValue(fraction[1..])) / 10.0
  }

  /** The value of the literal `whole.fraction`. */
  function PointValue(whole: string, fraction: string): real
    requires AllDigits(whole, 10) && AllDigits(fraction, 10)
  {
    DigitsValue(whole, 10) as real + FractionValue(fraction)
  }

  /** Digits, a point and digits, or either side alone (not both empty). */
  function Mantissa(m: string): Option<real>
  {
    var p := FirstIndex(m, {'.'});
    var whole := m[..p];
    var fraction := if p < |m| then m[p + 1..] else [];
    if AllDigits(whole, 10) && AllDigits(fraction, 10) && (whole != [] || fraction != [])
    then Some(PointValue(whole, fraction))
    else None
  }

  /** The exponent part after `e`/`E`: an optional sign and at least one digit. */
  function Exponent(x: string): Option<int>
  {
    var digits := if x != [] && (x[0] == '-' || x[0] == '+') then x[1..] else x;
    if digits != [] && AllDigits(digits, 10) then
      var n: int := DigitsValue(digits, 10);
      Some(if x[0] == '-' then -n else n)
    else None
  }

  /** `x` times ten to the power `k`. */
  function Scaled(x: real, k: int): real
    decreases if k < 0 then -k else k
  {
    if k == 0 then x else if k > 0 then 10.0 * Scaled(x, k - 1) else Scaled(x, k + 1) / 10.0
  }

  /**
   * StrUnsignedDecimalLiteral without the `Infinity` alternative, read after
   * the sign; `negative` says whether that sign was `-`.
   */
  function Decimal(u: string, negative: bool): Option<real>
  {
    var e := FirstIndex(u, {'e', 'E'});
    var mantissa := Mantissa(u[..e]);
    var exponent := if e == |u| then Some(0) else Exponent(u[e + 1..]);
    if mantissa.Some? && exponent.Some? then
      var v := Scaled(mantissa.value, exponent.value);
      Some(if negative then -v else v)
    else None
  }

  /** `Number(s)`: `Some(v)` when `s` is a numeric string, `None` when the result is NaN. */
  function ToNumber(s: string): Option<real>
  {
    var t := TrimEnd(TrimStart(s));
    if t == [] then Some(0.0)
    else if |t| >= 2 && t[0] == '0' && t[1] in {'x', 'X'} then NonDecimal(t[2..], 16)
    else if |t| >= 2 && t[0] == '0' && t[1] in {'o', 'O'} then NonDecimal(t[2..], 8)
    else if |t| >= 2 && t[0] == '0' && t[1] in {'b', 'B'} then NonDecimal(t[2..], 2)
    else if t[0] == '+' then Decimal(t[1..], false)
    else if t[0] == '-' then Decimal(t[1..], true)
    else Decimal(t, false)
  }

  /** `n.toString()` for a whole non-negative number: its decimal digits, no leading zero. */
  function DecimalString(n: nat): (s: string)
    ensures s != [] && AllDigits(s, 10)
  {
    var last := ('0' as int + n % 10) as char;
    if n < 10 then [last] else DecimalString(n / 10) + [last]
  }

  // ---------------------------------------------------------------------------
  // Properties

  lemma {:induction false} TrimStartBlank(s: string)
    requires forall i :: 0 <= i < |s| ==> IsStrWhiteSpace(s[i])
    ensures TrimStart(s) == []
  {
    if s != [] {
      TrimStartBlank(s[1..]);
    }
  }

  /** A blank count (empty, or only white space) converts to 0, so it is accepted. */
  lemma BlankIsZero(s: string)
    requires forall i :: 0 <= i < |s| ==> IsStrWhiteSpace(s[i])
    ensures ToNumber(s) == Some(0.0)
  {
    TrimStartBlank(s);
  }

  lemma {:induction false} DecimalStringValue(n: nat)
    ensures DigitsValue(DecimalString(n), 10) == n
  {
    var s := DecimalString(n);
    if n >= 10 {
      var prefix := DecimalString(n / 10);
      assert s[..|s| - 1] == prefix;
      DecimalStringValue(n / 10);
    }
  }

  /** Text with no white space at either end is left as it is. */
  lemma NoBlankEnds(s: string)
    requires s != [] && !IsStrWhiteSpace(s[0]) && !IsStrWhiteSpace(s[|s| - 1])
    ensures TrimEnd(TrimStart(s)) == s
  {
  }

  /** A decimal digit is none of the characters the grammar treats specially. */
  lemma DigitIsPlain(c: char)
    requires 0 <= DigitValue(c) < 10
    ensures '0' <= c <= '9' && !IsStrWhiteSpace(c)
  {
  }

  /** The first mark of `s` is at `k` when `s[k]` is one and no earlier character is. */
  lemma FirstIndexAt(s: string, marks: set<char>, k: nat)
    requires k <= |s|
    requires forall j :: 0 <= j < k ==> s[j] !in marks
    requires k < |s| ==> s[k] in marks
    ensures FirstIndex(s, marks) == k
  {
  }

  /** A string of decimal digits has no exponent mark and no point. */
  lemma DigitsHaveNoMarks(s: string)
    requires AllDigits(s, 10)
    ensures FirstIndex(s, {'e', 'E'}) == |s| && FirstIndex(s, {'.'}) == |s|
  {
    forall j | 0 <= j < |s|
      ensures s[j] !in {'e', 'E', '.'}
    {
      DigitIsPlain(s[j]);
    }
    FirstIndexAt(s, {'e', 'E'}, |s|);
    FirstIndexAt(s, {'.'}, |s|);
  }

  /** A string of decimal digits, read as a decimal literal, has the value `v` it spells, or `-v` after a `-`. */
  lemma UnsignedDecimalDigits(s: string, v: real)
    requires s != [] && AllDigits(s, 10) && v == DigitsValue(s, 10) as real
    ensures Decimal(s, false) == Some(v)
    ensures Decimal(s, true) == Some(-v)
  {
    DigitsHaveNoMarks(s);
    assert s[..|s|] == s;
    assert Mantissa(s) == Some(v) by {
      assert PointValue(s, []) == v;
    }
  }

  /** A plain string of decimal digits converts to the number it spells. */
  lemma DigitsToNumber(s: string)
    requires s != [] && AllDigits(s, 10)
    ensures ToNumber(s) == Some(DigitsValue(s, 10) as real)
  {
    DigitIsPlain(s[0]);
    DigitIsPlain(s[|s| - 1]);
    if |s| >= 2 {
      DigitIsPlain(s[1]);
    }
    UnsignedDecimalDigits(s, DigitsValue(s, 10) as real);
    PlainForm(s, DigitsValue(s, 10) as real);
  }

  /**
   * Opening a day for editing shows its count as text (`count.toString()`);
   * saving that text unchanged converts it back to the same count.
   */
  lemma EditRoundTrip(n: nat)
    ensures ToNumber(DecimalString(n)) == Some(n as real)
  {
    DecimalStringValue(n);
    DigitsToNumber(DecimalString(n));
  }

  lemma {:induction false} TrimEndKeepsFirst(s: string)
    requires s != [] && !IsStrWhiteSpace(s[0])
    ensures TrimEnd(s) != [] && TrimEnd(s)[0] == s[0]
  {
    if IsStrWhiteSpace(s[|s| - 1]) {
      TrimEndKeepsFirst(s[..|s| - 1]);
    }
  }

  /**
   * Text that starts with a lower-case letter is not a number, so saving it
   * is refused: `Number('notanumber')` and `Number('abc')` are NaN.
   */
  lemma LetterIsNaN(s: string)
    requires s != [] && 'a' <= s[0] <= 'z'
    ensures ToNumber(s) == None
  {
    TrimEndKeepsFirst(s);
    var t := TrimEnd(TrimStart(s));
    assert t != [] && t[0] == s[0];
    var m := t[..FirstIndex(t, {'e', 'E'})];
    assert Mantissa(m) == None by {
      if m != [] {
        assert m[0] == s[0];
        var p := FirstIndex(m, {'.'});
        assert p > 0 && m[..p][0] == s[0];
        assert DigitValue(m[..p][0]) >= 10;
      }
    }
  }

  /** Digits, a point and digits (one side may be empty): the value such a literal spells. */
  lemma MantissaPoint(w: string, f: string)
    requires AllDigits(w, 10) && AllDigits(f, 10) && (w != [] || f != [])
    ensures Mantissa(w + "." + f)
         == Some(PointValue(w, f))
  {
    var m := w + "." + f;
    forall j | 0 <= j < |w|
      ensures m[j] !in {'.'}
    {
      assert m[j] == w[j];
      DigitIsPlain(w[j]);
    }
    FirstIndexAt(m, {'.'}, |w|);
    assert m[..|w|] == w;
    assert m[|w| + 1..] == f;
  }

  lemma UnsignedPoint(w: string, f: string)
    requires AllDigits(w, 10) && AllDigits(f, 10) && (w != [] || f != [])
    ensures Decimal(w + "." + f, false) == Some(PointValue(w, f))
    ensures Decimal(w + "." + f, true) == Some(-PointValue(w, f))
  {
    var u := w + "." + f;
    forall j | 0 <= j < |u|
      ensures u[j] !in {'e', 'E'}
    {
      if j < |w| {
        assert u[j] == w[j];
        DigitIsPlain(w[j]);
      } else if j > |w| {
        assert u[j] == f[j - |w| - 1];
        DigitIsPlain(f[j - |w| - 1]);
      }
    }
    FirstIndexAt(u, {'e', 'E'}, |u|);
    assert u[..|u|] == u;
    MantissaPoint(w, f);
  }

  /** The last character of a point literal is a digit or the point: never white space. */
  lemma PointLiteralEnd(w: string, f: string)
    requires AllDigits(w, 10) && AllDigits(f, 10)
    ensures var u := w + "." + f; u != [] && !IsStrWhiteSpace(u[|u| - 1])
  {
    if f != [] {
      DigitIsPlain(f[|f| - 1]);
    }
  }

  /** An unsigned literal with `+` in front converts to its value. */
  lemma PlusForm(u: string, v: real)
    requires u != [] && !IsStrWhiteSpace(u[|u| - 1])
    requires Decimal(u, false) == Some(v)
    ensures ToNumber("+" + u) == Some(v)
  {
    var plus := "+" + u;
    assert plus[1..] == u && plus[|plus| - 1] == u[|u| - 1];
    NoBlankEnds(plus);
  }

  /** An unsigned literal with `-` in front converts to its value negated. */
  lemma MinusForm(u: string, v: real)
    requires u != [] && !IsStrWhiteSpace(u[|u| - 1])
    requires Decimal(u, true) == Some(-v)
    ensures ToNumber("-" + u) == Some(-v)
  {
    var minus := "-" + u;
    assert minus[1..] == u && minus[|minus| - 1] == u[|u| - 1];
    NoBlankEnds(minus);
  }

  /** An unsigned literal that starts with a digit or a point and is not `0x`, `0o` or `0b` converts as a decimal. */
  lemma PlainForm(u: string, v: real)
    requires u != [] && !IsStrWhiteSpace(u[|u| - 1])
    requires ('0' <= u[0] <= '9' || u[0] == '.')
    requires |u| >= 2 ==> ('0' <= u[1] <= '9' || u[1] == '.')
    requires Decimal(u, false) == Some(v)
    ensures ToNumber(u) == Some(v)
  {
    NoBlankEnds(u);
  }

  /** A point literal starts with a digit or the point, and so does what follows its first character. */
  lemma PointLiteralStart(w: string, f: string)
    requires AllDigits(w, 10) && AllDigits(f, 10) && (w != [] || f != [])
    ensures var u := w + "." + f;
      && ('0' <= u[0] <= '9' || u[0] == '.')
      && (|u| >= 2 ==> ('0' <= u[1] <= '9' || u[1] == '.'))
  {
    var u := w + "." + f;
    if w != [] {
      DigitIsPlain(w[0]);
      assert u[0] == w[0];
      if |w| >= 2 {
        DigitIsPlain(w[1]);
        assert u[1] == w[1];
      } else {
        assert u[1] == '.';
      }
    } else {
      assert u[0] == '.';
      assert u[1] == f[0];
      DigitIsPlain(f[0]);
    }
  }

  /** Scaling by a power of ten distributes over a sum. */
  lemma {:induction false} ScaledAdd(x: real, y: real, k: nat)
    ensures Scaled(x + y, k) == Scaled(x, k) + Scaled(y, k)
  {
    if k > 0 {
      ScaledAdd(x, y, k - 1);
    }
  }

  /** A tenth scaled up one place further is the number itself, scaled. */
  lemma {:induction false} ScaledTenth(x: real, k: nat)
    ensures Scaled(x / 10.0, k + 1) == Scaled(x, k)
  {
    if k > 0 {
      ScaledTenth(x, k - 1);
    }
  }

  /** The digits of `a` followed by those of `b` spell `a` shifted left by `|b|` places, plus `b`. */
  lemma {:induction false} DigitsConcat(a: string, b: string)
    requires AllDigits(a, 10) && AllDigits(b, 10)
    ensures AllDigits(a + b, 10)
    ensures DigitsValue(a + b, 10) as real == Scaled(DigitsValue(a, 10) as real, |b|) + DigitsValue(b, 10) as real
    decreases |b|
  {
    forall i | 0 <= i < |a + b|
      ensures 0 <= DigitValue((a + b)[i]) < 10
    {
      if i < |a| {
        assert (a + b)[i] == a[i];
      } else {
        assert (a + b)[i] == b[i - |a|];
      }
    }
    if b == [] {
      assert a + b == a;
    } else {
      var init := b[..|b| - 1];
      forall i | 0 <= i < |init|
        ensures 0 <= DigitValue(init[i]) < 10
      {
        assert init[i] == b[i];
      }
      DigitsConcat(a, init);
      assert (a + b)[..|a + b| - 1] == a + init;
    }
  }

  /** The digits after the point, scaled up by their own number of places, spell an integer. */
  lemma {:induction false} FractionDigits(f: string)
    requires AllDigits(f, 10)
    ensures Scaled(FractionValue(f), |f|) == DigitsValue(f, 10) as real
    decreases |f|
  {
    if f != [] {
      var c, rest := [f[0]], f[1..];
      assert f == c + rest;
      forall i | 0 <= i < |rest|
        ensures 0 <= DigitValue(rest[i]) < 10
      {
        assert rest[i] == f[i + 1];
      }
      var x, y, n := DigitValue(f[0]) as real, FractionValue(rest), |rest|;
      assert Scaled(FractionValue(f), n + 1) == Scaled(x, n) + Scaled(y, n) by {
        assert FractionValue(f) == (x + y) / 10.0;
        ScaledTenth(x + y, n);
        ScaledAdd(x, y, n);
      }
      FractionDigits(rest);
      assert DigitsValue(c, 10) as real == x by {
        assert c[..0] == [];
      }
      DigitsConcat(c, rest);
    }
  }

  /**
   * The value of `w.f` is the integer spelled by the digits of `w` and `f`
   * together, divided by ten to the power `|f|` (`2.5` is 25 tenths).
   */
  lemma PointValueDigits(w: string, f: string)
    requires AllDigits(w, 10) && AllDigits(f, 10)
    ensures AllDigits(w + f, 10)
    ensures Scaled(PointValue(w, f), |f|) == DigitsValue(w + f, 10) as real
  {
    ScaledAdd(DigitsValue(w, 10) as real, FractionValue(f), |f|);
    FractionDigits(f);
    DigitsConcat(w, f);
  }

  /** A fractional count `w.f` is accepted as typed: it converts to the value `v` it spells. */
  lemma UnsignedFraction(w: string, f: string, v: real)
    requires AllDigits(w, 10) && AllDigits(f, 10) && (w != [] || f != [])
    requires v == PointValue(w, f)
    ensures ToNumber(w + "." + f) == Some(v)
  {
    UnsignedPoint(w, f);
    PointLiteralEnd(w, f);
    PointLiteralStart(w, f);
    PlainForm(w + "." + f, v);
  }

  /** A fractional count with a plus sign, `+w.f`, converts to the value `v` that `w.f` spells. */
  lemma PlusFraction(w: string, f: string, v: real)
    requires AllDigits(w, 10) && AllDigits(f, 10) && (w != [] || f != [])
    requires v == PointValue(w, f)
    ensures ToNumber("+" + (w + "." + f)) == Some(v)
  {
    UnsignedPoint(w, f);
    PointLiteralEnd(w, f);
    PlusForm(w + "." + f, v);
  }

  /** A negative fractional count, `-w.f`, is accepted as typed: it converts to `-v`, where `v` is what `w.f` spells. */
  lemma SignedFraction(w: string, f: string, v: real)
    requires AllDigits(w, 10) && AllDigits(f, 10) && (w != [] || f != [])
    requires v == PointValue(w, f)
    ensures ToNumber("-" + (w + "." + f)) == Some(-v)
  {
    NegativePoint(w, f, v);
    MinusForm(w + "." + f, v);
  }

  /** What a `-` in front of a point literal needs: its negated value, and no white space at its end. */
  lemma NegativePoint(w: string, f: string, v: real)
    requires AllDigits(w, 10) && AllDigits(f, 10) && (w != [] || f != [])
    requires v == PointValue(w, f)
    ensures var u := w + "." + f; Decimal(u, true) == Some(-v) && u != [] && !IsStrWhiteSpace(u[|u| - 1])
  {
    UnsignedPoint(w, f);
    PointLiteralEnd(w, f);
  }

  /** Whole counts with a sign are accepted too: `+w` and `-w` convert to the value `v` that `w` spells, and to `-v`. */
  lemma SignedDigits(w: string, v: real)
    requires w != [] && AllDigits(w, 10) && v == DigitsValue(w, 10) as real
    ensures ToNumber("+" + w) == Some(v)
    ensures ToNumber("-" + w) == Some(-v)
  {
    UnsignedDecimalDigits(w, v);
    DigitIsPlain(w[|w| - 1]);
    PlusForm(w, v);
    MinusForm(w, v);
  }
}
