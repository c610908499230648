/** How the price form turns each edited text field into the value written to
    the workbook (streamlit_app.py:227-232): a number when the text passes a
    character-class test and `float()` accepts it, the text itself otherwise.
    Numbers are exact decimals, not IEEE doubles. */
module Coercion {
  import opened Strings
  import opened Cells

  /** `value.replace('.', '').replace('-', '')`: the text with every '.'
      and every '-' dropped. */
  function TestedPart(s: string): string {
    Remove(Remove(s, '.'), '-')
  }

  /** The test in front of `float()`: the text is non-empty, and once every
      '.' and every '-' is dropped what is left is `isdigit()`. */
  predicate PassesDigitTest(s: string)
    ensures PassesDigitTest(s) ==> s != "" && exists ch :: ch in s && IsDigit(ch)
    ensures PassesDigitTest(s) ==> forall ch :: ch in s ==> IsDigit(ch) || ch == '.' || ch == '-'
  {
    var rest := TestedPart(s);
    assert rest != "" ==> rest[0] in rest;
    s != "" && IsDigitString(rest)
  }

  /** Python's `float()` on an unsigned decimal: digits, at most one '.', at
      least one digit on one side of it. None where `float()` raises. */
  function ParseUnsigned(s: string): Option<Decimal> {
    var k := IndexOf(s, '.');
    var whole := s[..k];
    var frac := if k < |s| then s[k + 1..] else "";
    if AllDigits(whole) && AllDigits(frac) && |whole| + |frac| > 0 then
      DigitsValueAppend(whole, frac);
      Some(Decimal(DigitsValue(whole + frac), |frac|))
    else
      None
  }

  /** Python's `float()` on text free of whitespace, exponents, underscores
      and the words inf and nan (none of which passes PassesDigitTest): an
      optional sign, then an unsigned decimal. None where `float()` raises. */
  function ParseFloat(s: string): (r: Option<Decimal>)
    ensures s != "" && (s[0] == '-' || s[0] == '+') ==> (r.Some? <==> IsUnsignedDecimal(s[1..]))
    ensures s == "" || (s[0] != '-' && s[0] != '+') ==> (r.Some? <==> IsUnsignedDecimal(s))
    ensures r.Some? && s != "" && s[0] == '-' ==> r.value.mantissa <= 0
  {
    if s != "" && (s[0] == '-' || s[0] == '+') then
      ParseUnsignedAccepts(s[1..]);
      match ParseUnsigned(s[1..])
      case None => None
      case Some(d) => Some(if s[0] == '-' then Decimal(-d.mantissa, d.scale) else d)
    else
      ParseUnsignedAccepts(s);
      ParseUnsigned(s)
  }

  /** One form field as stored: `float(value)` when the digit test passes,
      the text unchanged when it fails or when `float()` raises (the except
      branch). A text that is not converted is never altered. */
  function Coerce(s: string): (v: Value)
    ensures v.Number? || v == Text(s)
  {
    if PassesDigitTest(s) then
      match ParseFloat(s)
      case Some(d) => Number(d)
      case None => Text(s)
    else
      Text(s)
  }

  /** Plain decimal notation, stated independently of the code: non-empty;
      only digits, '.' and '-'; '-' only as the first character; at most one
      '.'; at least one digit. */
  ghost predicate IsPlainDecimal(s: string) {
    && s != ""
    && (forall i :: 0 <= i < |s| ==> IsDigit(s[i]) || s[i] == '.' || (s[i] == '-' && i == 0))
    && (forall i, j :: 0 <= i < j < |s| && s[i] == '.' ==> s[j] != '.')
    && (exists i :: 0 <= i < |s| && IsDigit(s[i]))
  }

  /** Digits and points only, at most one point, at least one digit. */
  ghost predicate IsUnsignedDecimal(s: string) {
    && (forall i :: 0 <= i < |s| ==> IsDigit(s[i]) || s[i] == '.')
    && (forall i, j :: 0 <= i < j < |s| && s[i] == '.' ==> s[j] != '.')
    && (exists i :: 0 <= i < |s| && IsDigit(s[i]))
  }

  /** ParseUnsigned accepts text exactly when it is made of digits and '.',
      has at most one '.' and has at least one digit. */
  lemma ParseUnsignedAccepts(s: string)
    ensures ParseUnsigned(s).Some? <==> IsUnsignedDecimal(s)
  {
    if ParseUnsigned(s).Some? {
      ParseUnsignedSound(s);
    }
    if IsUnsignedDecimal(s) {
      ParseUnsignedComplete(s);
    }
  }

  lemma ParseUnsignedSound(s: string)
    requires ParseUnsigned(s).Some?
    ensures IsUnsignedDecimal(s)
  {
    var k := IndexOf(s, '.');
    var whole := s[..k];
    var frac := if k < |s| then s[k + 1..] else "";
    assert AllDigits(whole) && AllDigits(frac) && |whole| + |frac| > 0;
    forall i | 0 <= i < |s| && i != k ensures IsDigit(s[i]) {
      if i < k {
        assert s[i] == whole[i] && whole[i] in whole;
      } else {
        assert s[i] == frac[i - k - 1] && frac[i - k - 1] in frac;
      }
    }
    if |whole| > 0 {
      assert s[0] == whole[0] && whole[0] in whole;
    } else {
      assert s[k + 1] == frac[0] && frac[0] in frac;
    }
  }

  lemma ParseUnsignedComplete(s: string)
    requires IsUnsignedDecimal(s)
    ensures ParseUnsigned(s).Some?
  {
    var k := IndexOf(s, '.');
    var whole := s[..k];
    var frac := if k < |s| then s[k + 1..] else "";
    forall ch | ch in whole ensures IsDigit(ch) {
      var i :| 0 <= i < k && whole[i] == ch;
      assert s[i] == ch;
    }
    forall ch | ch in frac ensures IsDigit(ch) {
      var i :| 0 <= i < |frac| && frac[i] == ch;
      assert s[k + 1 + i] == ch;
    }
    var i :| 0 <= i < |s| && IsDigit(s[i]);
    assert i != k;
  }

  /** The digit test holds exactly of non-empty text made of digits, '.'
      and '-' with at least one digit. */
  lemma DigitTestChars(s: string)
    ensures PassesDigitTest(s) <==>
      && s != ""
      && (forall i :: 0 <= i < |s| ==> IsDigit(s[i]) || s[i] == '.' || s[i] == '-')
      && (exists i :: 0 <= i < |s| && IsDigit(s[i]))
  {
    var rest := TestedPart(s);
    if PassesDigitTest(s) {
      forall i | 0 <= i < |s| ensures IsDigit(s[i]) || s[i] == '.' || s[i] == '-' {
        assert s[i] in s;
        if s[i] != '.' && s[i] != '-' { assert s[i] in rest; }
      }
      assert rest[0] in rest;
      var i :| 0 <= i < |s| && s[i] == rest[0];
    }
    if s != "" && (forall i :: 0 <= i < |s| ==> IsDigit(s[i]) || s[i] == '.' || s[i] == '-')
       && (exists i :: 0 <= i < |s| && IsDigit(s[i]))
    {
      var i :| 0 <= i < |s| && IsDigit(s[i]);
      assert s[i] in rest;
      forall ch | ch in rest ensures IsDigit(ch) {
        assert ch in s;
        var j :| 0 <= j < |s| && s[j] == ch;
      }
    }
  }

  /** Plain decimal text is unsigned decimal text, after a leading '-' if
      there is one. */
  lemma PlainSplit(s: string)
    requires s != ""
    ensures IsPlainDecimal(s) <==>
      if s[0] == '-' then IsUnsignedDecimal(s[1..]) else IsUnsignedDecimal(s)
  {
    var t := s[1..];
    if s[0] == '-' {
      if IsUnsignedDecimal(t) {
        forall i | 0 <= i < |s| ensures IsDigit(s[i]) || s[i] == '.' || (s[i] == '-' && i == 0) {
          if i > 0 { assert s[i] == t[i - 1]; }
        }
        forall i, j | 0 <= i < j < |s| && s[i] == '.' ensures s[j] != '.' {
          assert s[i] == t[i - 1] && s[j] == t[j - 1];
        }
        var i :| 0 <= i < |t| && IsDigit(t[i]);
        assert IsDigit(s[i + 1]);
      }
      if IsPlainDecimal(s) {
        forall i | 0 <= i < |t| ensures IsDigit(t[i]) || t[i] == '.' {
          assert t[i] == s[i + 1];
        }
        forall i, j | 0 <= i < j < |t| && t[i] == '.' ensures t[j] != '.' {
          assert t[i] == s[i + 1] && t[j] == s[j + 1];
        }
        var i :| 0 <= i < |s| && IsDigit(s[i]);
        assert t[i - 1] == s[i];
      }
    }
  }

  /** The text becomes a number exactly when it is plain decimal notation;
      "", "1e5", "1.2.3", "1-2", "-" and "." all stay text. */
  lemma CoerceNumberIff(s: string)
    ensures Coerce(s).Number? <==> IsPlainDecimal(s)
  {
    DigitTestChars(s);
    if s != "" {
      PlainSplit(s);
      ParseUnsignedAccepts(s);
      ParseUnsignedAccepts(s[1..]);
      if s[0] == '+' {
        assert !IsDigit(s[0]);
      }
    }
  }

  /** Dropping the point, then every '-', from digits around one point
      leaves the digits. */
  lemma DropPoint(whole: string, frac: string)
    requires AllDigits(whole) && AllDigits(frac)
    ensures TestedPart(whole + "." + frac) == whole + frac
  {
    assert '.' !in whole && '.' !in frac && '-' !in whole + frac;
    RemoveAppend(whole + ".", frac, '.');
    RemoveAppend(whole, ".", '.');
    RemoveAbsent(whole, '.');
    RemoveAbsent(frac, '.');
    assert Remove(".", '.') == "";
    assert whole + "" == whole;
    RemoveAbsent(whole + frac, '-');
  }

  /** Unsigned decimal text splits at its point into a whole part and a
      fraction, both digit strings. */
  lemma SplitAtPoint(t: string)
    requires IsUnsignedDecimal(t)
    ensures var k := IndexOf(t, '.');
      var whole, frac := t[..k], if k < |t| then t[k + 1..] else "";
      && AllDigits(whole) && AllDigits(frac)
      && t == (if k < |t| then whole + "." + frac else whole)
      && ParseUnsigned(t) == Some(Decimal(DigitsValue(whole + frac), |frac|))
  {
    var k := IndexOf(t, '.');
    var whole, frac := t[..k], if k < |t| then t[k + 1..] else "";
    ParseUnsignedAccepts(t);
    if k < |t| {
      assert t == whole + "." + frac;
    }
  }

  /** Unsigned decimal text loses exactly its point to the digit test's
      deletions. */
  lemma UnsignedDigits(t: string)
    requires IsUnsignedDecimal(t)
    ensures var k := IndexOf(t, '.');
      var whole, frac := t[..k], if k < |t| then t[k + 1..] else "";
      && AllDigits(whole + frac)
      && TestedPart(t) == whole + frac
      && (k < |t| <==> '.' in t)
  {
    var k := IndexOf(t, '.');
    var whole, frac := t[..k], if k < |t| then t[k + 1..] else "";
    SplitAtPoint(t);
    if k < |t| {
      DropPoint(whole, frac);
    } else {
      assert frac == "" && whole + frac == t;
      assert '.' !in t && '-' !in t;
      RemoveAbsent(t, '.');
      RemoveAbsent(t, '-');
    }
  }

  /** The number of characters after the first '.', 0 when there is none. */
  function FractionLength(s: string): nat {
    if '.' in s then |s| - 1 - IndexOf(s, '.') else 0
  }

  /** What float() makes of unsigned decimal text, in terms of its digits
      and the position of its point. */
  lemma ParseUnsignedValue(t: string)
    requires IsUnsignedDecimal(t)
    ensures AllDigits(TestedPart(t))
    ensures ParseUnsigned(t) == Some(Decimal(DigitsValue(TestedPart(t)), FractionLength(t)))
  {
    var k := IndexOf(t, '.');
    var whole, frac := t[..k], if k < |t| then t[k + 1..] else "";
    SplitAtPoint(t);
    UnsignedDigits(t);
    assert |frac| == FractionLength(t);
  }

  /** Plain decimal text without a sign is stored as what float() parses. */
  lemma CoerceUnsigned(s: string)
    requires IsPlainDecimal(s) && s[0] != '-'
    ensures IsUnsignedDecimal(s) && ParseUnsigned(s).Some?
    ensures Coerce(s) == Number(ParseUnsigned(s).value)
  {
    CoerceNumberIff(s);
    PlainSplit(s);
    ParseUnsignedAccepts(s);
    assert IsDigit(s[0]) || s[0] == '.';
  }

  /** Plain decimal text with a leading '-' is stored as the negated parse
      of the rest. */
  lemma CoerceNegative(s: string)
    requires IsPlainDecimal(s) && s[0] == '-'
    ensures IsUnsignedDecimal(s[1..]) && ParseUnsigned(s[1..]).Some?
    ensures Coerce(s) == Number(Decimal(-ParseUnsigned(s[1..]).value.mantissa, ParseUnsigned(s[1..]).value.scale))
  {
    CoerceNumberIff(s);
    PlainSplit(s);
    ParseUnsignedAccepts(s[1..]);
  }

  /** The number stored for plain decimal text is exact: its digits, with
      the point and the sign dropped, read as one integer, negated after a
      leading '-', over ten to the number of digits after the point. */
  lemma CoerceValue(s: string)
    requires IsPlainDecimal(s)
    ensures AllDigits(TestedPart(s))
    ensures Coerce(s) == Number(Decimal(
      if s[0] == '-' then -(DigitsValue(TestedPart(s)) as int) else DigitsValue(TestedPart(s)),
      FractionLength(s)))
  {
    if s[0] == '-' {
      CoerceValueSigned(s);
    } else {
      CoerceUnsigned(s);
      ParseUnsignedValue(s);
    }
  }

  lemma CoerceValueSigned(s: string)
    requires IsPlainDecimal(s) && s[0] == '-'
    ensures AllDigits(TestedPart(s))
    ensures Coerce(s) == Number(Decimal(-(DigitsValue(TestedPart(s)) as int), FractionLength(s)))
  {
    var t := s[1..];
    CoerceNegative(s);
    ParseUnsignedValue(t);
    NoSignAfterFirst(s);
    SignDropped(s);
  }

  /** In plain decimal text '-' can only come first. */
  lemma NoSignAfterFirst(s: string)
    requires IsPlainDecimal(s)
    ensures '-' !in s[1..]
  {
  }

  /** A leading '-' is dropped by the digit test and shifts the point by one. */
  lemma SignDropped(s: string)
    requires s != "" && s[0] == '-' && '-' !in s[1..]
    ensures TestedPart(s) == TestedPart(s[1..])
    ensures ('.' in s) == ('.' in s[1..])
    ensures IndexOf(s, '.') == 1 + IndexOf(s[1..], '.')
    ensures FractionLength(s) == FractionLength(s[1..])
  {
    var t := s[1..];
    assert s == "-" + t;
    RemoveAppend("-", t, '.');
    assert Remove("-", '.') == "-";
    RemoveAppend("-", Remove(t, '.'), '-');
    assert Remove("-", '-') == "";
  }

  /** The absolute value of the mantissa. */
  function Magnitude(d: Decimal): nat {
    if d.mantissa < 0 then -d.mantissa else d.mantissa
  }

  /** The digits of |d.mantissa|, padded with leading zeros to more than
      d.scale digits. */
  function PaddedDigits(d: Decimal): (p: string)
    ensures AllDigits(p) && |p| > d.scale
    ensures DigitsValue(p) == Magnitude(d)
  {
    var magnitude := NatToDigits(Magnitude(d));
    if |magnitude| <= d.scale then
      LeadingZeros(d.scale + 1 - |magnitude|, magnitude);
      Zeros(d.scale + 1 - |magnitude|) + magnitude
    else
      magnitude
  }

  /** The magnitude of a decimal in plain notation: its padded digits
      with a point before the last `scale` of them. */
  function RenderMagnitude(d: Decimal): string {
    var p := PaddedDigits(d);
    var k := |p| - d.scale;
    if d.scale > 0 then p[..k] + "." + p[k..] else p
  }

  /** A decimal written in plain notation: '-' for a negative mantissa, then
      its magnitude. */
  function Render(d: Decimal): string {
    (if d.mantissa < 0 then "-" else "") + RenderMagnitude(d)
  }

  lemma {:induction false} IndexOfAfter(prefix: string, rest: string, ch: char)
    requires ch !in prefix
    ensures IndexOf(prefix + rest, ch) == |prefix| + IndexOf(rest, ch)
  {
    if prefix != "" {
      assert (prefix + rest)[0] == prefix[0] && (prefix + rest)[1..] == prefix[1..] + rest;
      IndexOfAfter(prefix[1..], rest, ch);
    } else {
      assert prefix + rest == rest;
    }
  }

  /** Digits, a point and more digits parse to all the digits read as one
      integer over ten to the length of the fraction. */
  lemma ParseAroundPoint(whole: string, frac: string)
    requires AllDigits(whole) && AllDigits(frac) && whole != "" && frac != ""
    ensures AllDigits(whole + frac)
    ensures IsUnsignedDecimal(whole + "." + frac)
    ensures ParseUnsigned(whole + "." + frac) == Some(Decimal(DigitsValue(whole + frac), |frac|))
  {
    var t := whole + "." + frac;
    DigitsValueAppend(whole, frac);
    assert '.' !in whole;
    PointSplit(whole, frac);
    assert ParseUnsigned(t) == Some(Decimal(DigitsValue(whole + frac), |frac|));
    ParseUnsignedSound(t);
  }

  /** The first point of `whole + "." + frac` is the one after whole. */
  lemma PointSplit(whole: string, frac: string)
    requires '.' !in whole
    ensures IndexOf(whole + "." + frac, '.') == |whole|
    ensures (whole + "." + frac)[..|whole|] == whole
    ensures (whole + "." + frac)[|whole| + 1..] == frac
  {
    IndexOfAfter(whole, "." + frac, '.');
    assert whole + "." + frac == whole + ("." + frac);
  }

  /** Digits alone parse to their value with scale 0. */
  lemma ParseWhole(whole: string)
    requires AllDigits(whole) && whole != ""
    ensures IsUnsignedDecimal(whole)
    ensures ParseUnsigned(whole) == Some(Decimal(DigitsValue(whole), 0))
  {
    assert '.' !in whole;
    assert IndexOf(whole, '.') == |whole|;
    assert whole[..|whole|] == whole && whole + "" == whole;
    ParseUnsignedAccepts(whole);
  }

  /** A magnitude with a fractional part is written as digits, a point and
      digits, and parses back to itself. */
  lemma RenderFractionParses(d: Decimal)
    requires d.scale > 0
    ensures IsUnsignedDecimal(RenderMagnitude(d)) && IsDigit(RenderMagnitude(d)[0])
    ensures ParseUnsigned(RenderMagnitude(d)) == Some(Decimal(Magnitude(d), d.scale))
  {
    var p := PaddedDigits(d);
    var k := |p| - d.scale;
    var whole, frac := p[..k], p[k..];
    AllDigitsSplit(p, k);
    assert p == whole + frac;
    assert IsDigit(whole[0]) by {
      assert whole[0] in whole;
    }
    ParseAroundPoint(whole, frac);
    assert RenderMagnitude(d) == whole + "." + frac;
    assert RenderMagnitude(d)[0] == whole[0];
  }

  /** A whole magnitude is written as its digits alone. */
  lemma RenderWholeParses(d: Decimal)
    requires d.scale == 0
    ensures IsUnsignedDecimal(RenderMagnitude(d)) && IsDigit(RenderMagnitude(d)[0])
    ensures ParseUnsigned(RenderMagnitude(d)) == Some(Decimal(Magnitude(d), d.scale))
  {
    var p := PaddedDigits(d);
    assert p[..|p|] == p;
    assert RenderMagnitude(d) == p;
    assert p[0] in p;
    ParseWhole(p);
  }

  /** The written magnitude starts with a digit and parses back to the
      magnitude at the same scale. */
  lemma RenderMagnitudeParses(d: Decimal)
    ensures IsUnsignedDecimal(RenderMagnitude(d)) && IsDigit(RenderMagnitude(d)[0])
    ensures ParseUnsigned(RenderMagnitude(d)) == Some(Decimal(Magnitude(d), d.scale))
  {
    if d.scale > 0 {
      RenderFractionParses(d);
    } else {
      RenderWholeParses(d);
    }
  }

  /** Every decimal written in plain notation is coerced back to itself. */
  lemma RenderRoundTrip(d: Decimal)
    ensures IsPlainDecimal(Render(d))
    ensures Coerce(Render(d)) == Number(d)
  {
    var t := RenderMagnitude(d);
    var s := Render(d);
    RenderMagnitudeParses(d);
    if d.mantissa < 0 {
      assert s[0] == '-' && s[1..] == t;
      PlainSplit(s);
      CoerceNegative(s);
    } else {
      assert s == t;
      PlainSplit(s);
      CoerceUnsigned(s);
    }
  }

  /** A character other than a digit, '.' or '-' fails the digit test, so
      the text is kept. */
  lemma ForeignCharKeepsText(s: string, i: nat)
    requires i < |s| && !IsDigit(s[i]) && s[i] != '.' && s[i] != '-'
    ensures Coerce(s) == Text(s)
  {
    assert s[i] in s;
    assert s[i] in TestedPart(s);
  }

  /** Text that fails the digit test is kept: empty text, a letter, an
      exponent, a bare sign, a bare point. */
  lemma DigitTestRejectsExamples()
    ensures Coerce("") == Text("")
    ensures Coerce("1e5") == Text("1e5") && Coerce("abc") == Text("abc")
    ensures Coerce("-") == Text("-") && Coerce(".") == Text(".")
  {
    ForeignCharKeepsText("1e5", 1);
    ForeignCharKeepsText("abc", 0);
    assert TestedPart("-") == "";
    assert TestedPart(".") == "";
  }

  /** Text that passes the digit test but that `float()` rejects reaches
      the except branch and is kept: two points, an inner sign. */
  lemma FloatRejectsExamples()
    ensures Coerce("1.2.3") == Text("1.2.3") && Coerce("1-2") == Text("1-2")
  {
    CoerceNumberIff("1.2.3");
    assert "1.2.3"[1] == '.' && "1.2.3"[3] == '.';
    CoerceNumberIff("1-2");
    assert "1-2"[1] == '-';
  }

  /** "12.50" keeps its trailing zero: it is Decimal(1250, 2), not Decimal(125, 1). */
  lemma CoerceTrailingZeroExample()
    ensures Coerce("12.50") == Number(Decimal(1250, 2))
  {
    assert NatToDigits(1) == "1";
    assert NatToDigits(12) == "12";
    assert NatToDigits(125) == "125";
    assert NatToDigits(1250) == "1250";
    assert PaddedDigits(Decimal(1250, 2)) == "1250";
    var s := Render(Decimal(1250, 2));
    assert s == "12.50";
    RenderRoundTrip(Decimal(1250, 2));
    assert Coerce(s) == Number(Decimal(1250, 2));
  }

  /** "-0.5": a sign, a zero whole part and one fractional digit. */
  lemma CoerceNegativeExample()
    ensures Coerce("-0.5") == Number(Decimal(-5, 1))
  {
    assert NatToDigits(5) == "5";
    assert PaddedDigits(Decimal(-5, 1)) == "05";
    var s := Render(Decimal(-5, 1));
    assert s == "-0.5";
    RenderRoundTrip(Decimal(-5, 1));
    assert Coerce(s) == Number(Decimal(-5, 1));
  }
}
