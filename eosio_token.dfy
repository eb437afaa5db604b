/** src/eosio.token.js: an amount of an EOSIO token, built from a value
    that is either already scaled by 10^decimal (an integer without a '.')
    or a decimal number, and rendered with en-US grouping and exactly
    `decimal` fraction digits followed by the symbol. */
module EosioToken {
  import opened Wrappers
  import opened Digits
  import opened JsNumber

  /** The constructed token: the exact amount, the number of fraction digits
      and the unit symbol. */
  datatype Token = Token(value: real, decimal: nat, symbol: string)

  /** new EosioToken(value, decimal = 4, symbol = 'UOS'), the value given as
      the text String(value) yields. An integer text without '.' within the
      safe-integer range is taken as pre-scaled and divided by 10^decimal;
      anything else keeps the number parseFloat read. */
  function Make(value: string, decimal: nat := 4, symbol: string := "UOS"): (r: Result<Token>)
    ensures r.Err? <==> !StartsNumber(value)
    ensures r.Err? ==> r.error == UnexpectedValue
    ensures r.Ok? ==> r.value.decimal == decimal && r.value.symbol == symbol
    ensures r.Ok? && IsSafeInteger(ParseFloat(value).value) && '.' !in value ==>
              r.value.value == ParseFloat(value).value / Pow10(decimal) as real
    ensures r.Ok? && ('.' in value || !IsSafeInteger(ParseFloat(value).value)) ==>
              r.value.value == ParseFloat(value).value
  {
    ParseFloatNaN(value);
    var parsed := ParseFloat(value);
    if parsed.None? then Err(UnexpectedValue)
    else
      var num := parsed.value;
      if IsSafeInteger(num) && '.' !in value then
        Ok(Token(num / Pow10(decimal) as real, decimal, symbol))
      else
        Ok(Token(num, decimal, symbol))
  }

  /** new EosioToken(0), the zero amount with the default digits and symbol
      (MakeZero shows the constructor yields it). */
  function Zero(): Token
  {
    Token(0.0, 4, "UOS")
  }

  lemma MakeZero()
    ensures Make("0") == Ok(Zero())
  {
    ParseZero();
    ParseFloatNaN("0");
    assert '.' !in "0";
    assert IsSafeInteger(0.0);
    var r := Make("0");
    assert r.Ok?;
    assert r.value.value == 0.0 / Pow10(4) as real;
  }

  lemma ParseZero()
    ensures ParseFloat("0") == Some(0.0)
  {
    ScanInteger(false, "0", "");
    assert SignText(false) + "0" + "" == "0";
    assert Value("0") == 0 by { assert "0"[..0] == ""; }
    IntegerLiteral(Literal(false, "0", ""));
  }

  /** toString(): Intl.NumberFormat('en-US') with exactly `decimal` fraction
      digits (rounded half away from zero), a '-' for a negative amount,
      then ' ' and the symbol. */
  function Render(t: Token): string
  {
    var digits := SplitFixed(Units(t.value, t.decimal), t.decimal);
    var integer := SignText(t.value < 0.0) + Group(digits.0);
    if t.decimal > 0 then integer + "." + digits.1 + " " + t.symbol else integer + " " + t.symbol
  }

  /** What toString prints, piece by piece: the sign, the integer part with a
      ',' at every fourth place from its right end, a '.' and exactly
      `decimal` fraction digits when `decimal` > 0, and ' ' + symbol; the
      digits read together are the amount rounded to `decimal` places. */
  lemma RenderShape(t: Token) returns (sign: string, integer: string, fraction: string)
    ensures sign == (if t.value < 0.0 then "-" else "")
    ensures CommaEveryFourth(integer) && AllDigits(Ungroup(integer)) && 1 <= |Ungroup(integer)|
    ensures AllDigits(fraction) && |fraction| == t.decimal
    ensures Value(Ungroup(integer)) * Pow10(t.decimal) + Value(fraction) == Units(t.value, t.decimal)
    ensures Render(t) == if t.decimal > 0 then sign + integer + "." + fraction + " " + t.symbol
                         else sign + integer + " " + t.symbol
  {
    var n := Units(t.value, t.decimal);
    var digits := SplitFixed(n, t.decimal);
    sign, integer, fraction := SignText(t.value < 0.0), Group(digits.0), digits.1;
    GroupShape(digits.0);
    SplitFixedValue(n, t.decimal);
    DivModIdentity(n, Pow10(t.decimal));
  }

  lemma DivModIdentity(n: nat, p: nat)
    requires p >= 1
    ensures (n / p) * p + n % p == n
  {
  }

  /** The rounding toString applies moves the amount by at most half a unit
      of its last fraction digit. */
  lemma RenderRounding(t: Token)
    ensures var shown := Signed(t.value < 0.0, Units(t.value, t.decimal) as real / Pow10(t.decimal) as real);
            Abs(shown - t.value) * Pow10(t.decimal) as real <= 0.5
  {
    var p := Pow10(t.decimal) as real;
    var n := Units(t.value, t.decimal) as real;
    var a := Abs(t.value);
    HalfUnit(a, n, p);
    var shown := Signed(t.value < 0.0, n / p);
    assert Abs(shown - t.value) == Abs(n / p - a);
  }

  lemma HalfUnit(a: real, n: real, p: real)
    requires p > 0.0 && a * p - 0.5 < n <= a * p + 0.5
    ensures Abs(n / p - a) * p <= 0.5
  {
    assert (n / p - a) * p == n - a * p;
    if n / p - a < 0.0 {
      assert Abs(n / p - a) * p == a * p - n;
    } else {
      assert Abs(n / p - a) * p == n - a * p;
    }
  }

  /** Reading back what toString printed, for an amount whose rounded integer
      part has at most three digits (so no ','), gives the rounded amount: not
      rescaled, because the text has a '.'. */
  lemma RenderRoundTrip(t: Token)
    requires t.decimal > 0
    requires Units(t.value, t.decimal) < 1000 * Pow10(t.decimal)
    ensures Make(Render(t), t.decimal, t.symbol)
         == Ok(Token(Signed(t.value < 0.0, Units(t.value, t.decimal) as real / Pow10(t.decimal) as real),
                     t.decimal, t.symbol))
  {
    var n := Units(t.value, t.decimal);
    var d := t.decimal;
    var digits := SplitFixed(n, d);
    SplitFixedValue(n, d);
    ThreeDigitsAtMost(n, d, digits.0);
    assert Group(digits.0) == digits.0;
    var text := SignText(t.value < 0.0) + digits.0 + "." + digits.1 + (" " + t.symbol);
    assert Render(t) == text;
    ScanDecimal(t.value < 0.0, digits.0, digits.1, " " + t.symbol);
    FixedLiteralValue(n, d, Literal(t.value < 0.0, digits.0, digits.1));
    assert text[|SignText(t.value < 0.0) + digits.0|] == '.';
  }

  /** Below 1000 * 10^d the integer digits are at most three. */
  lemma ThreeDigitsAtMost(n: nat, d: nat, ip: string)
    requires ip == SplitFixed(n, d).0 && n < 1000 * Pow10(d)
    ensures |ip| <= 3
  {
    SplitFixedValue(n, d);
    NoLeadingZeroBound(ip);
    if |ip| > 3 {
      Pow10Monotone(3, |ip| - 1);
      assert Value(ip) >= 1000;
      DivLowerBound(n, Pow10(d), 1000);
      assert false;
    }
  }

  lemma DivLowerBound(n: nat, p: nat, k: nat)
    requires p >= 1 && n / p >= k
    ensures n >= k * p
  {
    assert n == (n / p) * p + n % p;
    assert (n / p) * p >= k * p by { MulLe(k, n / p, p); }
  }

  lemma MulLe(a: nat, b: nat, p: nat)
    requires a <= b
    ensures a * p <= b * p
  {
  }

  /** A digit string without '.' in the safe range is a pre-scaled amount. */
  lemma MakeOfDigits(digits: string, decimal: nat, symbol: string)
    requires AllDigits(digits) && 1 <= |digits| && Value(digits) <= MaxSafeInteger
    ensures Make(digits, decimal, symbol)
         == Ok(Token(Value(digits) as real / Pow10(decimal) as real, decimal, symbol))
  {
    ScanPlainInteger(digits, "");
    assert digits + "" == digits;
    IntegerLiteral(Literal(false, digits, ""));
    var l := Literal(false, digits, "");
    assert ParseFloat(digits) == Some(LiteralValue(l));
    assert LiteralValue(l) == Value(digits) as real;
    assert IsSafeInteger(LiteralValue(l));
    assert '.' !in digits by {
      forall i | 0 <= i < |digits| ensures digits[i] != '.' { assert IsDigit(digits[i]); }
    }
  }

  /** A text with a '.' after its digits keeps the decimal number it spells. */
  lemma MakeOfDecimal(negative: bool, ip: string, fp: string, tail: string, decimal: nat, symbol: string)
    requires AllDigits(ip) && AllDigits(fp) && 1 <= |ip|
    requires tail == [] || !IsDigit(tail[0])
    ensures var text := SignText(negative) + ip + "." + fp + tail;
            Make(text, decimal, symbol) == Ok(Token(LiteralValue(Literal(negative, ip, fp)), decimal, symbol))
  {
    var text := SignText(negative) + ip + "." + fp + tail;
    ScanDecimal(negative, ip, fp, tail);
    ParseFloatNaN(text);
    assert text[|SignText(negative) + ip|] == '.';
  }

  /** The digits "12345" stand for 12345. */
  lemma ScaledDigits(t: string)
    requires t == "12345"
    ensures AllDigits(t) && Value(t) == 12345
  {
    var a1, a2, a3, a4 := t[..1], t[..2], t[..3], t[..4];
    assert a1[..0] == [] && a2[..1] == a1 && a3[..2] == a2 && a4[..3] == a3 && t[..4] == a4;
    assert Value(a1) == 1;
    assert Value(a2) == 12;
    assert Value(a3) == 123;
    assert Value(a4) == 1234;
  }

  /** A pre-scaled integer is divided down: "12345" is 1.2345 UOS. */
  lemma MakeScaledExample(t: string)
    requires t == "12345"
    ensures Make(t) == Ok(Token(1.2345, 4, "UOS"))
  {
    ScaledDigits(t);
    MakeOfDigits(t, 4, "UOS");
    assert Pow10(4) == 10000;
    ScaledQuotient(Value(t), Pow10(4));
  }

  lemma ScaledQuotient(v: nat, p: nat)
    requires v == 12345 && p == 10000
    ensures v as real / p as real == 1.2345
  {
  }

  /** 100 UOS renders as "100.0000 UOS": four fraction digits, no ','. */
  lemma RenderHundredExample(t: Token)
    requires t.value == 100.0 && t.decimal == 4 && t.symbol == "UOS"
    ensures Render(t) == "100.0000 UOS"
  {
    var n := Units(t.value, t.decimal);
    assert Pow10(4) == 10000;
    assert n == 1000000 by {
      var x := t.value * 10000.0 + 0.5;
      assert x == 1000000.5;
    }
    var d1 := NatToDigits(1);
    var d2 := NatToDigits(10);
    var d3 := NatToDigits(100);
    var d4 := NatToDigits(1000);
    var d5 := NatToDigits(10000);
    var d6 := NatToDigits(100000);
    var d7 := NatToDigits(n);
    assert d1 == "1";
    assert d2 == d1 + "0";
    assert d3 == d2 + "0";
    assert d4 == d3 + "0";
    assert d5 == d4 + "0";
    assert d6 == d5 + "0";
    assert d7 == d6 + "0";
    assert d7 == "1000000";
    var sp := SplitFixed(n, 4);
    assert sp.0 == "100" && sp.1 == "0000";
    assert Group(sp.0) == "100";
  }

  /** A text with a '.' keeps its number: "100.0000 UOS" is 100 UOS, not
      rescaled. */
  lemma MakeDecimalExample(t: string)
    requires t == "100.0000 UOS"
    ensures Make(t) == Ok(Token(100.0, 4, "UOS"))
  {
    var ip, fp, tail := t[..3], t[4..8], t[8..];
    assert t == ip + "." + fp + tail;
    assert forall k | 0 <= k < |fp| :: fp[k] == '0';
    AllZeroValue(fp);
    HundredDigits(ip);
    ScanPlainDecimal(ip, fp, tail);
    WholeLiteral(Literal(false, ip, fp));
    ParseFloatNaN(t);
    assert t[3] == '.';
  }

  /** The digits "100" stand for 100. */
  lemma HundredDigits(ip: string)
    requires ip == "100"
    ensures AllDigits(ip) && Value(ip) == 100
  {
    var i1, i2 := ip[..1], ip[..2];
    assert i1[..0] == [] && i2[..1] == i1 && ip[..2] == i2;
    assert Value(i1) == 1;
    assert Value(i2) == 10;
  }

  /** A literal whose fraction digits are all zero is a whole number. */
  lemma WholeLiteral(l: Literal)
    requires AllDigits(l.intDigits) && AllDigits(l.fracDigits) && Value(l.fracDigits) == 0
    ensures LiteralValue(l) == Signed(l.negative, Value(l.intDigits) as real)
  {
  }

  /** A run of '0' digits is worth zero. */
  lemma {:induction false} AllZeroValue(s: string)
    requires forall k | 0 <= k < |s| :: s[k] == '0'
    ensures AllDigits(s) && Value(s) == 0
  {
    if s != [] {
      AllZeroValue(s[..|s| - 1]);
    }
  }

  /** en-US grouping: 1234.5 UOS renders as "1,234.5000 UOS". */
  lemma RenderGroupedExample(t: Token)
    requires t.value == 1234.5 && t.decimal == 4 && t.symbol == "UOS"
    ensures Render(t) == "1,234.5000 UOS"
  {
    var n := Units(t.value, t.decimal);
    assert Pow10(4) == 10000;
    assert n == 12345000 by {
      var x := t.value * 10000.0 + 0.5;
      assert x == 12345000.5;
    }
    var d1 := NatToDigits(1);
    var d2 := NatToDigits(12);
    var d3 := NatToDigits(123);
    var d4 := NatToDigits(1234);
    var d5 := NatToDigits(12345);
    var d6 := NatToDigits(123450);
    var d7 := NatToDigits(1234500);
    var d8 := NatToDigits(n);
    assert d1 == "1";
    assert d2 == d1 + "2";
    assert d3 == d2 + "3";
    assert d4 == d3 + "4";
    assert d5 == d4 + "5";
    assert d6 == d5 + "0";
    assert d7 == d6 + "0";
    assert d8 == d7 + "0";
    assert d8 == "12345000";
    var sp := SplitFixed(n, 4);
    assert sp.0 == "1234" && sp.1 == "5000";
    assert Group(sp.0) == "1,234" by { assert sp.0[..1] == "1" && sp.0[1..] == "234"; }
  }

  /** An amount of a thousand or more does not read back: the ',' ends
      the number, so "1,234.5000 UOS" is read as the integer 1, which the
      constructor then does not rescale only because the text has a '.'. */
  lemma RoundTripFailsExample(t: Token)
    requires t.value == 1234.5 && t.decimal == 4 && t.symbol == "UOS"
    ensures Make(Render(t)) == Ok(Token(1.0, 4, "UOS"))
  {
    RenderGroupedExample(t);
    var text := Render(t);
    var ip, tail := text[..1], text[1..];
    assert text == ip + tail;
    assert ip == "1";
    assert tail == ",234.5000 UOS";
    GroupedReadsBack(ip, tail);
  }

  /** "1" followed by ",234.5000 UOS" is read as 1 UOS. */
  lemma GroupedReadsBack(ip: string, tail: string)
    requires ip == "1" && tail == ",234.5000 UOS"
    ensures Make(ip + tail) == Ok(Token(1.0, 4, "UOS"))
  {
    assert ip[..0] == [] && IsDigit(ip[0]);
    assert tail[0] == ',' && tail[4] == '.';
    assert Value(ip) == 1;
    MakeStopsEarly(ip, tail, 4, "UOS");
  }

  /** Digits followed by a character that is neither a digit nor a '.', with
      a '.' somewhere after it: the number is the leading digits alone, and
      it is not rescaled because the text has a '.'. */
  lemma MakeStopsEarly(ip: string, tail: string, decimal: nat, symbol: string)
    requires AllDigits(ip) && 1 <= |ip|
    requires tail != [] && !IsDigit(tail[0]) && tail[0] != '.' && '.' in tail
    ensures Make(ip + tail, decimal, symbol) == Ok(Token(Value(ip) as real, decimal, symbol))
  {
    var text := ip + tail;
    ScanPlainInteger(ip, tail);
    IntegerLiteral(Literal(false, ip, ""));
    ParseFloatNaN(text);
    assert '.' in text by {
      var k :| 0 <= k < |tail| && tail[k] == '.';
      assert text[|ip| + k] == '.';
    }
  }
}
