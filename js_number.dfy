/** The JavaScript number built-ins the token code relies on, over exact
    reals: parseFloat on a plain decimal prefix, Number.isSafeInteger, and
    Number.prototype.toFixed. */
module JsNumber {
  import opened Wrappers
  import opened Digits

  /** ECMAScript's WhiteSpace and LineTerminator code points: what parseFloat
      skips at the front and what a regular expression's \s matches. */
  predicate IsWhitespace(c: char)
  {
    || c == '\t' || c == '\n' || c == '\U{000B}' || c == '\U{000C}' || c == '\r' || c == ' '
    || c == '\U{00A0}' || c == '\U{1680}' || ('\U{2000}' <= c <= '\U{200A}')
    || c == '\U{2028}' || c == '\U{2029}' || c == '\U{202F}' || c == '\U{205F}'
    || c == '\U{3000}' || c == '\U{FEFF}'
  }

  predicate AllWhitespace(s: string) { forall i :: 0 <= i < |s| ==> IsWhitespace(s[i]) }

  /** s without its leading whitespace. */
  function TrimStart(s: string): (r: string)
    ensures |r| <= |s| && r == s[|s| - |r|..]
    ensures AllWhitespace(s[..|s| - |r|])
    ensures r == [] || !IsWhitespace(r[0])
  {
    if s != [] && IsWhitespace(s[0]) then
      var r := TrimStart(s[1..]);
      var ws, lead := s[1..][..|s| - 1 - |r|], s[..|s| - |r|];
      assert AllWhitespace(lead) by {
        forall i | 0 <= i < |lead| ensures IsWhitespace(lead[i]) {
          if i > 0 { assert lead[i] == ws[i - 1]; }
        }
      }
      assert s[1..][|s| - 1 - |r|..] == s[|s| - |r|..];
      r
    else s
  }

  lemma {:induction false} TrimStartPrefix(ws: string, u: string)
    requires AllWhitespace(ws) && (u == [] || !IsWhitespace(u[0]))
    ensures TrimStart(ws + u) == u
  {
    if ws != [] {
      assert (ws + u)[1..] == ws[1..] + u;
      TrimStartPrefix(ws[1..], u);
    } else {
      assert ws + u == u;
    }
  }

  /** The longest prefix of s made of decimal digits. */
  function DigitRun(s: string): (r: string)
    ensures |r| <= |s| && AllDigits(r) && r == s[..|r|]
    ensures |r| == |s| || !IsDigit(s[|r|])
  {
    if s != [] && IsDigit(s[0]) then
      var rest := DigitRun(s[1..]);
      assert s[..1 + |rest|] == [s[0]] + s[1..][..|rest|];
      [s[0]] + rest
    else ""
  }

  lemma {:induction false} DigitRunPrefix(ip: string, tail: string)
    requires AllDigits(ip) && (tail == [] || !IsDigit(tail[0]))
    ensures DigitRun(ip + tail) == ip
  {
    if ip != [] {
      assert (ip + tail)[0] == ip[0] && (ip + tail)[1..] == ip[1..] + tail;
      DigitRunPrefix(ip[1..], tail);
      assert [ip[0]] + ip[1..] == ip;
    } else {
      assert ip + tail == tail;
    }
  }

  function Signed(negative: bool, x: real): real { if negative then -x else x }

  /** The sign parseFloat accepts in front of the digits, and what follows it. */
  function StripSign(t: string): (r: (bool, string))
    ensures r.0 ==> t != [] && t[0] == '-'
    ensures r.1 == if t != [] && (t[0] == '+' || t[0] == '-') then t[1..] else t
  {
    if t != [] && (t[0] == '+' || t[0] == '-') then (t[0] == '-', t[1..]) else (false, t)
  }

  /** The digits parseFloat reads: a sign, integer digits and fraction digits. */
  datatype Literal = Literal(negative: bool, intDigits: string, fracDigits: string)

  /** Whether parseFloat sees a number at all: after whitespace and a sign,
      a digit, or a '.' followed by a digit. */
  predicate StartsNumber(s: string)
  {
    var u := StripSign(TrimStart(s)).1;
    (|u| > 0 && IsDigit(u[0])) || (|u| > 1 && u[0] == '.' && IsDigit(u[1]))
  }

  /** The longest prefix of s that parseFloat's decimal grammar accepts:
      whitespace, an optional sign, integer digits, optionally '.' and
      fraction digits, at least one digit in all. */
  function Scan(s: string): (r: Option<Literal>)
    ensures r.Some? ==> AllDigits(r.value.intDigits) && AllDigits(r.value.fracDigits)
  {
    var (negative, u) := StripSign(TrimStart(s));
    match ScanUnsigned(u)
    case None => None
    case Some((ip, fp)) => Some(Literal(negative, ip, fp))
  }

  /** The digits of an unsigned literal at the front of u. */
  function ScanUnsigned(u: string): (r: Option<(string, string)>)
    ensures r.Some? ==> AllDigits(r.value.0) && AllDigits(r.value.1)
  {
    var ip := DigitRun(u);
    var fp := if |ip| < |u| && u[|ip|] == '.' then DigitRun(u[|ip| + 1..]) else "";
    if ip == "" && fp == "" then None else Some((ip, fp))
  }

  /** The exact number a literal denotes. */
  function LiteralValue(l: Literal): real
    requires AllDigits(l.intDigits) && AllDigits(l.fracDigits)
  {
    Signed(l.negative, Value(l.intDigits) as real
                     + Value(l.fracDigits) as real / Pow10(|l.fracDigits|) as real)
  }

  /** parseFloat on a string; None is NaN. Whatever follows the literal is
      ignored. */
  function ParseFloat(s: string): Option<real>
  {
    match Scan(s)
    case None => None
    case Some(l) => Some(LiteralValue(l))
  }

  /** parseFloat is NaN exactly when no digit starts the text. */
  lemma ParseFloatNaN(s: string)
    ensures ParseFloat(s).None? <==> !StartsNumber(s)
  {
    var (negative, u) := StripSign(TrimStart(s));
    var ip := DigitRun(u);
    if |u| > 0 && IsDigit(u[0]) {
      assert ip != "";
    } else if |u| > 1 && u[0] == '.' && IsDigit(u[1]) {
      assert ip == "" && DigitRun(u[1..]) != "";
    }
  }

  lemma IntegerLiteral(l: Literal)
    requires AllDigits(l.intDigits) && l.fracDigits == ""
    ensures LiteralValue(l) == Signed(l.negative, Value(l.intDigits) as real)
    ensures LiteralValue(l).Floor as real == LiteralValue(l)
  {
    var k: int := Value(l.intDigits);
    var z: int := if l.negative then -k else k;
    assert Value(l.fracDigits) == 0 && Pow10(|l.fracDigits|) == 1;
    assert Value(l.fracDigits) as real / Pow10(|l.fracDigits|) as real == 0.0;
    assert LiteralValue(l) == z as real;
  }

  function SignText(negative: bool): string { if negative then "-" else "" }

  /** A sign, integer digits, '.', fraction digits and anything that does
      not begin with a digit is read back as exactly those digits. */
  lemma ScanDecimal(negative: bool, ip: string, fp: string, tail: string)
    requires AllDigits(ip) && AllDigits(fp) && 1 <= |ip|
    requires tail == [] || !IsDigit(tail[0])
    ensures Scan(SignText(negative) + ip + "." + fp + tail) == Some(Literal(negative, ip, fp))
  {
    var body := ip + ("." + fp + tail);
    var t := SignText(negative) + body;
    assert SignText(negative) + ip + "." + fp + tail == [] + t;
    assert body[0] == ip[0];
    StripSignText(negative, body);
    TrimStartPrefix([], t);
    ScanUnsignedDecimal(ip, fp, tail);
  }

  /** The unsigned case of ScanDecimal. */
  lemma ScanPlainDecimal(ip: string, fp: string, tail: string)
    requires AllDigits(ip) && AllDigits(fp) && 1 <= |ip|
    requires tail == [] || !IsDigit(tail[0])
    ensures Scan(ip + "." + fp + tail) == Some(Literal(false, ip, fp))
  {
    ScanDecimal(false, ip, fp, tail);
    assert SignText(false) == [];
    assert SignText(false) + ip == ip;
  }

  lemma ScanUnsignedDecimal(ip: string, fp: string, tail: string)
    requires AllDigits(ip) && AllDigits(fp) && 1 <= |ip|
    requires tail == [] || !IsDigit(tail[0])
    ensures ScanUnsigned(ip + ("." + fp + tail)) == Some((ip, fp))
  {
    var rest := "." + fp + tail;
    var u := ip + rest;
    DigitRunPrefix(ip, rest);
    assert u[|ip|] == '.';
    assert u[|ip| + 1..] == fp + tail;
    DigitRunPrefix(fp, tail);
  }

  lemma StripSignText(negative: bool, body: string)
    requires body != [] && IsDigit(body[0])
    ensures var t := SignText(negative) + body; t != [] && !IsWhitespace(t[0]) && StripSign(t) == (negative, body)
  {
    var t := SignText(negative) + body;
    if negative {
      assert t[0] == '-' && t[1..] == body;
    } else {
      assert t == body;
    }
  }

  /** A literal of integer digits followed by neither a digit nor a '.'
      is read back as exactly those digits. */
  lemma ScanInteger(negative: bool, ip: string, tail: string)
    requires AllDigits(ip) && 1 <= |ip|
    requires tail == [] || (!IsDigit(tail[0]) && tail[0] != '.')
    ensures Scan(SignText(negative) + ip + tail) == Some(Literal(negative, ip, ""))
  {
    var body := ip + tail;
    var t := SignText(negative) + body;
    assert SignText(negative) + ip + tail == [] + t;
    assert body[0] == ip[0];
    StripSignText(negative, body);
    TrimStartPrefix([], t);
    ScanUnsignedInteger(ip, tail);
  }

  /** The unsigned case of ScanInteger. */
  lemma ScanPlainInteger(ip: string, tail: string)
    requires AllDigits(ip) && 1 <= |ip|
    requires tail == [] || (!IsDigit(tail[0]) && tail[0] != '.')
    ensures Scan(ip + tail) == Some(Literal(false, ip, ""))
  {
    ScanInteger(false, ip, tail);
    assert SignText(false) == [];
    assert SignText(false) + ip == ip;
  }

  lemma ScanUnsignedInteger(ip: string, tail: string)
    requires AllDigits(ip) && 1 <= |ip|
    requires tail == [] || (!IsDigit(tail[0]) && tail[0] != '.')
    ensures ScanUnsigned(ip + tail) == Some((ip, ""))
  {
    DigitRunPrefix(ip, tail);
    var u := ip + tail;
    assert |ip| < |u| ==> u[|ip|] == tail[0];
  }

  const MaxSafeInteger: int := 9007199254740991  // 2^53 - 1

  /** Number.isSafeInteger: integral and within +-(2^53 - 1). */
  predicate IsSafeInteger(x: real)
  {
    x.Floor as real == x && -MaxSafeInteger <= x.Floor <= MaxSafeInteger
  }

  function Abs(x: real): (a: real)
    ensures a >= 0.0 && (a == x || a == -x)
  {
    if x < 0.0 then -x else x
  }

  /** The natural number n nearest to |x| * 10^d, the larger one on a tie:
      the digits toFixed(d) prints (and Intl.NumberFormat's default
      half-expand rounding to d fraction digits). */
  function Units(x: real, d: nat): nat
  {
    (Abs(x) * Pow10(d) as real + 0.5).Floor
  }

  /** Units(x, d) is within half a unit of |x| * 10^d. */
  lemma UnitsNear(x: real, d: nat)
    ensures Abs(x) * Pow10(d) as real - 0.5 < Units(x, d) as real <= Abs(x) * Pow10(d) as real + 0.5
  {
  }

  lemma {:induction false} UnitsMonotone(x: real, y: real, d: nat)
    requires 0.0 <= x <= y
    ensures Units(x, d) <= Units(y, d)
  {
    var p := Pow10(d) as real;
    assert x * p <= y * p by { MulMonotone(x, y, p); }
    var a, b := x * p + 0.5, y * p + 0.5;
    assert a.Floor as real <= a <= b < b.Floor as real + 1.0;
  }

  lemma MulMonotone(x: real, y: real, p: real)
    requires x <= y && p >= 0.0
    ensures x * p <= y * p
  {
    assert y * p - x * p == (y - x) * p;
  }

  /** The value fixed-point digits stand for: n / 10^d = q + r / 10^d. */
  lemma FixedValue(n: nat, d: nat, q: nat, r: nat)
    requires q == n / Pow10(d) && r == n % Pow10(d)
    ensures q as real + r as real / Pow10(d) as real == n as real / Pow10(d) as real
  {
    DivModSum(n, Pow10(d));
    RealSplit(n, Pow10(d), q, r);
  }

  lemma RealSplit(n: int, p: int, q: int, r: int)
    requires p > 0 && n == q * p + r
    ensures q as real + r as real / p as real == n as real / p as real
  {
    RealOfMulAdd(q, p, r);
    DivSplit(q as real, p as real, r as real);
  }

  lemma DivModSum(n: nat, p: nat)
    requires p > 0
    ensures n == (n / p) * p + n % p
  {
  }

  lemma RealOfMulAdd(q: int, p: int, r: int)
    ensures (q * p + r) as real == q as real * p as real + r as real
  {
  }

  lemma DivSplit(q: real, p: real, r: real)
    requires p > 0.0
    ensures q + r / p == (q * p + r) / p
  {
  }

  /** Number.prototype.toFixed(d) for |x| < 10^21: a sign for negative x,
      then the rounded digits with exactly d of them after a '.' (no '.' at
      all when d is 0). */
  function ToFixed(x: real, d: nat): string
  {
    FixedText(x < 0.0, Units(x, d), d)
  }

  /** A sign, then n with its last d digits after a '.'. */
  function FixedText(negative: bool, n: nat, d: nat): string
  {
    var digits := SplitFixed(n, d);
    if d > 0 then SignText(negative) + digits.0 + "." + digits.1 else SignText(negative) + digits.0
  }

  /** toFixed(d) prints a '.' exactly when d > 0. */
  lemma ToFixedPoint(x: real, d: nat)
    ensures '.' in ToFixed(x, d) <==> d > 0
  {
    FixedTextPoint(x < 0.0, Units(x, d), d);
  }

  lemma FixedTextPoint(negative: bool, n: nat, d: nat)
    ensures '.' in FixedText(negative, n, d) <==> d > 0
  {
    var digits := SplitFixed(n, d);
    var head := SignText(negative) + digits.0;
    assert forall i :: 0 <= i < |head| ==> head[i] != '.' by {
      forall i | 0 <= i < |head| ensures head[i] != '.' {
        if i >= |SignText(negative)| { assert head[i] == digits.0[i - |SignText(negative)|]; }
      }
    }
    if d > 0 {
      assert FixedText(negative, n, d)[|head|] == '.';
    } else {
      assert FixedText(negative, n, d) == head;
    }
  }

  /** Reading back what toFixed printed gives the rounded number, n / 10^d
      with n = Units(x, d), so within half a unit of the last digit of x. */
  lemma ToFixedParses(x: real, d: nat)
    ensures ParseFloat(ToFixed(x, d)) == Some(Signed(x < 0.0, Units(x, d) as real / Pow10(d) as real))
  {
    FixedTextParses(x < 0.0, Units(x, d), d);
  }

  lemma FixedTextParses(negative: bool, n: nat, d: nat)
    ensures ParseFloat(FixedText(negative, n, d)) == Some(Signed(negative, n as real / Pow10(d) as real))
  {
    var digits := SplitFixed(n, d);
    var ip, fp := digits.0, digits.1;
    var l := Literal(negative, ip, fp);
    if d > 0 {
      ScanDecimal(negative, ip, fp, "");
      var t := SignText(negative) + ip + "." + fp;
      assert t + "" == t;
    } else {
      ScanInteger(negative, ip, "");
      var t := SignText(negative) + ip;
      assert t + "" == t;
    }
    assert Scan(FixedText(negative, n, d)) == Some(l);
    FixedLiteralValue(n, d, l);
  }

  /** The literal of SplitFixed(n, d) denotes n / 10^d. */
  lemma FixedLiteralValue(n: nat, d: nat, l: Literal)
    requires (l.intDigits, l.fracDigits) == SplitFixed(n, d)
    ensures LiteralValue(l) == Signed(l.negative, n as real / Pow10(d) as real)
  {
    SplitFixedValue(n, d);
    FixedValue(n, d, Value(l.intDigits), Value(l.fracDigits));
  }
}
