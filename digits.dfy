/** Decimal digit strings: their values, the shortest digits of a natural
    number, and the fixed-point split into integer and fraction digits that
    both JavaScript's toFixed and Intl.NumberFormat produce. */
module Digits {

  predicate IsDigit(c: char) { '0' <= c <= '9' }

  predicate AllDigits(s: string) { forall i :: 0 <= i < |s| ==> IsDigit(s[i]) }

  function Pow10(n: nat): (p: nat)
    ensures p >= 1
  {
    if n == 0 then 1 else 10 * Pow10(n - 1)
  }

  lemma {:induction false} Pow10Add(a: nat, b: nat)
    ensures Pow10(a + b) == Pow10(a) * Pow10(b)
  {
    if b > 0 {
      Pow10Add(a, b - 1);
      assert Pow10(a + b) == 10 * Pow10(a + b - 1);
    }
  }

  lemma {:induction false} Pow10Monotone(a: nat, b: nat)
    requires a <= b
    ensures Pow10(a) <= Pow10(b)
  {
    if a < b { Pow10Monotone(a, b - 1); }
  }

  /** The big-endian value of a digit string; the empty string is 0. */
  function Value(s: string): nat
    requires AllDigits(s)
  {
    if s == [] then 0 else Value(s[..|s| - 1]) * 10 + (s[|s| - 1] as int - '0' as int)
  }

  function DigitChar(d: nat): (c: char)
    requires d < 10
    ensures IsDigit(c) && c as int - '0' as int == d
  {
    ('0' as int + d) as char
  }

  /** Appending digits shifts the prefix by one power of ten per digit. */
  lemma {:induction false} ValueConcat(a: string, b: string)
    requires AllDigits(a) && AllDigits(b)
    ensures AllDigits(a + b)
    ensures Value(a + b) == Value(a) * Pow10(|b|) + Value(b)
  {
    assert AllDigits(a + b) by {
      forall i | 0 <= i < |a + b| ensures IsDigit((a + b)[i]) {
        if i < |a| { assert (a + b)[i] == a[i]; } else { assert (a + b)[i] == b[i - |a|]; }
      }
    }
    if b == [] {
      assert a + b == a;
    } else {
      var b' := b[..|b| - 1];
      var c := b[|b| - 1] as int - '0' as int;
      assert (a + b)[..|a + b| - 1] == a + b';
      assert (a + b)[|a + b| - 1] == b[|b| - 1];
      ValueConcat(a, b');
      assert Value(a + b) == Value(a + b') * 10 + c;
      assert Value(b) == Value(b') * 10 + c;
      assert Pow10(|b|) == Pow10(|b'|) * 10;
      ShiftDigit(Value(a), Pow10(|b'|), Value(b'), c);
    }
  }

  lemma ShiftDigit(va: int, pw: int, vb: int, c: int)
    ensures (va * pw + vb) * 10 + c == va * (pw * 10) + (vb * 10 + c)
  {
  }

  /** A digit string of length n denotes a number below 10^n. */
  lemma {:induction false} ValueBound(s: string)
    requires AllDigits(s)
    ensures Value(s) < Pow10(|s|)
  {
    if s != [] { ValueBound(s[..|s| - 1]); }
  }

  /** Leading zeros do not change the value. */
  lemma {:induction false} ValueOfZeros(k: nat)
    ensures AllDigits(Zeros(k)) && Value(Zeros(k)) == 0
  {
    if k > 0 {
      ValueOfZeros(k - 1);
      ValueConcat(Zeros(k - 1), "0");
      assert Zeros(k) == Zeros(k - 1) + "0";
    }
  }

  function Zeros(k: nat): (z: string)
    ensures |z| == k
  {
    if k == 0 then "" else Zeros(k - 1) + "0"
  }

  /** The shortest decimal digits of n: no leading zero, "0" for zero. */
  function NatToDigits(n: nat): (s: string)
    ensures 1 <= |s| && AllDigits(s) && Value(s) == n
    ensures |s| > 1 ==> s[0] != '0'
    decreases n
  {
    if n < 10 then [DigitChar(n)]
    else
      var p := NatToDigits(n / 10);
      var s := p + [DigitChar(n % 10)];
      assert s[..|s| - 1] == p;
      s
  }

  /** A digit string without a leading zero is at least 10^(length-1). */
  lemma {:induction false} NoLeadingZeroBound(s: string)
    requires AllDigits(s) && 1 <= |s| && (|s| > 1 ==> s[0] != '0')
    ensures |s| > 1 ==> Value(s) >= Pow10(|s| - 1)
  {
    if |s| > 1 {
      var head, tail := s[..1], s[1..];
      assert s == head + tail;
      assert AllDigits(head) && AllDigits(tail) by {
        forall i | 0 <= i < |tail| ensures IsDigit(tail[i]) { assert tail[i] == s[i + 1]; }
      }
      ValueConcat(head, tail);
      assert head[..0] == [];
      assert Value(head) >= 1;
      MulAtLeast(Value(head), Pow10(|tail|));
    }
  }

  /** The digits of n, split into an integer part and exactly d fraction
      digits, the integer part being at least "0": the form both toFixed and
      Intl.NumberFormat render. */
  function SplitFixed(n: nat, d: nat): (r: (string, string))
    ensures AllDigits(r.0) && AllDigits(r.1)
    ensures 1 <= |r.0| && |r.1| == d
  {
    var m := NatToDigits(n);
    var padded := if |m| <= d then Zeros(d + 1 - |m|) + m else m;
    SplitFixedFacts(n, d, m, padded, padded[..|padded| - d], padded[|padded| - d..]);
    (padded[..|padded| - d], padded[|padded| - d..])
  }

  /** The integer digits of SplitFixed(n, d) stand for n / 10^d, without a
      leading zero, and the fraction digits for n % 10^d. */
  lemma SplitFixedValue(n: nat, d: nat)
    ensures Value(SplitFixed(n, d).0) == n / Pow10(d) && Value(SplitFixed(n, d).1) == n % Pow10(d)
    ensures |SplitFixed(n, d).0| > 1 ==> SplitFixed(n, d).0[0] != '0'
  {
    var m := NatToDigits(n);
    var padded := if |m| <= d then Zeros(d + 1 - |m|) + m else m;
    SplitFixedFacts(n, d, m, padded, padded[..|padded| - d], padded[|padded| - d..]);
  }

  lemma SplitFixedFacts(n: nat, d: nat, m: string, padded: string, ip: string, fp: string)
    requires m == NatToDigits(n)
    requires padded == if |m| <= d then Zeros(d + 1 - |m|) + m else m
    requires |padded| >= d && ip == padded[..|padded| - d] && fp == padded[|padded| - d..]
    ensures AllDigits(ip) && AllDigits(fp) && AllDigits(padded)
    ensures 1 <= |ip| && |fp| == d
    ensures Value(ip) == n / Pow10(d) && Value(fp) == n % Pow10(d)
    ensures |ip| > 1 ==> ip[0] != '0'
  {
    PaddedValue(n, d, m, padded);
    SplitDigits(padded, d, ip, fp);
    ValueBound(fp);
    DivModUnique(n, Pow10(d), Value(ip), Value(fp));
    if |ip| > 1 {
      assert |m| > d && ip[0] == m[0];
    }
  }

  lemma PaddedValue(n: nat, d: nat, m: string, padded: string)
    requires m == NatToDigits(n)
    requires padded == if |m| <= d then Zeros(d + 1 - |m|) + m else m
    ensures AllDigits(padded) && Value(padded) == n && |padded| >= d + 1
  {
    if |m| <= d {
      var z := Zeros(d + 1 - |m|);
      ValueOfZeros(d + 1 - |m|);
      ValueConcat(z, m);
      assert padded == z + m && |padded| == d + 1;
      assert Value(z) * Pow10(|m|) == 0;
    }
  }

  lemma SplitDigits(s: string, d: nat, ip: string, fp: string)
    requires AllDigits(s) && |s| >= d && ip == s[..|s| - d] && fp == s[|s| - d..]
    ensures AllDigits(ip) && AllDigits(fp)
    ensures Value(s) == Value(ip) * Pow10(d) + Value(fp)
  {
    assert s == ip + fp;
    assert AllDigits(ip) && AllDigits(fp) by {
      forall i | 0 <= i < |fp| ensures IsDigit(fp[i]) { assert fp[i] == s[|s| - d + i]; }
      forall i | 0 <= i < |ip| ensures IsDigit(ip[i]) { assert ip[i] == s[i]; }
    }
    ValueConcat(ip, fp);
  }

  lemma DivModUnique(n: nat, p: nat, q: nat, r: nat)
    requires p >= 1 && n == q * p + r && r < p
    ensures q == n / p && r == n % p
  {
    var q0, r0 := n / p, n % p;
    assert q0 * p + r0 == n && 0 <= r0 < p;
    if q > q0 {
      MulAtLeast(q - q0, p);
      assert false;
    } else if q < q0 {
      MulAtLeast(q0 - q, p);
      assert false;
    }
  }

  lemma MulAtLeast(a: int, p: int)
    requires a >= 1 && p >= 1
    ensures a * p >= p
  {
  }

  /** en-US grouping of an integer digit string: a ',' before every third
      digit counted from the right. */
  function Group(s: string): (g: string)
  {
    if |s| <= 3 then s else Group(s[..|s| - 3]) + "," + s[|s| - 3..]
  }

  /** The digits with every ',' taken out. */
  function Ungroup(g: string): string
  {
    if g == [] then [] else Ungroup(g[..|g| - 1]) + (if g[|g| - 1] == ',' then [] else [g[|g| - 1]])
  }

  lemma {:induction false} UngroupConcat(a: string, b: string)
    ensures Ungroup(a + b) == Ungroup(a) + Ungroup(b)
  {
    if b == [] {
      assert a + b == a;
    } else {
      assert (a + b)[..|a + b| - 1] == a + b[..|b| - 1];
      assert (a + b)[|a + b| - 1] == b[|b| - 1];
      UngroupConcat(a, b[..|b| - 1]);
    }
  }

  lemma {:induction false} UngroupDigits(s: string)
    requires AllDigits(s)
    ensures Ungroup(s) == s
  {
    if s != [] { UngroupDigits(s[..|s| - 1]); }
  }

  /** The shape en-US grouping gives a digit string: a ',' exactly at every
      fourth position counted from the right end, digits everywhere else. */
  predicate CommaEveryFourth(g: string)
  {
    forall k :: 0 <= k < |g| ==> (g[k] == ',' <==> (|g| - k) % 4 == 0) && (g[k] != ',' ==> IsDigit(g[k]))
  }

  /** Grouping keeps the digits in order, gives the comma shape above, and
      adds (|s| - 1) / 3 commas. */
  lemma GroupShape(s: string)
    requires AllDigits(s) && 1 <= |s|
    ensures |Group(s)| == |s| + (|s| - 1) / 3
    ensures Ungroup(Group(s)) == s
    ensures CommaEveryFourth(Group(s))
  {
    GroupLength(s);
    GroupUngroup(s);
    GroupCommas(s);
  }

  lemma {:induction false} GroupLength(s: string)
    requires 1 <= |s|
    ensures |Group(s)| == |s| + (|s| - 1) / 3
  {
    if |s| > 3 { GroupLength(s[..|s| - 3]); }
  }

  /** Splits a digit string into its head and its last three digits. */
  lemma SplitLastThree(s: string) returns (p: string, t: string)
    requires AllDigits(s) && |s| > 3
    ensures p == s[..|s| - 3] && t == s[|s| - 3..] && s == p + t
    ensures AllDigits(p) && AllDigits(t) && 1 <= |p| && |t| == 3
  {
    p, t := s[..|s| - 3], s[|s| - 3..];
    forall i | 0 <= i < |t| ensures IsDigit(t[i]) { assert t[i] == s[|s| - 3 + i]; }
    forall i | 0 <= i < |p| ensures IsDigit(p[i]) { assert p[i] == s[i]; }
  }

  lemma {:induction false} GroupUngroup(s: string)
    requires AllDigits(s)
    ensures Ungroup(Group(s)) == s
  {
    if |s| <= 3 {
      UngroupDigits(s);
    } else {
      var p, t := SplitLastThree(s);
      GroupUngroup(p);
      var gp := Group(p);
      assert Group(s) == gp + "," + t;
      UngroupConcat(gp + ",", t);
      UngroupConcat(gp, ",");
      UngroupDigits(t);
      UngroupComma(",");
      assert Ungroup(gp + ",") == p;
      assert Ungroup(gp + "," + t) == p + t;
    }
  }

  lemma UngroupComma(c: string)
    requires c == ","
    ensures Ungroup(c) == []
  {
    assert c[..0] == [];
  }

  lemma {:induction false} GroupCommas(s: string)
    requires AllDigits(s)
    ensures CommaEveryFourth(Group(s))
  {
    if |s| <= 3 {
      forall k | 0 <= k < |s| ensures s[k] != ',' && (|s| - k) % 4 != 0 {
        assert IsDigit(s[k]);
      }
    } else {
      var p, t := SplitLastThree(s);
      GroupCommas(p);
      CommaStep(Group(p), t);
    }
  }

  lemma CommaStep(gp: string, t: string)
    requires |t| == 3 && AllDigits(t)
    requires CommaEveryFourth(gp)
    ensures CommaEveryFourth(gp + "," + t)
  {
    forall k | 0 <= k < |gp + "," + t|
      ensures var g := gp + "," + t; (g[k] == ',' <==> (|g| - k) % 4 == 0) && (g[k] != ',' ==> IsDigit(g[k]))
    {
      CommaAt(gp, t, k);
    }
  }

  /** One position of `gp + "," + t`. */
  lemma CommaAt(gp: string, t: string, k: int)
    requires |t| == 3 && AllDigits(t)
    requires CommaEveryFourth(gp)
    requires 0 <= k < |gp + "," + t|
    ensures var g := gp + "," + t; (g[k] == ',' <==> (|g| - k) % 4 == 0) && (g[k] != ',' ==> IsDigit(g[k]))
  {
    var g := gp + "," + t;
    if k < |gp| {
      assert g[k] == gp[k];
      assert |g| - k == (|gp| - k) + 4;
    } else if k == |gp| {
      assert g[k] == ',';
    } else {
      assert g[k] == t[k - |gp| - 1];
      assert IsDigit(t[k - |gp| - 1]);
    }
  }
}
