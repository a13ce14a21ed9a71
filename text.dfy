/**
 * Character-level helpers shared by the record codec and the store:
 * decimal rendering of integers (what `ss << year` and `to_string(year)`
 * produce), a parser for that rendering, splitting at a delimiter, and the
 * lexicographic order of `std::string::operator<`.
 */
module Text {
  import opened Wrappers

  predicate IsDigit(c: char) {
    '0' <= c <= '9'
  }

  predicate AllDigits(s: string) {
    forall i :: 0 <= i < |s| ==> IsDigit(s[i])
  }

  function DigitChar(d: nat): (c: char)
    requires d < 10
    ensures IsDigit(c) && c as int - '0' as int == d
  {
    (d + '0' as int) as char
  }

  /** Decimal digits of a natural number, most significant first, no leading zero. */
  function NatToString(n: nat): (s: string)
    ensures |s| >= 1 && AllDigits(s)
    ensures s[0] == '0' <==> n == 0
    ensures n == 0 ==> s == "0"
    decreases n
  {
    if n < 10 then [DigitChar(n)] else NatToString(n / 10) + [DigitChar(n % 10)]
  }

  /** The text `operator<<(int)` and `std::to_string(int)` write: a '-' for negatives, then the digits. */
  function IntToString(i: int): string {
    if i < 0 then "-" + NatToString(-i) else NatToString(i)
  }

  /** The number a string of decimal digits denotes. */
  function DigitsValue(s: string): nat
    requires AllDigits(s)
  {
    if s == [] then 0 else DigitsValue(s[..|s| - 1]) * 10 + (s[|s| - 1] as int - '0' as int)
  }

  /** Length of the longest prefix of `s` made of decimal digits. */
  function DigitSpan(s: string): (n: nat)
    ensures n <= |s| && AllDigits(s[..n])
    ensures n < |s| ==> !IsDigit(s[n])
  {
    if s == [] || !IsDigit(s[0]) then 0
    else
      var k := DigitSpan(s[1..]);
      assert s[..k + 1] == [s[0]] + s[1..][..k];
      k + 1
  }

  /** A digit string in the form `NatToString` writes: non-empty, no leading zero. */
  predicate Canonical(ds: string) {
    |ds| >= 1 && AllDigits(ds) && (|ds| == 1 || ds[0] != '0')
  }

  /**
   * Reads the decimal integer at the start of `s`, in exactly the form
   * `IntToString` writes, and returns it with the rest of `s`.
   * Anything else (no digits, a leading zero, "-0") is rejected.
   */
  function ReadInt(s: string): (r: Option<(int, string)>)
    ensures r.Some? ==> s == IntToString(r.value.0) + r.value.1
    ensures r.Some? ==> r.value.1 == [] || !IsDigit(r.value.1[0])
  {
    var neg := |s| > 0 && s[0] == '-';
    var sign := if neg then "-" else "";
    var body := s[|sign|..];
    var n := DigitSpan(body);
    var ds := body[..n];
    if !Canonical(ds) || (neg && ds == "0") then None
    else
      ReadIntSound(s, sign, body, n);
      Some((SignedValue(neg, ds), body[n..]))
  }

  function SignedValue(neg: bool, ds: string): int
    requires AllDigits(ds)
  {
    if neg then 0 - DigitsValue(ds) else DigitsValue(ds)
  }

  lemma ReadIntSound(s: string, sign: string, body: string, n: nat)
    requires sign == (if |s| > 0 && s[0] == '-' then "-" else "")
    requires body == s[|sign|..] && n <= |body|
    requires Canonical(body[..n]) && !(sign == "-" && body[..n] == "0")
    ensures s == IntToString(SignedValue(sign == "-", body[..n])) + body[n..]
  {
    var ds := body[..n];
    CanonicalRoundTrip(ds);
    assert s == sign + ds + body[n..];
    var v: int := DigitsValue(ds);
    if sign == "-" {
      assert v != 0;
      assert IntToString(0 - v) == "-" + NatToString(v);
    } else {
      assert IntToString(v) == NatToString(v);
    }
  }

  lemma {:induction false} DigitsValueSnoc(ds: string, c: char)
    requires AllDigits(ds) && IsDigit(c)
    ensures AllDigits(ds + [c])
    ensures DigitsValue(ds + [c]) == DigitsValue(ds) * 10 + (c as int - '0' as int)
  {
    assert (ds + [c])[..|ds + [c]| - 1] == ds;
  }

  /** The digits `NatToString` writes denote the number written. */
  lemma {:induction false} NatToStringValue(n: nat)
    ensures DigitsValue(NatToString(n)) == n
    decreases n
  {
    if n >= 10 {
      NatToStringValue(n / 10);
      DigitsValueSnoc(NatToString(n / 10), DigitChar(n % 10));
    }
  }

  /** A canonical digit string with a non-zero first digit denotes a positive number. */
  lemma {:induction false} CanonicalPositive(ds: string)
    requires Canonical(ds) && ds[0] != '0'
    ensures DigitsValue(ds) >= 1
    decreases |ds|
  {
    if |ds| > 1 {
      var init := ds[..|ds| - 1];
      assert init[0] == ds[0];
      CanonicalPositive(init);
    }
  }

  /** Rendering the value of a canonical digit string gives back that string. */
  lemma {:induction false} CanonicalRoundTrip(ds: string)
    requires Canonical(ds)
    ensures NatToString(DigitsValue(ds)) == ds
    decreases |ds|
  {
    var d := ds[|ds| - 1] as int - '0' as int;
    if |ds| == 1 {
      assert DigitsValue(ds) == d;
      assert [DigitChar(d)] == ds;
    } else {
      var init := ds[..|ds| - 1];
      assert init[0] == ds[0];
      CanonicalRoundTrip(init);
      CanonicalPositive(init);
      var v := DigitsValue(init);
      assert DigitsValue(ds) == v * 10 + d;
      assert (v * 10 + d) / 10 == v && (v * 10 + d) % 10 == d;
      assert ds == init + [DigitChar(d)];
    }
  }

  lemma {:induction false} DigitSpanOfDigits(ds: string, rest: string)
    requires AllDigits(ds)
    requires rest == [] || !IsDigit(rest[0])
    ensures DigitSpan(ds + rest) == |ds|
    decreases |ds|
  {
    if ds == [] {
      assert ds + rest == rest;
    } else {
      assert (ds + rest)[1..] == ds[1..] + rest;
      DigitSpanOfDigits(ds[1..], rest);
    }
  }

  /** `ReadInt` on an optional minus sign, a canonical digit string and a rest that starts with no digit. */
  lemma ReadIntAt(s: string, sign: string, ds: string, rest: string)
    requires sign == "" || sign == "-"
    requires s == sign + ds + rest
    requires Canonical(ds) && !(sign == "-" && ds == "0")
    requires rest == [] || !IsDigit(rest[0])
    ensures ReadInt(s) == Some((SignedValue(sign == "-", ds), rest))
  {
    assert ds[0] == s[|sign|];
    assert (|s| > 0 && s[0] == '-') == (sign == "-");
    assert s[|sign|..] == ds + rest;
    DigitSpanOfDigits(ds, rest);
    assert (ds + rest)[..|ds|] == ds;
    assert (ds + rest)[|ds|..] == rest;
  }

  /** `ReadInt` reads back what `IntToString` writes when no digit follows it. */
  lemma ReadIntToString(i: int, rest: string)
    requires rest == [] || !IsDigit(rest[0])
    ensures ReadInt(IntToString(i) + rest) == Some((i, rest))
  {
    var n: nat := if i < 0 then -i else i;
    var ds := NatToString(n);
    NatToStringValue(n);
    assert Canonical(ds);
    if i < 0 {
      assert IntToString(i) + rest == "-" + ds + rest;
      ReadIntAt(IntToString(i) + rest, "-", ds, rest);
      assert SignedValue(true, ds) == i;
    } else {
      assert IntToString(i) + rest == "" + ds + rest;
      ReadIntAt(IntToString(i) + rest, "", ds, rest);
    }
  }

  /**
   * The part of `s` before the first occurrence of `c`, and the rest
   * starting at that occurrence; None when `c` does not occur.
   */
  function SplitAt(s: string, c: char): (r: Option<(string, string)>)
    ensures r.None? <==> c !in s
    ensures r.Some? ==> s == r.value.0 + r.value.1 && c !in r.value.0
    ensures r.Some? ==> |r.value.1| > 0 && r.value.1[0] == c
  {
    if s == [] then None
    else if s[0] == c then Some(([], s))
    else match SplitAt(s[1..], c)
      case None => None
      case Some(p) =>
        assert s == [s[0]] + s[1..];
        Some(([s[0]] + p.0, p.1))
  }

  /** Splitting a field that does not contain `c`, followed by text that starts with `c`. */
  lemma {:induction false} SplitAtField(f: string, rest: string, c: char)
    requires c !in f && |rest| > 0 && rest[0] == c
    ensures SplitAt(f + rest, c) == Some((f, rest))
    decreases |f|
  {
    if f == [] {
      assert f + rest == rest;
    } else {
      assert (f + rest)[1..] == f[1..] + rest;
      SplitAtField(f[1..], rest, c);
      assert [f[0]] + f[1..] == f;
    }
  }

  /** The text after the literal prefix `lit`, or None when `s` does not start with it. */
  function Expect(lit: string, s: string): (r: Option<string>)
    ensures r.Some? <==> lit <= s
    ensures r.Some? ==> s == lit + r.value
  {
    if lit <= s then Some(s[|lit|..]) else None
  }

  lemma ExpectLiteral(lit: string, rest: string)
    ensures Expect(lit, lit + rest) == Some(rest)
  {
    assert (lit + rest)[..|lit|] == lit;
    assert (lit + rest)[|lit|..] == rest;
  }

  /** Lexicographic `std::string` comparison, character by character. */
  predicate StrLess(a: string, b: string) {
    if a == [] then b != []
    else if b == [] then false
    else a[0] < b[0] || (a[0] == b[0] && StrLess(a[1..], b[1..]))
  }

  lemma {:induction false} StrLessIrreflexive(a: string)
    ensures !StrLess(a, a)
    decreases |a|
  {
    if a != [] {
      StrLessIrreflexive(a[1..]);
    }
  }

  lemma {:induction false} StrLessTransitive(a: string, b: string, c: string)
    requires StrLess(a, b) && StrLess(b, c)
    ensures StrLess(a, c)
    decreases |a|
  {
    if a != [] && a[0] == b[0] && b[0] == c[0] {
      StrLessTransitive(a[1..], b[1..], c[1..]);
    }
  }

  lemma {:induction false} StrLessTrichotomy(a: string, b: string)
    ensures StrLess(a, b) || StrLess(b, a) || a == b
    decreases |a|
  {
    if a != [] && b != [] && a[0] == b[0] {
      StrLessTrichotomy(a[1..], b[1..]);
      if a[1..] == b[1..] {
        assert a == [a[0]] + a[1..] && b == [b[0]] + b[1..];
      }
    }
  }
}
