/**
 * Character and string helpers shared by the model: decimal rendering and
 * parsing (printf's `%d`, and PHP's `(int)` cast of a numeric prefix with its
 * 64-bit saturation), ASCII lower-casing for case-blind search, a
 * per-character mapping whose mapping is a parameter, blank detection as
 * PHP's `trim` sees it, and substring search.
 */
module Text {

  predicate IsDigit(c: char) {
    '0' <= c <= '9'
  }

  predicate AllDigits(s: string) {
    forall i :: 0 <= i < |s| ==> IsDigit(s[i])
  }

  function DigitChar(d: nat): (c: char)
    requires d < 10
    ensures IsDigit(c)
  {
    (('0' as int) + d) as char
  }

  function DigitValue(c: char): (d: nat)
    requires IsDigit(c)
    ensures d < 10 && DigitChar(d) == c
  {
    (c as int) - ('0' as int)
  }

  /**
   * The value of a string of decimal digits, most significant first. It is
   * only applied to digit strings; a stray non-digit would count as 0.
   */
  function ParseDigits(s: string): nat {
    if s == [] then 0
    else 10 * ParseDigits(s[..|s| - 1]) + (if IsDigit(s[|s| - 1]) then DigitValue(s[|s| - 1]) else 0)
  }

  /** A digit string in canonical form: no leading zero unless it is "0". */
  predicate Canonical(s: string) {
    |s| >= 1 && AllDigits(s) && (s[0] != '0' || |s| == 1)
  }

  /** Decimal rendering of a natural number, as printf's `%d` writes it. */
  function NatToDecimal(n: nat): (s: string)
    ensures Canonical(s)
    ensures |s| == 1 <==> n < 10
    decreases n
  {
    if n < 10 then [DigitChar(n)]
    else
      var p := NatToDecimal(n / 10);
      assert (p + [DigitChar(n % 10)])[0] == p[0];
      p + [DigitChar(n % 10)]
  }

  lemma {:induction false} ParseNatToDecimal(n: nat)
    ensures ParseDigits(NatToDecimal(n)) == n
    decreases n
  {
    if n >= 10 {
      var p := NatToDecimal(n / 10);
      var s := p + [DigitChar(n % 10)];
      assert s[..|s| - 1] == p;
      ParseNatToDecimal(n / 10);
    }
  }

  lemma {:induction false} LeadingDigitPositive(s: string)
    requires |s| >= 1 && AllDigits(s) && s[0] != '0'
    ensures ParseDigits(s) >= 1
    decreases |s|
  {
    if |s| > 1 {
      var p := s[..|s| - 1];
      assert p[0] == s[0];
      LeadingDigitPositive(p);
    }
  }

  /** Parsing and rendering are inverse on canonical digit strings. */
  lemma {:induction false} NatToDecimalParse(s: string)
    requires Canonical(s)
    ensures NatToDecimal(ParseDigits(s)) == s
    decreases |s|
  {
    if |s| > 1 {
      var p := s[..|s| - 1];
      assert p[0] == s[0];
      LeadingDigitPositive(p);
      NatToDecimalParse(p);
      var n := ParseDigits(s);
      assert n / 10 == ParseDigits(p) && n % 10 == DigitValue(s[|s| - 1]);
      assert s == p + [s[|s| - 1]];
    }
  }

  /** Decimal rendering of an integer with a leading '-' for negatives. */
  function IntToDecimal(n: int): (s: string)
    ensures |s| >= 1
    ensures n >= 0 ==> s == NatToDecimal(n)
    ensures n < 0 ==> s == "-" + NatToDecimal(-n)
  {
    if n < 0 then "-" + NatToDecimal(-n) else NatToDecimal(n)
  }

  /** `s` left-padded with '0' to at least `width` characters. */
  function ZeroPad(s: string, width: nat): (r: string)
    ensures |r| == if |s| >= width then |s| else width
    ensures r[|r| - |s|..] == s
    ensures forall i :: 0 <= i < |r| - |s| ==> r[i] == '0'
  {
    if |s| >= width then s else seq(width - |s|, _ => '0') + s
  }

  /** The longest prefix of `s` made of decimal digits. */
  function DigitPrefix(s: string): (p: string)
    ensures AllDigits(p) && p <= s
    ensures |p| < |s| ==> !IsDigit(s[|p|])
  {
    if s == [] || !IsDigit(s[0]) then []
    else [s[0]] + DigitPrefix(s[1..])
  }

  lemma AllDigitsConcat(a: string, b: string)
    requires AllDigits(a) && AllDigits(b)
    ensures AllDigits(a + b)
  {
    assert forall i :: 0 <= i < |a + b| ==> (a + b)[i] == if i < |a| then a[i] else b[i - |a|];
  }

  /** A run of '0' characters. */
  predicate AllZeros(z: string) {
    forall i :: 0 <= i < |z| ==> z[i] == '0'
  }

  lemma {:induction false} ParseZeros(z: string)
    requires AllZeros(z)
    ensures AllDigits(z) && ParseDigits(z) == 0
    decreases |z|
  {
    if z != [] {
      ParseZeros(z[..|z| - 1]);
    }
  }

  /** Leading zeros do not change a digit string's value. */
  lemma {:induction false} ParseLeadingZeros(z: string, s: string)
    requires AllZeros(z) && AllDigits(s)
    ensures AllDigits(z + s) && ParseDigits(z + s) == ParseDigits(s)
    decreases |s|
  {
    ParseZeros(z);
    if s == [] {
      assert z + s == z;
    } else {
      var t := z + s;
      assert t[..|t| - 1] == z + s[..|s| - 1];
      ParseLeadingZeros(z, s[..|s| - 1]);
    }
  }

  /** A zero-padded decimal reads back as the number it renders. */
  lemma ParseZeroPad(n: nat, width: nat)
    ensures AllDigits(ZeroPad(NatToDecimal(n), width)) && ParseDigits(ZeroPad(NatToDecimal(n), width)) == n
  {
    var d := NatToDecimal(n);
    var r := ZeroPad(d, width);
    var z := r[..|r| - |d|];
    assert AllZeros(z);
    assert r == z + d;
    ParseNatToDecimal(n);
    ParseLeadingZeros(z, d);
  }

  function Pow10(k: nat): (r: nat)
    ensures r >= 1
  {
    if k == 0 then 1 else 10 * Pow10(k - 1)
  }

  /** A number below 10^k needs at most k digits. */
  lemma {:induction false} DecimalFits(n: nat, k: nat)
    requires 1 <= k && n < Pow10(k)
    ensures |NatToDecimal(n)| <= k
    decreases k
  {
    if n >= 10 {
      assert k >= 2;
      assert n / 10 < Pow10(k - 1);
      DecimalFits(n / 10, k - 1);
    }
  }

  /** The digit run of a digit string followed by a non-digit is that string. */
  lemma {:induction false} DigitPrefixStops(d: string, rest: string)
    requires AllDigits(d) && rest != [] && !IsDigit(rest[0])
    ensures DigitPrefix(d + rest) == d
    decreases |d|
  {
    if d == [] {
      assert d + rest == rest;
    } else {
      assert (d + rest)[1..] == d[1..] + rest;
      DigitPrefixStops(d[1..], rest);
      assert d == [d[0]] + d[1..];
    }
  }

  /** The whitespace PHP's (int) cast and strtol skip before a number. */
  predicate LeadingSpace(c: char) {
    c == ' ' || c == '\t' || c == '\n' || c == '\r' || c == '\U{B}' || c == '\U{C}'
  }

  function SkipLeadingSpace(s: string): (r: string)
    ensures |r| <= |s| && s[|s| - |r|..] == r
    ensures r == [] || !LeadingSpace(r[0])
    ensures forall i :: 0 <= i < |s| - |r| ==> LeadingSpace(s[i])
  {
    if s != [] && LeadingSpace(s[0]) then SkipLeadingSpace(s[1..]) else s
  }

  /** PHP's integer range on 64-bit builds, `PHP_INT_MIN` to `PHP_INT_MAX`. */
  const IntMin: int := -0x8000_0000_0000_0000
  const IntMax: int := 0x7FFF_FFFF_FFFF_FFFF

  /**
   * The least magnitude a decimal literal rounds to infinity as a double:
   * 2^1024 - 2^970, halfway between the largest double and 2^1024.
   */
  const DoubleLimit: int := 0xFFFF_FFFF_FFFF_FC00000000000000000000000000000000000000000000000000000000000000000000000000000000000000000000000000000000000000000000000000000000000000000000000000000000000000000000000000000000000000000000000000000000000000000000000000000000000000000000000000

  /** A value clamped into PHP's integer range. */
  function Saturate(n: int): (r: int)
    ensures IntMin <= r <= IntMax
    ensures IntMin <= n <= IntMax ==> r == n
    ensures n > IntMax ==> r == IntMax
    ensures n < IntMin ==> r == IntMin
  {
    if n > IntMax then IntMax else if n < IntMin then IntMin else n
  }

  /**
   * The exponent of a numeric literal, read from the text after its digits:
   * `e` or `E`, an optional sign and at least one digit; anything else is no
   * exponent.
   */
  function ExponentOf(w: string): int {
    if |w| >= 2 && (w[0] == 'e' || w[0] == 'E') then
      if |w| >= 3 && (w[1] == '+' || w[1] == '-') && IsDigit(w[2]) then
        var n: int := ParseDigits(DigitPrefix(w[2..]));
        if w[1] == '-' then -n else n
      else if IsDigit(w[1]) then ParseDigits(DigitPrefix(w[1..]))
      else 0
    else 0
  }

  /**
   * m · 10^k, truncated toward zero; a negative k drops one digit at a time.
   * Since `DoubleLimit` is an integer, the truncated value reaches it exactly
   * when m · 10^k does.
   */
  function Scaled(m: nat, k: int): nat
    decreases if k < 0 then -k else 0
  {
    if k >= 0 then m * Pow10(k) else Scaled(m / 10, k + 1)
  }

  /** A numeric prefix: its sign and its value, the digits times 10^scale. */
  datatype NumericPrefix = NumericPrefix(negative: bool, digits: string, scale: int)

  /**
   * The longest numeric prefix PHP reads after leading white space: an optional
   * sign, digits, an optional `.` and fraction digits, an optional exponent.
   * The fraction digits join the integer digits and lower the scale.
   */
  function LeadingNumber(s: string): (p: NumericPrefix)
    ensures AllDigits(p.digits)
  {
    var t := SkipLeadingSpace(s);
    var signed := t != [] && (t[0] == '-' || t[0] == '+');
    var u := if signed then t[1..] else t;
    var whole := DigitPrefix(u);
    var v := u[|whole|..];
    var dotted := v != [] && v[0] == '.';
    var frac := if dotted then DigitPrefix(v[1..]) else [];
    var w := if dotted then v[1 + |frac|..] else v;
    AllDigitsConcat(whole, frac);
    NumericPrefix(signed && t[0] == '-', whole + frac, ExponentOf(w) - |frac|)
  }

  /**
   * PHP's `(int)` cast of a string: the leading numeric prefix, no digits
   * meaning 0. A plain integer in range is read exactly. Anything else goes
   * through a double, which is truncated toward zero and capped at
   * `PHP_INT_MIN` / `PHP_INT_MAX`; a double that overflowed to infinity reads as 0.
   */
  function PhpIntCast(s: string): (n: int)
    ensures IntMin <= n <= IntMax
  {
    PrefixValue(LeadingNumber(s))
  }

  /** The integer a numeric prefix casts to. */
  function PrefixValue(p: NumericPrefix): (n: int)
    ensures IntMin <= n <= IntMax
  {
    var v: int := Scaled(ParseDigits(p.digits), p.scale);
    if v >= DoubleLimit then 0 else Saturate(if p.negative then -v else v)
  }

  lemma PrefixMagnitude(p: NumericPrefix, v: nat)
    requires Scaled(ParseDigits(p.digits), p.scale) == v
    ensures PrefixValue(p) == if v >= DoubleLimit then 0 else Saturate(if p.negative then -(v as int) else v)
  {
  }

  lemma NoLeadingSpace(s: string)
    requires s != [] && !LeadingSpace(s[0])
    ensures SkipLeadingSpace(s) == s
  {
  }

  /** A rendered natural number is all numeric prefix, with no fraction or exponent. */
  lemma LeadingNumberDecimal(m: nat)
    ensures LeadingNumber(NatToDecimal(m)) == NumericPrefix(false, NatToDecimal(m), 0)
    ensures LeadingNumber("-" + NatToDecimal(m)) == NumericPrefix(true, NatToDecimal(m), 0)
  {
    var d := NatToDecimal(m);
    DigitPrefixAll(d);
    assert IsDigit(d[0]);
    NoLeadingSpace(d);
    assert d[|d|..] == [] && d + [] == d;
    var s := "-" + d;
    NoLeadingSpace(s);
    assert s[1..] == d;
  }

  lemma PhpIntCastNat(m: nat)
    ensures PhpIntCast(NatToDecimal(m)) == if m < DoubleLimit then Saturate(m) else 0
    ensures PhpIntCast("-" + NatToDecimal(m)) == if m < DoubleLimit then Saturate(-(m as int)) else 0
  {
    var d := NatToDecimal(m);
    LeadingNumberDecimal(m);
    ParseNatToDecimal(m);
    assert Scaled(m, 0) == m by {
      assert Pow10(0) == 1;
    }
    PrefixMagnitude(NumericPrefix(false, d, 0), m);
    PrefixMagnitude(NumericPrefix(true, d, 0), m);
  }

  /**
   * The cast reads back every integer printed in decimal within PHP's range;
   * a larger one is capped, and one beyond a double's range reads as 0.
   */
  lemma PhpIntCastDecimal(n: int)
    ensures IntMin <= n <= IntMax ==> PhpIntCast(IntToDecimal(n)) == n
    ensures PhpIntCast(IntToDecimal(n)) == if -DoubleLimit < n < DoubleLimit then Saturate(n) else 0
  {
    if n < 0 {
      var m: nat := -n;
      assert IntToDecimal(n) == "-" + NatToDecimal(m);
      PhpIntCastNat(m);
      assert -(m as int) == n && (m < DoubleLimit <==> -DoubleLimit < n);
    } else {
      var m: nat := n;
      assert IntToDecimal(n) == NatToDecimal(m);
      PhpIntCastNat(m);
    }
  }

  lemma ExponentOfDecimal(e: nat)
    ensures ExponentOf("e" + NatToDecimal(e)) == e
  {
    var x := NatToDecimal(e);
    var w := "e" + x;
    assert |w| >= 2 && w[0] == 'e' && w[1] == x[0] && w[1..] == x;
    assert IsDigit(w[1]) && w[1] != '+' && w[1] != '-';
    DigitPrefixAll(x);
    ParseNatToDecimal(e);
    assert ExponentOf(w) == ParseDigits(DigitPrefix(x));
  }

  /** Digits followed by no fraction: the digits are the number and what follows may hold an exponent. */
  lemma LeadingDigitsThen(d: string, rest: string)
    requires d != [] && AllDigits(d)
    requires rest == [] || (!IsDigit(rest[0]) && rest[0] != '.')
    ensures LeadingNumber(d + rest) == NumericPrefix(false, d, ExponentOf(rest))
  {
    var s := d + rest;
    assert IsDigit(s[0]) by {
      assert s[0] == d[0];
    }
    NoLeadingSpace(s);
    assert DigitPrefix(s) == d by {
      if rest == [] {
        assert s == d;
        DigitPrefixAll(d);
      } else {
        DigitPrefixStops(d, rest);
      }
    }
    assert s[|d|..] == rest;
    assert d + [] == d;
  }

  lemma LeadingExponent(a: nat, e: nat)
    ensures LeadingNumber(NatToDecimal(a) + "e" + NatToDecimal(e)) == NumericPrefix(false, NatToDecimal(a), e)
  {
    var d, x := NatToDecimal(a), NatToDecimal(e);
    assert d + "e" + x == d + ("e" + x);
    LeadingDigitsThen(d, "e" + x);
    ExponentOfDecimal(e);
  }

  /** An exponent form `<a>e<e>`, such as "1e2", reads as a · 10^e, capped, or 0 beyond a double's range. */
  lemma PhpIntCastExponent(a: nat, e: nat)
    ensures PhpIntCast(NatToDecimal(a) + "e" + NatToDecimal(e))
         == if a * Pow10(e) < DoubleLimit then Saturate(a * Pow10(e)) else 0
  {
    var d := NatToDecimal(a);
    var v := a * Pow10(e);
    LeadingExponent(a, e);
    ParseNatToDecimal(a);
    assert Scaled(ParseDigits(d), e) == v;
    PrefixMagnitude(NumericPrefix(false, d, e), v);
  }

  /** Scaling down by the length of a digit tail drops exactly that tail. */
  lemma {:induction false} ScaledDropsDigits(x: string, y: string)
    requires AllDigits(x) && AllDigits(y)
    ensures Scaled(ParseDigits(x + y), -|y|) == ParseDigits(x)
    decreases |y|
  {
    if y == [] {
      assert x + y == x;
      assert Pow10(0) == 1;
    } else {
      var y' := y[..|y| - 1];
      assert (x + y)[..|x + y| - 1] == x + y';
      assert IsDigit((x + y)[|x + y| - 1]);
      assert ParseDigits(x + y) / 10 == ParseDigits(x + y');
      ScaledDropsDigits(x, y');
    }
  }

  lemma LeadingFraction(a: nat, f: string)
    requires AllDigits(f)
    ensures LeadingNumber(NatToDecimal(a) + "." + f) == NumericPrefix(false, NatToDecimal(a) + f, -|f|)
  {
    var d := NatToDecimal(a);
    var s := d + "." + f;
    assert s == d + ("." + f) && s[0] == d[0];
    assert IsDigit(s[0]) by {
      assert s[0] == d[0];
    }
    NoLeadingSpace(s);
    DigitPrefixStops(d, "." + f);
    var v := "." + f;
    assert s[|d|..] == v && v[1..] == f;
    DigitPrefixAll(f);
    assert v[1 + |f|..] == [];
  }

  /** A fraction form `<a>.<f>`, such as "7.9", reads as a: the fraction is truncated away. */
  lemma PhpIntCastFraction(a: nat, f: string)
    requires AllDigits(f)
    ensures PhpIntCast(NatToDecimal(a) + "." + f) == if a < DoubleLimit then Saturate(a) else 0
  {
    var d := NatToDecimal(a);
    var p := NumericPrefix(false, d + f, -|f|);
    assert PhpIntCast(d + "." + f) == PrefixValue(p) by {
      LeadingFraction(a, f);
    }
    FractionDropped(a, f);
    PrefixMagnitude(p, a);
  }

  /** The fraction digits appended to a rendered natural scale back out to that natural. */
  lemma FractionDropped(a: nat, f: string)
    requires AllDigits(f)
    ensures Scaled(ParseDigits(NatToDecimal(a) + f), -|f|) == a
  {
    ParseNatToDecimal(a);
    ScaledDropsDigits(NatToDecimal(a), f);
  }

  lemma {:induction false} DigitPrefixAll(s: string)
    requires AllDigits(s)
    ensures DigitPrefix(s) == s
    decreases |s|
  {
    if s != [] {
      DigitPrefixAll(s[1..]);
    }
  }

  /** An optionally signed decimal integer literal, e.g. "12", "-3", "+0". */
  predicate IntLiteral(s: string) {
    if |s| >= 1 && (s[0] == '-' || s[0] == '+') then |s| >= 2 && AllDigits(s[1..])
    else |s| >= 1 && AllDigits(s)
  }

  function IntLiteralValue(s: string): int
    requires IntLiteral(s)
  {
    if s[0] == '-' then -(ParseDigits(s[1..]) as int)
    else if s[0] == '+' then ParseDigits(s[1..])
    else ParseDigits(s)
  }

  lemma IntLiteralDecimal(n: int)
    ensures IntLiteral(IntToDecimal(n)) && IntLiteralValue(IntToDecimal(n)) == n
  {
    var m := if n < 0 then -n else n;
    ParseNatToDecimal(m);
    if n < 0 {
      assert ("-" + NatToDecimal(m))[1..] == NatToDecimal(m);
    }
  }

  function LowerChar(c: char): char {
    if 'A' <= c <= 'Z' then ((c as int) + 32) as char else c
  }

  /**
   * Each character replaced by its mapping, as a full Unicode case mapping
   * works: `mb_strtoupper` maps one character to one or more (ß to SS).
   */
  function MapChars(s: string, f: char -> string): string {
    if s == [] then [] else f(s[0]) + MapChars(s[1..], f)
  }

  /** Mapping characters commutes with concatenation. */
  lemma {:induction false} MapCharsConcat(a: string, b: string, f: char -> string)
    ensures MapChars(a + b, f) == MapChars(a, f) + MapChars(b, f)
    decreases |a|
  {
    if a == [] {
      assert a + b == b;
    } else {
      assert (a + b)[0] == a[0] && (a + b)[1..] == a[1..] + b;
      MapCharsConcat(a[1..], b, f);
    }
  }

  /** A mapping that sends every character to exactly one, as plain `strtoupper` does. */
  predicate OneForOne(f: char -> string) {
    forall c :: |f(c)| == 1
  }

  /** Under a one-for-one mapping the length is kept and each character is mapped in place. */
  lemma {:induction false} MapCharsInPlace(s: string, f: char -> string)
    requires OneForOne(f)
    ensures |MapChars(s, f)| == |s|
    ensures forall i :: 0 <= i < |s| ==> MapChars(s, f)[i] == f(s[i])[0]
    decreases |s|
  {
    if s != [] {
      MapCharsInPlace(s[1..], f);
      var r := MapChars(s, f);
      assert |f(s[0])| == 1;
      assert forall i :: 1 <= i < |s| ==> r[i] == MapChars(s[1..], f)[i - 1] && s[i] == s[1..][i - 1];
    }
  }

  /** Case mappings leave the decimal digits alone. */
  predicate KeepsDigits(f: char -> string) {
    forall c :: IsDigit(c) ==> f(c) == [c]
  }

  function Lower(s: string): (r: string)
    ensures |r| == |s| && forall i :: 0 <= i < |s| ==> r[i] == LowerChar(s[i])
  {
    seq(|s|, i requires 0 <= i < |s| => LowerChar(s[i]))
  }

  predicate OccursAt(hay: string, needle: string, i: int) {
    0 <= i <= |hay| - |needle| && hay[i..i + |needle|] == needle
  }

  /** `needle` occurs in `hay` at some position. */
  predicate Contains(hay: string, needle: string) {
    exists i | 0 <= i <= |hay| :: OccursAt(hay, needle, i)
  }

  /** Case-insensitive substring test, folding ASCII letters. */
  predicate ContainsIgnoringCase(hay: string, needle: string) {
    Contains(Lower(hay), Lower(needle))
  }

  /** The characters PHP's `trim` strips by default. */
  predicate TrimmedChar(c: char) {
    c == ' ' || c == '\t' || c == '\n' || c == '\r' || c == '\0' || c == '\U{B}'
  }

  /** A string that `trim` reduces to the empty string. */
  predicate IsBlank(s: string) {
    forall i :: 0 <= i < |s| ==> TrimmedChar(s[i])
  }
}
