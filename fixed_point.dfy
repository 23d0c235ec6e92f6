/**
 * The fixed-point decoder `clean_number` of api/buses.mjs.
 *
 * A stored coordinate is a string of decimal digits, optionally signed, whose
 * last four digits are the fractional part. `clean_number` drops a leading
 * `+`, inserts a `.` before the last four digits and hands the text to
 * JavaScript's `Number`. The string rewriting is modelled exactly; the value
 * of `Number` is modelled on the decimal forms the rewriting produces, as a
 * sign and an integer scaled by 10^4.
 */
module FixedPoint {
  import opened Wrappers

  /** `\d` of a JavaScript regular expression without the `u` flag. */
  predicate IsDigit(c: char) { '0' <= c <= '9' }

  predicate AllDigits(s: string) { forall i :: 0 <= i < |s| ==> IsDigit(s[i]) }

  function DigitValue(c: char): nat
    requires IsDigit(c)
  {
    c as int - '0' as int
  }

  function DigitChar(d: nat): char
    requires d < 10
  {
    ('0' as int + d) as char
  }

  function Pow10(k: nat): nat
  {
    if k == 0 then 1 else 10 * Pow10(k - 1)
  }

  /** The number of fractional digits of a stored coordinate. */
  const FractionDigits: nat := 4

  /** The value of a string of decimal digits, most significant digit first. */
  function DigitsValue(s: string): nat
    requires AllDigits(s)
  {
    if s == [] then 0 else DigitsValue(s[..|s| - 1]) * 10 + DigitValue(s[|s| - 1])
  }

  lemma ShiftDigit(x: nat, q: nat, y: nat, z: nat)
    ensures (x * q + y) * 10 + z == x * (10 * q) + (y * 10 + z)
  {
  }

  lemma {:induction false} DigitsValueAppend(a: string, b: string)
    requires AllDigits(a) && AllDigits(b)
    ensures AllDigits(a + b)
    ensures DigitsValue(a + b) == DigitsValue(a) * Pow10(|b|) + DigitsValue(b)
  {
    if b == [] {
      assert a + b == a;
    } else {
      var b', c := b[..|b| - 1], b[|b| - 1];
      assert b == b' + [c];
      assert a + b == (a + b') + [c];
      DigitsValueAppend(a, b');
      DigitsValueSnoc(a + b', c);
      DigitsValueSnoc(b', c);
      ShiftDigit(DigitsValue(a), Pow10(|b'|), DigitsValue(b'), DigitValue(c));
    }
  }

  lemma DigitsValueSnoc(s: string, c: char)
    requires AllDigits(s) && IsDigit(c)
    ensures AllDigits(s + [c]) && DigitsValue(s + [c]) == DigitsValue(s) * 10 + DigitValue(c)
  {
    assert (s + [c])[..|s|] == s;
  }

  // ---------------------------------------------------------------------
  // The string rewriting (api/buses.mjs:8-9)
  // ---------------------------------------------------------------------

  /** `s.replace(c, "")` with a one-character string pattern: the first occurrence of c is removed. */
  function RemoveFirst(s: string, c: char): string
  {
    if s == [] then []
    else if s[0] == c then s[1..]
    else [s[0]] + RemoveFirst(s[1..], c)
  }

  /** `if (n.startsWith("+")) n = n.replace("+", "")`. */
  function StripPlus(n: string): (r: string)
    ensures |n| > 0 && n[0] == '+' ==> r == n[1..]
    ensures !(|n| > 0 && n[0] == '+') ==> r == n
  {
    if |n| > 0 && n[0] == '+' then RemoveFirst(n, '+') else n
  }

  /** The last four characters are digits, so that `/(\d{4})$/` matches. */
  predicate EndsInFourDigits(s: string)
  {
    |s| >= FractionDigits && AllDigits(s[|s| - FractionDigits..])
  }

  /** The pattern `(\d{4})$` matches s starting at position p. */
  predicate MatchesAt(s: string, p: nat)
  {
    p + FractionDigits == |s| && AllDigits(s[p..])
  }

  /** The leftmost position at or after p where `(\d{4})$` matches, as a regular-expression search tries them. */
  function FirstMatch(s: string, p: nat): Option<nat>
    decreases |s| - p
  {
    if p > |s| then None
    else if MatchesAt(s, p) then Some(p)
    else FirstMatch(s, p + 1)
  }

  /** The only place the anchored pattern can match is four characters before the end. */
  lemma {:induction false} FirstMatchFinds(s: string, p: nat)
    requires p <= |s|
    ensures FirstMatch(s, p) ==
      if EndsInFourDigits(s) && p + FractionDigits <= |s| then Some(|s| - FractionDigits) else None
    decreases |s| - p
  {
    if !MatchesAt(s, p) && p < |s| {
      FirstMatchFinds(s, p + 1);
    }
  }

  /** `n.replace(/(\d{4})$/, ".$1")`: the matched four digits are replaced by a point followed by them. */
  function InsertPoint(s: string): (r: string)
    ensures EndsInFourDigits(s) ==> r == s[..|s| - FractionDigits] + "." + s[|s| - FractionDigits..]
    ensures !EndsInFourDigits(s) ==> r == s
  {
    FirstMatchFinds(s, 0);
    match FirstMatch(s, 0)
    case None => s
    case Some(p) => s[..p] + "." + s[p..p + FractionDigits] + s[p + FractionDigits..]
  }

  /** The text `clean_number` hands to `Number`. */
  function CleanNumber(n: string): string
  {
    InsertPoint(StripPlus(n))
  }

  /** A leading `-` is never removed: only `+` is stripped. */
  lemma CleanNumberKeepsMinus(n: string)
    requires |n| > 0 && n[0] == '-'
    ensures CleanNumber(n) == InsertPoint(n)
    ensures |CleanNumber(n)| > 0 && CleanNumber(n)[0] == '-'
  {
  }

  /**
   * After the `+` is stripped, exactly one `.` is inserted, right before the
   * last four characters, when those are digits; removing it gives the
   * stripped string back. Otherwise the stripped string is returned unchanged.
   */
  lemma CleanNumberInsertsOnePoint(n: string)
    ensures var m, r := StripPlus(n), CleanNumber(n);
      if EndsInFourDigits(m) then
        |r| == |m| + 1 && r[|m| - FractionDigits] == '.' &&
        r[..|m| - FractionDigits] + r[|m| - FractionDigits + 1..] == m &&
        r[|m| - FractionDigits + 1..] == m[|m| - FractionDigits..] &&
        multiset(r)['.'] == multiset(m)['.'] + 1
      else r == m
  {
    var m, r := StripPlus(n), CleanNumber(n);
    if EndsInFourDigits(m) {
      var k := |m| - FractionDigits;
      assert r == m[..k] + "." + m[k..];
      assert r[..k] == m[..k] && r[k + 1..] == m[k..];
      assert m == m[..k] + m[k..];
      assert multiset(r) == multiset(m[..k]) + multiset(".") + multiset(m[k..]);
      assert multiset(m) == multiset(m[..k]) + multiset(m[k..]);
    }
  }

  // ---------------------------------------------------------------------
  // The value of Number(...) on the decoded form (api/buses.mjs:10)
  // ---------------------------------------------------------------------

  /** A decimal number with four fractional digits: (negative ? -1 : 1) * scaled / 10^4. */
  datatype Fixed = Fixed(negative: bool, scaled: nat)

  /**
   * The unsigned forms decoded, scaled by 10^4: digits (read with four zeros
   * appended), or digits, a point and exactly four digits (read with the
   * point removed).
   */
  function Magnitude(body: string): Option<nat>
  {
    var k := |body| - FractionDigits - 1;
    if |body| > 0 && AllDigits(body) then
      Some(DigitsValue(body + Zeros(FractionDigits)))
    else if k >= 0 && body[k] == '.' && AllDigits(body[..k]) && AllDigits(body[k + 1..]) then
      Some(DigitsValue(body[..k] + body[k + 1..]))
    else None
  }

  function WithSign(negative: bool, magnitude: Option<nat>): Option<Fixed>
  {
    match magnitude
    case None => None
    case Some(v) => Some(Fixed(negative, v))
  }

  /**
   * The value `Number(t)` gives for the forms this model decodes: an optional
   * sign followed by a form Magnitude accepts. None stands for every other
   * text, whose value is not modelled.
   */
  function ParseNumber(t: string): Option<Fixed>
  {
    if |t| > 0 && (t[0] == '+' || t[0] == '-') then WithSign(t[0] == '-', Magnitude(t[1..]))
    else WithSign(false, Magnitude(t))
  }

  /** The value `clean_number(n)` returns, where this model computes it. */
  function Decode(n: string): Option<Fixed>
  {
    ParseNumber(CleanNumber(n))
  }

  lemma MagnitudePointed(ip: string, fp: string)
    requires AllDigits(ip) && AllDigits(fp) && |fp| == FractionDigits
    ensures AllDigits(ip + fp)
    ensures Magnitude(ip + "." + fp) == Some(DigitsValue(ip + fp))
  {
    var body := ip + "." + fp;
    assert body[|ip|] == '.';
    assert !AllDigits(body);
    assert body[..|ip|] == ip;
    assert body[|ip| + 1..] == fp;
  }

  /** A signed fixed-point text with its point in place parses to its digits scaled by 10^4. */
  lemma ParsePointed(sign: string, ip: string, fp: string)
    requires sign == "" || sign == "-"
    requires AllDigits(ip) && AllDigits(fp) && |fp| == FractionDigits
    ensures AllDigits(ip + fp)
    ensures ParseNumber(sign + (ip + "." + fp)) == Some(Fixed(sign == "-", DigitsValue(ip + fp)))
  {
    var body := ip + "." + fp;
    var t := sign + body;
    MagnitudePointed(ip, fp);
    if sign == "-" {
      assert t[0] == '-' && t[1..] == body;
    } else {
      assert t == body;
      if |ip| > 0 {
        assert t[0] == ip[0];
      } else {
        assert t[0] == '.';
      }
    }
  }

  /**
   * A stored coordinate in the stored form, an optional sign and at
   * least four digits, decodes to that sign and the digits read as an integer
   * scaled by 10^4.
   */
  lemma DecodeStoredFormat(sign: string, d: string)
    requires sign == "" || sign == "+" || sign == "-"
    requires AllDigits(d) && |d| >= FractionDigits
    ensures Decode(sign + d) == Some(Fixed(sign == "-", DigitsValue(d)))
  {
    var k := |d| - FractionDigits;
    var ip, fp := d[..k], d[k..];
    assert d == ip + fp;
    if sign == "-" {
      CleanStoredNegative(ip, fp);
      DecodeValue(sign + (ip + fp), "-", ip, fp);
    } else {
      CleanStoredUnsigned(sign, ip, fp);
      DecodeValue(sign + (ip + fp), "", ip, fp);
    }
  }

  lemma DecodeValue(n: string, tail: string, ip: string, fp: string)
    requires CleanNumber(n) == tail + (ip + "." + fp)
    requires tail == "" || tail == "-"
    requires AllDigits(ip) && AllDigits(fp) && |fp| == FractionDigits
    ensures AllDigits(ip + fp)
    ensures Decode(n) == Some(Fixed(tail == "-", DigitsValue(ip + fp)))
  {
    ParsePointed(tail, ip, fp);
  }

  lemma CleanStoredUnsigned(sign: string, ip: string, fp: string)
    requires sign == "" || sign == "+"
    requires AllDigits(ip) && AllDigits(fp) && |fp| == FractionDigits
    ensures CleanNumber(sign + (ip + fp)) == ip + "." + fp
  {
    var n := sign + (ip + fp);
    assert StripPlus(n) == ip + fp by {
      if sign == "+" { assert n[1..] == ip + fp; }
      else { assert n == ip + fp; }
    }
    InsertStored(ip + fp, ip, fp);
  }

  lemma CleanStoredNegative(ip: string, fp: string)
    requires AllDigits(ip) && AllDigits(fp) && |fp| == FractionDigits
    ensures CleanNumber("-" + (ip + fp)) == "-" + (ip + "." + fp)
  {
    var n := "-" + (ip + fp);
    assert StripPlus(n) == n;
    assert n == ("-" + ip) + fp;
    InsertStored(n, "-" + ip, fp);
  }

  lemma InsertStored(m: string, ip: string, fp: string)
    requires m == ip + fp && |fp| == FractionDigits && AllDigits(fp)
    ensures InsertPoint(m) == ip + "." + fp
  {
    assert m[|m| - FractionDigits..] == fp;
    assert m[..|m| - FractionDigits] == ip;
  }

  // ---------------------------------------------------------------------
  // The stored format, as the inverse of the decoder
  // ---------------------------------------------------------------------

  /** The decimal digits of n, most significant first, without leading zeros. */
  function NatToDigits(n: nat): (r: string)
    ensures AllDigits(r) && |r| > 0
  {
    if n < 10 then [DigitChar(n)] else NatToDigits(n / 10) + [DigitChar(n % 10)]
  }

  lemma {:induction false} NatToDigitsValue(n: nat)
    ensures DigitsValue(NatToDigits(n)) == n
  {
    if n >= 10 {
      var d := NatToDigits(n);
      assert d[..|d| - 1] == NatToDigits(n / 10);
      NatToDigitsValue(n / 10);
    }
  }

  function Zeros(k: nat): (r: string)
    ensures |r| == k && AllDigits(r)
  {
    seq(k, _ => '0')
  }

  lemma {:induction false} ZerosValue(k: nat)
    ensures DigitsValue(Zeros(k)) == 0
  {
    if k > 0 {
      assert Zeros(k)[..k - 1] == Zeros(k - 1);
      ZerosValue(k - 1);
    }
  }

  /** A value written in the stored format: a sign and at least four digits. */
  function Encode(x: Fixed): (r: string)
  {
    var d := NatToDigits(x.scaled);
    var padded := if |d| < FractionDigits then Zeros(FractionDigits - |d|) + d else d;
    (if x.negative then "-" else "+") + padded
  }

  /** Decoding an encoded value gives the value back. */
  lemma DecodeEncode(x: Fixed)
    ensures Decode(Encode(x)) == Some(x)
  {
    var d := NatToDigits(x.scaled);
    var padded := if |d| < FractionDigits then Zeros(FractionDigits - |d|) + d else d;
    NatToDigitsValue(x.scaled);
    if |d| < FractionDigits {
      ZerosValue(FractionDigits - |d|);
      DigitsValueAppend(Zeros(FractionDigits - |d|), d);
    }
    assert DigitsValue(padded) == x.scaled;
    DecodeStoredFormat(if x.negative then "-" else "+", padded);
  }

  /** The point goes before the last four digits and the `+` is dropped. */
  lemma CleanNumberPlusExample(n: string)
    requires n == "+123456789"
    ensures CleanNumber(n) == "12345.6789"
  {
    var ip, fp := "12345", "6789";
    assert n == "+" + (ip + fp);
    assert ip + "." + fp == "12345.6789";
    assert CleanNumber(n) == ip + "." + fp by {
      CleanStoredUnsigned("+", ip, fp);
    }
  }

  /** A leading `-` stays in place. */
  lemma CleanNumberMinusExample(n: string)
    requires n == "-987654321"
    ensures CleanNumber(n) == "-98765.4321"
  {
    var ip, fp := "98765", "4321";
    assert n == "-" + (ip + fp);
    assert "-" + (ip + "." + fp) == "-98765.4321";
    assert CleanNumber(n) == "-" + (ip + "." + fp) by {
      CleanStoredNegative(ip, fp);
    }
  }

  /** A stored latitude decodes to 41123.4567. */
  lemma DecodeLatitudeExample(n: string)
    requires n == "+411234567"
    ensures Decode(n) == Some(Fixed(false, 411234567))
  {
    var d := "411234567";
    assert n == "+" + d;
    DecodeStoredFormat("+", d);
    DigitsValueExample(d);
  }

  lemma DigitsValueExample(d: string)
    requires d == "411234567"
    ensures AllDigits(d) && DigitsValue(d) == 411234567
  {
    var p0: string := [];
    var p1 := p0 + ['4'];
    var p2 := p1 + ['1'];
    var p3 := p2 + ['1'];
    var p4 := p3 + ['2'];
    var p5 := p4 + ['3'];
    var p6 := p5 + ['4'];
    var p7 := p6 + ['5'];
    var p8 := p7 + ['6'];
    var p9 := p8 + ['7'];
    assert d == p9;
    DigitsValueSnoc(p0, '4');
    DigitsValueSnoc(p1, '1');
    DigitsValueSnoc(p2, '1');
    DigitsValueSnoc(p3, '2');
    DigitsValueSnoc(p4, '3');
    DigitsValueSnoc(p5, '4');
    DigitsValueSnoc(p6, '5');
    DigitsValueSnoc(p7, '6');
    DigitsValueSnoc(p8, '7');
  }
}
