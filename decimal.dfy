/**
 * Decimal renderings of numbers as Python's str.format produces them:
 * "{}" of an int and "{:0.6f}" of a number of seconds held as whole microseconds,
 * together with the parsers that invert them.
 */
module Decimal {
  import opened Wrappers

  const MicrosPerSecond: nat := 1000000

  predicate IsDigit(c: char) {
    '0' <= c <= '9'
  }

  predicate AllDigits(s: string) {
    forall i :: 0 <= i < |s| ==> IsDigit(s[i])
  }

  /** The characters a rendered number is made of: digits, the point and the minus sign. */
  predicate NumberText(s: string) {
    forall i :: 0 <= i < |s| ==> IsDigit(s[i]) || s[i] == '.' || s[i] == '-'
  }

  function DigitChar(d: nat): (c: char)
    requires d < 10
    ensures IsDigit(c)
  {
    ('0' as int + d) as char
  }

  function DigitValue(c: char): (d: nat)
    requires IsDigit(c)
    ensures d < 10 && DigitChar(d) == c
  {
    c as int - '0' as int
  }

  function Pow10(k: nat): (p: nat)
    ensures p >= 1
  {
    if k == 0 then 1 else 10 * Pow10(k - 1)
  }

  /** The value of a string of decimal digits, most significant first. */
  function DigitsValue(s: string): nat
    requires AllDigits(s)
  {
    if s == [] then 0 else DigitsValue(s[..|s| - 1]) * 10 + DigitValue(s[|s| - 1])
  }

  /** "{}".format(n) for a non-negative int: shortest decimal, no leading zero. */
  function NatToString(n: nat): (s: string)
    ensures |s| >= 1 && AllDigits(s)
    ensures |s| > 1 ==> s[0] != '0'
    ensures DigitsValue(s) == n
  {
    if n < 10 then [DigitChar(n)]
    else
      var p := NatToString(n / 10);
      var s := p + [DigitChar(n % 10)];
      assert s[..|s| - 1] == p;
      s
  }

  /** "{}".format(i) for any int. */
  function IntToString(i: int): (s: string)
    ensures |s| >= 1 && NumberText(s)
    ensures i < 0 <==> s[0] == '-'
  {
    if i < 0 then "-" + NatToString(-i) else NatToString(i)
  }

  /** Exactly `width` digits, zero-padded on the left. */
  function Pad(n: nat, width: nat): (s: string)
    requires n < Pow10(width)
    ensures |s| == width && AllDigits(s) && DigitsValue(s) == n
  {
    if width == 0 then []
    else
      var p := Pad(n / 10, width - 1);
      var s := p + [DigitChar(n % 10)];
      assert s[..|s| - 1] == p;
      s
  }

  /** "{:0.6f}" of a non-negative number of microseconds: whole seconds, the point, six digits. */
  function UnsignedFixed6(a: nat): (s: string)
    ensures |s| >= 8 && NumberText(s) && IsDigit(s[0])
  {
    NatToString(a / MicrosPerSecond) + "." + Pad(a % MicrosPerSecond, 6)
  }

  /** "{:0.6f}" of the number of seconds that `us` microseconds make. */
  function Fixed6(us: int): (s: string)
    ensures |s| >= 8 && NumberText(s)
  {
    if us < 0 then "-" + UnsignedFixed6(-us) else UnsignedFixed6(us)
  }

  /** The shape of "{:0.6f}": a sign exactly for negative values, whole seconds, the point, six digits. */
  lemma Fixed6Shape(us: int)
    ensures var s := Fixed6(us);
      && s[|s| - 7] == '.' && AllDigits(s[|s| - 6..])
      && (us < 0 <==> s[0] == '-')
  {
    var a: nat := if us < 0 then -us else us;
    var body := UnsignedFixed6(a);
    var f := Pad(a % MicrosPerSecond, 6);
    assert body[|body| - 7] == '.' && body[|body| - 6..] == f;
    if us < 0 {
      assert Fixed6(us) == "-" + body;
      assert Fixed6(us)[|Fixed6(us)| - 6..] == f;
    }
  }

  /** Reads a string of one or more digits. */
  function ParseNat(s: string): (r: Option<nat>)
    ensures r.Some? <==> |s| >= 1 && AllDigits(s)
  {
    if |s| >= 1 && AllDigits(s) then Some(DigitsValue(s)) else None
  }

  /** Reads an optionally signed decimal integer. */
  function ParseInt(s: string): Option<int> {
    if |s| >= 1 && s[0] == '-' then
      var r := ParseNat(s[1..]);
      if r.Some? then Some(-(r.value as int)) else None
    else
      var r := ParseNat(s);
      if r.Some? then Some(r.value as int) else None
  }

  /** Reads "<digits>.<six digits>", optionally signed, as microseconds. */
  function ParseFixed6(s: string): Option<int> {
    if |s| >= 1 && s[0] == '-' then
      var r := ParseUnsignedFixed6(s[1..]);
      if r.Some? then Some(-(r.value as int)) else None
    else
      var r := ParseUnsignedFixed6(s);
      if r.Some? then Some(r.value as int) else None
  }

  function ParseUnsignedFixed6(s: string): Option<nat> {
    if |s| < 8 || s[|s| - 7] != '.' then None
    else
      match (ParseNat(s[..|s| - 7]), ParseNat(s[|s| - 6..]))
      case (Some(w), Some(f)) => Some(w * MicrosPerSecond + f)
      case _ => None
  }

  lemma IntRoundTrip(i: int)
    ensures ParseInt(IntToString(i)) == Some(i)
  {
    if i < 0 {
      assert IntToString(i)[1..] == NatToString(-i);
    }
  }

  lemma UnsignedFixed6RoundTrip(a: nat)
    ensures ParseUnsignedFixed6(UnsignedFixed6(a)) == Some(a)
  {
    var w := NatToString(a / MicrosPerSecond);
    var f := Pad(a % MicrosPerSecond, 6);
    var body := UnsignedFixed6(a);
    assert body[|body| - 7] == '.';
    assert body[..|body| - 7] == w && body[|body| - 6..] == f;
    assert ParseNat(w) == Some(a / MicrosPerSecond);
    assert ParseNat(f) == Some(a % MicrosPerSecond);
  }

  lemma Fixed6RoundTrip(us: int)
    ensures ParseFixed6(Fixed6(us)) == Some(us)
  {
    var s := Fixed6(us);
    if us < 0 {
      var u := UnsignedFixed6(-us);
      UnsignedFixed6RoundTrip(-us);
      assert s == "-" + u;
      assert s[0] == '-' && s[1..] == u;
      assert ParseUnsignedFixed6(s[1..]) == Some(-us);
    } else {
      UnsignedFixed6RoundTrip(us);
      assert s == UnsignedFixed6(us);
      assert s[0] != '-';
    }
  }

  /** Different microsecond values never render to the same "{:0.6f}" text. */
  lemma Fixed6Injective(x: int, y: int)
    requires Fixed6(x) == Fixed6(y)
    ensures x == y
  {
    Fixed6RoundTrip(x);
    Fixed6RoundTrip(y);
  }
}
