/** Digit strings and JavaScript's `parseInt(s)` without a radix argument:
    leading white space is skipped, one sign is taken, a `0x`/`0X` prefix
    switches to base 16, and the longest run of digits of that base is read;
    no digit at all gives NaN (`None`). */
module JsNumber {
  import opened Wrappers

  /** The digit value of `c` in base `radix` (10 or 16), if it is one. */
  function DigitOf(c: char, radix: nat): Option<nat>
  {
    if '0' <= c <= '9' then Some((c as int) - ('0' as int))
    else if radix == 16 && 'a' <= c <= 'f' then Some((c as int) - ('a' as int) + 10)
    else if radix == 16 && 'A' <= c <= 'F' then Some((c as int) - ('A' as int) + 10)
    else None
  }

  predicate IsDigit(c: char) { '0' <= c <= '9' }

  predicate AllDigitsIn(s: string, radix: nat)
  {
    forall i :: 0 <= i < |s| ==> DigitOf(s[i], radix).Some?
  }

  predicate AllDigits(s: string)
  {
    forall i :: 0 <= i < |s| ==> IsDigit(s[i])
  }

  /** The value of a digit string in base `radix`, most significant digit first. */
  function RadixValue(s: string, radix: nat): nat
    requires AllDigitsIn(s, radix)
  {
    if s == [] then 0
    else RadixValue(s[..|s| - 1], radix) * radix + DigitOf(s[|s| - 1], radix).value
  }

  /** The value of a decimal digit string. */
  function DecimalValue(s: string): nat
    requires AllDigits(s)
  {
    assert AllDigitsIn(s, 10) by {
      forall i | 0 <= i < |s| ensures DigitOf(s[i], 10).Some? { assert IsDigit(s[i]); }
    }
    RadixValue(s, 10)
  }

  /** The length of the longest prefix of `s` made of digits of base `radix`. */
  function DigitRun(s: string, radix: nat): (n: nat)
    ensures n <= |s|
    ensures AllDigitsIn(s[..n], radix)
    ensures n < |s| ==> DigitOf(s[n], radix).None?
  {
    if s == [] || DigitOf(s[0], radix).None? then 0
    else
      var m := DigitRun(s[1..], radix);
      assert s[..m + 1] == [s[0]] + s[1..][..m];
      1 + m
  }

  /** The characters JavaScript trims as white space or line terminators
      (tab, vertical tab, form feed, space, no-break space, the byte order
      mark, the Unicode space separators, LF, CR, U+2028 and U+2029). */
  predicate IsJsSpace(c: char)
  {
    var k := c as int;
    k == 0x09 || k == 0x0B || k == 0x0C || k == 0x20 || k == 0xA0 || k == 0xFEFF
    || k == 0x1680 || (0x2000 <= k <= 0x200A) || k == 0x202F || k == 0x205F || k == 0x3000
    || k == 0x0A || k == 0x0D || k == 0x2028 || k == 0x2029
  }

  /** `s` without its leading white space. */
  function TrimStart(s: string): (t: string)
    ensures |t| <= |s| && t == s[|s| - |t|..]
    ensures t == [] || !IsJsSpace(t[0])
    ensures forall i :: 0 <= i < |s| - |t| ==> IsJsSpace(s[i])
  {
    if s != [] && IsJsSpace(s[0]) then TrimStart(s[1..]) else s
  }

  /** `parseInt(s)`: `None` is NaN. */
  function ParseInt(s: string): Option<int>
  {
    var t := TrimStart(s);
    if t != [] && t[0] == '-' then Negate(ParseUnsigned(t[1..]))
    else if t != [] && t[0] == '+' then ParseUnsigned(t[1..])
    else ParseUnsigned(t)
  }

  /** What `parseInt` reads after the white space and the sign. */
  function ParseUnsigned(u: string): Option<nat>
  {
    var hex := |u| >= 2 && u[0] == '0' && (u[1] == 'x' || u[1] == 'X');
    var radix := if hex then 16 else 10;
    var v := if hex then u[2..] else u;
    var z := DigitRun(v, radix);
    if z == 0 then None else Some(RadixValue(v[..z], radix))
  }

  function Negate(r: Option<nat>): Option<int>
  {
    match r
    case None => None
    case Some(n) => Some(-(n as int))
  }

  /** The decimal numeral of `n`, without leading zeros. */
  function NatToDecimal(n: nat): string
  {
    var d := [(('0' as int) + n % 10) as char];
    if n < 10 then d else NatToDecimal(n / 10) + d
  }

  lemma RadixValueOfDecimal(s: string)
    requires AllDigits(s)
    ensures AllDigitsIn(s, 10) && RadixValue(s, 10) == DecimalValue(s)
  {
  }

  /** Reading back the numeral of `n` gives `n`. */
  lemma {:induction false} DecimalRoundTrip(n: nat)
    ensures |NatToDecimal(n)| >= 1 && AllDigits(NatToDecimal(n))
    ensures DecimalValue(NatToDecimal(n)) == n
  {
    var d := [(('0' as int) + n % 10) as char];
    var s := NatToDecimal(n);
    assert IsDigit(d[0]) && DigitOf(d[0], 10) == Some(n % 10);
    if n >= 10 {
      var t := NatToDecimal(n / 10);
      DecimalRoundTrip(n / 10);
      assert s == t + d;
      assert forall i :: 0 <= i < |s| ==> s[i] == (if i < |t| then t[i] else d[0]);
      assert s[..|s| - 1] == t;
      RadixValueOfDecimal(s);
      RadixValueOfDecimal(t);
      assert RadixValue(s, 10) == RadixValue(t, 10) * 10 + n % 10;
      assert (n / 10) * 10 + n % 10 == n;
    } else {
      assert s == d && s[..|s| - 1] == [];
      RadixValueOfDecimal(s);
    }
  }

  /** A decimal digit string followed by anything that neither continues the
      digits nor turns a lone `0` into a hex prefix is read as its value:
      the reading stops at the end of the maximal digit run. */
  lemma UnsignedDigitPrefix(d: string, rest: string)
    requires |d| >= 1 && AllDigits(d)
    requires rest == [] || !IsDigit(rest[0])
    requires !(d == "0" && rest != [] && (rest[0] == 'x' || rest[0] == 'X'))
    ensures ParseUnsigned(d + rest) == Some(DecimalValue(d))
  {
    var s := d + rest;
    assert !(|s| >= 2 && s[0] == '0' && (s[1] == 'x' || s[1] == 'X')) by {
      if |d| >= 2 { assert s[1] == d[1]; } else if rest != [] { assert s[1] == rest[0]; }
    }
    DigitRunPrefix(d, rest, 10);
    assert s[..|d|] == d;
    RadixValueOfDecimal(d);
  }

  /** The same for `parseInt`, the text starting with its first digit. */
  lemma ParseIntDigitPrefix(d: string, rest: string)
    requires |d| >= 1 && AllDigits(d)
    requires rest == [] || !IsDigit(rest[0])
    requires !(d == "0" && rest != [] && (rest[0] == 'x' || rest[0] == 'X'))
    ensures ParseInt(d + rest) == Some(DecimalValue(d))
  {
    var s := d + rest;
    assert s[0] == d[0] && IsDigit(s[0]);
    assert TrimStart(s) == s;
    UnsignedDigitPrefix(d, rest);
  }

  /** The digit run of `d + rest` is exactly `d` when `rest` does not start
      with a digit. */
  lemma {:induction false} DigitRunPrefix(d: string, rest: string, radix: nat)
    requires AllDigitsIn(d, radix)
    requires rest == [] || DigitOf(rest[0], radix).None?
    ensures DigitRun(d + rest, radix) == |d|
  {
    if d != [] {
      assert (d + rest)[1..] == d[1..] + rest;
      assert DigitOf(d[0], radix).Some?;
      DigitRunPrefix(d[1..], rest, radix);
    } else {
      assert d + rest == rest;
    }
  }

  /** A minus sign in front of a decimal digit string negates what
      `parseInt` reads. */
  lemma ParseIntNegated(d: string)
    requires |d| >= 1 && AllDigits(d)
    ensures ParseInt("-" + d) == Some(-(DecimalValue(d) as int))
  {
    var s := "-" + d;
    assert TrimStart(s) == s;
    assert s[1..] == d + "";
    UnsignedDigitPrefix(d, "");
  }

  /** `parseInt` of a numeral gives its value. */
  lemma ParseIntOfNumeral(n: nat)
    ensures ParseInt(NatToDecimal(n)) == Some(n)
  {
    DecimalRoundTrip(n);
    ParseIntOfDigits(NatToDecimal(n));
  }

  /** With a minus sign in front of a numeral, `parseInt` gives the negated
      value. */
  lemma ParseIntOfNegatedNumeral(n: nat)
    ensures ParseInt("-" + NatToDecimal(n)) == Some(-(n as int))
  {
    var d := NatToDecimal(n);
    DecimalRoundTrip(n);
    ParseIntNegated(d);
    assert DecimalValue(d) == n;
  }

  /** `parseInt` of a decimal digit string is its value. */
  lemma ParseIntOfDigits(d: string)
    requires |d| >= 1 && AllDigits(d)
    ensures ParseInt(d) == Some(DecimalValue(d))
  {
    assert d + "" == d;
    ParseIntDigitPrefix(d, "");
  }

  /** Leading white space does not change what `parseInt` reads. */
  lemma ParseIntSkipsSpace(c: char, s: string)
    requires IsJsSpace(c)
    ensures ParseInt([c] + s) == ParseInt(s)
  {
    assert ([c] + s)[1..] == s;
    assert TrimStart([c] + s) == TrimStart(s);
  }

  /** The empty string is NaN. */
  lemma ParseIntEmptyIsNaN()
    ensures ParseInt("") == None
  {
  }

  /** After a minus sign `parseInt` negates what it reads from the rest;
      with nothing after the sign, that is NaN. */
  lemma ParseIntMinus(u: string)
    ensures ParseInt("-" + u) == Negate(ParseUnsigned(u))
    ensures u == [] ==> ParseInt("-" + u) == None
  {
    var s := "-" + u;
    assert s[0] == '-' && !IsJsSpace(s[0]);
    assert TrimStart(s) == s;
    assert s[1..] == u;
  }
}
