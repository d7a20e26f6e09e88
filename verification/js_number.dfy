/** JavaScript's `parseInt(s)` (no radix argument) and the decimal
    `toString()` of an integer, over unbounded integers. `None` stands for
    `NaN`. */
module JsNumber {
  import opened Wrappers
  import opened JsString

  /** The value of `c` as a digit in radix 36 ('0'-'9', then 'a'/'A' = 10
      up to 'z'/'Z' = 35); 36 for any other character. */
  function DigitValue(c: char): nat {
    if '0' <= c <= '9' then c as int - '0' as int
    else if 'a' <= c <= 'z' then c as int - 'a' as int + 10
    else if 'A' <= c <= 'Z' then c as int - 'A' as int + 10
    else 36
  }

  predicate IsDigit(c: char, radix: nat) {
    DigitValue(c) < radix
  }

  /** Length of the longest prefix of `s` made of radix-`radix` digits. */
  function DigitRun(s: string, radix: nat): (n: nat)
    ensures n <= |s|
    ensures forall i :: 0 <= i < n ==> IsDigit(s[i], radix)
    ensures n < |s| ==> !IsDigit(s[n], radix)
  {
    if s != [] && IsDigit(s[0], radix) then 1 + DigitRun(s[1..], radix) else 0
  }

  /** Positional value of a digit string, most significant digit first. */
  function Value(ds: string, radix: nat): nat {
    if ds == [] then 0
    else Value(ds[..|ds| - 1], radix) * radix + DigitValue(ds[|ds| - 1])
  }

  /** `parseInt(s)`: skip leading whitespace, read an optional sign, switch
      to radix 16 after a `0x`/`0X` prefix, then take the longest run of
      digits; `NaN` when that run is empty. The sign of `-0` is lost, which
      no caller in the model can observe. */
  function ParseInt(s: string): (r: Option<int>)
    ensures r.None? <==> DigitRun(Unprefixed(s), Radix(s)) == 0
  {
    var body := Unprefixed(s);
    var n := DigitRun(body, Radix(s));
    if n == 0 then None
    else
      var magnitude := Value(body[..n], Radix(s));
      var v: int := if IsNegative(s) then -(magnitude as int) else magnitude;
      Some(v)
  }

  /** The text after leading whitespace and an optional sign. */
  function Unsigned(s: string): string {
    var t := TrimStart(s);
    if t != [] && (t[0] == '-' || t[0] == '+') then t[1..] else t
  }

  predicate IsNegative(s: string) {
    var t := TrimStart(s);
    t != [] && t[0] == '-'
  }

  predicate HasHexPrefix(u: string) {
    |u| >= 2 && u[0] == '0' && (u[1] == 'x' || u[1] == 'X')
  }

  function Radix(s: string): nat {
    if HasHexPrefix(Unsigned(s)) then 16 else 10
  }

  /** The digits `parseInt` reads start here. */
  function Unprefixed(s: string): string {
    var u := Unsigned(s);
    if HasHexPrefix(u) then u[2..] else u
  }

  function DecimalChar(d: nat): (c: char)
    requires d < 10
    ensures DigitValue(c) == d
  {
    ('0' as int + d) as char
  }

  /** Decimal digits of `n` without leading zeros ("0" for zero). */
  function NatToDecimal(n: nat): (r: string)
    ensures r != []
    ensures forall i :: 0 <= i < |r| ==> IsDigit(r[i], 10)
    ensures Value(r, 10) == n
    decreases n
  {
    if n < 10 then [DecimalChar(n)]
    else
      var r := NatToDecimal(n / 10) + [DecimalChar(n % 10)];
      assert r[..|r| - 1] == NatToDecimal(n / 10);
      r
  }

  /** `Number.prototype.toString()` of an integer. */
  function ToDecimal(n: int): (r: string)
    ensures r != []
  {
    if n < 0 then "-" + NatToDecimal(-n) else NatToDecimal(n)
  }

  /** `parseInt` reads back what `toString` wrote, and stops at the first
      character that is not a decimal digit (the year in "1999-05-01"). */
  lemma ParseIntOfDecimal(n: int, rest: string)
    requires rest == [] || (!IsDigit(rest[0], 10) && rest[0] != 'x' && rest[0] != 'X')
    ensures ParseInt(ToDecimal(n) + rest) == Some(n)
  {
    var ds := NatToDecimal(if n < 0 then -n else n);
    var s := ToDecimal(n) + rest;
    var u := ds + rest;
    SignOfDecimal(n, rest);
    NoHexPrefix(ds, rest);
    assert Radix(s) == 10 && Unprefixed(s) == u;
    DigitRunOfDigits(ds, rest);
    assert u[..|ds|] == ds;
    assert Value(Unprefixed(s)[..DigitRun(Unprefixed(s), 10)], 10) == if n < 0 then -n else n;
  }

  /** Decimal digits followed by something other than a digit or `x` never
      look like a hexadecimal prefix. */
  lemma NoHexPrefix(ds: string, rest: string)
    requires ds != [] && forall i :: 0 <= i < |ds| ==> IsDigit(ds[i], 10)
    requires rest == [] || (!IsDigit(rest[0], 10) && rest[0] != 'x' && rest[0] != 'X')
    ensures !HasHexPrefix(ds + rest)
  {
    var u := ds + rest;
    if |u| >= 2 {
      if |ds| >= 2 {
        assert u[1] == ds[1];
      } else {
        assert u[1] == rest[0];
      }
    }
  }

  /** `parseInt` gives `NaN` for text that starts with neither whitespace,
      a sign nor a digit. */
  lemma ParseIntNonNumeric(s: string)
    requires s == [] || (!IsDigit(s[0], 10) && s[0] != '-' && s[0] != '+' && !IsWhitespace(s[0]))
    ensures ParseInt(s) == None
  {
    if s != [] {
      NoLeadingWhitespace(s);
      assert Unsigned(s) == s;
      assert !HasHexPrefix(s);
      assert Unprefixed(s) == s && Radix(s) == 10;
    }
  }

  /** A written integer has no leading whitespace; its sign is its own. */
  lemma SignOfDecimal(n: int, rest: string)
    ensures Unsigned(ToDecimal(n) + rest) == NatToDecimal(if n < 0 then -n else n) + rest
    ensures IsNegative(ToDecimal(n) + rest) <==> n < 0
  {
    var ds := NatToDecimal(if n < 0 then -n else n);
    var sign := if n < 0 then "-" else "";
    assert ToDecimal(n) == sign + ds;
    assert ToDecimal(n) + rest == sign + (ds + rest);
    SignedDigits(sign, ds + rest);
  }

  /** Text made of an optional minus sign and a digit: the sign is read,
      nothing is skipped. */
  lemma SignedDigits(sign: string, u: string)
    requires sign == "" || sign == "-"
    requires u != [] && IsDigit(u[0], 10)
    ensures Unsigned(sign + u) == u
    ensures IsNegative(sign + u) <==> sign == "-"
  {
    DigitIsNotWhitespace(u[0]);
    if sign == "" {
      assert sign + u == u;
      SignOf(u);
    } else {
      var s := sign + u;
      assert s[0] == '-' && s[1..] == u;
      SignOf(s);
    }
  }

  /** Without leading whitespace, the sign is the first character. */
  lemma SignOf(s: string)
    requires s != [] && !IsWhitespace(s[0])
    ensures Unsigned(s) == if s[0] == '-' || s[0] == '+' then s[1..] else s
    ensures IsNegative(s) <==> s[0] == '-'
  {
    NoLeadingWhitespace(s);
  }

  lemma DigitIsNotWhitespace(c: char)
    requires IsDigit(c, 10)
    ensures !IsWhitespace(c) && c != '-' && c != '+'
  {
  }

  lemma NoLeadingWhitespace(s: string)
    requires s != [] && !IsWhitespace(s[0])
    ensures TrimStart(s) == s
  {
  }

  lemma {:induction false} DigitRunOfDigits(ds: string, rest: string)
    requires forall i :: 0 <= i < |ds| ==> IsDigit(ds[i], 10)
    requires rest == [] || !IsDigit(rest[0], 10)
    ensures DigitRun(ds + rest, 10) == |ds|
  {
    if ds != [] {
      assert (ds + rest)[1..] == ds[1..] + rest;
      DigitRunOfDigits(ds[1..], rest);
    } else {
      assert ds + rest == rest;
    }
  }

  /** `parseInt` of a string that is empty or only whitespace is `NaN`. */
  lemma ParseIntBlank(s: string)
    requires AllWhitespace(s)
    ensures ParseInt(s) == None
  {
  }
}
