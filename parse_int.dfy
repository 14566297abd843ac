/**
 * The part of ECMAScript's global `parseInt(string)` (ECMA-262, section 19.2.5,
 * radix argument absent) that the breakpoint table uses: the numeric prefix of a
 * threshold such as "1024px" is read, and the unit suffix is ignored.
 *
 * Only strings that begin with a digit are parsed: leading white space and a sign
 * give `None` here, as does a string with no digits at all (JavaScript's `NaN`).
 * A string that begins with "0x" or "0X" is read in base 16, as the standard says.
 */
module ParseInt {
  import opened Common

  predicate IsDecimalDigit(c: char) {
    '0' <= c <= '9'
  }

  /** Is `c` a digit of the given radix (10 or 16)? */
  predicate IsDigit(c: char, radix: nat) {
    if radix == 16 then IsDecimalDigit(c) || 'a' <= c <= 'f' || 'A' <= c <= 'F'
    else IsDecimalDigit(c)
  }

  function DigitValue(c: char): (d: nat)
    requires IsDigit(c, 16)
    ensures d < 16
    ensures IsDecimalDigit(c) <==> d < 10
  {
    if IsDecimalDigit(c) then c as nat - '0' as nat
    else if 'a' <= c <= 'f' then c as nat - 'a' as nat + 10
    else c as nat - 'A' as nat + 10
  }

  /** The longest prefix of `s` made only of radix digits. */
  function DigitRun(s: string, radix: nat): (run: string)
    ensures |run| <= |s| && run == s[..|run|]
    ensures forall k :: 0 <= k < |run| ==> IsDigit(run[k], radix)
    ensures |run| < |s| ==> !IsDigit(s[|run|], radix)
  {
    if s == [] || !IsDigit(s[0], radix) then [] else [s[0]] + DigitRun(s[1..], radix)
  }

  /** The mathematical value of a string of radix digits, most significant first. */
  function DigitsValue(ds: string, radix: nat): nat
    requires radix == 10 || radix == 16
    requires forall k :: 0 <= k < |ds| ==> IsDigit(ds[k], radix)
  {
    if ds == [] then 0
    else
      assert IsDigit(ds[|ds| - 1], radix);
      DigitsValue(ds[..|ds| - 1], radix) * radix + DigitValue(ds[|ds| - 1])
  }

  predicate HasHexPrefix(s: string) {
    |s| >= 2 && s[0] == '0' && (s[1] == 'x' || s[1] == 'X')
  }

  /**
   * `parseInt(s)` for a string that starts with a digit; `None` (NaN) when no digit
   * can be read.
   */
  function Parse(s: string): (r: Option<nat>)
    ensures r.Some? ==> |s| > 0 && IsDecimalDigit(s[0])
    ensures |s| > 0 && IsDecimalDigit(s[0]) && !HasHexPrefix(s) ==> r.Some?
  {
    if |s| == 0 || !IsDecimalDigit(s[0]) then None
    else if HasHexPrefix(s) then
      var run := DigitRun(s[2..], 16);
      if run == [] then None else Some(DigitsValue(run, 16))
    else
      Some(DigitsValue(DigitRun(s, 10), 10))
  }

  /** The shortest decimal numeral of `n`, as JavaScript's `String(n)` writes it. */
  function Decimal(n: nat): (s: string)
    ensures |s| > 0
    ensures forall k :: 0 <= k < |s| ==> IsDecimalDigit(s[k])
    ensures n >= 10 ==> s[0] != '0'
  {
    if n < 10 then ['0' + n as char]
    else Decimal(n / 10) + ['0' + (n % 10) as char]
  }

  lemma {:induction false} DecimalValue(n: nat)
    ensures DigitsValue(Decimal(n), 10) == n
  {
    if n >= 10 {
      var s := Decimal(n);
      assert s[..|s| - 1] == Decimal(n / 10);
      DecimalValue(n / 10);
    }
  }

  lemma {:induction false} DigitRunOfPrefix(ds: string, unit: string, radix: nat)
    requires forall k :: 0 <= k < |ds| ==> IsDigit(ds[k], radix)
    requires unit == [] || !IsDigit(unit[0], radix)
    ensures DigitRun(ds + unit, radix) == ds
  {
    if ds == [] {
      assert ds + unit == unit;
    } else {
      assert (ds + unit)[1..] == ds[1..] + unit;
      DigitRunOfPrefix(ds[1..], unit, radix);
    }
  }

  /**
   * Writing a number followed by a unit and parsing it back gives the number,
   * provided the unit does not continue the numeral: it must not start with a
   * digit, and after a lone "0" it must not start with "x" (which would make the
   * string a hexadecimal literal).
   */
  lemma RoundTrip(n: nat, unit: string)
    requires unit == [] || !IsDecimalDigit(unit[0])
    requires n != 0 || unit == [] || (unit[0] != 'x' && unit[0] != 'X')
    ensures Parse(Decimal(n) + unit) == Some(n)
  {
    var s := Decimal(n) + unit;
    assert s[0] == Decimal(n)[0];
    assert !HasHexPrefix(s) by {
      if n >= 10 { assert s[0] != '0'; }
      else if unit != [] { assert s[1] == unit[0]; }
    }
    DigitRunOfPrefix(Decimal(n), unit, 10);
    DecimalValue(n);
  }

  /** "0x" followed by the unit letters reads no hexadecimal digit: NaN, not 0. */
  lemma HexPrefixWithoutDigits()
    ensures Parse("0xpx") == None
    ensures Parse("0x1Fpx") == Some(31)
  {
    assert DigitRun("0xpx"[2..], 16) == [] by { assert "0xpx"[2..][0] == 'p'; }
    var s := "0x1Fpx";
    assert s[2..] == "1F" + "px";
    DigitRunOfPrefix("1F", "px", 16);
    assert "1F"[..1] == "1" && "1"[..0] == "";
    assert DigitsValue("1", 16) == 1;
    assert DigitsValue("1F", 16) == 31;
  }
}
