/** Integers in decimal: `std::to_string` and `std::stoi`/`std::stoll`. */
module Decimal {

  predicate IsDigit(c: char) {
    '0' <= c <= '9'
  }

  function DigitChar(d: nat): (c: char)
    requires d < 10
    ensures IsDigit(c) && DigitValue(c) == d
  {
    ('0' as int + d) as char
  }

  function DigitValue(c: char): nat
    requires IsDigit(c)
  {
    c as int - '0' as int
  }

  function Digits(n: nat): (s: string)
    ensures s != [] && AllDigits(s)
  {
    if n < 10 then [DigitChar(n)] else Digits(n / 10) + [DigitChar(n % 10)]
  }

  function ToString(n: int): string {
    if n < 0 then ['-'] + Digits(-n) else Digits(n)
  }

  predicate AllDigits(s: string) {
    forall i :: 0 <= i < |s| ==> IsDigit(s[i])
  }

  function ValueOf(s: string): int
    requires AllDigits(s)
  {
    if s == [] then 0 else 10 * ValueOf(s[..|s| - 1]) + DigitValue(s[|s| - 1])
  }

  datatype Result<T> = Ok(value: T) | Err(error: Error)
  datatype Error = NotANumber | OutOfRange | MissingField

  /** The leading digits of a string. */
  function DigitPrefix(s: string): (d: string)
    ensures AllDigits(d) && d <= s && (|d| < |s| ==> !IsDigit(s[|d|]))
  {
    if s == [] || !IsDigit(s[0]) then [] else [s[0]] + DigitPrefix(s[1..])
  }

  predicate IsSpace(c: char) {
    c == ' ' || 9 <= c as int <= 13
  }

  function SkipSpaces(s: string): string {
    if s != [] && IsSpace(s[0]) then SkipSpaces(s[1..]) else s
  }

  function InRange(n: int, low: int, high: int): Result<int> {
    if low <= n <= high then Ok(n) else Err(OutOfRange)
  }

  /** White space, an optional sign and digits; what follows the digits is ignored. */
  function Parse(s: string, low: int, high: int): Result<int> {
    var t := SkipSpaces(s);
    var signed := t != [] && (t[0] == '-' || t[0] == '+');
    var digits := DigitPrefix(if signed then t[1..] else t);
    if digits == [] then Err(NotANumber)
    else
      var n := if signed && t[0] == '-' then 0 - ValueOf(digits) else ValueOf(digits);
      InRange(n, low, high)
  }

  lemma {:induction false} ValueOfDigits(n: nat)
    ensures ValueOf(Digits(n)) == n
  {
    if n >= 10 {
      ValueOfDigits(n / 10);
      var s := Digits(n / 10) + [DigitChar(n % 10)];
      assert s[..|s| - 1] == Digits(n / 10);
    } else {
      assert [DigitChar(n)][..0] == [];
    }
  }

  lemma {:induction false} WholePrefix(s: string)
    requires AllDigits(s)
    ensures DigitPrefix(s) == s
  {
    if s == [] {
    } else {
      WholePrefix(s[1..]);
    }
  }

  // ----- what is accepted -----

  predicate AllSpaces(s: string) {
    forall i :: 0 <= i < |s| ==> IsSpace(s[i])
  }

  /** White space, a sign or none, digits, and then anything that does not begin with a digit. */
  predicate Numeral(space: string, sign: string, digits: string, rest: string) {
    && AllSpaces(space) && (sign == "" || sign == "-" || sign == "+")
    && digits != [] && AllDigits(digits) && (rest == [] || !IsDigit(rest[0]))
  }

  lemma {:induction false} SpacesSkipped(space: string, t: string)
    requires AllSpaces(space) && (t == [] || !IsSpace(t[0]))
    ensures SkipSpaces(space + t) == t
  {
    if space == [] {
      assert space + t == t;
    } else {
      assert (space + t)[1..] == space[1..] + t;
      SpacesSkipped(space[1..], t);
    }
  }

  lemma {:induction false} DigitsTaken(digits: string, rest: string)
    requires AllDigits(digits) && (rest == [] || !IsDigit(rest[0]))
    ensures DigitPrefix(digits + rest) == digits
  {
    if digits == [] {
      assert digits + rest == rest;
    } else {
      assert (digits + rest)[1..] == digits[1..] + rest;
      DigitsTaken(digits[1..], rest);
    }
  }

  function NumeralValue(sign: string, digits: string): int
    requires AllDigits(digits)
  {
    if sign == "-" then 0 - ValueOf(digits) else ValueOf(digits)
  }

  lemma {:induction false} ParseUnsigned(s: string, digits: string, rest: string, low: int, high: int)
    requires Numeral("", "", digits, rest) && SkipSpaces(s) == digits + rest
    ensures Parse(s, low, high) == InRange(ValueOf(digits), low, high)
  {
    assert (digits + rest)[0] == digits[0] && IsDigit(digits[0]);
    DigitsTaken(digits, rest);
  }

  lemma {:induction false} ParseSigned(s: string, c: char, digits: string, rest: string, low: int, high: int)
    requires (c == '-' || c == '+') && Numeral("", [c], digits, rest) && SkipSpaces(s) == [c] + (digits + rest)
    ensures Parse(s, low, high) == InRange(NumeralValue([c], digits), low, high)
  {
    var t := SkipSpaces(s);
    assert t[0] == c && t[1..] == digits + rest;
    DigitsTaken(digits, rest);
  }

  /** A numeral parses to its value, provided that is in range. */
  lemma {:induction false} ParseNumeral(space: string, sign: string, digits: string, rest: string, low: int, high: int)
    requires Numeral(space, sign, digits, rest)
    ensures Parse(space + (sign + (digits + rest)), low, high) == InRange(NumeralValue(sign, digits), low, high)
  {
    var t := sign + (digits + rest);
    if sign == "" {
      assert t == digits + rest;
      assert t[0] == digits[0] && IsDigit(digits[0]);
      SpacesSkipped(space, t);
      ParseUnsigned(space + t, digits, rest, low, high);
    } else {
      assert sign == [sign[0]] && t[0] == sign[0];
      SpacesSkipped(space, t);
      ParseSigned(space + t, sign[0], digits, rest, low, high);
    }
  }

  lemma {:induction false} LeadingSpaces(s: string) returns (space: string)
    ensures AllSpaces(space) && s == space + SkipSpaces(s)
  {
    if s != [] && IsSpace(s[0]) {
      var rest := LeadingSpaces(s[1..]);
      space := [s[0]] + rest;
      assert s == [s[0]] + s[1..];
    } else {
      space := [];
      assert s == [] + s;
    }
  }

  lemma {:induction false} SignAndRest(t: string) returns (sign: string, u: string)
    ensures t == sign + u && (sign == "" || sign == "-" || sign == "+")
    ensures u == if t != [] && (t[0] == '-' || t[0] == '+') then t[1..] else t
  {
    if t != [] && (t[0] == '-' || t[0] == '+') {
      sign, u := [t[0]], t[1..];
    } else {
      sign, u := "", t;
      assert t == "" + t;
    }
  }

  lemma {:induction false} DigitsAndRest(u: string) returns (digits: string, rest: string)
    ensures digits == DigitPrefix(u) && AllDigits(digits) && u == digits + rest && (rest == [] || !IsDigit(rest[0]))
  {
    digits := DigitPrefix(u);
    rest := u[|digits|..];
  }

  /** Nothing else parses. */
  lemma {:induction false} OnlyNumeralsParse(s: string, low: int, high: int)
    returns (space: string, sign: string, digits: string, rest: string)
    requires Parse(s, low, high) != Err(NotANumber)
    ensures Numeral(space, sign, digits, rest) && s == space + (sign + (digits + rest))
  {
    var u: string;
    space := LeadingSpaces(s);
    sign, u := SignAndRest(SkipSpaces(s));
    digits, rest := DigitsAndRest(u);
  }

  lemma {:induction false} ParseNatural(n: nat, low: int, high: int)
    requires low <= n <= high
    ensures Parse(Digits(n), low, high) == Ok(n)
  {
    var t := Digits(n);
    assert IsDigit(t[0]);
    assert SkipSpaces(t) == t;
    WholePrefix(t);
    ValueOfDigits(n);
  }

  lemma {:induction false} ParseNegative(n: nat, low: int, high: int)
    requires low <= 0 - n <= high
    ensures Parse(['-'] + Digits(n), low, high) == Ok(0 - n)
  {
    var t := ['-'] + Digits(n);
    assert t[0] == '-' && t[1..] == Digits(n);
    assert SkipSpaces(t) == t;
    WholePrefix(Digits(n));
    ValueOfDigits(n);
  }

  /** A printed integer reads back as itself, provided it is in range. */
  lemma {:induction false} ParsePrinted(n: int, low: int, high: int)
    requires low <= n <= high
    ensures Parse(ToString(n), low, high) == Ok(n)
  {
    if n < 0 {
      ParseNegative(-n, low, high);
    } else {
      ParseNatural(n, low, high);
    }
  }

  /** Printed integers hold digits and perhaps a sign. */
  lemma {:induction false} PrintedChars(n: int, c: char)
    requires c != '-' && !IsDigit(c)
    ensures c !in ToString(n) && ToString(n) != []
  {
  }
}
