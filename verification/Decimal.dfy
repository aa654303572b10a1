/** Decimal numerals: `std::to_string` and `std::atoi`. */
module Decimal {

  predicate IsDigit(c: char) { '0' <= c <= '9' }

  predicate Digits(s: string) { forall i | 0 <= i < |s| :: IsDigit(s[i]) }

  function Value(s: string): nat
    requires Digits(s)
  {
    if s == "" then 0 else Value(s[..|s| - 1]) * 10 + (s[|s| - 1] as int - '0' as int)
  }

  function Digit(d: nat): (c: char)
    requires d < 10
    ensures IsDigit(c) && c as int == '0' as int + d
  {
    '0' + d as char
  }

  function PrintNat(n: nat): (s: string)
    ensures s != "" && Digits(s)
  {
    if n < 10 then [Digit(n)] else PrintNat(n / 10) + [Digit(n % 10)]
  }

  /** `std::to_string(int)` */
  function Print(n: int): string { if n < 0 then "-" + PrintNat(-n) else PrintNat(n) }

  /** The longest leading run of digits. */
  function DigitRun(s: string): (r: string)
    ensures r <= s && Digits(r)
  {
    if s == "" || !IsDigit(s[0]) then "" else [s[0]] + DigitRun(s[1..])
  }

  predicate IsSpace(c: char) { c == ' ' || '\t' <= c <= '\r' }

  function SkipSpaces(s: string): string { if s != "" && IsSpace(s[0]) then SkipSpaces(s[1..]) else s }

  /** `std::atoi`: leading white space, an optional sign, digits; whatever follows is ignored. */
  function Atoi(s: string): int {
    var t := SkipSpaces(s);
    if t != "" && t[0] == '-' then 0 - Value(DigitRun(t[1..])) as int
    else if t != "" && t[0] == '+' then Value(DigitRun(t[1..]))
    else Value(DigitRun(t))
  }

  lemma ValueSnoc(s: string, c: char)
    requires Digits(s) && IsDigit(c)
    ensures Value(s + [c]) == Value(s) * 10 + (c as int - '0' as int)
  {
    assert (s + [c])[..|s|] == s;
  }

  lemma {:induction false} ValuePrintNat(n: nat)
    ensures Value(PrintNat(n)) == n
  {
    if n >= 10 {
      ValuePrintNat(n / 10);
      ValueSnoc(PrintNat(n / 10), Digit(n % 10));
    }
  }

  lemma {:induction false} DigitRunAll(s: string)
    requires Digits(s)
    ensures DigitRun(s) == s
  {
    if s != "" {
      DigitRunAll(s[1..]);
    }
  }

  lemma AtoiDigits(s: string)
    requires Digits(s) && s != ""
    ensures Atoi(s) == Value(s) && Atoi("-" + s) == -(Value(s) as int)
  {
    DigitRunAll(s);
    assert IsDigit(s[0]) && ("-" + s)[1..] == s;
  }

  /** `spaces`, a sign or none, and digits up to something that is no digit, are read as a number. */
  lemma {:induction false} AtoiReads(spaces: string, sign: string, digits: string, rest: string)
    requires (forall i | 0 <= i < |spaces| :: IsSpace(spaces[i])) && Digits(digits)
    requires sign in {"", "+", "-"} && (rest != "" ==> !IsDigit(rest[0]))
    requires digits == "" && sign == "" && rest != "" ==> !IsSpace(rest[0]) && rest[0] != '+' && rest[0] != '-'
    ensures Atoi(spaces + (sign + (digits + rest))) == if sign == "-" then -(Value(digits) as int) else Value(digits)
    decreases |spaces|
  {
    var t := sign + (digits + rest);
    if spaces != "" {
      AtoiReads(spaces[1..], sign, digits, rest);
      SpaceSkipped(spaces[0], spaces[1..] + t);
      assert spaces + t == [spaces[0]] + (spaces[1..] + t);
    } else {
      assert spaces + t == t;
      AtoiSigned(sign, digits, rest);
    }
  }

  lemma SpaceSkipped(c: char, t: string)
    requires IsSpace(c)
    ensures Atoi([c] + t) == Atoi(t)
  {
    assert ([c] + t)[1..] == t;
  }

  lemma AtoiSigned(sign: string, digits: string, rest: string)
    requires Digits(digits) && sign in {"", "+", "-"} && (rest != "" ==> !IsDigit(rest[0]))
    requires digits == "" && sign == "" && rest != "" ==> !IsSpace(rest[0]) && rest[0] != '+' && rest[0] != '-'
    ensures Atoi(sign + (digits + rest)) == if sign == "-" then -(Value(digits) as int) else Value(digits)
  {
    DigitRunStops(digits, rest);
    var u, t := digits + rest, sign + (digits + rest);
    if sign == "" {
      assert t == u;
      AtoiUnsigned(u);
    } else {
      assert t == [sign[0]] + u;
      AtoiAfterSign(sign[0], u);
    }
  }

  lemma AtoiAfterSign(c: char, u: string)
    requires c == '+' || c == '-'
    ensures Atoi([c] + u) == if c == '-' then -(Value(DigitRun(u)) as int) else Value(DigitRun(u))
  {
    assert ([c] + u)[1..] == u;
  }

  lemma AtoiUnsigned(u: string)
    requires u != "" ==> !IsSpace(u[0]) && u[0] != '+' && u[0] != '-'
    ensures Atoi(u) == Value(DigitRun(u))
  {
  }

  lemma {:induction false} DigitRunStops(digits: string, rest: string)
    requires Digits(digits) && (rest != "" ==> !IsDigit(rest[0]))
    ensures DigitRun(digits + rest) == digits
  {
    if digits == "" {
      assert digits + rest == rest;
    } else {
      assert (digits + rest)[1..] == digits[1..] + rest;
      DigitRunStops(digits[1..], rest);
    }
  }

  /** Parsing undoes printing, for every integer. */
  lemma AtoiPrint(n: int)
    ensures Atoi(Print(n)) == n
  {
    var d := if n < 0 then -n else n;
    ValuePrintNat(d);
    AtoiDigits(PrintNat(d));
  }
}
