/** Decimal numerals, as printed by `str` and read by `int`. */
module Decimal {
  import opened Common

  predicate IsDigit(c: char) { '0' <= c <= '9' }

  predicate AllDigits(s: string) { forall i | 0 <= i < |s| :: IsDigit(s[i]) }

  function DigitValue(c: char): nat
    requires IsDigit(c)
  {
    c as int - '0' as int
  }

  function DigitChar(n: nat): (c: char)
    requires n < 10
    ensures IsDigit(c) && DigitValue(c) == n
  {
    (n + '0' as int) as char
  }

  /** The value of a digit string; leading zeros are allowed. */
  function Value(s: string): nat
    requires AllDigits(s)
  {
    if s == "" then 0 else 10 * Value(s[..|s| - 1]) + DigitValue(s[|s| - 1])
  }

  function Numeral(n: nat): (s: string)
    ensures |s| > 0 && AllDigits(s)
  {
    if n < 10 then [DigitChar(n)] else Numeral(n / 10) + [DigitChar(n % 10)]
  }

  lemma {:induction false} ValueOfNumeral(n: nat)
    ensures Value(Numeral(n)) == n
  {
    if n < 10 {
      assert Numeral(n)[..0] == "";
    } else {
      ValueOfNumeral(n / 10);
      assert Numeral(n)[..|Numeral(n)| - 1] == Numeral(n / 10);
    }
  }

  lemma {:induction false} NumeralIsInjective(m: nat, n: nat)
    requires Numeral(m) == Numeral(n)
    ensures m == n
  {
    ValueOfNumeral(m);
    ValueOfNumeral(n);
  }

  /** White space as the `\s` class and `strip` see it in byte strings. */
  predicate IsSpace(c: char) {
    c == ' ' || '\t' <= c <= '\r'
  }

  function StripLeft(s: string): string {
    if s != "" && IsSpace(s[0]) then StripLeft(s[1..]) else s
  }

  function StripRight(s: string): string {
    if s != "" && IsSpace(s[|s| - 1]) then StripRight(s[..|s| - 1]) else s
  }

  function Strip(s: string): string { StripRight(StripLeft(s)) }

  /** `int(s)`: optional sign and digits between white space; anything else raises. */
  function ParseInt(s: string): Option<int> {
    ParseSigned(Strip(s))
  }

  function ParseSigned(t: string): Option<int> {
    if t != "" && t[0] == '-' then Negated(ParseDigits(t[1..]))
    else if t != "" && t[0] == '+' then ParseDigits(t[1..])
    else ParseDigits(t)
  }

  function ParseDigits(digits: string): Option<int> {
    if digits == "" || !AllDigits(digits) then None else Some(Value(digits))
  }

  function Negated(r: Option<int>): Option<int> {
    if r.None? then None else Some(-r.value)
  }

  lemma StripKeeps(s: string)
    requires s != "" && !IsSpace(s[0]) && !IsSpace(s[|s| - 1])
    ensures Strip(s) == s
  {
  }

  lemma StripMinus(digits: string)
    requires digits != "" && AllDigits(digits)
    ensures Strip("-" + digits) == "-" + digits && ("-" + digits)[1..] == digits
  {
    var t := "-" + digits;
    assert t[0] == '-' && t[|t| - 1] == digits[|digits| - 1] && IsDigit(digits[|digits| - 1]);
    StripKeeps(t);
  }

  lemma StripDigits(digits: string)
    requires digits != "" && AllDigits(digits)
    ensures Strip(digits) == digits
  {
    assert IsDigit(digits[0]) && IsDigit(digits[|digits| - 1]);
    StripKeeps(digits);
  }

  lemma {:induction false} ParseSignedDigits(digits: string, t: string)
    requires digits != "" && AllDigits(digits)
    ensures ParseSigned(digits) == Some(Value(digits))
    ensures t != "" && t[0] == '-' && t[1..] == digits ==> ParseSigned(t) == Some(-(Value(digits) as int))
  {
    assert IsDigit(digits[0]);
  }

  /** Digits, bare or after a minus sign, are read back as their value. */
  lemma {:induction false} ParseIntOfDigits(digits: string)
    requires digits != "" && AllDigits(digits)
    ensures ParseInt(digits) == Some(Value(digits))
    ensures ParseInt("-" + digits) == Some(-(Value(digits) as int))
  {
    StripDigits(digits);
    StripMinus(digits);
    var t := "-" + digits;
    ParseSignedDigits(digits, t);
  }

  // ------------------------------------------------------- what `int` accepts

  predicate AllSpace(s: string) { forall i | 0 <= i < |s| :: IsSpace(s[i]) }

  /** White space, a sign or none, digits, white space. */
  ghost predicate IsInteger(s: string) {
    exists left, sign, digits, right ::
      && s == left + (sign + digits) + right && AllSpace(left) && AllSpace(right)
      && (sign == "" || sign == "+" || sign == "-") && digits != "" && AllDigits(digits)
  }

  predicate Trimmed(t: string) {
    t == "" || (!IsSpace(t[0]) && !IsSpace(t[|t| - 1]))
  }

  lemma {:induction false} StripLeftCuts(s: string) returns (left: string)
    ensures s == left + StripLeft(s) && AllSpace(left)
    ensures StripLeft(s) != "" ==> !IsSpace(StripLeft(s)[0])
  {
    if s != "" && IsSpace(s[0]) {
      var more := StripLeftCuts(s[1..]);
      left := [s[0]] + more;
      assert s == [s[0]] + s[1..];
    } else {
      left := "";
    }
  }

  lemma {:induction false} StripRightCuts(s: string) returns (right: string)
    ensures s == StripRight(s) + right && AllSpace(right)
    ensures StripRight(s) != "" ==> !IsSpace(StripRight(s)[|StripRight(s)| - 1]) && StripRight(s)[0] == s[0]
  {
    if s != "" && IsSpace(s[|s| - 1]) {
      var more := StripRightCuts(s[..|s| - 1]);
      right := more + [s[|s| - 1]];
      assert s == s[..|s| - 1] + [s[|s| - 1]];
    } else {
      right := "";
    }
  }

  lemma StripCuts(s: string) returns (left: string, right: string)
    ensures s == left + Strip(s) + right && AllSpace(left) && AllSpace(right) && Trimmed(Strip(s))
  {
    left := StripLeftCuts(s);
    right := StripRightCuts(StripLeft(s));
    assert left + (Strip(s) + right) == left + Strip(s) + right;
  }

  lemma {:induction false} StripLeftOf(left: string, t: string)
    requires AllSpace(left) && (t == "" || !IsSpace(t[0]))
    ensures StripLeft(left + t) == t
  {
    if left == "" {
      assert left + t == t;
    } else {
      assert (left + t)[1..] == left[1..] + t;
      StripLeftOf(left[1..], t);
    }
  }

  lemma {:induction false} StripRightOf(t: string, right: string)
    requires AllSpace(right) && (t == "" || !IsSpace(t[|t| - 1]))
    ensures StripRight(t + right) == t
  {
    if right == "" {
      assert t + right == t;
    } else {
      var s := t + right;
      assert s[..|s| - 1] == t + right[..|right| - 1];
      StripRightOf(t, right[..|right| - 1]);
    }
  }

  lemma StripOf(left: string, t: string, right: string)
    requires AllSpace(left) && AllSpace(right) && t != "" && Trimmed(t)
    ensures Strip(left + t + right) == t
  {
    assert left + t + right == left + (t + right);
    StripLeftOf(left, t + right);
    StripRightOf(t, right);
  }

  lemma SignedDigits(sign: string, digits: string)
    requires (sign == "" || sign == "+" || sign == "-") && digits != "" && AllDigits(digits)
    ensures Trimmed(sign + digits) && sign + digits != "" && ParseSigned(sign + digits).Some?
  {
    var t := sign + digits;
    assert t[|t| - 1] == digits[|digits| - 1] && IsDigit(digits[|digits| - 1]) && IsDigit(digits[0]);
    if sign == "" { assert t == digits; } else { assert t[0] == sign[0] && t[1..] == digits; }
  }

  lemma SignOf(t: string) returns (sign: string, digits: string)
    requires ParseSigned(t).Some?
    ensures t == sign + digits && (sign == "" || sign == "+" || sign == "-") && digits != "" && AllDigits(digits)
  {
    if t != "" && (t[0] == '-' || t[0] == '+') {
      sign, digits := [t[0]], t[1..];
    } else {
      sign, digits := "", t;
    }
  }

  /** `int` reads exactly the texts of this form. */
  lemma IntReadsIntegers(s: string)
    ensures ParseInt(s).Some? <==> IsInteger(s)
  {
    if ParseInt(s).Some? {
      var left, right := StripCuts(s);
      var sign, digits := SignOf(Strip(s));
      assert s == left + (sign + digits) + right;
    }
    if IsInteger(s) {
      var left, sign, digits, right :|
        && s == left + (sign + digits) + right && AllSpace(left) && AllSpace(right)
        && (sign == "" || sign == "+" || sign == "-") && digits != "" && AllDigits(digits);
      SignedDigits(sign, digits);
      StripOf(left, sign + digits, right);
    }
  }
}
