/** Decimal numbers as ASCII bytes: Python's `str(n)` and the parsing done by `int(text)`. */
module Decimal {
  import opened Wrappers
  import opened Bytes

  /** ASCII characters for which `str.isspace()` holds. */
  predicate IsSpace(b: byte) { 9 <= b <= 13 || 28 <= b <= 32 }

  predicate IsDigit(b: byte) { 48 <= b <= 57 }

  const UNDERSCORE: byte := 95
  const PLUS: byte := 43
  const MINUS: byte := 45

  function StripLeft(s: bytes): bytes {
    if s != [] && IsSpace(s[0]) then StripLeft(s[1..]) else s
  }

  function StripRight(s: bytes): bytes {
    if s != [] && IsSpace(s[|s| - 1]) then StripRight(s[..|s| - 1]) else s
  }

  /** `s.strip()` */
  function Strip(s: bytes): bytes { StripRight(StripLeft(s)) }

  /** Digits, with single underscores allowed between them. */
  predicate IsNumeral(s: bytes) {
    && s != [] && IsDigit(s[0]) && IsDigit(s[|s| - 1])
    && (forall k :: 0 <= k < |s| ==> IsDigit(s[k]) || s[k] == UNDERSCORE)
    && (forall k :: 0 < k < |s| ==> s[k - 1] != UNDERSCORE || s[k] != UNDERSCORE)
  }

  function DigitsOf(s: bytes): (d: bytes) {
    if s == [] then [] else (if IsDigit(s[0]) then [s[0]] else []) + DigitsOf(s[1..])
  }

  function ValueOf(digits: bytes): nat
    requires forall k :: 0 <= k < |digits| ==> IsDigit(digits[k])
  {
    if digits == [] then 0
    else
      assert IsDigit(digits[|digits| - 1]);
      10 * ValueOf(digits[..|digits| - 1]) + (digits[|digits| - 1] as int - 48)
  }

  lemma {:induction false} DigitsAreDigits(s: bytes)
    ensures forall k :: 0 <= k < |DigitsOf(s)| ==> IsDigit(DigitsOf(s)[k])
    ensures (forall k :: 0 <= k < |s| ==> IsDigit(s[k])) ==> DigitsOf(s) == s
  {
    if s != [] {
      DigitsAreDigits(s[1..]);
      assert s == [s[0]] + s[1..];
    }
  }

  /** Python refuses to convert longer numerals. */
  const MAX_DIGITS: nat := 4300

  function ParseNumeral(s: bytes): Option<nat> {
    DigitsAreDigits(s);
    if IsNumeral(s) && |DigitsOf(s)| <= MAX_DIGITS then Some(ValueOf(DigitsOf(s))) else None
  }

  /** `int(text)`; None when it raises ValueError. */
  function ParseInt(text: bytes): Option<int> {
    var s := Strip(text);
    if s == [] then None
    else if s[0] == MINUS then
      (match ParseNumeral(s[1..]) case None => None case Some(n) => Some(-(n as int)))
    else
      (match ParseNumeral(if s[0] == PLUS then s[1..] else s) case None => None case Some(n) => Some(n))
  }

  /** `str(n)` */
  function Print(n: nat): (s: bytes)
    ensures s != [] && forall k :: 0 <= k < |s| ==> IsDigit(s[k])
    ensures ValueOf(s) == n
  {
    if n < 10 then
      assert [48 + n][..0] == [];
      [48 + n]
    else
      var s := Print(n / 10) + [48 + n % 10];
      assert s[..|s| - 1] == Print(n / 10);
      s
  }

  /** A number below 10^5 prints as at most five digits. */
  lemma PrintLength(n: nat)
    requires n < 100000
    ensures |Print(n)| <= 5
  {
    assert n / 10 < 10000 && n / 10 / 10 < 1000 && n / 10 / 10 / 10 < 100 && n / 10 / 10 / 10 / 10 < 10;
    assert |Print(n / 10 / 10 / 10 / 10)| == 1;
    assert |Print(n / 10 / 10 / 10)| <= 2;
    assert |Print(n / 10 / 10)| <= 3;
    assert |Print(n / 10)| <= 4;
  }

  lemma StripNothing(s: bytes)
    requires s == [] || (!IsSpace(s[0]) && !IsSpace(s[|s| - 1]))
    ensures Strip(s) == s
  {
  }

  /** Parsing inverts printing. */
  lemma ParsePrint(n: nat)
    requires |Print(n)| <= MAX_DIGITS
    ensures ParseInt(Print(n)) == Some(n)
    ensures Strip(Print(n)) == Print(n)
  {
    var s := Print(n);
    assert IsDigit(s[0]) && IsDigit(s[|s| - 1]);
    StripNothing(s);
    DigitsAreDigits(s);
  }

  /** `str(n)` for any integer */
  function PrintInt(n: int): (s: bytes)
    ensures s != []
  {
    if n < 0 then [MINUS] + Print(-n) else Print(n)
  }

  lemma ParsePrintedDigits(n: nat)
    ensures ParseNumeral(Print(n)) == if |Print(n)| <= MAX_DIGITS then Some(n) else None
    ensures Print(n)[0] != MINUS && Print(n)[0] != PLUS
  {
    var s := Print(n);
    assert IsDigit(s[0]) && IsDigit(s[|s| - 1]);
    DigitsAreDigits(s);
  }

  lemma ParseStripped(s: bytes)
    requires s != [] && Strip(s) == s
    ensures s[0] == MINUS ==>
      ParseInt(s) == match ParseNumeral(s[1..]) case None => None case Some(n) => Some(-(n as int))
    ensures s[0] != MINUS && s[0] != PLUS ==>
      ParseInt(s) == match ParseNumeral(s) case None => None case Some(n) => Some(n as int)
  {
    hide Strip, ParseNumeral;
  }

  /** The characters of a printed integer; there is nothing to strip. */
  lemma PrintedChars(n: int)
    ensures var s := PrintInt(n);
      && Strip(s) == s && IsDigit(s[|s| - 1])
      && forall k :: 0 <= k < |s| ==> s[k] == MINUS || IsDigit(s[k])
  {
    hide Print, Strip;
    var s, digits := PrintInt(n), Print(if n < 0 then -n else n);
    assert s == digits || s == [MINUS] + digits;
    assert IsDigit(digits[0]) && IsDigit(digits[|digits| - 1]);
    StripNothing(s);
  }

  /** The printed form of any integer parses back, unless it is too long to be parsed. */
  lemma ParsePrintInt(n: int)
    ensures ParseInt(PrintInt(n)) == Some(n) || ParseInt(PrintInt(n)) == None
    ensures |PrintInt(n)| <= MAX_DIGITS ==> ParseInt(PrintInt(n)) == Some(n)
  {
    hide Print, Strip, ParseNumeral, ParseInt;
    PrintedChars(n);
    ParseStripped(PrintInt(n));
    ParsePrintedDigits(if n < 0 then -n else n);
    if n < 0 {
      assert PrintInt(n)[1..] == Print(-n);
    }
  }
}
