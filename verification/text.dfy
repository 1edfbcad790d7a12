/** Ruby string facts the field descriptor relies on: `blank?`, ASCII
    `downcase` and the decimal rendering of an `Integer` inside string
    interpolation. */
module Text {
  import opened Wrappers

  /** Characters matched by `[[:space:]]` in the ASCII range. */
  predicate IsSpace(c: char) {
    c == ' ' || c == '\t' || c == '\n' || c == '\U{B}' || c == '\U{C}' || c == '\r'
  }

  /** ActiveSupport's `blank?` on a string attribute: `nil`, or a string made
      only of whitespace (the empty string included). */
  predicate IsBlank(s: Option<string>) {
    match s
    case None => true
    case Some(t) => forall i :: 0 <= i < |t| ==> IsSpace(t[i])
  }

  predicate IsUpper(c: char) {
    'A' <= c <= 'Z'
  }

  predicate IsLower(c: char) {
    'a' <= c <= 'z'
  }

  predicate IsDigit(c: char) {
    '0' <= c <= '9'
  }

  function ToLower(c: char): (r: char)
    ensures IsUpper(c) ==> IsLower(r) && r as int - 'a' as int == c as int - 'A' as int
    ensures !IsUpper(c) ==> r == c
  {
    if IsUpper(c) then (c as int - 'A' as int + 'a' as int) as char else c
  }

  /** `String#downcase` restricted to ASCII letters. */
  function Downcase(s: string): (r: string)
    ensures |r| == |s|
    ensures forall i :: 0 <= i < |s| ==> r[i] == ToLower(s[i])
  {
    if s == [] then [] else [ToLower(s[0])] + Downcase(s[1..])
  }

  /** Downcasing a string with no upper-case letter leaves it as it is. */
  lemma DowncaseNoUpper(s: string)
    requires forall i :: 0 <= i < |s| ==> !IsUpper(s[i])
    ensures Downcase(s) == s
  {
  }

  function DigitChar(d: nat): (c: char)
    requires d < 10
    ensures IsDigit(c)
  {
    ('0' as int + d) as char
  }

  function DigitValue(c: char): (d: nat)
    requires IsDigit(c)
    ensures d < 10
  {
    c as int - '0' as int
  }

  predicate AllDigits(s: string) {
    forall i :: 0 <= i < |s| ==> IsDigit(s[i])
  }

  /** The decimal digits of `n`, most significant first, with no leading zero. */
  function NatToDecimal(n: nat): (r: string)
    ensures |r| > 0
    ensures AllDigits(r)
    decreases n
  {
    if n < 10 then [DigitChar(n)] else NatToDecimal(n / 10) + [DigitChar(n % 10)]
  }

  /** The value of a string of decimal digits, read most significant first. */
  function ParseDecimal(s: string): nat
    requires AllDigits(s)
  {
    if s == [] then 0 else ParseDecimal(s[..|s| - 1]) * 10 + DigitValue(s[|s| - 1])
  }

  /** Reading back the rendering of `n` gives `n`. */
  lemma {:induction false} ParseNatToDecimal(n: nat)
    ensures ParseDecimal(NatToDecimal(n)) == n
    decreases n
  {
    var r := NatToDecimal(n);
    if n < 10 {
      assert r[..|r| - 1] == [];
    } else {
      ParseNatToDecimal(n / 10);
      assert r[..|r| - 1] == NatToDecimal(n / 10);
    }
  }

  /** Distinct naturals render to distinct strings. */
  lemma NatToDecimalInjective(m: nat, n: nat)
    requires m != n
    ensures NatToDecimal(m) != NatToDecimal(n)
  {
    ParseNatToDecimal(m);
    ParseNatToDecimal(n);
  }

  /** `Integer#to_s`: a leading `-` for negatives, then the digits. */
  function IntToDecimal(i: int): (r: string)
    ensures |r| > 0
    ensures i >= 0 <==> IsDigit(r[0])
    ensures i < 0 <==> r[0] == '-'
  {
    if i < 0 then "-" + NatToDecimal(-i) else NatToDecimal(i)
  }

  /** Distinct integers render to distinct strings. */
  lemma IntToDecimalInjective(i: int, j: int)
    requires i != j
    ensures IntToDecimal(i) != IntToDecimal(j)
  {
    if i < 0 && j < 0 {
      NatToDecimalInjective(-i, -j);
      assert IntToDecimal(i)[1..] == NatToDecimal(-i);
      assert IntToDecimal(j)[1..] == NatToDecimal(-j);
    } else if i >= 0 && j >= 0 {
      NatToDecimalInjective(i, j);
    }
  }
}
