/** Decimal numbers as `std::to_string` prints and `std::stoll`/`std::stoull` read them. */
module Decimal {
  import opened Text
  import opened Wrappers

  const TWO_TO_63 := 0x8000_0000_0000_0000

  const TWO_TO_64 := 0x1_0000_0000_0000_0000

  function DigitChar(d: nat): char
    requires d < 10
  {
    (d + '0' as int) as char
  }

  function DigitValue(c: char): nat
    requires IsDigit(c)
  {
    c as int - '0' as int
  }

  function Digits(n: nat): string {
    if n < 10 then [DigitChar(n)] else Digits(n / 10) + [DigitChar(n % 10)]
  }

  function ToText(i: int): string {
    if i < 0 then "-" + Digits(-i) else Digits(i)
  }

  predicate AllDigits(s: string) {
    forall i :: 0 <= i < |s| ==> IsDigit(s[i])
  }

  function Value(s: string): nat
    requires AllDigits(s)
  {
    if s == "" then 0 else 10 * Value(s[..|s| - 1]) + DigitValue(s[|s| - 1])
  }

  /** The longest prefix of digits. */
  function LeadingDigits(s: string): (r: string)
    ensures AllDigits(r)
  {
    if s == "" || !IsDigit(s[0]) then "" else [s[0]] + LeadingDigits(s[1..])
  }

  /** Sign and magnitude of the number a text starts with, after white space; text after it is ignored. */
  function ReadNumber(s: string): Option<(bool, nat)> {
    var t := SkipSpace(s);
    var negative := t != "" && t[0] == '-';
    var digits := LeadingDigits(if t != "" && (t[0] == '-' || t[0] == '+') then t[1..] else t);
    if digits == "" then None else Some((negative, Value(digits)))
  }

  /** `std::stoll`; `None` is an exception. */
  function ReadSigned(s: string): Option<int> {
    match ReadNumber(s)
    case None => None
    case Some((negative, m)) =>
      var v: int := if negative then 0 - m else m;
      if -TWO_TO_63 <= v < TWO_TO_63 then Some(v) else None
  }

  /** `std::stoull`, which accepts a minus sign and then wraps around. */
  function ReadUnsigned(s: string): Option<nat> {
    match ReadNumber(s)
    case None => None
    case Some((negative, m)) =>
      if m >= TWO_TO_64 then None else Some(if negative && m > 0 then TWO_TO_64 - m else m)
  }

  lemma {:induction false} DigitsRead(n: nat)
    ensures AllDigits(Digits(n)) && Digits(n) != "" && Value(Digits(n)) == n
  {
    if n >= 10 {
      DigitsRead(n / 10);
      assert Digits(n)[..|Digits(n)| - 1] == Digits(n / 10);
    }
  }

  lemma {:induction false} AllDigitsLead(s: string)
    requires AllDigits(s)
    ensures LeadingDigits(s) == s
  {
    if s != "" {
      AllDigitsLead(s[1..]);
    }
  }

  lemma {:induction false} ReadNumberOf(sign: string, digits: string)
    requires (sign == "" || sign == "-") && AllDigits(digits) && digits != ""
    ensures ReadNumber(sign + digits) == Some((sign == "-", Value(digits)))
  {
    AllDigitsLead(digits);
    var t := sign + digits;
    assert t[|sign|..] == digits;
    assert !IsSpace(t[0]);
    assert SkipSpace(t) == t;
  }

  lemma ReadNumberOfText(i: int)
    ensures ReadNumber(ToText(i)) == Some((i < 0, if i < 0 then -i else i))
  {
    var m := if i < 0 then -i else i;
    DigitsRead(m);
    ReadNumberOf(if i < 0 then "-" else "", Digits(m));
    assert "" + Digits(m) == Digits(m);
  }

  /** A printed number is read back exactly when it is of the type; the unsigned reader wraps negative ones around. */
  lemma NumbersRoundTrip(i: int)
    ensures ReadSigned(ToText(i)) == if -TWO_TO_63 <= i < TWO_TO_63 then Some(i) else None
    ensures ReadUnsigned(ToText(i)) == if 0 <= i < TWO_TO_64 then Some(i) else if -TWO_TO_64 < i < 0 then Some(TWO_TO_64 + i) else None
  {
    ReadNumberOfText(i);
  }

  lemma TextHasNoBar(i: int)
    ensures NoneOf(ToText(i), {'|'}) && ToText(i) != ""
  {
    DigitsRead(if i < 0 then -i else i);
  }
}
