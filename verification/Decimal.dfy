/** Decimal numerals, as `strconv.Itoa`, `strconv.Atoi` and the `%d` verb write and read them. */
module Decimal {
  predicate IsDigit(c: char) {
    '0' <= c <= '9'
  }

  function DigitValue(c: char): nat
    requires IsDigit(c)
  {
    (c - '0') as nat
  }

  function DigitChar(d: nat): (c: char)
    requires d < 10
    ensures IsDigit(c) && DigitValue(c) == d
  {
    '0' + d as char
  }

  /** The shortest decimal numeral of `n`. */
  function Itoa(n: nat): (s: string)
    ensures s != "" && forall i :: 0 <= i < |s| ==> IsDigit(s[i])
  {
    if n < 10 then [DigitChar(n)] else Itoa(n / 10) + [DigitChar(n % 10)]
  }

  /** The number of leading digits. */
  function DigitCount(s: string): (n: nat)
    ensures n <= |s|
    ensures forall i :: 0 <= i < n ==> IsDigit(s[i])
    ensures n < |s| ==> !IsDigit(s[n])
  {
    if s == "" || !IsDigit(s[0]) then 0 else 1 + DigitCount(s[1..])
  }

  function DigitsValue(s: string): nat
    requires forall i :: 0 <= i < |s| ==> IsDigit(s[i])
  {
    if s == "" then 0 else 10 * DigitsValue(s[..|s| - 1]) + DigitValue(s[|s| - 1])
  }

  /** Reading back a printed number gives the number, whatever follows that is not a digit. */
  lemma {:induction false} ItoaReadsBack(n: nat, tail: string)
    requires tail != "" ==> !IsDigit(tail[0])
    ensures DigitCount(Itoa(n) + tail) == |Itoa(n)|
    ensures (Itoa(n) + tail)[..|Itoa(n)|] == Itoa(n) && DigitsValue(Itoa(n)) == n
  {
    CountsAll(Itoa(n), tail);
    ValueOfItoa(n);
  }

  lemma {:induction false} CountsAll(digits: string, tail: string)
    requires forall i :: 0 <= i < |digits| ==> IsDigit(digits[i])
    requires tail != "" ==> !IsDigit(tail[0])
    ensures DigitCount(digits + tail) == |digits|
  {
    if digits == "" {
      assert digits + tail == tail;
    } else {
      assert (digits + tail)[1..] == digits[1..] + tail;
      CountsAll(digits[1..], tail);
    }
  }

  lemma {:induction false} ValueOfItoa(n: nat)
    ensures DigitsValue(Itoa(n)) == n
  {
    if n >= 10 {
      ValueOfItoa(n / 10);
      assert Itoa(n)[..|Itoa(n)| - 1] == Itoa(n / 10);
    }
  }

  lemma DigitsInLetters(c: char)
    ensures IsDigit(c) <==> c in "0123456789"
  {
  }

  /** Numerals, in letters. */
  lemma NumeralsInLetters()
    ensures Itoa(0) == "0" && Itoa(7) == "7" && Itoa(10) == "10" && Itoa(459) == "459"
    ensures DigitsValue("0") == 0 && DigitsValue("459") == 459
  {
    assert Itoa(45) == "45";
    assert "459"[..2] == "45" && "45"[..1] == "4";
    assert DigitsValue("45") == 45;
  }
}
