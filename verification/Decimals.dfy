/** Decimal numbers as C++ streams print and read them. */
module Decimals {

  predicate IsDigit(c: char) {
    '0' <= c <= '9'
  }

  function Digits(n: nat): (s: string)
    ensures s != []
    ensures forall i | 0 <= i < |s| :: IsDigit(s[i])
  {
    if n < 10 then [('0' as int + n) as char] else Digits(n / 10) + [('0' as int + n % 10) as char]
  }

  /** `ostream << int`. */
  function Print(n: int): (s: string)
    ensures s != []
    ensures forall i | 0 <= i < |s| :: IsDigit(s[i]) || s[i] == '-'
  {
    if n < 0 then "-" + Digits(-n) else Digits(n)
  }

  /** Length of the leading run of digits. */
  function DigitRun(s: string): (k: nat)
    ensures k <= |s|
    ensures forall i | 0 <= i < k :: IsDigit(s[i])
    ensures k < |s| ==> !IsDigit(s[k])
  {
    if s == [] || !IsDigit(s[0]) then 0 else 1 + DigitRun(s[1..])
  }

  function Value(s: string): nat
    requires forall i | 0 <= i < |s| :: IsDigit(s[i])
  {
    if s == [] then 0 else
      assert IsDigit(s[|s| - 1]);
      10 * Value(s[..|s| - 1]) + (s[|s| - 1] as int - '0' as int)
  }

  /** `istream >> unsigned`: the leading digits, or 0 if there are none. */
  function ReadNat(s: string): nat {
    Value(s[..DigitRun(s)])
  }

  /** `istream >> int`. */
  function Read(s: string): int {
    if s != [] && s[0] == '-' then 0 - ReadNat(s[1..]) else ReadNat(s)
  }

  lemma {:induction false} ValueOfDigits(n: nat)
    ensures Value(Digits(n)) == n
  {
    if n >= 10 {
      ValueOfDigits(n / 10);
      assert Digits(n)[..|Digits(n)| - 1] == Digits(n / 10);
    }
  }

  /** Reading undoes printing. */
  lemma ReadPrint(n: int)
    ensures Read(Print(n)) == n
    ensures n >= 0 ==> ReadNat(Print(n)) == n
  {
    var k := if n < 0 then -n else n;
    ValueOfDigits(k);
    var s := Digits(k);
    assert s[..DigitRun(s)] == s;
    assert n < 0 ==> Print(n)[1..] == s;
  }
}
