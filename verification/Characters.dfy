/** ASCII letters and digits, and numbers written in them. */
module Characters {
  predicate IsDigit(c: char) {
    '0' <= c <= '9'
  }

  predicate IsLetter(c: char) {
    'a' <= c <= 'z' || 'A' <= c <= 'Z'
  }

  /** By their codes: 0x30 to 0x39; 0x41 to 0x5A, and 0x20 above that. */
  lemma CodesAre(c: char)
    ensures IsDigit(c) <==> 0x30 <= c as int <= 0x39
    ensures IsLetter(c) <==> 0x41 <= c as int <= 0x5A || 0x41 <= c as int - 0x20 <= 0x5A
  {
  }

  predicate AllDigits(s: string) {
    forall i :: 0 <= i < |s| ==> IsDigit(s[i])
  }

  function Digit(c: char): (d: nat)
    requires IsDigit(c)
    ensures d <= 9 && "0123456789"[d] == c
  {
    c as int - '0' as int
  }

  function Value(s: string): (v: nat)
    requires AllDigits(s)
    decreases |s|
  {
    if s == [] then 0 else 10 * Value(s[..|s| - 1]) + Digit(s[|s| - 1])
  }

  /** A number in decimal, without leading zeros. */
  function Numeral(n: nat): (s: string)
    ensures s != "" && AllDigits(s) && (n > 0 ==> s[0] != '0')
    decreases n
  {
    if n < 10 then ["0123456789"[n]] else Numeral(n / 10) + ["0123456789"[n % 10]]
  }

  lemma {:induction false} NumeralReads(n: nat)
    ensures Value(Numeral(n)) == n
    decreases n
  {
    var s := Numeral(n);
    if n < 10 {
      assert s[..0] == "" && Digit(s[0]) == n;
    } else {
      NumeralReads(n / 10);
      assert s[..|s| - 1] == Numeral(n / 10) && Digit(s[|s| - 1]) == n % 10;
    }
  }

  /** Digits without a leading zero are the numeral of their value. */
  lemma {:induction false} IsNumeral(s: string)
    requires s != "" && AllDigits(s) && s[0] != '0'
    ensures s == Numeral(Value(s)) && Value(s) > 0
    decreases |s|
  {
    var n := |s| - 1;
    if n == 0 {
      assert s[..0] == "" && Value(s) == Digit(s[0]);
    } else {
      IsNumeral(s[..n]);
      assert s == s[..n] + [s[n]] && "0123456789"[Digit(s[n])] == s[n];
      assert Value(s) / 10 == Value(s[..n]) && Value(s) % 10 == Digit(s[n]);
    }
  }
}
