/** Decimal numerals, as %d prints them. */
module Decimal {
  function Digit(d: nat): char
    requires d < 10
  {
    ('0' as int + d) as char
  }

  function Digits(n: nat): (s: string)
    ensures s != ""
  {
    if n < 10 then [Digit(n)] else Digits(n / 10) + [Digit(n % 10)]
  }

  function Itoa(n: int): string {
    if n < 0 then "-" + Digits(-n) else Digits(n)
  }

  predicate IsDigit(c: char) {
    '0' <= c <= '9'
  }

  function Value(s: string): int {
    if s == "" then 0 else 10 * Value(s[..|s| - 1]) + (s[|s| - 1] as int - '0' as int)
  }

  lemma {:induction false} DigitsRead(n: nat)
    ensures Value(Digits(n)) == n && forall i :: 0 <= i < |Digits(n)| ==> IsDigit(Digits(n)[i])
  {
    if n >= 10 {
      DigitsRead(n / 10);
      assert Digits(n)[..|Digits(n)| - 1] == Digits(n / 10);
    } else {
      assert Digits(n)[..0] == "";
    }
  }

  lemma ItoaHasNoColon(n: int)
    ensures ':' !in Itoa(n)
  {
    DigitsRead(if n < 0 then -n else n);
  }

  lemma ItoaIsInjective(m: int, n: int)
    ensures Itoa(m) == Itoa(n) ==> m == n
  {
    DigitsRead(if m < 0 then -m else m);
    DigitsRead(if n < 0 then -n else n);
    if Itoa(m) == Itoa(n) {
      assert (m < 0) == (Itoa(m)[0] == '-') && (n < 0) == (Itoa(n)[0] == '-');
      if m < 0 { assert Itoa(m)[1..] == Digits(-m) && Itoa(n)[1..] == Digits(-n); }
    }
  }
}
