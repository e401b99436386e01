/** Decimal conversions with the behaviour of Go's `strconv.Itoa`, `strconv.Atoi` and
    `strconv.ParseInt(s, 10, 64)`: an optional sign, at least one digit, a 64-bit result. */
module Strconv {
  import opened Optional

  const MAX_INT64 := 0x7fff_ffff_ffff_ffff
  const MIN_INT64 := -0x8000_0000_0000_0000

  predicate IsDigit(c: char) {
    '0' <= c <= '9'
  }

  predicate AllDigits(s: string) {
    forall i :: 0 <= i < |s| ==> IsDigit(s[i])
  }

  function DigitValue(c: char): (d: int)
    requires IsDigit(c)
    ensures 0 <= d < 10
  {
    c as int - '0' as int
  }

  function DigitChar(d: int): (c: char)
    requires 0 <= d < 10
    ensures IsDigit(c) && DigitValue(c) == d
  {
    (d + '0' as int) as char
  }

  function Unsigned(s: string): (n: nat)
    requires AllDigits(s)
  {
    if s == [] then 0 else 10 * Unsigned(s[..|s| - 1]) + DigitValue(s[|s| - 1])
  }

  function Digits(n: nat): (s: string)
    ensures |s| > 0 && AllDigits(s)
  {
    if n < 10 then [DigitChar(n)] else Digits(n / 10) + [DigitChar(n % 10)]
  }

  function Itoa(n: int): string {
    if n < 0 then "-" + Digits(-n) else Digits(n)
  }

  function InRange(n: int): Option<int> {
    if MIN_INT64 <= n <= MAX_INT64 then Some(n) else None
  }

  function Atoi(s: string): Option<int> {
    var negative := |s| > 0 && s[0] == '-';
    var body := if |s| > 0 && (s[0] == '-' || s[0] == '+') then s[1..] else s;
    if body == [] || !AllDigits(body) then None
    else
      var magnitude: int := Unsigned(body);
      InRange(if negative then -magnitude else magnitude)
  }

  lemma {:induction false} UnsignedDigits(n: nat)
    ensures Unsigned(Digits(n)) == n
  {
    if n >= 10 {
      UnsignedDigits(n / 10);
      var s := Digits(n);
      assert s[..|s| - 1] == Digits(n / 10);
    }
  }

  /** Parsing inverts printing on the whole 64-bit range. */
  lemma AtoiItoa(n: int)
    requires MIN_INT64 <= n <= MAX_INT64
    ensures Atoi(Itoa(n)) == Some(n)
  {
    hide Digits, Unsigned;
    if n < 0 {
      UnsignedDigits(-n);
      assert Itoa(n)[1..] == Digits(-n);
    } else {
      UnsignedDigits(n);
      assert IsDigit(Digits(n)[0]);
    }
  }

  /** A plus sign is read past; a sign alone is no number, nor is nothing at all. */
  lemma AtoiSigned(n: nat)
    requires n <= MAX_INT64
    ensures Atoi("+" + Itoa(n)) == Some(n)
    ensures Atoi("") == None && Atoi("+") == None && Atoi("-") == None
  {
    hide Digits, Unsigned;
    UnsignedDigits(n);
    assert ("+" + Itoa(n))[1..] == Digits(n);
  }

  lemma DigitsInjective(m: nat, n: nat)
    requires Digits(m) == Digits(n)
    ensures m == n
  {
    UnsignedDigits(m);
    UnsignedDigits(n);
  }
}
