/** Decimal numerals: writing a number, reading one, and `std::from_chars` for base ten. */
module Decimals {
  import opened Options

  predicate IsDigit(c: char) {
    '0' <= c <= '9'
  }

  predicate AllDigits(s: string) {
    forall i :: 0 <= i < |s| ==> IsDigit(s[i])
  }

  function DigitValue(c: char): (n: nat)
    requires IsDigit(c)
    ensures n < 10
  {
    c as int - '0' as int
  }

  /** The values of the digits are in the order of the characters; ten values below ten leave no choice. */
  lemma DigitOrder(c: char, d: char)
    requires IsDigit(c) && IsDigit(d) && c < d
    ensures DigitValue(c) < DigitValue(d)
  {
  }

  function Digit(n: nat): (c: char)
    requires n < 10
    ensures IsDigit(c) && DigitValue(c) == n
  {
    ('0' as int + n) as char
  }

  /** The canonical numeral: no leading zero. */
  function Decimal(n: nat): (s: string)
    ensures s != [] && AllDigits(s)
    ensures s[0] == '0' ==> |s| == 1 && n == 0
  {
    if n < 10 then [Digit(n)] else Decimal(n / 10) + [Digit(n % 10)]
  }

  function Number(s: string): nat
    requires AllDigits(s)
  {
    if s == [] then 0 else 10 * Number(s[..|s| - 1]) + DigitValue(s[|s| - 1])
  }

  /** Reading what was written gives the number back. */
  lemma {:induction false} NumberOfDecimal(n: nat)
    ensures Number(Decimal(n)) == n
  {
    var s := Decimal(n);
    if n >= 10 {
      NumberOfDecimal(n / 10);
      assert s[..|s| - 1] == Decimal(n / 10);
    } else {
      assert s[..0] == [];
    }
  }

  lemma {:induction false} PositiveNumber(s: string)
    requires AllDigits(s) && s != [] && s[0] != '0'
    ensures Number(s) > 0
  {
    if |s| > 1 { PositiveNumber(s[..|s| - 1]); }
  }

  /** A numeral without leading zero is what its number is written as. */
  lemma {:induction false} DecimalOfNumber(s: string)
    requires AllDigits(s) && s != [] && (s[0] == '0' ==> |s| == 1)
    ensures Decimal(Number(s)) == s
  {
    var front := s[..|s| - 1];
    if front == [] {
      assert Number(front) == 0;
      assert s == [s[0]];
    } else {
      assert front[0] == s[0];
      PositiveNumber(front);
      DecimalOfNumber(front);
      assert s == front + [s[|s| - 1]];
    }
  }

  /** Of two numerals of the same length, the one with the smaller first different digit is the smaller number. */
  lemma {:induction false} NumeralOrder(s: string, t: string, i: nat)
    requires AllDigits(s) && AllDigits(t) && |s| == |t| && i < |s| && s[..i] == t[..i] && s[i] < t[i]
    ensures Number(s) < Number(t)
  {
    var n := |s| - 1;
    if i == n {
      DigitOrder(s[n], t[n]);
    } else {
      assert s[..n][..i] == s[..i] && t[..n][..i] == t[..i];
      NumeralOrder(s[..n], t[..n], i);
    }
  }

  /** And a longer one without leading zero is the larger number. */
  lemma {:induction false} LongerNumeral(s: string, t: string)
    requires AllDigits(s) && AllDigits(t) && |s| < |t| && t[0] != '0'
    ensures Number(s) < Number(t)
  {
    if s == [] {
      PositiveNumber(t);
    } else {
      LongerNumeral(s[..|s| - 1], t[..|t| - 1]);
    }
  }

  /** The first place from `i` on that holds no digit. */
  function DigitsEnd(s: string, i: nat): (e: nat)
    requires i <= |s|
    ensures i <= e <= |s| && AllDigits(s[i..e]) && (e < |s| ==> !IsDigit(s[e]))
    decreases |s| - i
  {
    if i < |s| && IsDigit(s[i]) then
      var e := DigitsEnd(s, i + 1);
      assert s[i..e] == [s[i]] + s[i + 1..e];
      e
    else
      assert s[i..i] == [];
      i
  }

  lemma DigitsEndIsUnique(s: string, i: nat, e: nat)
    requires i <= e <= |s| && AllDigits(s[i..e]) && (e < |s| ==> !IsDigit(s[e]))
    ensures DigitsEnd(s, i) == e
  {
    DigitsBetween(s, i, e);
    DigitsBetween(s, i, DigitsEnd(s, i));
  }

  lemma DigitsBetween(s: string, i: nat, e: nat)
    requires i <= e <= |s| && AllDigits(s[i..e])
    ensures forall j :: i <= j < e ==> IsDigit(s[j])
  {
    forall j | i <= j < e
      ensures IsDigit(s[j])
    {
      assert s[i..e][j - i] == s[j];
    }
  }

  /** What `std::from_chars` does for an unsigned number below `limit`: the digits are consumed even when their number
      is too large. */
  function FromChars(s: string, ptr: nat, limit: nat): (nat, Option<nat>)
    requires ptr <= |s|
  {
    var e := DigitsEnd(s, ptr);
    if e == ptr || Number(s[ptr..e]) >= limit then (e, None) else (e, Some(Number(s[ptr..e])))
  }

  /** For a signed number there may be one minus sign; a sign without a digit is not consumed. */
  function SignedFromChars(s: string, most: nat): (nat, Option<int>) {
    if s != [] && s[0] == '-' then
      var (e, magnitude) := FromChars(s, 1, most + 2);
      if e == 1 then (0, None) else (e, Negated(magnitude))
    else
      FromChars(s, 0, most + 1)
  }

  function Negated(n: Option<nat>): Option<int> {
    match n
    case None => None
    case Some(m) => var n: int := m; Some(-n)
  }

  /** A canonical numeral is read whole, and its number comes back. */
  lemma SignedFromDecimal(n: nat, most: nat)
    requires n <= most
    ensures SignedFromChars(Decimal(n), most).0 == |Decimal(n)| && SignedFromChars(Decimal(n), most).1 == Some(n)
  {
    var s := Decimal(n);
    assert s[0..|s|] == s;
    DigitsEndIsUnique(s, 0, |s|);
    NumberOfDecimal(n);
  }
}
