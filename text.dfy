/** Decimal rendering and digit parsing, as Python's str(int), f"{n:0Wd}" and int(<digit>) do them. */
module Text {

  predicate IsDigit(c: char) {
    '0' <= c <= '9'
  }

  function DigitChar(d: int): (c: char)
    requires 0 <= d < 10
    ensures IsDigit(c) && c as int - '0' as int == d
  {
    ('0' as int + d) as char
  }

  function DigitValue(c: char): (d: int)
    requires IsDigit(c)
    ensures 0 <= d < 10 && DigitChar(d) == c
  {
    c as int - '0' as int
  }

  /** str(n) for a non-negative integer: no leading zeros. */
  function NatToString(n: nat): (s: string)
    ensures 1 <= |s|
    ensures forall i :: 0 <= i < |s| ==> IsDigit(s[i])
    ensures n < 10 <==> |s| == 1
    decreases n
  {
    if n < 10 then [DigitChar(n)] else NatToString(n / 10) + [DigitChar(n % 10)]
  }

  /** Zero-fills s on the left up to width characters. */
  function PadLeft(s: string, width: nat): (r: string)
    ensures |r| == if |s| >= width then |s| else width
    ensures r[|r| - |s|..] == s
    ensures forall i :: 0 <= i < |r| - |s| ==> r[i] == '0'
  {
    if |s| >= width then s else seq(width - |s|, _ => '0') + s
  }

  /** f"{n:0{width}d}": the sign, if any, counts towards the width and the digits are zero-filled. */
  function ZeroPad(n: int, width: nat): string {
    if n < 0 then "-" + PadLeft(NatToString(-n), if width > 0 then width - 1 else 0)
    else PadLeft(NatToString(n), width)
  }

  /** Dividing by 10 twice or three times is dividing by 100 or 1000. */
  lemma TensChain(n: int)
    requires n >= 0
    ensures n / 10 / 10 == n / 100 && n / 100 / 10 == n / 1000
  {
  }

  /** str(n) for 0 <= n < 10000, digit by digit. */
  lemma {:induction false} DigitsBelow10000(n: int)
    requires 0 <= n < 10000
    ensures n < 10 ==> NatToString(n) == [DigitChar(n)]
    ensures 10 <= n < 100 ==> NatToString(n) == [DigitChar(n / 10), DigitChar(n % 10)]
    ensures 100 <= n < 1000 ==> NatToString(n) == [DigitChar(n / 100), DigitChar(n / 10 % 10), DigitChar(n % 10)]
    ensures 1000 <= n ==> NatToString(n) == [DigitChar(n / 1000), DigitChar(n / 100 % 10), DigitChar(n / 10 % 10), DigitChar(n % 10)]
  {
    TensChain(n);
    if n >= 10 {
      var high := NatToString(n / 10);
      assert NatToString(n) == high + [DigitChar(n % 10)];
      if n >= 100 {
        var higher := NatToString(n / 100);
        assert high == higher + [DigitChar(n / 10 % 10)];
        if n >= 1000 {
          assert higher == NatToString(n / 1000) + [DigitChar(n / 100 % 10)];
        }
      }
    }
  }

  /** Two-digit field: exactly the tens and the units digit. */
  lemma {:induction false} ZeroPadTwo(n: int)
    requires 0 <= n < 100
    ensures ZeroPad(n, 2) == [DigitChar(n / 10), DigitChar(n % 10)]
  {
    DigitsBelow10000(n);
    if n < 10 {
      assert seq(1, _ => '0') == ['0'];
    }
  }

  /** strftime's %d and %m: a number below 100 as two decimal digits, read back by DigitValue. */
  function TwoDigits(n: int): (s: string)
    requires 0 <= n < 100
    ensures |s| == 2 && IsDigit(s[0]) && IsDigit(s[1]) && 10 * DigitValue(s[0]) + DigitValue(s[1]) == n
  {
    [DigitChar(n / 10), DigitChar(n % 10)]
  }

  /** Four-digit field: the thousands, hundreds, tens and units digits. */
  lemma {:induction false} ZeroPadFour(n: int)
    requires 0 <= n < 10000
    ensures ZeroPad(n, 4) == [DigitChar(n / 1000), DigitChar(n / 100 % 10), DigitChar(n / 10 % 10), DigitChar(n % 10)]
  {
    DigitsBelow10000(n);
    var s := NatToString(n);
    if n < 10 {
      assert seq(3, _ => '0') == ['0', '0', '0'];
    } else if n < 100 {
      assert seq(2, _ => '0') == ['0', '0'];
    } else if n < 1000 {
      assert seq(1, _ => '0') == ['0'];
    }
  }

  /** A negative number keeps its minus sign in front of its digits. */
  lemma NegativeZeroPad(n: int, width: nat)
    requires n < 0
    ensures ZeroPad(n, width)[0] == '-'
  {
  }
}
