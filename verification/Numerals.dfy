/** Numbers as digit text: `format_number` and what a digit string is worth. */
module Numerals {
  import opened Bits
  import opened Utility

  const TEMP_SIZE: nat := 64

  function DigitChar(d: nat, uppercase: bool): char
    requires d < 16
  {
    if uppercase then "0123456789ABCDEF"[d] else "0123456789abcdef"[d]
  }

  function Quot(x: nat, b: nat): (q: nat)
    requires b >= 2
    ensures q <= x && (x > 0 ==> q < x) && (q == 0 <==> x < b)
  {
    SmallQuotient(x, b);
    x / b
  }

  function Rem(x: nat, b: nat): (r: nat)
    requires b >= 2
    ensures r < b && (x < b ==> r == x)
  {
    SmallQuotient(x, b);
    x % b
  }

  /** A number with one more digit. */
  function Appended(v: nat, b: nat, d: nat): nat { v * b + d }

  lemma QuotRem(x: nat, b: nat)
    requires b >= 2
    ensures Appended(Quot(x, b), b, Rem(x, b)) == x
  {
  }

  /** The usual numeral of a number, most significant digit first. */
  function Digits(num: nat, base: nat, uppercase: bool): (t: string)
    requires 2 <= base <= 16
    ensures |t| >= 1
    decreases num
  {
    if num < base then [DigitChar(num, uppercase)]
    else Digits(Quot(num, base), base, uppercase) + [DigitChar(Rem(num, base), uppercase)]
  }

  function Signed(num: nat, base: nat, uppercase: bool, minus: bool): string
    requires 2 <= base <= 16
  {
    (if minus then "-" else "") + Digits(num, base, uppercase)
  }

  function Reversed(s: string): (r: string)
    ensures |r| == |s| && forall i :: 0 <= i < |s| ==> r[i] == s[|s| - 1 - i]
  {
    if s == "" then "" else Reversed(s[1..]) + [s[0]]
  }

  /** A number below `2^n` has at most `n` digits, and fewer from base three on. */
  lemma {:induction false} DigitsBound(num: nat, base: nat, uppercase: bool, n: nat)
    requires 2 <= base <= 16 && n > 0 && num < Pow2(n)
    ensures |Digits(num, base, uppercase)| <= n
    ensures base > 2 && n >= 3 ==> |Digits(num, base, uppercase)| < n
    decreases n
  {
    if num >= base {
      DivHalves(num, base);
      DigitsBound(Quot(num, base), base, uppercase, n - 1);
    }
  }

  /** From base eight on a digit is worth at least three bits. */
  lemma {:induction false} DigitsBoundByThrees(num: nat, base: nat, uppercase: bool, n: nat)
    requires 8 <= base <= 16 && num < Pow2(n)
    ensures |Digits(num, base, uppercase)| <= n / 3 + 1
    decreases n
  {
    if num >= base {
      if n < 3 { Pow2Monotone(n, 3); }
      Pow2Sum(3, n - 3);
      DivEighths(num, base);
      DigitsBoundByThrees(Quot(num, base), base, uppercase, n - 3);
    }
  }

  lemma DivEighths(x: nat, b: nat)
    requires b >= 8
    ensures Quot(x, b) <= x / 8
  {
    var q := x / b;
    assert x == q * b + x % b && q * b >= q * 8;
  }

  lemma DivHalves(x: nat, b: nat)
    requires b >= 2
    ensures x / b <= x / 2
    ensures b > 2 && x < 8 ==> x / b < b
  {
    var q := x / b;
    assert x == q * b + x % b && q * b >= q * 2;
  }

  lemma {:induction false} BinaryDigitsAtLeast(num: nat, uppercase: bool, n: nat)
    requires num >= Pow2(n)
    ensures |Digits(num, 2, uppercase)| > n
    decreases n
  {
    if n > 0 { BinaryDigitsAtLeast(Quot(num, 2), uppercase, n - 1); }
  }

  /** The text of every 64-bit number fits the digit buffer in every base, except a
      negative binary one with its top bit set. */
  lemma TempSuffices(num: nat, base: nat, uppercase: bool, minus: bool)
    requires 2 <= base <= 16 && num < Pow2(64)
    ensures |Signed(num, base, uppercase, minus)| <= TEMP_SIZE <==> !(base == 2 && minus && num >= Pow2(63))
  {
    hide Digits, Pow2;
    DigitsBound(num, base, uppercase, 64);
    if base == 2 {
      if num >= Pow2(63) {
        BinaryDigitsAtLeast(num, uppercase, 63);
      } else {
        DigitsBound(num, base, uppercase, 63);
      }
    }
  }

  /** Produces the digits, last first. */
  method PutDigits(temp: array<char>, num: nat, base: nat, uppercase: bool) returns (tempPos: nat)
    requires 2 <= base <= 16 && |Digits(num, base, uppercase)| <= temp.Length
    modifies temp
    ensures tempPos <= temp.Length && Reversed(temp[..tempPos]) == Digits(num, base, uppercase)
  {
    hide Quot, Rem;
    tempPos := 0;
    if num == 0 {
      temp[0] := '0';
      tempPos := 1;
      assert temp[..1] == "0";
      return;
    }
    var rest: nat := num;
    while rest > 0
      invariant tempPos <= temp.Length
      invariant Pending(rest, base, uppercase) + Reversed(temp[..tempPos]) == Digits(num, base, uppercase)
    {
      ghost var done := temp[..tempPos];
      DigitsStep(rest, base, uppercase, done);
      assert |Pending(rest, base, uppercase)| > 0;
      var d := DigitChar(Rem(rest, base), uppercase);
      temp[tempPos] := d;
      tempPos := tempPos + 1;
      assert temp[..tempPos] == done + [d];
      rest := Quot(rest, base);
    }
  }

  /** The text of the digits not yet produced. */
  function Pending(rest: nat, base: nat, uppercase: bool): string
    requires 2 <= base <= 16
  {
    if rest == 0 then "" else Digits(rest, base, uppercase)
  }

  lemma DigitsStep(rest: nat, base: nat, uppercase: bool, done: string)
    requires 2 <= base <= 16 && rest > 0
    ensures Pending(Quot(rest, base), base, uppercase) + Reversed(done + [DigitChar(Rem(rest, base), uppercase)]) ==
            Pending(rest, base, uppercase) + Reversed(done)
  {
    hide Quot, Rem;
    var d := DigitChar(Rem(rest, base), uppercase);
    assert Reversed(done + [d]) == [d] + Reversed(done);
    assert Pending(rest, base, uppercase) == Pending(Quot(rest, base), base, uppercase) + [d];
  }

  lemma SmallQuotient(x: nat, b: nat)
    requires b >= 2
    ensures x / b == 0 <==> x < b
    ensures x / b <= x && (x > 0 ==> x / b < x)
    ensures x < b ==> x % b == x
  {
    ModUnique(x, b, if x < b then 0 else x / b, x % b);
    DivHalves(x, b);
  }

  /** Writes the number's text, truncated to the buffer, and returns its full length.
      The digits are produced last first into a fixed buffer. */
  method FormatNumber(buf: array<char>, bufsize: nat, num: nat, isSigned: bool, isNegative: bool, base: nat,
      uppercase: bool) returns (n: nat)
    requires bufsize <= buf.Length && 2 <= base <= 16
    requires |Signed(num, base, uppercase, isSigned && isNegative)| <= TEMP_SIZE
    modifies buf
    ensures bufsize == 0 ==> n == 0 && buf[..] == old(buf[..])
    ensures bufsize > 0 ==>
      var text := Signed(num, base, uppercase, isSigned && isNegative);
      var kept := Min(|text|, bufsize - 1);
      && n == |text| && buf[..kept] == text[..kept] && buf[kept] == '\0'
      && buf[kept + 1..] == old(buf[kept + 1..])
  {
    if bufsize == 0 {
      return 0;
    }
    hide Digits, Reversed, Quot, Rem;
    ghost var text := Signed(num, base, uppercase, isSigned && isNegative);
    var temp := new char[TEMP_SIZE](_ => ' ');
    var tempPos := PutDigits(temp, num, base, uppercase);
    ghost var digits := temp[..tempPos];
    if isSigned && isNegative {
      temp[tempPos] := '-';
      tempPos := tempPos + 1;
      assert temp[..tempPos] == digits + ['-'];
    }
    assert Reversed(temp[..tempPos]) == text;
    CopyReversed(buf, bufsize, temp, tempPos);
    n := tempPos;
  }

  /** Copies characters in reverse, as many as fit before the terminator. */
  method CopyReversed(buf: array<char>, bufsize: nat, temp: array<char>, n: nat)
    requires 0 < bufsize <= buf.Length && n <= temp.Length && buf != temp
    modifies buf
    ensures var text, kept := Reversed(temp[..n]), Min(n, bufsize - 1);
      buf[..kept] == text[..kept] && buf[kept] == '\0' && buf[kept + 1..] == old(buf[kept + 1..])
  {
    ghost var text := Reversed(temp[..n]);
    var resultLen, i := 0, n;
    while i > 0 && resultLen < bufsize - 1
      invariant resultLen <= bufsize - 1 && i == n - resultLen
      invariant forall k :: 0 <= k < resultLen ==> buf[k] == text[k]
      invariant forall k :: resultLen <= k < buf.Length ==> buf[k] == old(buf[k])
    {
      i := i - 1;
      buf[resultLen] := temp[i];
      resultLen := resultLen + 1;
    }
    buf[resultLen] := '\0';
  }
}
