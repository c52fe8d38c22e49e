/** What section 7.22.1.4 of ISO/IEC 9899:2011 makes of a text that is spelled out:
    white space, a sign, a prefix, digits, and whatever follows. */
module Reading {
  import opened Numerals
  import opened Options
  import opened Strtoul

  /** White space is the space and the five control characters from tab to return. */
  lemma SpaceIs(c: char)
    ensures IsSpace(c) <==> c as int == 32 || 9 <= c as int <= 13
  {
  }

  /** The digits in order of their worth, letters in either case. */
  lemma DigitIs(c: char, d: nat)
    ensures DigitOf(c) == Some(d) <==>
      var code := c as int;
      (d < 10 && code == 48 + d) || (10 <= d < 36 && (code == 87 + d || code == 55 + d))
  {
  }

  /** Each digit makes what stands before it worth as many times as the base. */
  lemma ValueIs(t: string, c: char, base: nat)
    requires AllDigits(t, base) && IsDigit(c, base)
    ensures AllDigits(t + [c], base) && Value(t + [c], base) == Value(t, base) * base + DigitOf(c).value
    ensures Value("", base) == 0
  {
    assert (t + [c])[..|t|] == t;
  }

  predicate White(lead: string) {
    forall i :: 0 <= i < |lead| ==> lead[i] as int == 32 || 9 <= lead[i] as int <= 13
  }

  predicate Sign(sign: string) { sign == "" || sign == "+" || sign == "-" }

  /** What follows is no part of the digits. */
  predicate Stops(tail: string, base: nat) { tail == "" || !IsDigit(tail[0], base) }

  /** What a number is read as: itself, or its negative within the unsigned type, and the
      greatest number of that type when it is out of range. */
  function ReadAs(v: nat, sign: string, max: nat): nat {
    if v > max then max else if sign == "-" && v > 0 then max + 1 - v else v
  }

  lemma ConvertedIs(v: nat, sign: string, max: nat)
    requires Sign(sign)
    ensures Converted(v, sign == "-", max) == ReadAs(v, sign, max)
  {
  }

  lemma {:induction false} SkipsTo(s: string, i: nat, j: nat)
    requires i <= j <= |s| && (forall k :: i <= k < j ==> IsSpace(s[k])) && (j < |s| ==> !IsSpace(s[j]))
    ensures SkipSpace(s, i) == j
    decreases j - i
  {
    if i < j { SkipsTo(s, i + 1, j); }
  }

  lemma {:induction false} RunsTo(s: string, i: nat, j: nat, base: nat)
    requires i <= j <= |s| && (forall k :: i <= k < j ==> IsDigit(s[k], base)) && (j < |s| ==> !IsDigit(s[j], base))
    ensures RunEnd(s, i, base) == j
    decreases j - i
  {
    if i < j { RunsTo(s, i + 1, j, base); }
  }

  /** White space is skipped, and one sign is taken for what it says. */
  lemma SignIsRead(lead: string, sign: string, rest: string)
    requires White(lead) && Sign(sign) && rest != "" && DigitOf(rest[0]).Some?
    ensures var s := lead + sign + rest;
      AfterSign(s) == |lead| + |sign| && (Negative(s) <==> sign == "-")
  {
    var s := lead + sign + rest;
    forall i | 0 <= i < |lead| ensures IsSpace(s[i]) {
      assert s[i] == lead[i];
      SpaceIs(lead[i]);
    }
    assert s[|lead|] == (sign + rest)[0];
    assert !IsSpace(s[|lead|]);
    SkipsTo(s, 0, |lead|);
    assert sign == "" ==> s[|lead|] == rest[0];
  }

  /** What becomes of a text whose sign and digits have been found. */
  lemma FoundIsRead(s: string, sign: string, b: nat, start: nat, end: nat, base: nat, max: nat)
    requires Sign(sign) && (Negative(s) <==> sign == "-") && Subject(s, base) == (b, start)
    requires 2 <= b <= 36 && start < end <= |s| && RunEnd(s, start, b) == end
    ensures AllDigits(s[start..end], b)
    ensures Standard(s, base, max) == Parsed(ReadAs(Value(s[start..end], b), sign, max), end)
    ensures NegativeOverflow(s, base, max) <==> sign == "-" && Value(s[start..end], b) > max
  {
    hide Negative, Subject, RunEnd, Value;
    ConvertedIs(Value(s[start..end], b), sign, max);
  }

  /** The first two characters of the digits and what follows them. */
  lemma FirstTwo(before: string, t: string, tail: string)
    requires t != ""
    ensures var s, j := before + t + tail, |before|;
      && j < |s| && s[j] == t[0] && s == before + (t + tail) && (t + tail)[0] == t[0]
      && (|t| > 1 ==> j + 1 < |s| && s[j + 1] == t[1])
      && (|t| == 1 ==> if tail == "" then j + 1 == |s| else j + 1 < |s| && s[j + 1] == tail[0])
  {
  }

  /** A numeral in an explicit base is read up to its last digit, whatever leads to it
      and whatever follows it. */
  lemma NumeralIsRead(lead: string, sign: string, t: string, tail: string, base: nat, max: nat)
    requires White(lead) && Sign(sign) && t != "" && 2 <= base <= 36 && AllDigits(t, base) && Stops(tail, base)
    requires base == 16 ==> !(t == "0" && tail != "" && (tail[0] == 'x' || tail[0] == 'X'))
    ensures var s := lead + sign + t + tail;
      && Standard(s, base, max) == Parsed(ReadAs(Value(t, base), sign, max), |lead| + |sign| + |t|)
      && !BarePrefix(s, base) && (NegativeOverflow(s, base, max) <==> sign == "-" && Value(t, base) > max)
  {
    DigitsStand(lead + sign, t, tail, base);
    FirstTwo(lead + sign, t, tail);
    SignIsRead(lead, sign, t + tail);
    if |t| > 1 { assert IsDigit(t[1], base); }
    NoPrefix(lead + sign + t + tail, base);
    hide White, Value, RunEnd, AfterSign, Negative, Standard, BarePrefix, NegativeOverflow, Subject, ReadAs;
    var s, j := lead + sign + t + tail, |lead + sign|;
    FoundIsRead(s, sign, base, j, j + |t|, base, max);
  }

  /** Without a prefix an explicit base reads from the sign on. */
  lemma NoPrefix(s: string, base: nat)
    requires base > 0 && (base == 16 ==> !SaysHex(s, AfterSign(s)))
    ensures Subject(s, base) == (base, AfterSign(s)) && !BarePrefix(s, base)
  {
    hide AfterSign;
  }

  lemma DigitsStand(before: string, t: string, tail: string, base: nat)
    requires AllDigits(t, base) && Stops(tail, base)
    ensures var s, j := before + t + tail, |before|; RunEnd(s, j, base) == j + |t| && s[j..j + |t|] == t
  {
    var s, j := before + t + tail, |before|;
    forall k | j <= k < j + |t| ensures IsDigit(s[k], base) { assert s[k] == t[k - j]; }
    assert j + |t| < |s| ==> s[j + |t|] == tail[0];
    RunsTo(s, j, j + |t|, base);
  }

  /** With base 16 or 0 the digits may stand behind `0x`. */
  lemma HexIsRead(lead: string, sign: string, x: char, t: string, tail: string, base: nat, max: nat)
    requires White(lead) && Sign(sign) && (x == 'x' || x == 'X') && t != "" && (base == 0 || base == 16)
    requires AllDigits(t, 16) && Stops(tail, 16)
    ensures var s := lead + sign + ['0', x] + t + tail;
      && Standard(s, base, max) == Parsed(ReadAs(Value(t, 16), sign, max), |lead| + |sign| + 2 + |t|)
      && !BarePrefix(s, base)
  {
    hide White, Value, RunEnd, AfterSign, Negative, Standard, BarePrefix, NegativeOverflow, Subject, ReadAs, AllDigits,
      Stops, IsDigit, DigitOf;
    var u := ['0', x];
    var s, j := lead + sign + u + t + tail, |lead + sign|;
    DigitsStand(lead + sign + u, t, tail, 16);
    FirstTwo(lead + sign + u, t, tail);
    FirstTwo(lead + sign, u, t + tail);
    DigitIs('0', 0);
    SignIsRead(lead, sign, u + (t + tail));
    FirstIsDigit(t, 16);
    HexPrefix(s, base);
    FoundIsRead(s, sign, 16, j + 2, j + 2 + |t|, base, max);
  }

  lemma FirstIsDigit(t: string, base: nat)
    requires AllDigits(t, base) && t != ""
    ensures IsDigit(t[0], base) && DigitOf(t[0]).Some?
  {
  }

  lemma HexPrefix(s: string, base: nat)
    requires (base == 0 || base == 16) && SaysHex(s, AfterSign(s))
    requires AfterSign(s) + 2 < |s| && IsDigit(s[AfterSign(s) + 2], 16)
    ensures Subject(s, base) == (16, AfterSign(s) + 2) && !BarePrefix(s, base)
  {
    hide AfterSign;
  }

  /** With base 0 the first digit decides: a zero means base eight, any other base ten. */
  lemma BaseIsRead(lead: string, sign: string, u: string, tail: string, b: nat, max: nat)
    requires White(lead) && Sign(sign) && u != "" && AllDigits(u, b) && Stops(tail, b)
    requires if u[0] == '0' then b == 8 && |u| > 1 else b == 10
    ensures var s := lead + sign + u + tail;
      && Standard(s, 0, max) == Parsed(ReadAs(Value(u, b), sign, max), |lead| + |sign| + |u|)
      && !BarePrefix(s, 0)
  {
    hide White, Value, RunEnd, AfterSign, Negative, Standard, BarePrefix, NegativeOverflow, Subject, ReadAs, Stops,
      DigitOf, IsDigit, SaysHex;
    var s, j := lead + sign + u + tail, |lead + sign|;
    DigitsStand(lead + sign, u, tail, b);
    FirstTwo(lead + sign, u, tail);
    FirstIsDigit(u, b);
    SignIsRead(lead, sign, u + tail);
    NotHex(s, j);
    BaseFromDigits(s);
    FoundIsRead(s, sign, b, j, j + |u|, 0, max);
  }

  /** With base 0 a leading zero means base eight. */
  lemma OctalIsRead(lead: string, sign: string, t: string, tail: string, max: nat)
    requires White(lead) && Sign(sign) && t != "" && AllDigits(t, 8) && Stops(tail, 8)
    ensures var s := lead + sign + ("0" + t) + tail;
      && Standard(s, 0, max) == Parsed(ReadAs(Value(t, 8), sign, max), |lead| + |sign| + 1 + |t|)
      && !BarePrefix(s, 0)
  {
    hide White, Value, Standard, BarePrefix, ReadAs, AllDigits, Stops, Sign;
    ZeroBefore(t);
    BaseIsRead(lead, sign, "0" + t, tail, 8, max);
  }

  lemma ZeroBefore(t: string)
    requires AllDigits(t, 8) && t != ""
    ensures var u := "0" + t; AllDigits(u, 8) && Value(u, 8) == Value(t, 8) && u[1] == t[0] && IsDigit(u[1], 8)
  {
    LeadingZero(t, 8);
  }

  lemma NotHex(s: string, j: nat)
    requires j < |s| && (s[j] == '0' ==> j + 1 < |s| && IsDigit(s[j + 1], 8))
    ensures !SaysHex(s, j)
  {
  }

  lemma BaseFromDigits(s: string)
    requires AfterSign(s) < |s| && !SaysHex(s, AfterSign(s))
    requires s[AfterSign(s)] == '0' ==> AfterSign(s) + 1 < |s| && IsDigit(s[AfterSign(s) + 1], 8)
    ensures Subject(s, 0) == (if s[AfterSign(s)] == '0' then 8 else 10, AfterSign(s)) && !BarePrefix(s, 0)
  {
    hide AfterSign;
  }

  /** With base 0 any other digit means base ten. */
  lemma DecimalIsRead(lead: string, sign: string, t: string, tail: string, max: nat)
    requires White(lead) && Sign(sign) && t != "" && t[0] != '0' && AllDigits(t, 10) && Stops(tail, 10)
    ensures var s := lead + sign + t + tail;
      && Standard(s, 0, max) == Parsed(ReadAs(Value(t, 10), sign, max), |lead| + |sign| + |t|)
      && !BarePrefix(s, 0)
  {
    BaseIsRead(lead, sign, t, tail, 10, max);
  }

  /** A printed number is read back behind white space and a sign: as it is behind a plus,
      and as its negative within the unsigned type behind a minus. */
  lemma SignedNumberIsRead(lead: string, num: nat, base: nat, uppercase: bool, max: nat)
    requires White(lead) && 2 <= base <= 16 && num <= max
    ensures var t := Digits(num, base, uppercase);
      && Standard(lead + t, base, max) == Parsed(num, |lead| + |t|)
      && Standard(lead + "+" + t, base, max) == Parsed(num, |lead| + 1 + |t|)
      && Standard(lead + "-" + t, base, max) == Parsed((max + 1 - num) % (max + 1), |lead| + 1 + |t|)
      && !BarePrefix(lead + t, base) && !BarePrefix(lead + "-" + t, base)
      && !NegativeOverflow(lead + t, base, max) && !NegativeOverflow(lead + "-" + t, base, max)
  {
    hide White, Value, Standard, BarePrefix, NegativeOverflow, Digits, AllDigits;
    var t := Digits(num, base, uppercase);
    DigitsAreRead(num, base, uppercase);
    NumeralIsRead(lead, "", t, "", base, max);
    NumeralIsRead(lead, "+", t, "", base, max);
    NumeralIsRead(lead, "-", t, "", base, max);
    assert lead + "" + t + "" == lead + t;
    assert lead + "+" + t + "" == lead + "+" + t;
    assert lead + "-" + t + "" == lead + "-" + t;
    NegatedIs(num, max);
  }

  lemma NegatedIs(num: nat, max: nat)
    requires num <= max
    ensures (max + 1 - num) % (max + 1) == if num == 0 then 0 else max + 1 - num
  {
  }

  /** A text without a digit where one should be is not converted at all. */
  lemma NothingToRead(lead: string, sign: string, tail: string, base: nat, max: nat)
    requires White(lead) && Sign(sign) && 2 <= base <= 36 && Stops(tail, base)
    requires tail == "" || !(tail[0] as int == 32 || 9 <= tail[0] as int <= 13 || tail[0] == '+' || tail[0] == '-')
    ensures Standard(lead + sign + tail, base, max) == Parsed(0, 0)
  {
    var s := lead + sign + tail;
    forall i | 0 <= i < |lead| ensures IsSpace(s[i]) {
      assert s[i] == lead[i];
      SpaceIs(lead[i]);
    }
    if |lead| < |s| { SpaceIs(s[|lead|]); }
    SkipsTo(s, 0, |lead|);
    assert AfterSign(s) == |lead| + |sign|;
    assert |lead| + |sign| < |s| ==> s[|lead| + |sign|] == tail[0];
  }

  /** A numeral has no leading zero, and its letters are of one case. */
  lemma {:induction false} NumeralIsPlain(num: nat, base: nat, uppercase: bool)
    requires 2 <= base <= 16
    ensures var t := Digits(num, base, uppercase);
      && (t[0] == '0' <==> num == 0)
      && forall i :: 0 <= i < |t| ==>
        '0' <= t[i] <= '9' || (if uppercase then 'A' <= t[i] <= 'F' else 'a' <= t[i] <= 'f')
    decreases num
  {
    hide DigitChar;
    if num < base {
      CharIsPlain(num, uppercase);
    } else {
      NumeralIsPlain(Quot(num, base), base, uppercase);
      CharIsPlain(Rem(num, base), uppercase);
    }
  }

  lemma CharIsPlain(d: nat, uppercase: bool)
    requires d < 16
    ensures var c := DigitChar(d, uppercase);
      ('0' <= c <= '9' || (if uppercase then 'A' <= c <= 'F' else 'a' <= c <= 'f')) && (c == '0' <==> d == 0)
  {
  }
}
