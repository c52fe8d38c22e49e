/** `cu_CString_strtoul` against section 7.22.1.4 of ISO/IEC 9899:2011. A string
    ends where its terminator stands; an end pointer is an index into it. */
module Strtoul {
  import opened Bits
  import opened Numerals
  import opened Options

  datatype Parsed = Parsed(value: nat, end: nat)

  function DigitOf(c: char): Option<nat> {
    if '0' <= c <= '9' then Some(c as int - '0' as int)
    else if 'a' <= c <= 'z' then Some(c as int - 'a' as int + 10)
    else if 'A' <= c <= 'Z' then Some(c as int - 'A' as int + 10)
    else None
  }

  predicate IsDigit(c: char, base: nat) {
    DigitOf(c).Some? && DigitOf(c).value < base
  }

  predicate AllDigits(t: string, base: nat) {
    forall i :: 0 <= i < |t| ==> IsDigit(t[i], base)
  }

  /** What a run of digits is worth. */
  function Value(t: string, base: nat): nat
    requires AllDigits(t, base)
  {
    if t == "" then 0 else Appended(Value(t[..|t| - 1], base), base, DigitOf(t[|t| - 1]).value)
  }

  predicate IsSpace(c: char) {
    c == ' ' || c == '\t' || c == '\n' || c == '\r' || c == '\U{0C}' || c == '\U{0B}'
  }

  function SkipSpace(s: string, i: nat): (j: nat)
    requires i <= |s|
    ensures i <= j <= |s|
    decreases |s| - i
  {
    if i < |s| && IsSpace(s[i]) then SkipSpace(s, i + 1) else i
  }

  predicate Negative(s: string) {
    var i := SkipSpace(s, 0); i < |s| && s[i] == '-'
  }

  /** Where the number begins, after white space and a sign. */
  function AfterSign(s: string): (j: nat)
    ensures j <= |s|
  {
    var i := SkipSpace(s, 0);
    if i < |s| && (s[i] == '+' || s[i] == '-') then i + 1 else i
  }

  /** The end of the longest run of digits that starts at `i`. */
  function RunEnd(s: string, i: nat, base: nat): (j: nat)
    requires i <= |s|
    ensures i <= j <= |s| && AllDigits(s[i..j], base)
    ensures j < |s| ==> !IsDigit(s[j], base)
    decreases |s| - i
  {
    if i < |s| && IsDigit(s[i], base) then
      var j := RunEnd(s, i + 1, base);
      assert s[i..j] == [s[i]] + s[i + 1..j];
      j
    else i
  }

  predicate SaysHex(s: string, j: nat) {
    j + 1 < |s| && s[j] == '0' && (s[j + 1] == 'x' || s[j + 1] == 'X')
  }

  predicate ValidBase(base: int) { 2 <= base <= 36 }

  // ---------------------------------------------------------------------------
  // What the standard asks for.

  /** The base, and where the digits of the subject sequence begin. A prefix counts
      only if a digit follows it. */
  function Subject(s: string, base: int): (r: (int, nat))
    ensures r.1 <= |s|
  {
    var j := AfterSign(s);
    if (base == 0 || base == 16) && SaysHex(s, j) && j + 2 < |s| && IsDigit(s[j + 2], 16) then (16, j + 2)
    else if base != 0 then (base, j)
    else if j < |s| && s[j] == '0' then (8, j)
    else (10, j)
  }

  /** The value converted: saturated, or negated within the unsigned type. */
  function Converted(v: nat, negative: bool, max: nat): nat {
    if v > max then max else if negative then (max + 1 - v) % (max + 1) else v
  }

  function Standard(s: string, base: int, max: nat): Parsed {
    var (b, start) := Subject(s, base);
    if !ValidBase(b) then Parsed(0, 0)
    else
      var end := RunEnd(s, start, b);
      if end == start then Parsed(0, 0) else Parsed(Converted(Value(s[start..end], b), Negative(s), max), end)
  }

  // ---------------------------------------------------------------------------
  // Where the implementation differs.

  /** A prefix with nothing behind it: `0x` without a hexadecimal digit, or with base
      zero a `0` without an octal one. */
  predicate BarePrefix(s: string, base: int) {
    var j := AfterSign(s);
    if (base == 0 || base == 16) && SaysHex(s, j) then !(j + 2 < |s| && IsDigit(s[j + 2], 16))
    else base == 0 && j < |s| && s[j] == '0' && !(j + 1 < |s| && IsDigit(s[j + 1], 8))
  }

  /** A negative number beyond the range of the unsigned type. */
  predicate NegativeOverflow(s: string, base: int, max: nat) {
    var (b, start) := Subject(s, base);
    ValidBase(b) && Negative(s) && Value(s[start..RunEnd(s, start, b)], b) > max
  }

  lemma {:induction false} ValueOfPrefix(t: string, base: nat, k: nat)
    requires AllDigits(t, base) && k <= |t| && base > 0
    ensures Value(t[..k], base) <= Value(t, base)
    decreases |t|
  {
    if k < |t| {
      var u := t[..|t| - 1];
      ValueOfPrefix(u, base, k);
      assert u[..k] == t[..k];
      TimesAtLeast(Value(u, base), base);
    } else {
      assert t[..k] == t;
    }
  }

  lemma TimesAtLeast(a: nat, b: nat)
    requires b > 0
    ensures a * b >= a
  {
  }

  predicate LimitsOf(cutoff: nat, cutlim: nat, base: nat, max: nat)
    requires base > 0
  {
    cutoff == max / base && cutlim == max % base
  }

  /** The test before the multiplication holds exactly when the next step leaves the
      range. */
  lemma CutoffIsExact(result: nat, digit: nat, base: nat, max: nat, cutoff: nat, cutlim: nat)
    requires base > 0 && digit < base && LimitsOf(cutoff, cutlim, base, max)
    ensures result > cutoff || (result == cutoff && digit > cutlim) <==> Appended(result, base, digit) > max
  {
    assert max == cutoff * base + cutlim;
    if result > cutoff {
      assert result * base == cutoff * base + (result - cutoff) * base;
      MulAtLeast(result - cutoff, base);
    } else if result < cutoff {
      assert cutoff * base == result * base + (cutoff - result) * base;
      MulAtLeast(cutoff - result, base);
    }
  }

  method Limits(base: nat, max: nat) returns (cutoff: nat, cutlim: nat)
    requires base > 0
    ensures LimitsOf(cutoff, cutlim, base, max)
  {
    cutoff, cutlim := max / base, max % base;
  }

  lemma {:induction false} LeadingZero(t: string, base: nat)
    requires base > 0 && AllDigits(t, base) && AllDigits("0" + t, base)
    ensures Value("0" + t, base) == Value(t, base)
    decreases |t|
  {
    if t != "" {
      var u := t[..|t| - 1];
      assert ("0" + t)[..|t|] == "0" + u;
      LeadingZero(u, base);
    } else {
      assert ("0" + t)[..0] == "";
    }
  }

  method ReadDigit(c: char) returns (known: bool, digit: nat)
    ensures if known then DigitOf(c) == Some(digit) else DigitOf(c) == None
  {
    if '0' <= c <= '9' {
      return true, c as int - '0' as int;
    } else if 'a' <= c <= 'z' {
      return true, c as int - 'a' as int + 10;
    } else if 'A' <= c <= 'Z' {
      return true, c as int - 'A' as int + 10;
    }
    return false, 0;
  }

  /** The digit loop: the value of the longest run of digits, saturated. */
  method ParseDigits(s: string, start: nat, base: nat, max: nat) returns (result: nat, end: nat)
    requires start <= |s| && ValidBase(base)
    ensures end == RunEnd(s, start, base)
    ensures var v := Value(s[start..end], base); result == if v > max then max else v
  {
    hide DigitOf, Value, Appended, LimitsOf;
    result, end := 0, start;
    var cutoff, cutlim := Limits(base, max);
    EmptyIsZero(s, start, base);
    while end < |s|
      invariant start <= end <= |s| && RunEnd(s, end, base) == RunEnd(s, start, base)
      invariant AllDigits(s[start..end], base) && result == Value(s[start..end], base) <= max
    {
      var known, digit := ReadDigit(s[end]);
      if !known || digit >= base {
        break;
      }
      NextDigit(s, start, end, base);
      CutoffIsExact(result, digit, base, max, cutoff, cutlim);
      if result > cutoff || (result == cutoff && digit > cutlim) {
        ghost var k := end + 1 - start;
        end := SkipDigits(s, end + 1, base);
        SliceOfSlice(s, start, end, k);
        ValueOfPrefix(s[start..end], base, k);
        result := max;
        break;
      }
      result := Appended(result, base, digit);
      end := end + 1;
    }
  }

  lemma SliceOfSlice(s: string, a: nat, b: nat, k: nat)
    requires a <= b <= |s| && k <= b - a
    ensures s[a..b][..k] == s[a..a + k]
  {
  }

  lemma NextDigit(s: string, start: nat, k: nat, base: nat)
    requires start <= k < |s| && AllDigits(s[start..k], base) && IsDigit(s[k], base)
    ensures AllDigits(s[start..k + 1], base)
    ensures Value(s[start..k + 1], base) == Appended(Value(s[start..k], base), base, DigitOf(s[k]).value)
  {
    hide IsDigit, DigitOf, Appended;
    SliceOfSlice(s, start, k + 1, k - start);
    var t := s[start..k + 1];
    assert t[..|t| - 1] == s[start..k] && t[|t| - 1] == s[k];
  }

  method SkipDigits(s: string, start: nat, base: nat) returns (end: nat)
    requires start <= |s|
    ensures end == RunEnd(s, start, base)
  {
    end := start;
    while end < |s|
      invariant start <= end <= |s| && RunEnd(s, end, base) == RunEnd(s, start, base)
    {
      var c := s[end];
      if ('0' <= c <= '9' && c as int - '0' as int < base) || ('a' <= c <= 'z' && c as int - 'a' as int + 10 < base) ||
         ('A' <= c <= 'Z' && c as int - 'A' as int + 10 < base) {
        end := end + 1;
      } else {
        break;
      }
    }
  }

  /** A leading zero is a digit like the others and adds nothing. */
  lemma OctalZero(s: string, j: nat)
    requires j < |s| && s[j] == '0'
    ensures RunEnd(s, j, 8) == RunEnd(s, j + 1, 8)
    ensures var e := RunEnd(s, j, 8); Value(s[j..e], 8) == Value(s[j + 1..e], 8)
  {
    var e := RunEnd(s, j, 8);
    assert s[j..e] == "0" + s[j + 1..e];
    LeadingZero(s[j + 1..e], 8);
  }

  /** `max` is `ULONG_MAX`; a null pointer stands for no string. The
      result is what the standard asks for except exactly when the text is a bare
      prefix, from which nothing is converted, or a negative number out of range. */
  method Strtoul(nptr: Option<string>, base: int, max: nat) returns (r: Parsed)
    requires max > 1
    ensures nptr.None? ==> r == Parsed(0, 0)
    ensures nptr.Some? ==>
      (r == Standard(nptr.value, base, max) <==>
        !BarePrefix(nptr.value, base) && !NegativeOverflow(nptr.value, base, max))
    ensures nptr.Some? && BarePrefix(nptr.value, base) ==> r == Parsed(0, 0)
    ensures nptr.Some? && !BarePrefix(nptr.value, base) && NegativeOverflow(nptr.value, base, max) ==>
      r == Parsed(1, Standard(nptr.value, base, max).end)
  {
    hide RunEnd, Value, AfterSign, Negative, SaysHex, BarePrefix, Subject, AllDigits, Prefix, NegativeOverflow,
      Standard;
    if nptr.None? {
      return Parsed(0, 0);
    }
    var text := nptr.value;
    var s, neg := ReadSign(text);
    var b, start := ReadPrefix(text, base, s);
    if b < 2 || b > 36 {
      NoBase(text, base, b, start, max);
      return Parsed(0, 0);
    }
    var result, end := ParseDigits(text, start, b, max);
    Outcome(text, base, b, start, max);
    if end == start {
      return Parsed(0, 0);
    }
    if neg {
      return Parsed((max + 1 - result) % (max + 1), end);
    }
    r := Parsed(result, end);
  }

  lemma NoBase(text: string, base: int, b: int, start: nat, max: nat)
    requires (b, start) == Prefix(text, base, AfterSign(text)) && !ValidBase(b)
    ensures Standard(text, base, max) == Parsed(0, 0) && !BarePrefix(text, base) && !NegativeOverflow(text, base, max)
  {
  }

  /** What the implementation's choice of base and start leads to. */
  lemma Outcome(text: string, base: int, b: int, start: nat, max: nat)
    requires (b, start) == Prefix(text, base, AfterSign(text)) && ValidBase(b) && max > 1
    ensures start <= |text|
    ensures var end := RunEnd(text, start, b);
      var v, std := Value(text[start..end], b), Standard(text, base, max);
      if BarePrefix(text, base) then end == start && std.end > 0
      else if end == start then std == Parsed(0, 0) && !NegativeOverflow(text, base, max)
      else
        && std == Parsed(Converted(v, Negative(text), max), end)
        && (NegativeOverflow(text, base, max) <==> Negative(text) && v > max)
        && (max + 1 - max) % (max + 1) == 1
  {
    hide RunEnd, AllDigits, AfterSign, Negative, Converted, SaysHex, BarePrefix, Prefix, Subject, Value;
    PrefixAgrees(text, base, AfterSign(text), b, start);
    EmptyIsZero(text, start, b);
    OneLeft(max);
  }

  lemma EmptyIsZero(text: string, i: nat, base: int)
    requires i <= |text| && ValidBase(base)
    ensures AllDigits(text[i..i], base) && Value(text[i..i], base) == 0
  {
    assert text[i..i] == "";
  }

  lemma OneLeft(max: nat)
    requires max > 1
    ensures (max + 1 - max) % (max + 1) == 1
  {
  }

  method ReadSign(text: string) returns (s: nat, neg: bool)
    ensures s == AfterSign(text) && neg == Negative(text)
  {
    s := 0;
    while s < |text| && IsSpace(text[s])
      invariant s <= |text| && SkipSpace(text, s) == SkipSpace(text, 0)
    {
      s := s + 1;
    }
    neg := false;
    if s < |text| && text[s] == '+' {
      s := s + 1;
    } else if s < |text| && text[s] == '-' {
      neg := true;
      s := s + 1;
    }
  }

  /** The base and the start of the digits as the implementation picks them. */
  function Prefix(text: string, base: int, s: nat): (r: (int, nat))
    requires s <= |text|
    ensures s <= r.1 <= |text|
  {
    if (base == 0 || base == 16) && SaysHex(text, s) then (16, s + 2)
    else if base != 0 then (base, s)
    else if s < |text| && text[s] == '0' then (8, s + 1)
    else (10, s)
  }

  method ReadPrefix(text: string, base: int, s: nat) returns (b: int, start: nat)
    requires s <= |text|
    ensures (b, start) == Prefix(text, base, s)
  {
    b, start := base, s;
    if base == 0 {
      if SaysHex(text, s) {
        b, start := 16, s + 2;
      } else if s < |text| && text[s] == '0' {
        b, start := 8, s + 1;
      } else {
        b := 10;
      }
    } else if base == 16 && SaysHex(text, s) {
      start := s + 2;
    }
  }

  lemma PrefixAgrees(text: string, base: int, s: nat, b: int, start: nat)
    requires s == AfterSign(text) && (b, start) == Prefix(text, base, s) && ValidBase(b)
    ensures var end, (c, from) := RunEnd(text, start, b), Subject(text, base);
      && ValidBase(c)
      && (BarePrefix(text, base) ==> end == start && RunEnd(text, from, c) > from)
      && (!BarePrefix(text, base) ==>
            && c == b && RunEnd(text, from, c) == end && (end == start <==> end == from)
            && Value(text[from..end], c) == Value(text[start..end], b))
  {
    var (c, from) := Subject(text, base);
    if base == 0 && !SaysHex(text, s) && s < |text| && text[s] == '0' {
      OctalZero(text, s);
    }
    if (base == 0 || base == 16) && SaysHex(text, s) && BarePrefix(text, base) {
      assert RunEnd(text, s, c) == s + 1;
    }
  }

  // ---------------------------------------------------------------------------
  // Reading back what was printed.

  lemma DigitIsRead(d: nat, base: nat, uppercase: bool)
    requires d < base <= 16
    ensures DigitOf(DigitChar(d, uppercase)) == Some(d) && IsDigit(DigitChar(d, uppercase), base)
    ensures var c := DigitChar(d, uppercase); !IsSpace(c) && c != '+' && c != '-' && c != 'x' && c != 'X'
  {
  }

  lemma {:induction false} DigitsAreRead(num: nat, base: nat, uppercase: bool)
    requires 2 <= base <= 16
    ensures AllDigits(Digits(num, base, uppercase), base) && Value(Digits(num, base, uppercase), base) == num
    decreases num
  {
    hide Quot, Rem, DigitChar, DigitOf, IsDigit;
    var t := Digits(num, base, uppercase);
    if num < base {
      DigitIsRead(num, base, uppercase);
      assert t[..0] == "";
    } else {
      DigitsAreRead(Quot(num, base), base, uppercase);
      DigitIsRead(Rem(num, base), base, uppercase);
      assert t[..|t| - 1] == Digits(Quot(num, base), base, uppercase);
      QuotRem(num, base);
    }
  }

  lemma {:induction false} RunToTheEnd(s: string, i: nat, base: nat)
    requires i <= |s| && AllDigits(s, base)
    ensures RunEnd(s, i, base) == |s|
    decreases |s| - i
  {
    if i < |s| { RunToTheEnd(s, i + 1, base); }
  }

  /** Printing a number and reading it in the same base gives the number back and
      consumes the whole text, in either letter case, whenever it is in range. */
  lemma PrintThenParse(num: nat, base: nat, uppercase: bool, max: nat)
    requires 2 <= base <= 16 && num <= max
    ensures var t := Digits(num, base, uppercase);
      && Standard(t, base, max) == Parsed(num, |t|)
      && !BarePrefix(t, base) && !NegativeOverflow(t, base, max)
  {
    var t := Digits(num, base, uppercase);
    DigitsAreRead(num, base, uppercase);
    FirstDigit(num, base, uppercase);
    assert SkipSpace(t, 0) == 0;
    assert !SaysHex(t, 0) by {
      if |t| > 1 { assert IsDigit(t[1], base); }
    }
    RunToTheEnd(t, 0, base);
    assert t[0..|t|] == t;
  }

  lemma {:induction false} FirstDigit(num: nat, base: nat, uppercase: bool)
    requires 2 <= base <= 16
    ensures var c := Digits(num, base, uppercase)[0]; !IsSpace(c) && c != '+' && c != '-'
    decreases num
  {
    if num < base {
      DigitIsRead(num, base, uppercase);
    } else {
      FirstDigit(Quot(num, base), base, uppercase);
    }
  }

  /** The smallest texts on which the implementation and the standard differ. */
  lemma BarePrefixExamples(max: nat)
    requires max > 1
    ensures BarePrefix("0", 0) && Standard("0", 0, max) == Parsed(0, 1)
    ensures BarePrefix("0x", 16) && Standard("0x", 16, max) == Parsed(0, 1)
  {
    assert "0"[0..1] == "0" && "0x"[0..1] == "0" && "0"[..0] == "";
    assert RunEnd("0", 0, 8) == 1 && RunEnd("0x", 0, 16) == 1;
  }
}
