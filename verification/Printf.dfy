/** `cu_CString_vsnprintf` against the text a format and its arguments stand for. */
module Printf {
  import opened Bits
  import opened Numerals
  import Strtoul
  import opened Utility

  /** An argument as it is passed: `bits` is the width of its type. */
  datatype Arg =
    | SignedArg(bits: nat, value: int)
    | UnsignedArg(bits: nat, num: nat)
    | CharArg(code: int)
    | TextArg(text: Text)
    | PointerArg(addr: nat)

  datatype Text = NullText | Chars(chars: string)

  /** The length modifier of a specifier. */
  datatype Length = Plain | Long | LongLong

  /** `longBits` is the width of `long`. */
  function WidthOf(length: Length, longBits: nat): nat {
    match length
    case Plain => 32
    case Long => longBits
    case LongLong => 64
  }

  /** The modifier at `i`, and where the conversion character stands. */
  function Modifier(fmt: string, i: nat): (r: (Length, nat))
    requires i <= |fmt|
    ensures i <= r.1 <= |fmt| && r.1 <= i + 2
  {
    if i < |fmt| && fmt[i] == 'l' then
      if i + 1 < |fmt| && fmt[i + 1] == 'l' then (LongLong, i + 2) else (Long, i + 1)
    else (Plain, i)
  }

  predicate TakesArg(c: char) {
    c == 'd' || c == 'i' || c == 'u' || c == 'x' || c == 'X' || c == 'c' || c == 's' || c == 'p'
  }

  /** The argument is of the type the conversion reads. */
  predicate Suits(c: char, length: Length, longBits: nat, a: Arg)
  {
    if c == 'd' || c == 'i' then
      a.SignedArg? && a.bits == WidthOf(length, longBits) && a.bits > 0 && Abs(a.value) < Pow2(a.bits - 1)
    else if c == 'u' || c == 'x' || c == 'X' then
      a.UnsignedArg? && a.bits == WidthOf(length, longBits) && a.num < Pow2(a.bits)
    else if c == 'c' then a.CharArg?
    else if c == 's' then a.TextArg?
    else a.PointerArg? && a.addr < Pow2(64)
  }

  function Abs(v: int): nat { if v < 0 then -v else v }

  function CharOf(code: int): char { (code % 256) as char }

  /** What one conversion stands for. */
  function Converted(c: char, a: Arg): string {
    match a
    case SignedArg(_, v) => Signed(Abs(v), 10, false, v < 0)
    case UnsignedArg(_, n) => Digits(n, if c == 'u' then 10 else 16, c == 'X')
    case CharArg(code) => [CharOf(code)]
    case TextArg(Chars(t)) => t
    case TextArg(NullText) => "(null)"
    case PointerArg(addr) => "0x" + Digits(addr, 16, false)
  }

  /** The format from `i` on and the arguments from the `k`th on agree. */
  predicate Matches(fmt: string, i: nat, args: seq<Arg>, k: nat, longBits: nat)
    requires i <= |fmt|
    decreases |fmt| - i
  {
    if i == |fmt| then true
    else if fmt[i] != '%' then Matches(fmt, i + 1, args, k, longBits)
    else
      var (length, j) := Modifier(fmt, i + 1);
      if j == |fmt| then true
      else if TakesArg(fmt[j]) then
        k < |args| && Suits(fmt[j], length, longBits, args[k]) && Matches(fmt, j + 1, args, k + 1, longBits)
      else Matches(fmt, j + 1, args, k, longBits)
  }

  /** The text of the format from `i` on. A specifier that takes no argument prints
      itself without its modifier, `%%` as one sign; an unfinished one prints `%`. */
  function Expansion(fmt: string, i: nat, args: seq<Arg>, k: nat, longBits: nat): string
    requires i <= |fmt| && Matches(fmt, i, args, k, longBits)
    decreases |fmt| - i
  {
    if i == |fmt| then ""
    else if fmt[i] != '%' then [fmt[i]] + Expansion(fmt, i + 1, args, k, longBits)
    else
      var (length, j) := Modifier(fmt, i + 1);
      if j == |fmt| then "%"
      else if TakesArg(fmt[j]) then Converted(fmt[j], args[k]) + Expansion(fmt, j + 1, args, k + 1, longBits)
      else if fmt[j] == '%' then "%" + Expansion(fmt, j + 1, args, k, longBits)
      else ['%', fmt[j]] + Expansion(fmt, j + 1, args, k, longBits)
  }

  /** The format stops inside a specifier. */
  predicate EndsInside(fmt: string, i: nat)
    requires i <= |fmt|
    decreases |fmt| - i
  {
    if i == |fmt| then false
    else if fmt[i] != '%' then EndsInside(fmt, i + 1)
    else
      var j := Modifier(fmt, i + 1).1;
      j == |fmt| || EndsInside(fmt, j + 1)
  }

  // ---------------------------------------------------------------------------
  // Writing.

  /** `now` is `before` with as much of `out` written at `at` as leaves room for the
      terminator in `size` characters. */
  ghost predicate Written(before: seq<char>, now: seq<char>, at: nat, size: nat, out: string) {
    && |now| == |before|
    && forall i :: 0 <= i < |before| ==>
         now[i] == if at <= i < at + |out| && i + 1 < at + size then out[i - at] else before[i]
  }

  function Cells(dst: array?<char>): seq<char>
    reads if dst == null then {} else {dst}
  {
    if dst == null then [] else dst[..]
  }

  /** One character, dropped when there is no room for it. */
  method Put(dst: array?<char>, at: nat, size: nat, pos: nat, c: char, ghost before: seq<char>, ghost out: string)
      returns (next: nat)
    requires pos == |out| && (dst == null ==> size == 0)
    requires dst != null ==> size > 0 && at + Min(size, |out| + 2) <= dst.Length
    requires Written(before, Cells(dst), at, size, out)
    modifies if dst == null then {} else {dst}
    ensures next == |out| + 1 && Written(before, Cells(dst), at, size, out + [c])
  {
    if dst != null && pos < size - 1 {
      dst[at + pos] := c;
    }
    next := pos + 1;
  }

  method PutText(dst: array?<char>, at: nat, size: nat, pos: nat, text: string, ghost before: seq<char>,
      ghost out: string) returns (next: nat)
    requires pos == |out| && (dst == null ==> size == 0)
    requires dst != null ==> size > 0 && at + Min(size, |out| + |text| + 1) <= dst.Length
    requires Written(before, Cells(dst), at, size, out)
    modifies if dst == null then {} else {dst}
    ensures next == |out| + |text| && Written(before, Cells(dst), at, size, out + text)
  {
    next := pos;
    assert out + text[..0] == out;
    for i := 0 to |text|
      invariant next == |out| + i && Written(before, Cells(dst), at, size, out + text[..i])
    {
      next := Put(dst, at, size, next, text[i], before, out + text[..i]);
      assert out + text[..i + 1] == out + text[..i] + [text[i]];
    }
    assert text[..|text|] == text;
  }

  /** No digit is the terminator. */
  lemma {:induction false} NoTerminator(num: nat, base: nat, uppercase: bool)
    requires 2 <= base <= 16
    ensures '\0' !in Digits(num, base, uppercase)
    decreases num
  {
    if num >= base { NoTerminator(Quot(num, base), base, uppercase); }
  }

  /** The text of a machine number fits the number buffer with its terminator. */
  lemma NumberFits(num: nat, base: nat, uppercase: bool, minus: bool, width: nat)
    requires (base == 10 || base == 16) && num < Pow2(width) && width <= 64
    ensures |Signed(num, base, uppercase, minus)| < TEMP_SIZE && '\0' !in Signed(num, base, uppercase, minus)
  {
    DigitsBoundByThrees(num, base, uppercase, width);
    NoTerminator(num, base, uppercase);
  }

  /** Formats a number into a buffer of its own and copies it up to the terminator. */
  method PutNumber(dst: array?<char>, at: nat, size: nat, pos: nat, num: nat, isSigned: bool, negative: bool,
      base: nat, uppercase: bool, ghost width: nat, ghost before: seq<char>, ghost out: string)
      returns (next: nat, len: nat)
    requires (base == 10 || base == 16) && num < Pow2(width) && width <= 64
    requires pos == |out| && (dst == null ==> size == 0)
    requires dst != null ==>
      size > 0 && at + Min(size, |out| + |Signed(num, base, uppercase, isSigned && negative)| + 1) <= dst.Length
    requires Written(before, Cells(dst), at, size, out)
    modifies if dst == null then {} else {dst}
    ensures var text := Signed(num, base, uppercase, isSigned && negative);
      next == |out| + |text| && len == |text| && Written(before, Cells(dst), at, size, out + text)
  {
    hide Digits, Pow2, Written, Signed;
    ghost var text := Signed(num, base, uppercase, isSigned && negative);
    NumberFits(num, base, uppercase, isSigned && negative, width);
    var numbuf := new char[TEMP_SIZE](_ => ' ');
    len := FormatNumber(numbuf, TEMP_SIZE, num, isSigned, negative, base, uppercase);
    assert numbuf[..len] == text;
    next := PutBuffer(dst, at, size, pos, numbuf, text, before, out);
  }

  /** Copies a buffer up to its terminator. */
  method PutBuffer(dst: array?<char>, at: nat, size: nat, pos: nat, numbuf: array<char>, ghost text: string,
      ghost before: seq<char>, ghost out: string) returns (next: nat)
    requires |text| < numbuf.Length && numbuf[..|text|] == text && numbuf[|text|] == '\0' && '\0' !in text &&
      numbuf != dst
    requires pos == |out| && (dst == null ==> size == 0)
    requires dst != null ==> size > 0 && at + Min(size, |out| + |text| + 1) <= dst.Length
    requires Written(before, Cells(dst), at, size, out)
    modifies if dst == null then {} else {dst}
    ensures next == |out| + |text| && Written(before, Cells(dst), at, size, out + text)
  {
    hide Written;
    next := pos;
    assert forall k :: 0 <= k < |text| ==> numbuf[k] == numbuf[..|text|][k];
    var i := 0;
    assert out + text[..0] == out;
    while numbuf[i] != '\0'
      invariant i <= |text| && next == |out| + i && numbuf[|text|] == '\0'
      invariant forall k :: 0 <= k < |text| ==> numbuf[k] == text[k]
      invariant Written(before, Cells(dst), at, size, out + text[..i])
      decreases |text| - i
    {
      next := Put(dst, at, size, next, numbuf[i], before, out + text[..i]);
      assert out + text[..i + 1] == out + text[..i] + [text[i]];
      i := i + 1;
    }
    assert i == |text|;
    assert text[..|text|] == text;
  }

  predicate LongWidth(longBits: nat) { longBits == 32 || longBits == 64 }

  /** One conversion of the argument list. */
  method PutConversion(dst: array?<char>, at: nat, size: nat, pos: nat, c: char, length: Length, longBits: nat, a: Arg,
      ghost before: seq<char>, ghost out: string) returns (next: nat, len: nat)
    requires TakesArg(c) && Suits(c, length, longBits, a) && LongWidth(longBits)
    requires pos == |out| && (dst == null ==> size == 0)
    requires dst != null ==> size > 0 && at + Min(size, |out| + |Converted(c, a)| + 1) <= dst.Length
    requires Written(before, Cells(dst), at, size, out)
    modifies if dst == null then {} else {dst}
    ensures next == |out| + |Converted(c, a)| && len == |Converted(c, a)|
    ensures Written(before, Cells(dst), at, size, out + Converted(c, a))
  {
    hide Written, Digits, Signed, Pow2;
    if c == 'd' || c == 'i' {
      var negative := a.value < 0;
      var num := if negative then -a.value else a.value;
      next, len := PutNumber(dst, at, size, pos, num, true, negative, 10, false, a.bits - 1, before, out);
    } else if c == 'u' {
      next, len := PutUnsigned(dst, at, size, pos, a.num, 10, false, a.bits, before, out);
    } else if c == 'x' || c == 'X' {
      next, len := PutUnsigned(dst, at, size, pos, a.num, 16, c == 'X', a.bits, before, out);
    } else if c == 'c' {
      next := Put(dst, at, size, pos, CharOf(a.code), before, out);
      len := 1;
    } else if c == 's' {
      var s := if a.text.NullText? then "(null)" else a.text.chars;
      next := PutText(dst, at, size, pos, s, before, out);
      len := |s|;
    } else {
      next, len := PutPointer(dst, at, size, pos, a.addr, before, out);
    }
  }

  method PutPointer(dst: array?<char>, at: nat, size: nat, pos: nat, addr: nat, ghost before: seq<char>,
      ghost out: string) returns (next: nat, len: nat)
    requires addr < Pow2(64)
    requires pos == |out| && (dst == null ==> size == 0)
    requires dst != null ==> size > 0 && at + Min(size, |out| + |Digits(addr, 16, false)| + 3) <= dst.Length
    requires Written(before, Cells(dst), at, size, out)
    modifies if dst == null then {} else {dst}
    ensures var text := "0x" + Digits(addr, 16, false);
      next == |out| + |text| && len == |text| && Written(before, Cells(dst), at, size, out + text)
  {
    hide Written, Digits, Pow2;
    next := PutText(dst, at, size, pos, "0x", before, out);
    next, len := PutUnsigned(dst, at, size, next, addr, 16, false, 64, before, out + "0x");
    len := len + 2;
    assert out + "0x" + Digits(addr, 16, false) == out + ("0x" + Digits(addr, 16, false));
  }

  method PutUnsigned(dst: array?<char>, at: nat, size: nat, pos: nat, num: nat, base: nat, uppercase: bool,
      ghost width: nat, ghost before: seq<char>, ghost out: string) returns (next: nat, len: nat)
    requires (base == 10 || base == 16) && num < Pow2(width) && width <= 64
    requires pos == |out| && (dst == null ==> size == 0)
    requires dst != null ==> size > 0 && at + Min(size, |out| + |Digits(num, base, uppercase)| + 1) <= dst.Length
    requires Written(before, Cells(dst), at, size, out)
    modifies if dst == null then {} else {dst}
    ensures var text := Digits(num, base, uppercase);
      next == |out| + |text| && len == |text| && Written(before, Cells(dst), at, size, out + text)
  {
    hide Written, Digits, Pow2;
    assert Signed(num, base, uppercase, false) == Digits(num, base, uppercase);
    next, len := PutNumber(dst, at, size, pos, num, false, false, base, uppercase, width, before, out);
  }

  const INT_LIMIT: nat := 0x8000_0000

  /** The conversion of the running total to `int`. */
  function ToInt(n: nat): int { (n + INT_LIMIT) % (2 * INT_LIMIT) - INT_LIMIT }

  /** What the total counts: the text, and one more for an unfinished specifier. */
  function Total(fmt: string, args: seq<Arg>, longBits: nat): nat
    requires Matches(fmt, 0, args, 0, longBits)
  {
    |Expansion(fmt, 0, args, 0, longBits)| + (if EndsInside(fmt, 0) then 1 else 0)
  }

  /** What is left to print, and to count, from a point of the format on. */
  ghost predicate Remaining(fmt: string, args: seq<Arg>, longBits: nat, i: nat, k: nat, out: string, total: nat) {
    && i <= |fmt| && Matches(fmt, 0, args, 0, longBits) && Matches(fmt, i, args, k, longBits)
    && out + Expansion(fmt, i, args, k, longBits) == Expansion(fmt, 0, args, 0, longBits)
    && total + |Expansion(fmt, i, args, k, longBits)| + (if EndsInside(fmt, i) then 1 else 0) ==
      Total(fmt, args, longBits)
  }

  /** What the directive at `i` adds to the expansion of what follows it. */
  lemma DirectiveIs(fmt: string, args: seq<Arg>, longBits: nat, i: nat, k: nat)
    requires i < |fmt| && Matches(fmt, i, args, k, longBits)
    ensures fmt[i] != '%' ==> Splits(fmt, args, longBits, i, k, i + 1, k, [fmt[i]], 0)
    ensures fmt[i] == '%' ==>
      var (length, p) := Modifier(fmt, i + 1);
      if p == |fmt| then Splits(fmt, args, longBits, i, k, p, k, "%", 1)
      else if TakesArg(fmt[p]) then
        && k < |args| && Suits(fmt[p], length, longBits, args[k])
        && Splits(fmt, args, longBits, i, k, p + 1, k + 1, Converted(fmt[p], args[k]), 0)
      else Splits(fmt, args, longBits, i, k, p + 1, k, if fmt[p] == '%' then "%" else ['%', fmt[p]], 0)
  {
    hide Converted, Suits, Modifier, TakesArg;
  }

  /** Up to `j` the format from `i` on prints `text`, and counts `more` than that. */
  ghost predicate Splits(fmt: string, args: seq<Arg>, longBits: nat, i: nat, k: nat, j: nat, l: nat, text: string,
      more: nat)
    requires i <= |fmt| && Matches(fmt, i, args, k, longBits)
  {
    && j <= |fmt| && Matches(fmt, j, args, l, longBits)
    && Expansion(fmt, i, args, k, longBits) == text + Expansion(fmt, j, args, l, longBits)
    && (if EndsInside(fmt, i) then 1 else 0) == more + (if EndsInside(fmt, j) then 1 else 0)
  }

  /** Printing the directive at `i` leaves what follows it. */
  lemma DirectiveStep(fmt: string, args: seq<Arg>, longBits: nat, i: nat, k: nat, out: string, total: nat)
    requires i < |fmt| && Remaining(fmt, args, longBits, i, k, out, total)
    ensures fmt[i] != '%' ==> Remaining(fmt, args, longBits, i + 1, k, out + [fmt[i]], total + 1)
    ensures fmt[i] == '%' ==>
      var (length, p) := Modifier(fmt, i + 1);
      if p == |fmt| then Remaining(fmt, args, longBits, p, k, out + "%", total + 2)
      else if TakesArg(fmt[p]) then
        && k < |args| && Suits(fmt[p], length, longBits, args[k])
        && var text := Converted(fmt[p], args[k]);
        Remaining(fmt, args, longBits, p + 1, k + 1, out + text, total + |text|)
      else if fmt[p] == '%' then Remaining(fmt, args, longBits, p + 1, k, out + "%", total + 1)
      else Remaining(fmt, args, longBits, p + 1, k, out + ['%', fmt[p]], total + 2)
  {
    hide Converted, Suits, Modifier, TakesArg, Expansion, Matches, EndsInside;
    DirectiveIs(fmt, args, longBits, i, k);
  }

  lemma RemainingBound(fmt: string, args: seq<Arg>, longBits: nat, i: nat, k: nat, out: string, total: nat)
    requires Remaining(fmt, args, longBits, i, k, out, total)
    ensures Matches(fmt, 0, args, 0, longBits) && |out| <= |Expansion(fmt, 0, args, 0, longBits)|
  {
    hide Expansion, Matches;
  }

  /** One directive: a plain character or a whole specifier. */
  method PutDirective(dst: array?<char>, at: nat, size: nat, pos: nat, fmt: string, args: seq<Arg>, longBits: nat,
      i: nat, k: nat, total: nat, ghost before: seq<char>, ghost out: string)
      returns (i': nat, k': nat, next: nat, total': nat, ghost out': string)
    requires LongWidth(longBits) && i < |fmt| && Remaining(fmt, args, longBits, i, k, out, total)
    requires Matches(fmt, 0, args, 0, longBits)
    requires pos == |out| && (dst == null ==> size == 0)
    requires dst != null ==> size > 0 && at + Min(size, |Expansion(fmt, 0, args, 0, longBits)| + 1) <= dst.Length
    requires Written(before, Cells(dst), at, size, out)
    modifies if dst == null then {} else {dst}
    ensures i < i' && Remaining(fmt, args, longBits, i', k', out', total') && next == |out'|
    ensures Written(before, Cells(dst), at, size, out')
  {
    hide Written, Converted, Suits, Remaining, Expansion, Matches, TakesArg;
    DirectiveStep(fmt, args, longBits, i, k, out, total);
    i', k', next, total', out' := i + 1, k, pos, total, out;
    if fmt[i] != '%' {
      out', total' := out + [fmt[i]], total + 1;
      RemainingBound(fmt, args, longBits, i', k', out', total');
      next := Put(dst, at, size, pos, fmt[i], before, out);
      return;
    }
    var length, p := ReadModifier(fmt, i + 1);
    if p == |fmt| {
      i', out', total' := p, out + "%", total + 2;
      RemainingBound(fmt, args, longBits, i', k', out', total');
      next := Put(dst, at, size, pos, '%', before, out);
    } else if TakesArg(fmt[p]) {
      var len;
      ghost var text := Converted(fmt[p], args[k]);
      RemainingBound(fmt, args, longBits, p + 1, k + 1, out + text, total + |text|);
      next, len := PutConversion(dst, at, size, pos, fmt[p], length, longBits, args[k], before, out);
      i', k', out', total' := p + 1, k + 1, out + text, total + len;
    } else if fmt[p] == '%' {
      i', out', total' := p + 1, out + "%", total + 1;
      RemainingBound(fmt, args, longBits, i', k', out', total');
      next := Put(dst, at, size, pos, '%', before, out);
    } else {
      i', out', total' := p + 1, out + ['%', fmt[p]], total + 2;
      RemainingBound(fmt, args, longBits, i', k', out', total');
      next := PutText(dst, at, size, pos, ['%', fmt[p]], before, out);
    }
  }

  method ReadModifier(fmt: string, i: nat) returns (length: Length, p: nat)
    requires i <= |fmt|
    ensures (length, p) == Modifier(fmt, i)
  {
    length, p := Plain, i;
    if p < |fmt| && fmt[p] == 'l' {
      length, p := Long, p + 1;
      if p < |fmt| && fmt[p] == 'l' {
        length, p := LongLong, p + 1;
      }
    }
  }

  /** `now` is `before` with the first characters of `out` and a terminator in the
      `size` characters at `at`. */
  ghost predicate Printed(before: seq<char>, now: seq<char>, at: nat, size: nat, out: string)
    requires size > 0
  {
    var kept := Min(|out|, size - 1);
    && at + kept < |before| == |now|
    && now[..at] == before[..at] && now[at..at + kept] == out[..kept] && now[at + kept] == '\0'
    && now[at + kept + 1..] == before[at + kept + 1..]
  }

  lemma WrittenIsPrinted(before: seq<char>, now: seq<char>, at: nat, size: nat, out: string)
    requires Written(before, now, at, size, out) && size > 0 && at + Min(size, |out| + 1) <= |before|
    ensures Printed(before, now[at + Min(|out|, size - 1) := '\0'], at, size, out)
  {
  }

  /** Prints at `dst[at..]`, or only measures when there is no destination. The result
      is the length of the whole text, truncated or not, converted to `int`; a format
      that stops inside a specifier counts one more than it prints, and a destination
      without room makes the result zero. */
  method Vsnprintf(dst: array?<char>, at: nat, size0: nat, fmt: string, args: seq<Arg>, longBits: nat) returns (r: int)
    requires LongWidth(longBits) && Matches(fmt, 0, args, 0, longBits)
    requires dst != null ==> at + Min(size0, |Expansion(fmt, 0, args, 0, longBits)| + 1) <= dst.Length
    modifies if dst == null then {} else {dst}
    ensures dst != null && size0 == 0 ==> r == 0 && dst[..] == old(dst[..])
    ensures dst == null || size0 > 0 ==> r == ToInt(Total(fmt, args, longBits))
    ensures
      var length := |Expansion(fmt, 0, args, 0, longBits)|;
      r == length <==>
        if dst != null && size0 == 0 then length == 0 else !EndsInside(fmt, 0) && length < INT_LIMIT
    ensures dst != null && size0 > 0 ==>
      Printed(old(dst[..]), dst[..], at, size0, Expansion(fmt, 0, args, 0, longBits))
  {
    hide Expansion, Matches, EndsInside, Written, Printed, ToInt;
    TotalIsLength(fmt, args, longBits);
    var size := size0;
    if dst == null {
      size := 0;
    } else if size == 0 {
      return 0;
    }
    ghost var before, out := Cells(dst), "";
    var pos, total, p, k := 0, 0, 0, 0;
    AllRemains(fmt, args, longBits, before, at, size);
    while p < |fmt|
      invariant Remaining(fmt, args, longBits, p, k, out, total) && pos == |out|
      invariant Written(before, Cells(dst), at, size, out)
      decreases |fmt| - p
    {
      p, k, pos, total, out := PutDirective(dst, at, size, pos, fmt, args, longBits, p, k, total, before, out);
    }
    NothingRemains(fmt, args, longBits, p, k, out, total);
    if dst != null && size > 0 {
      var idx := if pos < size then pos else size - 1;
      WrittenIsPrinted(before, dst[..], at, size, out);
      dst[at + idx] := '\0';
    }
    r := ToInt(total);
  }

  lemma AllRemains(fmt: string, args: seq<Arg>, longBits: nat, before: seq<char>, at: nat, size: nat)
    requires Matches(fmt, 0, args, 0, longBits)
    ensures Remaining(fmt, args, longBits, 0, 0, "", 0) && Written(before, before, at, size, "")
  {
  }

  lemma NothingRemains(fmt: string, args: seq<Arg>, longBits: nat, i: nat, k: nat, out: string, total: nat)
    requires Remaining(fmt, args, longBits, i, k, out, total) && i == |fmt|
    ensures out == Expansion(fmt, 0, args, 0, longBits) && total == Total(fmt, args, longBits)
  {
  }

  /** As an `int`, the total is the length of the text exactly when the format does not
      stop inside a specifier and the length is an `int`. */
  lemma TotalIsLength(fmt: string, args: seq<Arg>, longBits: nat)
    requires Matches(fmt, 0, args, 0, longBits)
    ensures ToInt(Total(fmt, args, longBits)) == |Expansion(fmt, 0, args, 0, longBits)| <==>
            !EndsInside(fmt, 0) && |Expansion(fmt, 0, args, 0, longBits)| < INT_LIMIT
  {
    hide Expansion, EndsInside;
  }

  /** A number printed by a format is read back by `cu_CString_strtoul`. */
  lemma FormatThenParse(c: char, num: nat, longBits: nat)
    requires c in "uxX" && LongWidth(longBits) && num < Pow2(longBits)
    ensures var fmt, args := ['%', 'l', c], [UnsignedArg(longBits, num)];
      && Matches(fmt, 0, args, 0, longBits)
      && var t := Expansion(fmt, 0, args, 0, longBits);
      && Strtoul.Standard(t, if c == 'u' then 10 else 16, Pow2(longBits) - 1) == Strtoul.Parsed(num, |t|)
      && !Strtoul.BarePrefix(t, if c == 'u' then 10 else 16)
      && !Strtoul.NegativeOverflow(t, if c == 'u' then 10 else 16, Pow2(longBits) - 1)
  {
    hide Pow2, Digits, Strtoul.Standard, Strtoul.BarePrefix, Strtoul.NegativeOverflow;
    var fmt, args := ['%', 'l', c], [UnsignedArg(longBits, num)];
    Strtoul.PrintThenParse(num, if c == 'u' then 10 else 16, c == 'X', Pow2(longBits) - 1);
    assert Modifier(fmt, 1) == (Long, 2);
    assert Matches(fmt, 3, args, 1, longBits) && Expansion(fmt, 3, args, 1, longBits) == "";
    var text := Digits(num, if c == 'u' then 10 else 16, c == 'X');
    assert Expansion(fmt, 0, args, 0, longBits) == text + "" == text;
  }
}
