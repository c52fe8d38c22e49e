/** What formats print: each conversion told by what it is for, and a format told by its
    parts. */
module Formatting {
  import opened Bits
  import opened Numerals
  import opened Printf
  import opened Reading

  predicate IsModifier(modifier: string) { modifier == "" || modifier == "l" || modifier == "ll" }

  /** The width of `int`, `long` and `long long`. */
  function BitsOf(modifier: string, longBits: nat): (bits: nat)
    ensures LongWidth(longBits) ==> bits == 32 || bits == 64
  {
    if modifier == "" then 32 else if modifier == "l" then longBits else 64
  }

  function Directive(modifier: string, c: char): string { "%" + modifier + [c] }

  /** A format of one directive prints the text of its argument. */
  lemma OneDirective(modifier: string, c: char, a: Arg, longBits: nat)
    requires IsModifier(modifier) && c != 'l' && TakesArg(c)
    ensures var fmt := Directive(modifier, c);
      && Modifier(fmt, 1).1 == |fmt| - 1 && WidthOf(Modifier(fmt, 1).0, longBits) == BitsOf(modifier, longBits)
      && (Matches(fmt, 0, [a], 0, longBits) <==> Suits(c, Modifier(fmt, 1).0, longBits, a))
      && (Matches(fmt, 0, [a], 0, longBits) ==> Expansion(fmt, 0, [a], 0, longBits) == Converted(c, a))
  {
    hide Suits, Converted, TakesArg, Pow2;
    var fmt := Directive(modifier, c);
    assert fmt[0] == '%' && fmt[|fmt| - 1] == c;
    var (length, j) := Modifier(fmt, 1);
    assert j == |fmt| - 1;
    assert Matches(fmt, |fmt|, [a], 1, longBits) && Expansion(fmt, |fmt|, [a], 1, longBits) == "";
    assert Matches(fmt, 0, [a], 0, longBits) ==> Expansion(fmt, 0, [a], 0, longBits) == Converted(c, a) + "";
  }

  /** `%d` and `%i` in every length: the text is read back as the value within the
      unsigned type of the same width, and has a minus sign exactly for a negative
      value. */
  lemma SignedRoundTrip(c: char, modifier: string, v: int, longBits: nat)
    requires (c == 'd' || c == 'i') && IsModifier(modifier) && LongWidth(longBits)
    requires Abs(v) < Pow2(BitsOf(modifier, longBits) - 1)
    ensures var bits := BitsOf(modifier, longBits);
      var fmt, args, limit := Directive(modifier, c), [SignedArg(bits, v)], Pow2(bits);
      && Matches(fmt, 0, args, 0, longBits)
      && var t := Expansion(fmt, 0, args, 0, longBits);
      && t != "" && (t[0] == '-' <==> v < 0)
      && Strtoul.Standard(t, 10, limit - 1) == Strtoul.Parsed(if v < 0 then limit + v else v, |t|)
      && !Strtoul.BarePrefix(t, 10) && !Strtoul.NegativeOverflow(t, 10, limit - 1)
  {
    hide Pow2, Digits, Strtoul.Standard, Strtoul.BarePrefix, Strtoul.NegativeOverflow, Modifier, Expansion, Matches,
      Signed;
    var bits := BitsOf(modifier, longBits);
    OneDirective(modifier, c, SignedArg(bits, v), longBits);
    SignedTextIsRead(v, bits);
  }

  lemma SignedTextIsRead(v: int, bits: nat)
    requires bits > 0 && Abs(v) < Pow2(bits - 1)
    ensures var t, limit := Signed(Abs(v), 10, false, v < 0), Pow2(bits);
      && t != "" && (t[0] == '-' <==> v < 0)
      && Strtoul.Standard(t, 10, limit - 1) == Strtoul.Parsed(if v < 0 then limit + v else v, |t|)
      && !Strtoul.BarePrefix(t, 10) && !Strtoul.NegativeOverflow(t, 10, limit - 1)
  {
    hide Pow2, Digits, Strtoul.Standard, Strtoul.BarePrefix, Strtoul.NegativeOverflow;
    var num := Abs(v);
    var t := Digits(num, 10, false);
    Pow2Monotone(bits - 1, bits);
    SignedNumberIsRead("", num, 10, false, Pow2(bits) - 1);
    NegatedIs(num, Pow2(bits) - 1);
    NumeralIsPlain(num, 10, false);
    assert "" + t == t && "" + "-" + t == "-" + t;
  }

  /** `%u`, `%x` and `%X` in every length: the text is read back as the value, has no
      leading zero, and letters of the case asked for. */
  lemma UnsignedRoundTrip(c: char, modifier: string, num: nat, longBits: nat)
    requires (c == 'u' || c == 'x' || c == 'X') && IsModifier(modifier) && LongWidth(longBits)
    requires num < Pow2(BitsOf(modifier, longBits))
    ensures var bits, base := BitsOf(modifier, longBits), if c == 'u' then 10 else 16;
      var fmt, args, max := Directive(modifier, c), [UnsignedArg(bits, num)], Pow2(bits) - 1;
      && Matches(fmt, 0, args, 0, longBits)
      && var t := Expansion(fmt, 0, args, 0, longBits);
      && Strtoul.Standard(t, base, max) == Strtoul.Parsed(num, |t|)
      && !Strtoul.BarePrefix(t, base) && !Strtoul.NegativeOverflow(t, base, max)
      && t != "" && (t[0] == '0' <==> num == 0)
      && forall i :: 0 <= i < |t| ==>
        '0' <= t[i] <= '9' || (if c == 'X' then 'A' <= t[i] <= 'F' else 'a' <= t[i] <= 'f')
  {
    hide Pow2, Digits, Strtoul.Standard, Strtoul.BarePrefix, Strtoul.NegativeOverflow, Modifier, Expansion, Matches;
    var bits, base := BitsOf(modifier, longBits), if c == 'u' then 10 else 16;
    OneDirective(modifier, c, UnsignedArg(bits, num), longBits);
    Strtoul.PrintThenParse(num, base, c == 'X', Pow2(bits) - 1);
    NumeralIsPlain(num, base, c == 'X');
  }

  /** `%p` prints `0x` and the address in lower case, which base 16 and base 0 read back. */
  lemma PointerRoundTrip(addr: nat, longBits: nat)
    requires addr < Pow2(64)
    ensures var args, max := [PointerArg(addr)], Pow2(64) - 1;
      && Matches("%p", 0, args, 0, longBits)
      && var t := Expansion("%p", 0, args, 0, longBits);
      && Strtoul.Standard(t, 16, max) == Strtoul.Standard(t, 0, max) == Strtoul.Parsed(addr, |t|)
      && |t| > 2 && t[0] == '0' && t[1] == 'x' && (t[2] == '0' <==> addr == 0)
      && forall i :: 2 <= i < |t| ==> '0' <= t[i] <= '9' || 'a' <= t[i] <= 'f'
  {
    hide Pow2, Digits, Strtoul.Standard, Modifier, Expansion, Matches;
    OneDirective("", 'p', PointerArg(addr), longBits);
    assert Directive("", 'p') == "%p";
    var t := Digits(addr, 16, false);
    NumeralIsPlain(addr, 16, false);
    Strtoul.DigitsAreRead(addr, 16, false);
    HexIsRead("", "", 'x', t, "", 16, Pow2(64) - 1);
    HexIsRead("", "", 'x', t, "", 0, Pow2(64) - 1);
    assert "" + "" + ['0', 'x'] + t + "" == "0x" + t;
  }

  /** `%c` prints one character, the one byte its code leaves. */
  lemma CharIsPrinted(code: int, longBits: nat)
    ensures var args := [CharArg(code)];
      && Matches("%c", 0, args, 0, longBits)
      && var t := Expansion("%c", 0, args, 0, longBits);
      |t| == 1 && 0 <= t[0] as int < 256 && (t[0] as int - code) % 256 == 0
  {
    hide Modifier, Expansion, Matches;
    OneDirective("", 'c', CharArg(code), longBits);
    assert Directive("", 'c') == "%c";
  }

  /** `%s` prints the text itself, and `(null)` when there is none. */
  lemma TextIsPrinted(text: string, longBits: nat)
    ensures var args := [TextArg(Chars(text))];
      Matches("%s", 0, args, 0, longBits) && Expansion("%s", 0, args, 0, longBits) == text
    ensures var args := [TextArg(NullText)];
      Matches("%s", 0, args, 0, longBits) && Expansion("%s", 0, args, 0, longBits) == "(null)"
  {
    hide Modifier, Expansion, Matches;
    OneDirective("", 's', TextArg(Chars(text)), longBits);
    OneDirective("", 's', TextArg(NullText), longBits);
    assert Directive("", 's') == "%s";
  }

  /** Without a percent sign a format prints itself. */
  lemma {:induction false} PlainIsPrinted(fmt: string, i: nat, longBits: nat)
    requires i <= |fmt| && '%' !in fmt
    ensures Matches(fmt, i, [], 0, longBits) && Expansion(fmt, i, [], 0, longBits) == fmt[i..] && !EndsInside(fmt, i)
    decreases |fmt| - i
  {
    if i < |fmt| { PlainIsPrinted(fmt, i + 1, longBits); }
  }

  /** Two percent signs print one, and a specifier the library does not know prints itself
      without its modifier. */
  lemma OthersArePrinted(modifier: string, c: char, longBits: nat)
    requires IsModifier(modifier) && c != 'l' && c !in "diuxXcsp"
    ensures var fmt := Directive(modifier, c);
      && Matches(fmt, 0, [], 0, longBits) && !EndsInside(fmt, 0)
      && Expansion(fmt, 0, [], 0, longBits) == if c == '%' then "%" else "%" + [c]
  {
    var fmt := Directive(modifier, c);
    assert fmt[0] == '%' && fmt[|fmt| - 1] == c;
    assert Modifier(fmt, 1).1 == |fmt| - 1;
    assert Expansion(fmt, |fmt|, [], 0, longBits) == "" && Matches(fmt, |fmt|, [], 0, longBits);
  }

  /** How many arguments the format takes from `i` on. */
  function Takes(fmt: string, i: nat): nat
    requires i <= |fmt|
    decreases |fmt| - i
  {
    if i == |fmt| then 0
    else if fmt[i] != '%' then Takes(fmt, i + 1)
    else
      var j := Modifier(fmt, i + 1).1;
      if j == |fmt| then 0 else (if TakesArg(fmt[j]) then 1 else 0) + Takes(fmt, j + 1)
  }

  /** A format in two parts, the first of them finished, prints the one after the other:
      the first takes its arguments first. */
  lemma PartsArePrinted(f: string, g: string, a: seq<Arg>, b: seq<Arg>, longBits: nat)
    requires !EndsInside(f, 0) && Takes(f, 0) == |a| && Matches(f, 0, a, 0, longBits) && Matches(g, 0, b, 0, longBits)
    ensures Matches(f + g, 0, a + b, 0, longBits) && (EndsInside(f + g, 0) <==> EndsInside(g, 0))
    ensures Expansion(f + g, 0, a + b, 0, longBits) == Expansion(f, 0, a, 0, longBits) + Expansion(g, 0, b, 0, longBits)
  {
    FirstPart(f, g, a, b, 0, 0, longBits);
  }

  /** A plain character prints itself. */
  lemma PlainStep(s: string, args: seq<Arg>, i: nat, k: nat, longBits: nat)
    requires i < |s| && s[i] != '%'
    ensures Matches(s, i, args, k, longBits) <==> Matches(s, i + 1, args, k, longBits)
    ensures (EndsInside(s, i) <==> EndsInside(s, i + 1)) && Takes(s, i) == Takes(s, i + 1)
    ensures Matches(s, i, args, k, longBits) ==>
      Expansion(s, i, args, k, longBits) == [s[i]] + Expansion(s, i + 1, args, k, longBits)
  {
  }

  /** A finished directive prints its piece. */
  lemma DirectiveStands(s: string, args: seq<Arg>, i: nat, k: nat, longBits: nat)
    requires i < |s| && s[i] == '%' && Modifier(s, i + 1).1 < |s|
    ensures var (length, j) := Modifier(s, i + 1);
      var l := if TakesArg(s[j]) then k + 1 else k;
      && (Matches(s, i, args, k, longBits) <==>
          (TakesArg(s[j]) ==> k < |args| && Suits(s[j], length, longBits, args[k])) &&
          Matches(s, j + 1, args, l, longBits))
      && (EndsInside(s, i) <==> EndsInside(s, j + 1)) && Takes(s, i) == l - k + Takes(s, j + 1)
      && (Matches(s, i, args, k, longBits) ==>
          Expansion(s, i, args, k, longBits) == Piece(s[j], args, k) + Expansion(s, j + 1, args, l, longBits))
  {
    hide Converted, Suits, TakesArg, Modifier;
  }

  function Piece(c: char, args: seq<Arg>, k: nat): string {
    if TakesArg(c) && k < |args| then Converted(c, args[k]) else if c == '%' then "%" else ['%', c]
  }

  lemma {:induction false} FirstPart(f: string, g: string, a: seq<Arg>, b: seq<Arg>, i: nat, k: nat, longBits: nat)
    requires i <= |f| && !EndsInside(f, i) && k + Takes(f, i) == |a|
    requires Matches(f, i, a, k, longBits) && Matches(g, 0, b, 0, longBits)
    ensures Matches(f + g, i, a + b, k, longBits) && (EndsInside(f + g, i) <==> EndsInside(g, 0))
    ensures Expansion(f + g, i, a + b, k, longBits) == Expansion(f, i, a, k, longBits) + Expansion(g, 0, b, 0, longBits)
    decreases |f| - i
  {
    hide Converted, Suits, TakesArg, Modifier, Matches, Expansion, EndsInside, Takes, Piece;
    if i == |f| {
      Ends(f, a, k, longBits);
      SecondPart(f, g, a, b, 0, 0, longBits);
      return;
    }
    var s, args := f + g, a + b;
    assert s[i] == f[i];
    if f[i] != '%' {
      PlainStep(f, a, i, k, longBits);
      PlainStep(s, args, i, k, longBits);
      FirstPart(f, g, a, b, i + 1, k, longBits);
      Regroup([f[i]], Expansion(f, i + 1, a, k, longBits), Expansion(g, 0, b, 0, longBits));
    } else {
      Finished(f, i);
      SameModifier(f, g, i + 1);
      var j := Modifier(f, i + 1).1;
      var l := if TakesArg(f[j]) then k + 1 else k;
      assert s[j] == f[j];
      DirectiveStands(f, a, i, k, longBits);
      DirectiveStands(s, args, i, k, longBits);
      SamePiece(f[j], a, b, k);
      FirstPart(f, g, a, b, j + 1, l, longBits);
      Regroup(Piece(f[j], a, k), Expansion(f, j + 1, a, l, longBits), Expansion(g, 0, b, 0, longBits));
    }
  }

  lemma Ends(s: string, args: seq<Arg>, k: nat, longBits: nat)
    ensures Matches(s, |s|, args, k, longBits) && Expansion(s, |s|, args, k, longBits) == ""
    ensures !EndsInside(s, |s|) && Takes(s, |s|) == 0
  {
  }

  lemma Finished(s: string, i: nat)
    requires i < |s| && s[i] == '%'
    ensures EndsInside(s, i) <== Modifier(s, i + 1).1 == |s|
  {
    hide Modifier;
  }

  lemma Regroup(a: string, b: string, c: string)
    ensures a + (b + c) == a + b + c
  {
  }

  lemma SamePiece(c: char, a: seq<Arg>, b: seq<Arg>, k: nat)
    ensures TakesArg(c) && k < |a| ==> (a + b)[k] == a[k]
    ensures TakesArg(c) ==> k < |a| ==> Piece(c, a + b, k) == Piece(c, a, k)
    ensures !TakesArg(c) ==> Piece(c, a + b, k) == Piece(c, a, k)
  {
  }

  lemma SameModifier(f: string, g: string, i: nat)
    requires i <= |f| && Modifier(f, i).1 < |f|
    ensures Modifier(f + g, i) == Modifier(f, i)
  {
  }

  lemma {:induction false} SecondPart(f: string, g: string, a: seq<Arg>, b: seq<Arg>, i: nat, k: nat, longBits: nat)
    requires i <= |g| && Matches(g, i, b, k, longBits)
    ensures Matches(f + g, |f| + i, a + b, |a| + k, longBits) && (EndsInside(f + g, |f| + i) <==> EndsInside(g, i))
    ensures Expansion(f + g, |f| + i, a + b, |a| + k, longBits) == Expansion(g, i, b, k, longBits)
    decreases |g| - i
  {
    hide Converted, Suits, TakesArg, Modifier, Matches, Expansion, EndsInside, Takes, Piece;
    if i == |g| {
      Ends(g, b, k, longBits);
      Ends(f + g, a + b, |a| + k, longBits);
      return;
    }
    ShiftedModifier(f, g, i + 1);
    if g[i] == '%' && Modifier(g, i + 1).1 == |g| {
      LastPart(f, g, a, b, i, k, longBits);
      return;
    }
    var s, args := f + g, a + b;
    assert s[|f| + i] == g[i];
    if g[i] != '%' {
      PlainStep(g, b, i, k, longBits);
      PlainStep(s, args, |f| + i, |a| + k, longBits);
      SecondPart(f, g, a, b, i + 1, k, longBits);
    } else {
      var j := Modifier(g, i + 1).1;
      assert s[|f| + j] == g[j];
      DirectiveStands(g, b, i, k, longBits);
      DirectiveStands(s, args, |f| + i, |a| + k, longBits);
      ShiftedPiece(g[j], a, b, k);
      SecondPart(f, g, a, b, j + 1, if TakesArg(g[j]) then k + 1 else k, longBits);
    }
  }

  lemma LastPart(f: string, g: string, a: seq<Arg>, b: seq<Arg>, i: nat, k: nat, longBits: nat)
    requires i < |g| && g[i] == '%' && Modifier(g, i + 1).1 == |g| && Matches(g, i, b, k, longBits)
    requires Modifier(f + g, |f| + i + 1).1 == |f + g|
    ensures Matches(f + g, |f| + i, a + b, |a| + k, longBits) && EndsInside(f + g, |f| + i) && EndsInside(g, i)
    ensures Expansion(f + g, |f| + i, a + b, |a| + k, longBits) == Expansion(g, i, b, k, longBits)
  {
    hide Converted, Suits, TakesArg, Modifier;
    assert (f + g)[|f| + i] == g[i];
  }

  lemma ShiftedPiece(c: char, a: seq<Arg>, b: seq<Arg>, k: nat)
    ensures k < |b| ==> (a + b)[|a| + k] == b[k]
    ensures Piece(c, a + b, |a| + k) == Piece(c, b, k)
  {
  }

  lemma ShiftedModifier(f: string, g: string, i: nat)
    requires i <= |g|
    ensures var (length, j) := Modifier(g, i); Modifier(f + g, |f| + i) == (length, |f| + j)
  {
  }
}
