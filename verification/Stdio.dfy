/** Printing and parsing of numbers (abstract-machine/klib/src/stdio.c and stdlib.c): sitoa,
    vsprintf, and atoi. A string stands for the characters before its terminating zero. */
module Stdio {
  import opened Bits
  import opened Options

  const INT_MAX := 0x7fff_ffff
  const WORD := 0x1_0000_0000

  // A result as a 32-bit int holds it.
  function Wrap(x: int): int {
    var low := x % WORD;
    if low > INT_MAX then low - WORD else low
  }

  lemma WrapIs(x: int)
    requires -INT_MAX - 1 <= x <= INT_MAX
    ensures Wrap(x) == x
  {}

  // ------------------------------------------------------------------------- digits

  predicate IsBase(base: nat) { base == 2 || base == 10 || base == 16 }

  // (rem <= 9) ? (rem + '0') : (rem + 'a' - 0xA)
  function Digit(d: nat): char
    requires d < 16
  {
    if d <= 9 then ('0' as int + d) as char else ('a' as int + d - 10) as char
  }

  function DigitValue(c: char): int {
    if '0' <= c <= '9' then c as int - '0' as int else c as int - 'a' as int + 10
  }

  // What a sequence of digits denotes.
  ghost function Value(s: string, base: nat): int {
    if s == "" then 0 else Value(s[..|s| - 1], base) * base + DigitValue(s[|s| - 1])
  }

  // num / base and num % base
  function Div(n: nat, base: nat): (q: nat)
    requires IsBase(base)
    ensures q == n / base && q <= n / 2
  {
    if base == 2 then n / 2 else if base == 10 then n / 10 else n / 16
  }

  function Mod(n: nat, base: nat): (r: nat)
    requires IsBase(base)
    ensures r < base && n == Div(n, base) * base + r
  {
    if base == 2 then n % 2 else if base == 10 then n % 10 else n % 16
  }

  // The digits of a number.
  ghost function Digits(n: nat, base: nat): string
    requires IsBase(base)
  {
    if Div(n, base) == 0 then [Digit(Mod(n, base))] else Digits(Div(n, base), base) + [Digit(Mod(n, base))]
  }

  // They denote it, and none could be left out.
  lemma {:induction false} DigitsDenote(n: nat, base: nat)
    requires IsBase(base)
    ensures Value(Digits(n, base), base) == n && Digits(n, base) != ""
    ensures forall i :: 0 <= i < |Digits(n, base)| ==> 0 <= DigitValue(Digits(n, base)[i]) < base
    ensures n > 0 ==> Digits(n, base)[0] != '0'
  {
    var q, r, s := Div(n, base), Mod(n, base), Digits(n, base);
    if q == 0 {
      assert s[..|s| - 1] == "";
      assert Value("", base) == 0;
    } else {
      DigitsDenote(q, base);
      assert s[..|s| - 1] == Digits(q, base);
    }
  }

  lemma {:induction false} DecimalDigits(n: nat)
    ensures forall i :: 0 <= i < |Digits(n, 10)| ==> '0' <= Digits(n, 10)[i] <= '9'
  {
    if Div(n, 10) != 0 { DecimalDigits(Div(n, 10)); }
  }

  // Leading zeros denote nothing.
  lemma {:induction false} LeadingZeros(k: nat, s: string, base: nat)
    ensures Value(Fill(k, true) + s, base) == Value(s, base)
  {
    if s != "" {
      LeadingZeros(k, s[..|s| - 1], base);
      assert (Fill(k, true) + s)[..k + |s| - 1] == Fill(k, true) + s[..|s| - 1];
    } else if k > 0 {
      LeadingZeros(k - 1, "", base);
      assert Fill(k, true) + "" == Fill(k, true);
      assert Fill(k, true)[..k - 1] == Fill(k - 1, true) + "";
    }
  }

  // -------------------------------------------------------------------------- sitoa

  ghost function Fill(k: int, zero: bool): string {
    seq(if k < 0 then 0 else k, _ => if zero then '0' else ' ')
  }

  // A number in a field: fill up to the width, the sign, the digits.
  ghost function Field(n: nat, width: int, base: nat, zero: bool, sign: string): string
    requires IsBase(base)
  {
    Fill(width - |Digits(n, base)|, zero) + sign + Digits(n, base)
  }

  // The sign is not counted in the width.
  lemma FieldLength(n: nat, width: int, base: nat, zero: bool, sign: string)
    requires IsBase(base)
    ensures var d, f := |Digits(n, base)|, Field(n, width, base, zero, sign);
      && |f| == (if width > d then width else d) + |sign|
      && Value(f[|f| - d..], base) == n
  {
    var f := Field(n, width, base, zero, sign);
    assert f[|f| - |Digits(n, base)|..] == Digits(n, base);
    DigitsDenote(n, base);
  }

  ghost function Reversed(s: string): string {
    if s == "" then "" else Reversed(s[1..]) + [s[0]]
  }

  lemma {:induction false} ReversedAppend(s: string, c: char)
    ensures Reversed(s + [c]) == [c] + Reversed(s)
  {
    if s == "" {
      assert "" + [c] == [c];
      assert [c][1..] == "" && Reversed("") == "";
    } else {
      ReversedAppend(s[1..], c);
      assert (s + [c])[1..] == s[1..] + [c];
    }
  }

  lemma {:induction false} ReversedLength(s: string)
    ensures |Reversed(s)| == |s|
  {
    if s != "" { ReversedLength(s[1..]); }
  }

  lemma DigitsStep(n: nat, base: nat)
    requires IsBase(base)
    ensures Digits(n, base) == if Div(n, base) == 0 then "" + [Digit(Mod(n, base))]
                               else Digits(Div(n, base), base) + [Digit(Mod(n, base))]
  {}

  // One digit more is taken off.
  lemma DigitTaken(all: string, rest: string, c: char, written: string)
    requires all == rest + [c] + Reversed(written)
    ensures all == rest + Reversed(written + [c])
  {
    ReversedAppend(written, c);
    assert rest + [c] + Reversed(written) == rest + ([c] + Reversed(written));
  }

  ghost function Rest(n: nat, base: nat): string
    requires IsBase(base)
  {
    if n == 0 then "" else Digits(n, base)
  }

  lemma LastDigit(all: string, n: nat, base: nat, written: string)
    requires IsBase(base) && all == Digits(n, base) + Reversed(written)
    ensures all == Rest(Div(n, base), base) + Reversed(written + [Digit(Mod(n, base))])
  {
    DigitsStep(n, base);
    DigitTaken(all, Rest(Div(n, base), base), Digit(Mod(n, base)), written);
  }

  lemma HalfFits(n: nat, q: nat, k: nat)
    requires k >= 1 && n < Pow2(k) && q <= n / 2
    ensures q < Pow2(k - 1) && (q > 0 ==> k > 1)
  {
    assert Pow2(k) == 2 * Pow2(k - 1);
    if k == 1 { assert Pow2(0) == 1; }
  }

  // sitoa's first loop: the digits into tmp, last one first; tmp has room for all.
  method PutDigits(tmp: array<char>, num: nat, base: nat) returns (p: nat)
    requires tmp.Length == 32 && num < WORD && IsBase(base)
    modifies tmp
    ensures 1 <= p <= 32 && Reversed(tmp[..p]) == Digits(num, base)
  {
    assert Pow2(32) == WORD by { Pow2Values(); }
    p := 0;
    var n: nat := num;
    var more := true;
    ghost var all, written := Digits(num, base), "";
    ghost var room: nat := 32;
    assert Reversed("") == "";
    while more
      invariant p + room == 32 && n < Pow2(room) && (more ==> room > 0) && (more || p >= 1)
      invariant tmp[..p] == written
      invariant all == (if more then Digits(n, base) else "") + Reversed(written)
      decreases if more then n + 1 else 0
    {
      LastDigit(all, n, base, written);
      HalfFits(n, Div(n, base), room);
      var rem := Mod(n, base);
      tmp[p] := Digit(rem);
      p := p + 1;
      n := Div(n, base);
      more := n != 0;
      written, room := written + [Digit(rem)], room - 1;
    }
  }

  // sitoa's second loop: w characters of fill.
  method PutFill(buf: string, width: int, zero: bool) returns (out: string)
    ensures out == buf + Fill(width, zero)
  {
    var fill := if zero then '0' else ' ';
    var w := width;
    out := buf;
    w := w - 1;
    ghost var done := 0;
    while 0 <= w
      invariant done >= 0 && (width >= 0 ==> w == width - 1 - done >= -1) && (width < 0 ==> w < 0 && done == 0)
      invariant out == buf + Fill(done, zero)
    {
      out := out + [fill];
      w, done := w - 1, done + 1;
    }
    assert Fill(done, zero) == Fill(width, zero);
  }

  // sitoa's last loop: tmp from p down.
  method PutBack(buf: string, tmp: array<char>, p0: nat) returns (out: string)
    requires 1 <= p0 <= tmp.Length
    ensures out == buf + Reversed(tmp[..p0])
  {
    out := buf;
    var p := p0;
    var more := true;
    ghost var all := tmp[..p0];
    assert all[..p] == all;
    while more
      invariant 0 <= p <= p0 && (more <==> p > 0)
      invariant out + Reversed(all[..p]) == buf + Reversed(all)
      decreases p
    {
      assert all[..p] == all[..p - 1] + [all[p - 1]];
      ReversedAppend(all[..p - 1], all[p - 1]);
      p := p - 1;
      out := out + [tmp[p]];
      more := 0 < p;
    }
    assert Reversed(all[..0]) == "";
  }

  // enum flag_itoa
  datatype Flags = Flags(zero: bool, plus: bool, minus: bool, base2: bool, base10: bool)

  function BaseOf(flags: Flags): nat { if flags.base2 then 2 else if flags.base10 then 10 else 16 }

  function Sign(flags: Flags): string { if flags.minus then "-" else if flags.plus then "+" else "" }

  // sitoa: what buf points to afterwards is out.
  method Sitoa(buf: string, num: nat, width: int, flags: Flags) returns (out: string)
    requires num < WORD
    ensures out == buf + Field(num, width, BaseOf(flags), flags.zero, Sign(flags))
  {
    var base := if flags.base2 then 2 else if flags.base10 then 10 else 16;
    var tmp := new char[32];
    var p := PutDigits(tmp, num, base);
    ReversedLength(tmp[..p]);
    out := PutFill(buf, width - p, flags.zero);
    if flags.minus {
      out := out + ['-'];
    } else if flags.plus {
      out := out + ['+'];
    }
    out := PutBack(out, tmp, p);
    FieldParts(buf, Fill(width - p, flags.zero), Sign(flags), Reversed(tmp[..p]));
  }

  lemma FieldParts(buf: string, fill: string, sign: string, digits: string)
    ensures buf + fill + sign + digits == buf + (fill + sign + digits)
    ensures buf + fill + "" == buf + fill
  {}

  // --------------------------------------------------------------------------- atoi

  // x * 10 + c - '0' as 32-bit ints hold the parts.
  function Step(x: int, c: char): int {
    Wrap(Wrap(Wrap(x * 10) + c as int) - '0' as int)
  }

  // Wrapping at each step is wrapping at the end.
  lemma WrapAdd(x: int, y: int)
    ensures Wrap(Wrap(x) + y) == Wrap(x + y)
  {
    var k := Turns(x);
    WrapTurns(x + y, k);
  }

  lemma WrapTen(x: int)
    ensures Wrap(Wrap(x) * 10) == Wrap(x * 10)
  {
    var k := Turns(x);
    WrapTurns(x * 10, 10 * k);
  }

  lemma Turns(x: int) returns (k: int)
    ensures Wrap(x) == x + WORD * k
  {
    k := if x % WORD > INT_MAX then -(x / WORD) - 1 else -(x / WORD);
  }

  lemma WrapTurns(x: int, k: int)
    ensures Wrap(x + WORD * k) == Wrap(x)
  {
    var q, r := x / WORD, x % WORD;
    assert x + WORD * k == WORD * (q + k) + r;
    DivUnique(x + WORD * k, WORD, q + k, r);
  }

  lemma StepIs(v: int, c: char)
    ensures Step(Wrap(v), c) == Wrap(v * 10 + (c as int - '0' as int))
  {
    WrapTen(v);
    WrapAdd(v * 10, c as int);
    WrapAdd(v * 10 + c as int, -('0' as int));
  }

  // How many spaces, and how many digits, a text starts with.
  ghost function Spaces(s: string): nat { if s != "" && s[0] == ' ' then 1 + Spaces(s[1..]) else 0 }

  predicate Decimal(c: char) { '0' <= c <= '9' }

  ghost function Leading(s: string): nat { if s != "" && Decimal(s[0]) then 1 + Leading(s[1..]) else 0 }

  lemma {:induction false} SpacesAre(s: string)
    ensures Spaces(s) <= |s| && forall i :: 0 <= i < Spaces(s) ==> s[i] == ' '
    ensures Spaces(s) < |s| ==> s[Spaces(s)] != ' '
  {
    if s != "" && s[0] == ' ' { SpacesAre(s[1..]); }
  }

  lemma {:induction false} LeadingAre(s: string)
    ensures Leading(s) <= |s| && forall i :: 0 <= i < Leading(s) ==> Decimal(s[i])
    ensures Leading(s) < |s| ==> !Decimal(s[Leading(s)])
  {
    if s != "" && Decimal(s[0]) { LeadingAre(s[1..]); }
  }

  // The number that a text starts with, after spaces.
  ghost function Parsed(s: string): int {
    SpacesAre(s);
    LeadingAre(s[Spaces(s)..]);
    Value(s[Spaces(s)..][..Leading(s[Spaces(s)..])], 10)
  }

  // atoi: that number, as a 32-bit int holds it.
  method Atoi(s: string) returns (x: int)
    ensures x == Wrap(Parsed(s))
  {
    SpacesAre(s);
    x := 0;
    var i := 0;
    while i < |s| && s[i] == ' '
      invariant 0 <= i <= Spaces(s)
    {
      i := i + 1;
    }
    ghost var rest := s[i..];
    LeadingAre(rest);
    ghost var k := 0;
    while i < |s| && '0' <= s[i] <= '9'
      invariant 0 <= k <= Leading(rest) && i == Spaces(s) + k && x == Wrap(Value(rest[..k], 10))
      decreases |s| - i
    {
      assert s[i] == rest[k];
      assert rest[..k + 1][..k] == rest[..k];
      StepIs(Value(rest[..k], 10), s[i]);
      x := Step(x, s[i]);
      i, k := i + 1, k + 1;
    }
    assert k == Leading(rest);
  }

  // ------------------------------------------------------------------- round trip

  // Spaces, then digits, then anything that is no digit: the number is that of the digits, and 0
  // without any.
  lemma ParsedMeans(k: nat, digits: string, rest: string)
    requires forall i :: 0 <= i < |digits| ==> Decimal(digits[i])
    requires rest != "" ==> !Decimal(rest[0]) && (digits == "" ==> rest[0] != ' ')
    ensures Parsed(Fill(k, false) + (digits + rest)) == Value(digits, 10)
  {
    var s := digits + rest;
    SkipSpaces(k, s);
    assert (Fill(k, false) + s)[k..] == s;
    LeadingOf(digits, rest);
    assert s[..|digits|] == digits;
  }

  lemma {:induction false} LeadingOf(digits: string, rest: string)
    requires (forall i :: 0 <= i < |digits| ==> Decimal(digits[i])) && (rest != "" ==> !Decimal(rest[0]))
    ensures Leading(digits + rest) == |digits|
  {
    if digits == "" {
      assert "" + rest == rest;
    } else {
      LeadingOf(digits[1..], rest);
      assert (digits + rest)[1..] == digits[1..] + rest;
    }
  }

  lemma {:induction false} SkipSpaces(k: nat, s: string)
    requires s == "" || s[0] != ' '
    ensures Spaces(Fill(k, false) + s) == k
  {
    if k > 0 {
      SkipSpaces(k - 1, s);
      assert (Fill(k, false) + s)[1..] == Fill(k - 1, false) + s;
    } else {
      assert Fill(k, false) + s == s;
    }
  }

  // Spaces and then digits only.
  lemma ParsedDigits(k: nat, s: string)
    requires s != "" && forall i :: 0 <= i < |s| ==> Decimal(s[i])
    ensures Parsed(Fill(k, false) + s) == Value(s, 10)
  {
    ParsedMeans(k, s, "");
    assert s + "" == s;
  }

  lemma NoSign(fill: string, digits: string)
    ensures fill + "" + digits == fill + digits
    ensures Fill(0, false) + digits == digits
  {}

  // Digits, with or without leading zeros.
  lemma ParsedFilled(m: nat, zero: bool, s: string)
    requires s != "" && forall i :: 0 <= i < |s| ==> Decimal(s[i])
    ensures Parsed(Fill(m, zero) + s) == Value(s, 10)
  {
    if zero {
      LeadingZeros(m, s, 10);
      NoSign("", Fill(m, true) + s);
      ParsedDigits(0, Fill(m, true) + s);
    } else {
      ParsedDigits(m, s);
    }
  }

  // Parsing undoes printing without a sign, whatever the width and the fill.
  lemma ParsedField(n: nat, width: int, zero: bool)
    ensures Parsed(Field(n, width, 10, zero, "")) == n
  {
    var s := Digits(n, 10);
    DigitsDenote(n, 10); DecimalDigits(n);
    var k := width - |s|;
    NoSign(Fill(k, zero), s);
    assert Fill(k, zero) == Fill(|Fill(k, zero)|, zero);
    ParsedFilled(|Fill(k, zero)|, zero, s);
  }

  // ------------------------------------------------------------------ prefixes of numbers

  lemma {:induction false} ValuePrefix(s: string, j: nat)
    requires j <= |s| && forall i :: 0 <= i < |s| ==> Decimal(s[i])
    ensures 0 <= Value(s[..j], 10) <= Value(s, 10)
    decreases |s|
  {
    if j == |s| {
      assert s[..j] == s;
      if s != "" { ValuePrefix(s[..|s| - 1], |s| - 1); assert s[..|s| - 1][..|s| - 1] == s[..|s| - 1]; }
    } else {
      ValuePrefix(s[..|s| - 1], j);
      assert s[..|s| - 1][..j] == s[..j];
    }
  }

  lemma ValueNext(s: string, j: nat)
    requires j < |s|
    ensures Value(s[..j + 1], 10) == Value(s[..j], 10) * 10 + DigitValue(s[j])
  {
    assert s[..j + 1][..j] == s[..j];
  }

  // The sum that atoi forms at digit j, before it takes '0' off.
  ghost function Sum(s: string, j: nat): int
    requires j < |s|
  {
    Value(s[..j], 10) * 10 + s[j] as int
  }

  ghost predicate InRange(s: string) {
    forall j {:trigger Sum(s, j)} :: 0 <= j < |s| ==> Sum(s, j) <= INT_MAX
  }

  lemma SumBound(s: string, j: nat)
    requires j < |s| && forall i :: 0 <= i < |s| ==> Decimal(s[i])
    ensures Sum(s, j) == Value(s[..j + 1], 10) + 48 <= Value(s, 10) + 48
  {
    ValueNext(s, j);
    ValuePrefix(s, j + 1);
  }

  // No sum in atoi leaves the range of int, except for the last 48 numbers up to INT_MAX, which
  // it reads only because int wraps.
  lemma InRangeExactly(n: nat)
    ensures InRange(Digits(n, 10)) <==> n <= INT_MAX - 48
  {
    var s := Digits(n, 10);
    DigitsDenote(n, 10); DecimalDigits(n);
    forall j | 0 <= j < |s|
      ensures Sum(s, j) <= n + 48
    {
      SumBound(s, j);
    }
    var last: nat := |s| - 1;
    SumBound(s, last);
    assert s[..last + 1] == s;
    assert Sum(s, last) == n + 48;
  }

  // ----------------------------------------------------------------------- vsprintf

  // A conversion: what stands between % and its letter, the letter, and the rest.
  datatype Conversion = Conversion(width: int, zero: bool, plus: bool, c: char, rest: string)

  ghost function Directive(f: string, width: int, zero: bool, plus: bool): (d: Option<Conversion>)
    ensures d.Some? ==> |d.value.rest| < |f|
  {
    if f == "" then None
    else if f[0] == '0' then Directive(f[1..], Step(width, '0'), zero || width == 0, plus)
    else if '1' <= f[0] <= '9' then Directive(f[1..], Step(width, f[0]), zero, plus)
    else if f[0] == '+' then Directive(f[1..], width, zero, true)
    else Some(Conversion(width, zero, plus, f[0], f[1..]))
  }

  function Magnitude(arg: int): nat { if arg < 0 then -arg else arg }

  function Unsigned(arg: int): int { if arg < 0 then arg + WORD else arg }

  // An argument: an int, or a string that may be NULL.
  datatype Arg = Int(n: int) | Str(s: Option<string>)

  predicate IsArg(arg: Arg) { arg.Int? ==> -INT_MAX - 1 <= arg.n <= INT_MAX }

  // Does the conversion take such an argument?
  predicate Takes(c: char, arg: Arg) {
    if c == 's' then arg.Str? else arg.Int? && (c == 'c' || c == 'd' || c == 'u' || c == 'p' || c == 'x' || c == 'b')
  }

  // (char) arg
  function Char(arg: int): char { (arg % 256) as char }

  // %p prints 12 digits at least, whatever width stands before it.
  ghost function Converted(d: Conversion, arg: Arg): string
    requires Takes(d.c, arg) && IsArg(arg)
  {
    var plus := if d.plus then "+" else "";
    match d.c
    case 's' => if arg.s.Some? then arg.s.value else ""
    case 'c' => [Char(arg.n)]
    case 'd' => Field(Magnitude(arg.n), d.width, 10, d.zero, if arg.n < 0 then "-" else plus)
    case 'u' => Field(Unsigned(arg.n), d.width, 10, d.zero, plus)
    case 'p' => Field(Unsigned(arg.n), 12, 16, true, plus)
    case 'x' => Field(Unsigned(arg.n), d.width, 16, d.zero, plus)
    case _ => Field(Unsigned(arg.n), d.width, 2, d.zero, plus)
  }

  ghost function After(s: string, t: Option<string>): Option<string> {
    match t case None => None case Some(u) => Some(s + u)
  }

  // What a format prints; nothing if it has a conversion that is not one of these, or one whose
  // argument is missing or of the other kind.
  ghost function Formatted(f: string, args: seq<Arg>): Option<string>
    requires forall i :: 0 <= i < |args| ==> IsArg(args[i])
    decreases |f|
  {
    if f == "" then Some("")
    else if f[0] != '%' then After([f[0]], Formatted(f[1..], args))
    else
      match Directive(f[1..], 0, false, false)
      case None => None
      case Some(d) =>
        if d.c == '%' then After("%", Formatted(d.rest, args))
        else if args != [] && Takes(d.c, args[0]) then After(Converted(d, args[0]), Formatted(d.rest, args[1..]))
        else None
  }

  // vsprintf from redo_spec to the letter of the conversion.
  method ReadDirective(fmt: string, from: nat) returns (d: Option<Conversion>, next: nat)
    requires from <= |fmt|
    ensures d == Directive(fmt[from..], 0, false, false)
    ensures d.Some? ==> from < next <= |fmt| && d.value.rest == fmt[next..]
  {
    var width, zero, plus := 0, false, false;
    next := from;
    while next < |fmt|
      invariant from <= next <= |fmt|
      invariant Directive(fmt[from..], 0, false, false) == Directive(fmt[next..], width, zero, plus)
    {
      var c := fmt[next];
      assert fmt[next..][1..] == fmt[next + 1..];
      next := next + 1;
      if '0' <= c <= '9' {
        if c == '0' && width == 0 { zero := true; }
        width := Step(width, c);
      } else if c == '+' {
        plus := true;
      } else {
        return Some(Conversion(width, zero, plus, c, fmt[next..])), next;
      }
    }
    return None, next;
  }

  // %s: the loop that copies p.
  method PutString(out: string, p: string) returns (out': string)
    ensures out' == out + p
  {
    out' := out;
    var i := 0;
    while i < |p|
      invariant 0 <= i <= |p| && out' == out + p[..i]
    {
      out', i := out' + [p[i]], i + 1;
    }
    assert p[..i] == p;
  }

  // One conversion of vsprintf.
  method Convert(out: string, d: Conversion, arg: Arg) returns (out': string)
    requires Takes(d.c, arg) && IsArg(arg)
    ensures out' == out + Converted(d, arg)
  {
    if d.c == 's' {
      match arg.s
      case Some(p) => out' := PutString(out, p);
      case None => out' := out;
    } else if d.c == 'c' {
      out' := out + [Char(arg.n)];
    } else {
      out' := ConvertNumber(out, d, arg.n);
    }
  }

  method ConvertNumber(out: string, d: Conversion, arg: int) returns (out': string)
    requires Takes(d.c, Int(arg)) && IsArg(Int(arg)) && d.c != 'c'
    ensures out' == out + Converted(d, Int(arg))
  {
    var flags := Flags(d.zero, d.plus, false, false, false);
    if d.c == 'd' {
      var num := arg;
      if num < 0 {
        num := -num;
        flags := flags.(minus := true);
      }
      out' := Sitoa(out, num, d.width, flags.(base10 := true));
    } else if d.c == 'u' {
      out' := Sitoa(out, Unsigned(arg), d.width, flags.(base10 := true));
    } else if d.c == 'p' {
      out' := Sitoa(out, Unsigned(arg), 12, flags.(zero := true));
    } else if d.c == 'x' {
      out' := Sitoa(out, Unsigned(arg), d.width, flags);
    } else {
      out' := Sitoa(out, Unsigned(arg), d.width, flags.(base2 := true));
    }
  }

  // vsprintf; None stands for its assertion, and for arguments that do not suit the format.
  method Vsprintf(fmt: string, args: seq<Arg>) returns (r: Option<string>)
    requires forall i :: 0 <= i < |args| ==> IsArg(args[i])
    ensures r == Formatted(fmt, args)
  {
    var out, i, k := "", 0, 0;
    AfterNothing(Formatted(fmt, args));
    assert fmt[0..] == fmt && args[0..] == args;
    while i < |fmt|
      invariant 0 <= i <= |fmt| && 0 <= k <= |args|
      invariant Formatted(fmt, args) == After(out, Formatted(fmt[i..], args[k..]))
      decreases |fmt| - i
    {
      ghost var before := out;
      if fmt[i] != '%' {
        assert fmt[i..][1..] == fmt[i + 1..];
        AfterAfter(out, [fmt[i]], Formatted(fmt[i + 1..], args[k..]));
        out, i := out + [fmt[i]], i + 1;
      } else {
        assert fmt[i..][1..] == fmt[i + 1..];
        var d, next := ReadDirective(fmt, i + 1);
        if d.None? { return None; }
        if d.value.c == '%' {
          AfterAfter(out, "%", Formatted(fmt[next..], args[k..]));
          out := out + "%";
        } else if k < |args| && Takes(d.value.c, args[k]) {
          assert args[k..][1..] == args[k + 1..];
          AfterAfter(out, Converted(d.value, args[k]), Formatted(fmt[next..], args[k + 1..]));
          out := Convert(out, d.value, args[k]);
          k := k + 1;
        } else {
          return None;
        }
        i := next;
      }
    }
    assert fmt[i..] == "" && out + "" == out;
    return Some(out);
  }

  lemma AfterNothing(t: Option<string>)
    ensures After("", t) == t
  {
    if t.Some? { assert "" + t.value == t.value; }
  }

  lemma AfterAfter(a: string, b: string, t: Option<string>)
    ensures After(a, After(b, t)) == After(a + b, t)
  {
    if t.Some? { assert a + (b + t.value) == a + b + t.value; }
  }

  // ------------------------------------------------------------- what a format prints

  // What stands between % and the letter: digits and plus signs in any order.
  ghost predicate IsSpec(w: string) {
    && (forall i {:trigger w[i]} :: 0 <= i < |w| ==> Decimal(w[i]) || w[i] == '+')
    && Value(DigitsOnly(w), 10) <= INT_MAX
  }

  ghost function DigitsOnly(w: string): (d: string)
    ensures forall i :: 0 <= i < |d| ==> Decimal(d[i])
  {
    if w == "" then "" else (if Decimal(w[0]) then [w[0]] else "") + DigitsOnly(w[1..])
  }

  ghost predicate FillsWithZero(w: string) { DigitsOnly(w) != "" && DigitsOnly(w)[0] == '0' }

  lemma DigitRead(pre: string, c: char, rest: string, zero: bool, plus: bool)
    requires Decimal(c) && Value(pre, 10) >= 0 && Value(pre + [c], 10) <= INT_MAX
    ensures Directive([c] + rest, Value(pre, 10), zero, plus)
      == Directive(rest, Value(pre + [c], 10), zero || (c == '0' && Value(pre, 10) == 0), plus)
  {
    var width := Value(pre, 10);
    assert (pre + [c])[..|pre|] == pre;
    assert ([c] + rest)[1..] == rest;
    WrapIs(width);
    StepIs(width, c);
    WrapIs(width * 10 + DigitValue(c));
  }

  lemma ValueGrows(s: string, t: string)
    requires forall i :: 0 <= i < |s + t| ==> Decimal((s + t)[i])
    ensures 0 <= Value(s, 10) <= Value(s + t, 10)
  {
    ValuePrefix(s + t, |s|);
    assert (s + t)[..|s|] == s;
  }

  // ... read on from where the digits pre have been read.
  lemma {:induction false} SpecRead(pre: string, w: string, c: char, rest: string, zero: bool, plus: bool)
    requires forall i {:trigger w[i]} :: 0 <= i < |w| ==> Decimal(w[i]) || w[i] == '+'
    requires (forall i :: 0 <= i < |pre| ==> Decimal(pre[i])) && Value(pre + DigitsOnly(w), 10) <= INT_MAX
    requires !Decimal(c) && c != '+'
    ensures Directive(w + [c] + rest, Value(pre, 10), zero, plus)
      == Some(Conversion(Value(pre + DigitsOnly(w), 10), zero || (Value(pre, 10) == 0 && FillsWithZero(w)),
                         plus || '+' in w, c, rest))
    decreases |w|
  {
    ValueGrows(pre, DigitsOnly(w));
    if w == "" {
      assert pre + "" == pre;
      assert (w + [c] + rest)[1..] == rest;
    } else {
      var v := w[1..];
      assert w + [c] + rest == [w[0]] + (v + [c] + rest);
      assert w == [w[0]] + v;
      if Decimal(w[0]) {
        assert pre + DigitsOnly(w) == (pre + [w[0]]) + DigitsOnly(v);
        ValueGrows(pre + [w[0]], DigitsOnly(v));
        DigitRead(pre, w[0], v + [c] + rest, zero, plus);
        SpecRead(pre + [w[0]], v, c, rest, zero || (w[0] == '0' && Value(pre, 10) == 0), plus);
        assert (pre + [w[0]])[..|pre|] == pre;
      } else {
        assert "" + DigitsOnly(v) == DigitsOnly(v);
        assert ([w[0]] + (v + [c] + rest))[1..] == v + [c] + rest;
        SpecRead(pre, v, c, rest, zero, true);
      }
    }
  }

  // The digits are the width, a leading 0 asks for zeros as fill, a plus sign for a sign.
  lemma SpecMeans(w: string, c: char, rest: string)
    requires IsSpec(w) && !Decimal(c) && c != '+'
    ensures Directive(w + [c] + rest, 0, false, false)
      == Some(Conversion(Value(DigitsOnly(w), 10), FillsWithZero(w), '+' in w, c, rest))
  {
    assert "" + DigitsOnly(w) == DigitsOnly(w);
    SpecRead("", w, c, rest, false, false);
  }

  lemma OneConversion(w: string, c: char, arg: Arg)
    requires IsSpec(w) && Takes(c, arg) && IsArg(arg)
    ensures Formatted("%" + w + [c], [arg])
      == Some(Converted(Conversion(Value(DigitsOnly(w), 10), FillsWithZero(w), '+' in w, c, ""), arg))
  {
    var f, d := "%" + w + [c], Conversion(Value(DigitsOnly(w), 10), FillsWithZero(w), '+' in w, c, "");
    SpecMeans(w, c, "");
    assert f[1..] == w + [c] + "";
    assert [arg][1..] == [];
    assert Formatted("", []) == Some("");
    assert Converted(d, arg) + "" == Converted(d, arg);
  }

  // A format without % prints itself, and %% prints one %.
  lemma {:induction false} PlainPrintsItself(f: string, args: seq<Arg>)
    requires '%' !in f && forall i :: 0 <= i < |args| ==> IsArg(args[i])
    ensures Formatted(f, args) == Some(f)
  {
    if f != "" {
      PlainPrintsItself(f[1..], args);
      assert f == [f[0]] + f[1..];
    }
  }

  lemma PercentPrintsOne()
    ensures Formatted("%%", []) == Some("%")
  {
    assert "%%"[1..] == "%" && "%"[1..] == "";
    assert Directive("%", 0, false, false) == Some(Conversion(0, false, false, '%', ""));
    assert Formatted("", []) == Some("") && "%" + "" == "%";
  }

  // %s prints the string, and nothing for NULL; %c prints the byte.
  lemma StringPrints(w: string, p: string)
    requires IsSpec(w)
    ensures Formatted("%" + w + "s", [Str(Some(p))]) == Some(p)
    ensures Formatted("%" + w + "s", [Str(None)]) == Some("")
  {
    OneConversion(w, 's', Str(Some(p)));
    OneConversion(w, 's', Str(None));
  }

  lemma CharPrints(w: string, n: int)
    requires IsSpec(w) && IsArg(Int(n))
    ensures var r := Formatted("%" + w + "c", [Int(n)]);
      r.Some? && |r.value| == 1 && r.value[0] as int == n % 256
  {
    OneConversion(w, 'c', Int(n));
  }

  predicate IsDigit(c: char) { '0' <= c <= '9' || 'a' <= c <= 'f' }

  // Nothing is printed where the C code asserts false: at the end of the format inside a conversion
  // and at a letter that stands for none.
  lemma UnknownStops(w: string, c: char, rest: string, args: seq<Arg>)
    requires IsSpec(w) && !Decimal(c) && c != '+' && c != '%'
    requires c != 's' && c != 'c' && !IsNumber(c) && forall i :: 0 <= i < |args| ==> IsArg(args[i])
    ensures Formatted("%" + w + [c] + rest, args) == None
  {
    var f := "%" + w + [c] + rest;
    SpecMeans(w, c, rest);
    assert f[1..] == w + [c] + rest;
  }

  lemma CutOffStops(w: string, args: seq<Arg>)
    requires forall i {:trigger w[i]} :: 0 <= i < |w| ==> Decimal(w[i]) || w[i] == '+'
    requires forall i :: 0 <= i < |args| ==> IsArg(args[i])
    ensures Formatted("%" + w, args) == None
  {
    CutOff(w, 0, false, false);
    assert ("%" + w)[1..] == w;
  }

  lemma {:induction false} CutOff(w: string, width: int, zero: bool, plus: bool)
    requires forall i {:trigger w[i]} :: 0 <= i < |w| ==> Decimal(w[i]) || w[i] == '+'
    ensures Directive(w, width, zero, plus) == None
    decreases |w|
  {
    if w != "" {
      if w[0] == '0' {
        CutOff(w[1..], Step(width, '0'), zero || width == 0, plus);
      } else if Decimal(w[0]) {
        CutOff(w[1..], Step(width, w[0]), zero, plus);
      } else {
        CutOff(w[1..], width, zero, true);
      }
    }
  }

  // The sixteen digits.
  lemma DigitChars(d: nat)
    requires d < 16
    ensures Digit(d) == "0123456789abcdef"[d] && DigitValue(Digit(d)) == d
  {}

  lemma {:induction false} DigitsAre(n: nat, base: nat)
    requires IsBase(base)
    ensures forall i :: 0 <= i < |Digits(n, base)| ==> IsDigit(Digits(n, base)[i])
  {
    if Div(n, base) != 0 { DigitsAre(Div(n, base), base); }
  }

  predicate IsNumber(c: char) { c == 'd' || c == 'u' || c == 'p' || c == 'x' || c == 'b' }

  function BaseFor(c: char): nat { if c == 'd' || c == 'u' then 10 else if c == 'b' then 2 else 16 }

  // What goes into the field of a number.
  ghost predicate FieldOf(d: Conversion, n: int, num: int, width: int, zero: bool, sign: string) {
    && num == (if d.c == 'd' then if n < 0 then -n else n else n % WORD)
    && width == (if d.c == 'p' then 12 else d.width) && zero == (d.c == 'p' || d.zero)
    && sign == if d.c == 'd' && n < 0 then "-" else if d.plus then "+" else ""
  }

  lemma NumberParts(d: Conversion, n: int, num: nat, width: int, zero: bool, sign: string)
    requires IsArg(Int(n)) && IsNumber(d.c) && FieldOf(d, n, num, width, zero, sign)
    ensures Converted(d, Int(n)) == Field(num, width, BaseFor(d.c), zero, sign)
  {
    WordOf(n);
    match d.c
    case 'd' => assert num == Magnitude(n);
    case _ => assert num == Unsigned(n);
  }

  lemma WordOf(n: int)
    requires IsArg(Int(n))
    ensures Unsigned(n) == n % WORD >= 0
  {}

  lemma NumberField(w: string, d: Conversion, n: int, num: nat, width: int, zero: bool, sign: string)
    requires IsSpec(w) && d == Conversion(Value(DigitsOnly(w), 10), FillsWithZero(w), '+' in w, d.c, "")
    requires IsArg(Int(n)) && IsNumber(d.c) && FieldOf(d, n, num, width, zero, sign)
    ensures Formatted("%" + w + [d.c], [Int(n)]) == Some(Field(num, width, BaseFor(d.c), zero, sign))
  {
    OneConversion(w, d.c, Int(n));
    NumberParts(d, n, num, width, zero, sign);
  }

  // s is the number n in that base, without a superfluous zero.
  ghost predicate Denotes(s: string, base: nat, n: int) {
    && Value(s, base) == n && s != "" && (n > 0 ==> s[0] != '0')
    && (forall i {:trigger s[i]} :: 0 <= i < |s| ==> IsDigit(s[i]) && 0 <= DigitValue(s[i]) < base)
  }

  lemma DigitsFacts(n: nat, base: nat, digits: string)
    requires IsBase(base) && digits == Digits(n, base)
    ensures Denotes(digits, base, n)
  {
    DigitsDenote(n, base);
    DigitsAre(n, base);
  }

  // A number comes out as fill, sign and digits. The digits denote it: its magnitude for %d, else
  // the unsigned 32-bit word. Fill and digits together take the width, or more if the digits do;
  // %p takes 12 places filled with zeros.
  lemma NumberPrints(w: string, c: char, n: int) returns (fill: string, sign: string, digits: string)
    requires IsSpec(w) && IsArg(Int(n)) && IsNumber(c)
    ensures Formatted("%" + w + [c], [Int(n)]) == Some(fill + sign + digits)
    ensures sign == if c == 'd' && n < 0 then "-" else if '+' in w then "+" else ""
    ensures Denotes(digits, if c == 'd' || c == 'u' then 10 else if c == 'b' then 2 else 16,
                    if c == 'd' then if n < 0 then -n else n else n % WORD)
    ensures var width := if c == 'p' then 12 else Value(DigitsOnly(w), 10);
      |fill| + |digits| == if width > |digits| then width else |digits|
    ensures forall i :: 0 <= i < |fill| ==> fill[i] == if c == 'p' || FillsWithZero(w) then '0' else ' '
  {
    var d := Conversion(Value(DigitsOnly(w), 10), FillsWithZero(w), '+' in w, c, "");
    var num, width := if c == 'd' then if n < 0 then -n else n else n % WORD, if c == 'p' then 12 else d.width;
    sign := if c == 'd' && n < 0 then "-" else if d.plus then "+" else "";
    NumberField(w, d, n, num, width, c == 'p' || d.zero, sign);
    digits := Digits(num, BaseFor(c));
    fill := Fill(width - |digits|, c == 'p' || d.zero);
    DigitsFacts(num, BaseFor(c), digits);
  }

  // ------------------------------------------------------------- formats one after the other

  // f prints with the arguments a, and not with fewer of them.
  ghost predicate TakesExactly(f: string, a: seq<Arg>)
    requires forall i :: 0 <= i < |a| ==> IsArg(a[i])
  {
    Formatted(f, a).Some? && (a != [] ==> Formatted(f, a[..|a| - 1]) == None)
  }

  lemma {:induction false} DirectiveExtends(f: string, g: string, width: int, zero: bool, plus: bool)
    requires Directive(f, width, zero, plus).Some?
    ensures var d := Directive(f, width, zero, plus).value;
      Directive(f + g, width, zero, plus) == Some(d.(rest := d.rest + g))
    decreases |f|
  {
    assert (f + g)[0] == f[0] && (f + g)[1..] == f[1..] + g;
    if f[0] == '0' {
      DirectiveExtends(f[1..], g, Step(width, '0'), zero || width == 0, plus);
    } else if '1' <= f[0] <= '9' {
      DirectiveExtends(f[1..], g, Step(width, f[0]), zero, plus);
    } else if f[0] == '+' {
      DirectiveExtends(f[1..], g, width, zero, true);
    }
  }

  // Two formats in one print what they print one after the other.
  lemma {:induction false} FormatsJoin(f: string, a: seq<Arg>, g: string, b: seq<Arg>)
    requires (forall i :: 0 <= i < |a| ==> IsArg(a[i])) && forall i :: 0 <= i < |b| ==> IsArg(b[i])
    requires TakesExactly(f, a)
    ensures Formatted(f + g, a + b) == After(Formatted(f, a).value, Formatted(g, b))
    decreases |f|
  {
    if f == "" {
      assert "" + g == g && a + b == b;
      AfterNothing(Formatted(g, b));
    } else {
      assert (f + g)[0] == f[0] && (f + g)[1..] == f[1..] + g;
      if f[0] != '%' {
        FormatsJoin(f[1..], a, g, b);
        AfterAfter([f[0]], Formatted(f[1..], a).value, Formatted(g, b));
      } else {
        DirectiveExtends(f[1..], g, 0, false, false);
        ConversionJoins(f, a, g, b, Directive(f[1..], 0, false, false).value);
      }
    }
  }

  lemma {:induction false} ConversionJoins(f: string, a: seq<Arg>, g: string, b: seq<Arg>, d: Conversion)
    requires (forall i :: 0 <= i < |a| ==> IsArg(a[i])) && forall i :: 0 <= i < |b| ==> IsArg(b[i])
    requires TakesExactly(f, a) && f != "" && f[0] == '%' && Directive(f[1..], 0, false, false) == Some(d)
    requires (f + g)[0] == '%' && Directive((f + g)[1..], 0, false, false) == Some(d.(rest := d.rest + g))
    ensures Formatted(f + g, a + b) == After(Formatted(f, a).value, Formatted(g, b))
    decreases |f|, 0
  {
    if d.c == '%' {
      FormatsJoin(d.rest, a, g, b);
      AfterAfter("%", Formatted(d.rest, a).value, Formatted(g, b));
    } else {
      assert (a + b)[0] == a[0] && (a + b)[1..] == a[1..] + b;
      if |a| > 1 { assert a[..|a| - 1][1..] == a[1..][..|a| - 2]; }
      FormatsJoin(d.rest, a[1..], g, b);
      AfterAfter(Converted(d, a[0]), Formatted(d.rest, a[1..]).value, Formatted(g, b));
      assert Converted(d.(rest := d.rest + g), a[0]) == Converted(d, a[0]);
    }
  }

  // ------------------------------------------------------------- printing, then parsing

  // %d with a width and perhaps a 0 before it.
  ghost function WidthSpec(width: nat, zero: bool): string {
    (if zero then "0" else "") + if width == 0 then "" else Digits(width, 10)
  }

  lemma {:induction false} AllDigits(s: string)
    requires forall i :: 0 <= i < |s| ==> Decimal(s[i])
    ensures DigitsOnly(s) == s
  {
    if s != "" {
      AllDigits(s[1..]);
      assert s == [s[0]] + s[1..];
    }
  }

  lemma DigitsSpec(w: string)
    requires forall i :: 0 <= i < |w| ==> Decimal(w[i])
    ensures DigitsOnly(w) == w && '+' !in w && (Value(w, 10) <= INT_MAX ==> IsSpec(w))
    ensures FillsWithZero(w) <==> w != "" && w[0] == '0'
  {
    AllDigits(w);
  }

  lemma WidthSpecMeans(width: nat, zero: bool)
    requires width <= INT_MAX
    ensures var w := WidthSpec(width, zero);
      IsSpec(w) && Value(DigitsOnly(w), 10) == width && FillsWithZero(w) == zero && '+' !in w
  {
    var w, s := WidthSpec(width, zero), if width == 0 then "" else Digits(width, 10);
    DigitsDenote(width, 10); DecimalDigits(width);
    WidthValue(w, s, width, zero);
    DigitsSpec(w);
  }

  lemma WidthValue(w: string, s: string, width: nat, zero: bool)
    requires w == (if zero then "0" else "") + s && Value(s, 10) == width
    ensures Value(w, 10) == width
  {
    if zero {
      LeadingZeros(1, s, 10);
      assert Fill(1, true) == "0";
    } else {
      assert w == s;
    }
  }

  // For every n from 0 to INT_MAX, every width and either fill: atoi undoes printing with %d.
  lemma AtoiUndoesPrinting(n: nat, width: nat, zero: bool)
    requires n <= INT_MAX && width <= INT_MAX
    ensures Formatted("%" + WidthSpec(width, zero) + "d", [Int(n)]) == Some(Field(n, width, 10, zero, ""))
    ensures Wrap(Parsed(Field(n, width, 10, zero, ""))) == n
  {
    WidthSpecMeans(width, zero);
    OneConversion(WidthSpec(width, zero), 'd', Int(n));
    ParsedField(n, width, zero);
    WrapIs(n);
  }
}
