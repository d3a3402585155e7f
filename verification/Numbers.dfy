/**
  The number printer and parser, kernel/stdlib/itoa.c and kernel/stdlib/atoi.c.  Both work
  in 32-bit two's complement arithmetic; overflow wraps, which is what the i686 code does
  where the C standard leaves the result open.
 */
module Numbers {
  import opened Words

  newtype Int32 = x: int | -0x8000_0000 <= x < 0x8000_0000

  /** The 32 bits of an integer, and a word read as a signed number. */
  function ToWord(x: int): Word {
    x % WORD
  }

  function ToSigned(w: Word): int {
    if w < 0x8000_0000 then w else w - WORD
  }

  // ----------------------------------------------------------------- digits

  function DigitChar(d: nat): char
    requires d < 16
  {
    if d < 10 then '0' + d as char else 'a' + (d - 10) as char
  }

  predicate IsDigit(c: char) {
    '0' <= c <= '9'
  }

  /** The value of a digit, decimal or hexadecimal. */
  function DigitValue(c: char): nat {
    if '0' <= c <= '9' then (c - '0') as nat
    else if 'a' <= c <= 'f' then (c - 'a') as nat + 10
    else 0
  }

  /** The two divisors itoa uses. */
  datatype Radix = Decimal | Hex

  function Base(r: Radix): nat {
    if r.Decimal? then 10 else 16
  }

  function Quot(n: nat, r: Radix): nat {
    if r.Decimal? then n / 10 else n / 16
  }

  function Rem(n: nat, r: Radix): nat {
    if r.Decimal? then n % 10 else n % 16
  }

  function Times(n: nat, r: Radix): nat {
    if r.Decimal? then n * 10 else n * 16
  }

  lemma DivMod(n: nat, r: Radix)
    ensures n == Times(Quot(n, r), r) + Rem(n, r) && Rem(n, r) < Base(r)
    ensures n >= Base(r) ==> 0 < Quot(n, r) < n
  {
  }

  /** The numeral of `n`, most significant digit first. */
  function Digits(n: nat, r: Radix): (s: string)
    ensures s != []
    decreases n
  {
    DivMod(n, r);
    if n < Base(r) then [DigitChar(n)] else Digits(Quot(n, r), r) + [DigitChar(Rem(n, r))]
  }

  /** What a numeral stands for. */
  function Value(s: string, r: Radix): nat {
    if s == [] then 0 else Times(Value(s[..|s| - 1], r), r) + DigitValue(s[|s| - 1])
  }

  lemma ValueSnoc(s: string, c: char, r: Radix)
    ensures Value(s + [c], r) == Times(Value(s, r), r) + DigitValue(c)
  {
    assert (s + [c])[..|s|] == s;
  }

  lemma NoValue(r: Radix)
    ensures Value([], r) == 0
  {
  }

  /** The numeral stands for the number, */
  lemma {:induction false} DigitsValue(n: nat, r: Radix)
    ensures Value(Digits(n, r), r) == n
    decreases n
  {
    DivMod(n, r);
    hide Value;
    if n >= Base(r) {
      DigitsValue(Quot(n, r), r);
      ValueSnoc(Digits(Quot(n, r), r), DigitChar(Rem(n, r)), r);
    } else {
      assert Value([], r) == 0 by { NoValue(r); }
      ValueSnoc([], DigitChar(n), r);
      assert [] + [DigitChar(n)] == [DigitChar(n)];
    }
  }

  /** is made of digits of its radix only, and has no leading zero, */
  lemma {:induction false} DigitsCanonical(n: nat, r: Radix)
    ensures forall i :: 0 <= i < |Digits(n, r)| ==>
      DigitValue(Digits(n, r)[i]) < Base(r) && Digits(n, r)[i] == DigitChar(DigitValue(Digits(n, r)[i]))
    ensures Digits(n, r)[0] == '0' ==> n == 0 && |Digits(n, r)| == 1
    decreases n
  {
    DivMod(n, r);
    if n >= Base(r) {
      DigitsCanonical(Quot(n, r), r);
    }
  }

  function Power(r: Radix, k: nat): nat {
    if k == 0 then 1 else Times(Power(r, k - 1), r)
  }

  /** and has at most `k` digits below base^k. */
  lemma {:induction false} DigitsLength(n: nat, r: Radix, k: nat)
    requires k > 0 && n < Power(r, k)
    ensures |Digits(n, r)| <= k
    decreases k
  {
    DivMod(n, r);
    assert Power(r, 1) == Times(Power(r, 0), r) == Base(r);
    if n >= Base(r) {
      DigitsLength(Quot(n, r), r, k - 1);
    }
  }

  lemma WordLengths(n: Word)
    ensures |Digits(n, Decimal)| <= 10 && |Digits(n, Hex)| <= 8
  {
    assert Power(Decimal, 10) == 10_000_000_000 by {
      assert Power(Decimal, 4) == 10_000 by { assert Power(Decimal, 2) == 100; }
      assert Power(Decimal, 8) == 100_000_000 by { assert Power(Decimal, 6) == 1_000_000; }
    }
    assert Power(Hex, 8) == WORD by {
      assert Power(Hex, 4) == 0x1_0000 by { assert Power(Hex, 2) == 0x100; }
      assert Power(Hex, 6) == 0x100_0000;
    }
    DigitsLength(n, Decimal, 10);
    DigitsLength(n, Hex, 8);
  }

  // ------------------------------------------------------------------- itoa

  /** What itoa writes before the terminator: codes 'd', 'u' and 'x', lines 24-45. */
  function Text(value: Int32, code: char): string {
    if code == 'd' && value < 0 then "-" + Digits(ToWord(-(value as int)), Decimal)
    else Digits(ToWord(value as int), if code == 'x' then Hex else Decimal)
  }

  /** Code 'x' writes the 32 bits in hexadecimal, 'u' and any other code in decimal, and 'd' the
      absolute value behind a sign; all of them canonical numerals. */
  lemma TextStandsFor(value: Int32, code: char)
    ensures var n: int := if code == 'd' && value < 0 then -(value as int) else (value as int) % 0x1_0000_0000;
      var s := if code == 'd' && value < 0 then Text(value, code)[1..] else Text(value, code);
      && (code == 'd' && value < 0 ==> Text(value, code)[0] == '-')
      && s != [] && (s[0] == '0' ==> s == "0")
      && (code == 'x' ==> Value(s, Hex) == n && forall i :: 0 <= i < |s| ==> s[i] in "0123456789abcdef")
      && (code != 'x' ==> Value(s, Decimal) == n && forall i :: 0 <= i < |s| ==> s[i] in "0123456789")
  {
    hide Digits, Value, DigitChar;
    var n := ToWord(if code == 'd' && value < 0 then -(value as int) else value as int);
    NumeralStandsFor(n, Hex);
    NumeralStandsFor(n, Decimal);
    assert code == 'd' && value < 0 ==> Text(value, code)[1..] == Digits(n, Decimal);
  }

  lemma NumeralStandsFor(n: nat, r: Radix)
    ensures var s := Digits(n, r);
      && Value(s, r) == n && (s[0] == '0' ==> s == "0")
      && (r.Hex? ==> forall i :: 0 <= i < |s| ==> s[i] in "0123456789abcdef")
      && (r.Decimal? ==> forall i :: 0 <= i < |s| ==> s[i] in "0123456789")
  {
    hide Digits, Value, DigitChar;
    DigitsValue(n, r);
    DigitsCanonical(n, r);
    var s := Digits(n, r);
    forall i | 0 <= i < |s| ensures s[i] in "0123456789abcdef" && (r.Decimal? ==> s[i] in "0123456789") {
      DigitChars(DigitValue(s[i]));
    }
  }

  lemma DigitChars(d: nat)
    requires d < 16
    ensures DigitChar(d) == "0123456789abcdef"[d]
    ensures d < 10 ==> DigitChar(d) in "0123456789"
  {
    assert d < 10 ==> "0123456789"[d] == DigitChar(d);
  }

  /** One text of each kind. */
  lemma Texts()
    ensures Text(255, 'x') == "ff" && Text(255, 'u') == "255" && Text(-1, 'x') == "ffffffff"
    ensures Text(-12, 'd') == "-12" && Text(-1, 'u') == "4294967295" && Text(0, 'd') == "0"
  {
    TextsHex();
    TextsDecimal();
  }

  lemma TextsHex()
    ensures Digits(255, Hex) == "ff" && Digits(0xFFFF_FFFF, Hex) == "ffffffff"
  {
    assert Digits(15, Hex) == "f";
    assert Digits(0xFFF, Hex) == "fff" && Digits(0xFFFFF, Hex) == "fffff" && Digits(0xFFF_FFFF, Hex) == "fffffff";
  }

  lemma TextsDecimal()
    ensures Digits(255, Decimal) == "255" && Digits(12, Decimal) == "12" && Digits(4294967295, Decimal) == "4294967295"
  {
    assert Digits(25, Decimal) == "25";
    assert Digits(429, Decimal) == "429" && Digits(42949, Decimal) == "42949";
    assert Digits(4294967, Decimal) == "4294967" && Digits(429496729, Decimal) == "429496729";
  }

  /** At most 11 characters and the terminator, so printf's 20 bytes suffice. */
  lemma TextFits(value: Int32, code: char)
    ensures |Text(value, code)| <= 11
  {
    WordLengths(ToWord(value as int));
    WordLengths(ToWord(-(value as int)));
  }

  function Reversed(s: string): string {
    if s == [] then [] else Reversed(s[1..]) + [s[0]]
  }

  lemma {:induction false} ReversedSnoc(s: string, c: char)
    ensures Reversed(s + [c]) == [c] + Reversed(s)
  {
    if s == [] {
      assert s + [c] == [c];
    } else {
      ReversedSnoc(s[1..], c);
      assert (s + [c])[1..] == s[1..] + [c];
    }
  }

  lemma {:induction false} ReversedAt(s: string)
    ensures |Reversed(s)| == |s| && forall k :: 0 <= k < |s| ==> Reversed(s)[k] == s[|s| - 1 - k]
  {
    if s != [] {
      ReversedAt(s[1..]);
    }
  }

  /** One turn of the digit loop, seen on the numeral. */
  lemma DigitsStep(n: nat, r: Radix, done: string)
    ensures Rem(n, r) < 16
    ensures var c := DigitChar(Rem(n, r));
      && Reversed(done + [c]) == [c] + Reversed(done)
      && (Quot(n, r) == 0 ==> Digits(n, r) + Reversed(done) == Reversed(done + [c]) && |Digits(n, r)| == 1)
      && (Quot(n, r) > 0 ==> Digits(n, r) + Reversed(done) == Digits(Quot(n, r), r) + Reversed(done + [c]))
      && (Quot(n, r) > 0 ==> |Digits(n, r)| == |Digits(Quot(n, r), r)| + 1)
  {
    DivMod(n, r);
    var c := DigitChar(Rem(n, r));
    ReversedSnoc(done, c);
    hide Reversed;
    if Quot(n, r) > 0 {
      assert Digits(n, r) + Reversed(done) == Digits(Quot(n, r), r) + ([c] + Reversed(done));
    }
  }

  /** The digit loop of lines 40-45: the numeral, least significant digit first. */
  method WriteDigits(n: Word, r: Radix, buf: array<char>, start: nat) returns (p: nat)
    requires start + |Digits(n, r)| <= buf.Length
    modifies buf
    ensures p == start + |Digits(n, r)| && Reversed(buf[start..p]) == Digits(n, r)
    ensures forall k :: 0 <= k < start || p <= k < buf.Length ==> buf[k] == old(buf[k])
  {
    hide Digits, Reversed;
    var ud := n;
    p := start;
    var done := false;
    assert Digits(n, r) + Reversed(buf[start..p]) == Digits(n, r) by { ReversedAt(buf[start..p]); }
    while !done
      invariant start <= p <= buf.Length
      invariant !done ==> p + |Digits(ud, r)| == start + |Digits(n, r)|
      invariant !done ==> Digits(n, r) == Digits(ud, r) + Reversed(buf[start..p])
      invariant done ==> p == start + |Digits(n, r)| && Digits(n, r) == Reversed(buf[start..p])
      invariant forall k :: 0 <= k < start || p <= k < buf.Length ==> buf[k] == old(buf[k])
      decreases !done, ud
    {
      DivMod(ud, r);
      ghost var before := buf[start..p];
      DigitsStep(ud, r, before);
      buf[p] := DigitChar(Rem(ud, r));
      p := p + 1;
      assert buf[start..p] == before + [buf[p - 1]];
      ud := Quot(ud, r);
      done := ud == 0;
    }
  }

  /** The swap loop of lines 51-60. */
  method ReverseInPlace(buf: array<char>, lo: nat, hi: nat)
    requires lo <= hi <= buf.Length
    modifies buf
    ensures buf[lo..hi] == Reversed(old(buf[lo..hi]))
    ensures forall k :: 0 <= k < lo || hi <= k < buf.Length ==> buf[k] == old(buf[k])
  {
    hide Reversed;
    SwapInward(buf, lo, hi);
    ghost var was := old(buf[lo..hi]);
    ReversedAt(was);
    assert forall k :: 0 <= k < hi - lo ==> buf[lo..hi][k] == buf[lo + k] == was[|was| - 1 - k];
  }

  method SwapInward(buf: array<char>, lo: nat, hi: nat)
    requires lo <= hi <= buf.Length
    modifies buf
    ensures forall k :: lo <= k < hi ==> buf[k] == old(buf[lo + hi - 1 - k])
    ensures forall k :: 0 <= k < lo || hi <= k < buf.Length ==> buf[k] == old(buf[k])
  {
    var p1, p2 := lo, hi - 1;
    while p1 < p2
      invariant lo <= p1 <= hi && p2 == lo + hi - 1 - p1 && p1 <= p2 + 2
      invariant forall k :: lo <= k < p1 || p2 < k < hi ==> buf[k] == old(buf[lo + hi - 1 - k])
      invariant forall k :: p1 <= k <= p2 || 0 <= k < lo || hi <= k < buf.Length ==> buf[k] == old(buf[k])
    {
      buf[p1], buf[p2] := buf[p2], buf[p1];
      p1, p2 := p1 + 1, p2 - 1;
    }
  }

  /** itoa: the text and its terminator are written and nothing else; the pointer returned
      skips the sign. */
  method Itoa(value: Int32, buf: array<char>, code: char) returns (str: nat)
    requires |Text(value, code)| < buf.Length
    modifies buf
    ensures buf[..|Text(value, code)|] == Text(value, code) && buf[|Text(value, code)|] == '\0'
    ensures forall k :: |Text(value, code)| < k < buf.Length ==> buf[k] == old(buf[k])
    ensures str == if code == 'd' && value < 0 then 1 else 0
  {
    var ud, r := ToWord(value as int), Decimal;
    str := 0;
    if code == 'd' && value < 0 {
      buf[0] := '-';
      str := 1;
      ud := ToWord(-(value as int));
    } else if code == 'x' {
      r := Hex;
    }
    var p := WriteDigits(ud, r, buf, str);
    buf[p] := '\0';
    ReverseInPlace(buf, str, p);
    assert buf[..p] == buf[..str] + buf[str..p];
  }

  // ------------------------------------------------------------------- atoi

  predicate IsSpace(c: char) {
    c in {' ', '\t', '\n', '\U{000B}', '\U{000C}', '\r'}
  }

  function SkipSpaces(s: string): string {
    if s != [] && IsSpace(s[0]) then SkipSpaces(s[1..]) else s
  }

  /** The longest prefix of decimal digits. */
  function LeadingDigits(s: string): string {
    if s != [] && IsDigit(s[0]) then [s[0]] + LeadingDigits(s[1..]) else []
  }

  function AfterSign(s: string): string {
    if s != [] && (s[0] == '-' || s[0] == '+') then s[1..] else s
  }

  /** The number a string denotes, as 32 bits. */
  function Parse(s: string): int {
    var t := SkipSpaces(s);
    var v: int := Value(LeadingDigits(AfterSign(t)), Decimal);
    ToSigned(ToWord(if t != [] && t[0] == '-' then -v else v))
  }

  lemma {:induction false} LeadingAll(s: string)
    requires forall i :: 0 <= i < |s| ==> IsDigit(s[i])
    ensures LeadingDigits(s) == s
  {
    if s != [] {
      LeadingAll(s[1..]);
    }
  }

  lemma NumeralParses(n: nat)
    ensures LeadingDigits(Digits(n, Decimal)) == Digits(n, Decimal)
    ensures IsDigit(Digits(n, Decimal)[0])
  {
    DigitsCanonical(n, Decimal);
    var s := Digits(n, Decimal);
    forall i | 0 <= i < |s| ensures IsDigit(s[i]) {
      assert s[i] == DigitChar(DigitValue(s[i]));
    }
    LeadingAll(s);
  }

  lemma SignRoundTrip(value: Int32)
    ensures value < 0 ==> ToSigned(ToWord(-(ToWord(-(value as int)) as int))) == value as int
    ensures value >= 0 ==> ToSigned(ToWord(ToWord(value as int))) == value as int
  {
    if value < 0 {
      assert ToWord(-(value as int)) == -(value as int);
    }
  }

  lemma ParseNumeral(s: string, v: nat)
    requires s != [] && LeadingDigits(s) == s && IsDigit(s[0]) && Value(s, Decimal) == v
    ensures Parse(s) == ToSigned(ToWord(v)) && Parse("-" + s) == ToSigned(ToWord(-(v as int)))
  {
    hide Value, ToWord, ToSigned, LeadingDigits;
    var t := "-" + s;
    assert t[0] == '-' && t[1..] == s;
    assert SkipSpaces(t) == t && SkipSpaces(s) == s;
  }

  /** What does not count: space in front, a plus, and everything from the first character on
      that is no digit. */
  lemma ParseSpace(c: char, s: string)
    requires c in " \t\n\U{000B}\U{000C}\r"
    ensures Parse([c] + s) == Parse(s)
  {
    hide Value, LeadingDigits, ToWord, ToSigned;
    var t := [c] + s;
    assert t[1..] == s;
    assert IsSpace(c);
    assert SkipSpaces(t) == SkipSpaces(s);
  }

  lemma ParsePlus(s: string)
    requires s != [] && IsDigit(s[0])
    ensures Parse("+" + s) == Parse(s)
  {
    hide Value, LeadingDigits, ToWord, ToSigned;
    var t := "+" + s;
    assert t[1..] == s && SkipSpaces(t) == t && SkipSpaces(s) == s;
  }

  lemma ParseStops(s: string, c: char, rest: string)
    requires s != [] && (forall i :: 0 <= i < |s| ==> IsDigit(s[i])) && !IsDigit(c)
    ensures Parse(s + [c] + rest) == Parse(s) == ToSigned(ToWord(Value(s, Decimal)))
  {
    hide Value, ToWord, ToSigned, LeadingDigits;
    var t := s + ([c] + rest);
    assert s + [c] + rest == t;
    LeadingAll(s);
    LeadingStops(s, [c] + rest);
    DigitFirst(s);
    DigitFirst(t);
  }

  /** A string that starts with a digit is parsed as it is. */
  lemma DigitFirst(s: string)
    requires s != [] && IsDigit(s[0])
    ensures Parse(s) == ToSigned(ToWord(Value(LeadingDigits(s), Decimal)))
  {
    hide Value, ToWord, ToSigned, LeadingDigits;
    assert SkipSpaces(s) == s && AfterSign(s) == s;
  }

  lemma {:induction false} LeadingStops(s: string, rest: string)
    requires (forall i :: 0 <= i < |s| ==> IsDigit(s[i])) && (rest != [] ==> !IsDigit(rest[0]))
    ensures LeadingDigits(s + rest) == s
  {
    if s == [] {
      assert s + rest == rest;
    } else {
      LeadingStops(s[1..], rest);
      assert (s + rest)[1..] == s[1..] + rest;
    }
  }

  /** A string that starts with something else is 0. */
  lemma ParseNothing(c: char, s: string)
    requires c !in " \t\n\U{000B}\U{000C}\r+-0123456789"
    ensures Parse([c] + s) == 0
  {
    NoValue(Decimal);
    assert !IsDigit(c) by { NotDigit(c); }
    assert !IsSpace(c);
    assert SkipSpaces([c] + s) == [c] + s;
  }

  lemma NotDigit(c: char)
    requires c !in "0123456789"
    ensures !IsDigit(c)
  {
    assert forall d: nat :: d < 10 ==> "0123456789"[d] == '0' + d as char;
  }

  /** Printing with 'd' and parsing gives the number back, for every 32-bit integer. */
  lemma PrintParse(value: Int32)
    ensures Parse(Text(value, 'd')) == value as int
  {
    var n := ToWord(if value < 0 then -(value as int) else value as int);
    NumeralParses(n);
    DigitsValue(n, Decimal);
    SignRoundTrip(value);
    hide Digits, Value, ToWord, ToSigned, LeadingDigits, Parse;
    ParseNumeral(Digits(n, Decimal), n);
  }

  lemma WrapStep(x: nat, d: nat)
    ensures ToWord(ToWord(x) * 10 + d) == ToWord(x * 10 + d)
  {
    var q := x / WORD;
    assert x * 10 + d == WORD * (10 * q) + (ToWord(x) * 10 + d);
    WrapMultiple(ToWord(x) * 10 + d, 10 * q);
  }

  lemma WrapMultiple(y: int, k: int)
    ensures ToWord(WORD * k + y) == ToWord(y)
  {
    var q := y / WORD;
    assert WORD * k + y == WORD * (k + q) + ToWord(y);
  }

  lemma WrapNegate(x: int)
    ensures Sub32(0, ToWord(x)) == ToWord(-x) || (ToWord(x) == 0 && ToWord(-x) == 0)
  {
    var q := x / WORD;
    var w: int := ToWord(x);
    assert -x == WORD * (-q) + (-w);
    WrapMultiple(-w, -q);
  }

  /** One turn of the loop, seen on the string, */
  lemma ReadText(read: string, rest: string)
    requires rest != [] && IsDigit(rest[0])
    ensures read + LeadingDigits(rest) == (read + [rest[0]]) + LeadingDigits(rest[1..])
  {
    var c, tail := rest[0], LeadingDigits(rest[1..]);
    assert read + ([c] + tail) == (read + [c]) + tail;
  }

  /** and on the accumulator. */
  lemma ReadValue(read: string, c: char)
    requires IsDigit(c)
    ensures ToWord(ToWord(Value(read, Decimal)) * 10 + (c - '0') as nat) == ToWord(Value(read + [c], Decimal))
  {
    ValueSnoc(read, c, Decimal);
    hide Value, ToWord;
    WrapStep(Value(read, Decimal), DigitValue(c));
  }

  /** The digit loop of lines 41-45, from position `i`: the value is accumulated modulo 2^32. */
  method ReadDigits(str: array<char>, i: nat, ghost m: nat) returns (acc: Word)
    requires i <= m < str.Length && str[m] == '\0'
    ensures acc == ToWord(Value(LeadingDigits(str[i..m]), Decimal))
  {
    NoValue(Decimal);
    hide Value, LeadingDigits;
    acc := 0;
    var j := i;
    ghost var read: string := "";
    ghost var all := LeadingDigits(str[i..m]);
    assert read + all == all;
    hide ToWord;
    while str[j] != '\0' && IsDigit(str[j])
      invariant i <= j <= m
      invariant all == read + LeadingDigits(str[j..m]) && acc == ToWord(Value(read, Decimal))
      decreases m - j
    {
      ghost var rest := str[j..m];
      assert rest[0] == str[j] && rest[1..] == str[j + 1..m];
      ReadText(read, rest);
      ReadValue(read, str[j]);
      acc := ToWord(acc * 10 + (str[j] - '0') as nat);
      read := read + [str[j]];
      j := j + 1;
    }
    assert j < m ==> str[j..m][0] == str[j];
    NoLeading(str[j..m]);
    assert read + [] == read;
  }

  lemma NoLeading(s: string)
    requires s == [] || !IsDigit(s[0])
    ensures LeadingDigits(s) == []
  {
  }

  /** atoi; `m` is the position of the terminator. */
  method Atoi(str: array<char>, ghost m: nat) returns (r: int)
    requires m < str.Length && str[m] == '\0' && forall k :: 0 <= k < m ==> str[k] != '\0'
    ensures r == Parse(str[..m])
  {
    hide Value, LeadingDigits, ToWord, ToSigned, Sub32;
    var i := 0;
    assert str[0..m] == str[..m];
    while str[i] != '\0' && IsSpace(str[i])
      invariant i <= m && SkipSpaces(str[..m]) == SkipSpaces(str[i..m])
      decreases m - i
    {
      assert str[i..m][1..] == str[i + 1..m];
      i := i + 1;
    }
    ghost var t := str[i..m];
    assert i < m ==> t[0] == str[i];
    assert SkipSpaces(t) == t;
    var negative := str[i] == '-';
    if negative || str[i] == '+' {
      assert t[1..] == str[i + 1..m];
      i := i + 1;
    }
    assert AfterSign(t) == str[i..m];
    var acc := ReadDigits(str, i, m);
    WrapNegate(Value(LeadingDigits(str[i..m]), Decimal));
    return ToSigned(if negative then Sub32(0, acc) else acc);
  }

  /** The whole round trip through a buffer as printf has it. */
  method PrintAndParse(value: Int32) returns (r: int)
    ensures r == value as int
  {
    var buf := new char[20];
    TextFits(value, 'd');
    var _ := Itoa(value, buf, 'd');
    ghost var m := |Text(value, 'd')|;
    forall k | 0 <= k < m ensures buf[k] != '\0' {
      TextVisible(value, k);
      assert buf[k] == buf[..m][k];
    }
    PrintParse(value);
    r := Atoi(buf, m);
  }

  lemma TextVisible(value: Int32, k: nat)
    requires k < |Text(value, 'd')|
    ensures Text(value, 'd')[k] != '\0'
  {
    var n := ToWord(if value < 0 then -(value as int) else value as int);
    DigitsCanonical(n, Decimal);
    hide Digits;
    var s := Digits(n, Decimal);
    if value < 0 {
      assert k > 0 ==> Text(value, 'd')[k] == s[k - 1];
    }
  }
}
