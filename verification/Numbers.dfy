/** Numbers as text: format_unsigned, strtoul and strtol of user/libc/ext.c. */
module Numbers {
  import opened Division
  import opened Powers

  const MAX := WORD - 1

  function DigitChar(d: nat): char
    requires d < 16
  {
    if d < 10 then '0' + d as char else 'a' + (d - 10) as char
  }

  /** The value of a digit or letter, or -1. */
  function DigitValue(c: char): int {
    if '0' <= c <= '9' then c as int - '0' as int
    else if 'a' <= c <= 'z' then c as int - 'a' as int + 10
    else if 'A' <= c <= 'Z' then c as int - 'A' as int + 10
    else -1
  }

  /** The values of the digits and of the letters in both forms; nothing else has one. */
  lemma DigitMeans(c: char, v: nat)
    requires v < 36
    ensures DigitValue(c) == v <==>
      if v < 10 then c as int == '0' as int + v
      else c as int == 'a' as int + v - 10 || c as int == 'A' as int + v - 10
    ensures -1 <= DigitValue(c) < 36
  {
  }

  predicate IsDigit(c: char, base: nat) { 0 <= DigitValue(c) < base }

  ghost predicate AllDigits(s: string, base: nat) { forall i :: 0 <= i < |s| ==> IsDigit(s[i], base) }

  /** What a string of digits stands for. */
  function Value(s: string, base: nat): nat
    requires AllDigits(s, base)
  {
    if s == "" then 0
    else
      NotNegative(Value(s[..|s| - 1], base), base);
      Times(Value(s[..|s| - 1], base), base) + DigitValue(s[|s| - 1])
  }

  lemma Smaller(v: nat, base: nat)
    requires v >= base >= 2
    ensures 0 < Quotient(v, base) < v && Remainder(v, base) < base
    ensures v == Times(Quotient(v, base), base) + Remainder(v, base)
  {
    hide Times;
    DivTimes(v, base);
    var q := Quotient(v, base);
    TimesPlus2(q, base);
    NotNegative(q, base);
    if q == 0 { TimesZero(base); }
  }

  /** The digits of a number, the most significant first. */
  function Digits(v: nat, base: nat): string
    requires 2 <= base <= 16
    decreases v
  {
    if v < base then [DigitChar(v)]
    else
      Smaller(v, base);
      Digits(Quotient(v, base), base) + [DigitChar(Remainder(v, base))]
  }

  // ----- printing -----

  /** divmod_small: the native division for 32-bit values, bit by bit above. */
  method DivmodSmall(v: nat, base: nat) returns (q: nat, r: nat)
    requires v < WORD && 2 <= base <= 16
    ensures q == Quotient(v, base) && r == Remainder(v, base) && r < base && q <= v && (v > 0 ==> q < v)
  {
    if v < 0x1_0000_0000 {
      q, r := Quotient(v, base), Remainder(v, base);
    } else {
      q, r := DivMod(v, base);
    }
    if v >= base { Smaller(v, base); } else { Short(v, base); }
  }

  lemma Short(v: nat, base: nat)
    requires v < base
    ensures Quotient(v, base) == 0 && Remainder(v, base) == v
  {
    TimesZero(base);
    DivUnique(v, base, 0, v);
  }

  ghost function Reversed(s: string): string {
    if s == "" then "" else [s[|s| - 1]] + Reversed(s[..|s| - 1])
  }

  /** format_unsigned without width, precision or flags: the digits, collected from
      the least significant one and put out backwards. */
  method FormatUnsigned(v: nat, base: nat) returns (s: string)
    requires v < WORD && 2 <= base <= 16
    ensures s == Digits(v, base)
  {
    hide Quotient, Remainder, Digits, Reversed;
    if v == 0 {
      s := "0";
      NoDigits(base);
      return;
    }
    var value, digits := v, "";
    NoDigits(base);
    assert Digits(v, base) + "" == Digits(v, base);
    while value > 0
      invariant 0 <= value <= v
      invariant value > 0 ==> Digits(v, base) == Digits(value, base) + Reversed(digits)
      invariant value == 0 ==> Digits(v, base) == Reversed(digits)
    {
      var q, d := DivmodSmall(value, base);
      OneDigit(value, base, digits);
      value, digits := q, digits + [DigitChar(d)];
    }
    s := Backwards(digits);
  }

  lemma NoDigits(base: nat)
    requires 2 <= base <= 16
    ensures Reversed("") == "" && Digits(0, base) == "0"
  {
  }

  lemma OneDigit(value: nat, base: nat, digits: string)
    requires value > 0 && 2 <= base <= 16 && Remainder(value, base) < 16
    ensures var q, c := Quotient(value, base), DigitChar(Remainder(value, base));
      && (q > 0 ==> Digits(value, base) + Reversed(digits) == Digits(q, base) + Reversed(digits + [c]))
      && (q == 0 ==> Digits(value, base) + Reversed(digits) == Reversed(digits + [c]))
  {
    hide Quotient, Remainder;
    var q, c := Quotient(value, base), DigitChar(Remainder(value, base));
    ReversedMore(digits, c);
    if value < base {
      Short(value, base);
    } else {
      Smaller(value, base);
      assert Digits(q, base) + [c] + Reversed(digits) == Digits(q, base) + ([c] + Reversed(digits));
    }
  }

  method Backwards(digits: string) returns (s: string)
    ensures s == Reversed(digits)
  {
    s := "";
    var count := |digits|;
    assert digits[..count] == digits;
    while count > 0
      invariant 0 <= count <= |digits| && s + Reversed(digits[..count]) == Reversed(digits)
    {
      count := count - 1;
      assert digits[..count + 1][..count] == digits[..count];
      assert s + ([digits[count]] + Reversed(digits[..count])) == s + [digits[count]] + Reversed(digits[..count]);
      s := s + [digits[count]];
    }
    assert s + "" == s;
  }

  lemma ReversedMore(s: string, c: char)
    ensures Reversed(s + [c]) == [c] + Reversed(s)
  {
    assert (s + [c])[..|s|] == s;
  }

  ghost function SignedText(v: int): string
    requires -HALF <= v < HALF
  {
    if v < 0 then "-" + Digits(Magnitude(v), 10) else Digits(v, 10)
  }

  /** %ld. */
  method FormatSigned(v: int) returns (s: string)
    requires -HALF <= v < HALF
    ensures s == SignedText(v)
  {
    s := FormatUnsigned(Magnitude(v), 10);
    if v < 0 { s := "-" + s; }
  }

  // ----- parsing -----

  predicate IsSpace(c: char) { c == ' ' || '\t' <= c <= '\r' }

  function SkipSpaces(t: string, i: nat): (k: nat)
    requires i <= |t|
    ensures i <= k <= |t|
    decreases |t| - i
  {
    if i < |t| && IsSpace(t[i]) then SkipSpaces(t, i + 1) else i
  }

  function AfterSign(t: string, i: nat): (k: nat)
    requires i <= |t|
    ensures i <= k <= |t|
  {
    if i < |t| && (t[i] == '+' || t[i] == '-') then i + 1 else i
  }

  predicate Minus(t: string, i: nat) { i < |t| && t[i] == '-' }

  /** A hexadecimal prefix with a digit behind it. */
  predicate HexPrefix(t: string, i: nat) {
    i + 2 < |t| && t[i] == '0' && (t[i + 1] == 'x' || t[i + 1] == 'X') && IsDigit(t[i + 2], 16)
  }

  function BaseOf(t: string, i: nat, base: nat): nat {
    if (base == 0 || base == 16) && HexPrefix(t, i) then 16
    else if base == 0 then (if i < |t| && t[i] == '0' then 8 else 10)
    else base
  }

  function AfterPrefix(t: string, i: nat, base: nat): nat {
    if (base == 0 || base == 16) && HexPrefix(t, i) then i + 2 else i
  }

  /** Where the digits from a position on stop. */
  function DigitsEnd(t: string, i: nat, base: nat): (e: nat)
    requires i <= |t|
    ensures i <= e <= |t| && AllDigits(t[i..e], base) && (e < |t| ==> !IsDigit(t[e], base))
    decreases |t| - i
  {
    if i < |t| && IsDigit(t[i], base) then DigitsEnd(t, i + 1, base) else i
  }

  /** The number strtoul finds: saturated, or negated modulo the word. */
  function Parsed(t: string, base: nat): nat {
    var s := SkipSpaces(t, 0);
    var i := AfterSign(t, s);
    var b := BaseOf(t, i, base);
    var k := AfterPrefix(t, i, base);
    if b < 2 || b > 36 then 0
    else
      var m := Value(t[k..DigitsEnd(t, k, b)], b);
      if m > MAX then MAX else if Minus(t, s) then Negated(m) else m
  }

  lemma OverflowTest(value: nat, digit: nat, base: nat)
    requires base >= 2 && value <= MAX && digit < base <= 36
    ensures value > Quotient(MAX - digit, base) <==> Times(value, base) + digit > MAX
  {
    hide Times;
    var q, r := Quotient(MAX - digit, base), Remainder(MAX - digit, base);
    DivTimes(MAX - digit, base);
    if value > q {
      TimesPlus(q, value - q, base);
      TimesAtLeast(value - q, base);
    } else {
      TimesPlus(value, q - value, base);
      NotNegative(q - value, base);
    }
  }

  /** The digit loop of strtoul: the value of the digits, or the mark that it does
      not fit the word. */
  method ParseDigits(t: string, i: nat, base: nat) returns (value: nat, overflow: bool, e: nat)
    requires i <= |t| && 2 <= base <= 36
    ensures e == DigitsEnd(t, i, base)
    ensures overflow <==> Value(t[i..e], base) > MAX
    ensures !overflow ==> value == Value(t[i..e], base)
  {
    hide Times, Quotient;
    value, overflow, e := 0, false, i;
    assert t[i..i] == "";
    while e < |t| && IsDigit(t[e], base)
      invariant i <= e <= |t| && DigitsEnd(t, i, base) == DigitsEnd(t, e, base) && AllDigits(t[i..e], base)
      invariant 0 <= value <= MAX
      invariant overflow ==> Value(t[i..e], base) > MAX
      invariant !overflow ==> value == Value(t[i..e], base)
    {
      var digit := DigitValue(t[e]);
      assert t[i..e + 1] == t[i..e] + [t[e]];
      ValueMore(t[i..e], t[e], base);
      OverflowTest(value, digit, base);
      if value > Quotient(MAX - digit, base) {
        overflow := true;
      } else {
        NotNegative(value, base);
        value := Times(value, base) + digit;
      }
      e := e + 1;
    }
  }

  lemma ValueMore(s: string, c: char, base: nat)
    requires AllDigits(s, base) && IsDigit(c, base) && base >= 2
    ensures AllDigits(s + [c], base)
    ensures Value(s + [c], base) == Times(Value(s, base), base) + DigitValue(c) >= Value(s, base)
  {
    hide Times;
    assert (s + [c])[..|s|] == s;
    if Value(s, base) > 0 { Swapped(Value(s, base), base); TimesAtLeast(base, Value(s, base)); }
    NotNegative(Value(s, base), base);
  }

  /** Leading space and one sign. */
  method SkipSign(t: string) returns (i: nat, negative: bool)
    ensures i == AfterSign(t, SkipSpaces(t, 0)) && negative == Minus(t, SkipSpaces(t, 0))
  {
    i, negative := 0, false;
    while i < |t| && IsSpace(t[i])
      invariant 0 <= i <= |t| && SkipSpaces(t, 0) == SkipSpaces(t, i)
    {
      i := i + 1;
    }
    if i < |t| && t[i] == '+' {
      i := i + 1;
    } else if i < |t| && t[i] == '-' {
      negative, i := true, i + 1;
    }
  }

  /** strtoul. */
  method Strtoul(t: string, base: nat) returns (value: nat)
    ensures value == Parsed(t, base) && value < WORD
  {
    hide Value, Quotient, Times, DigitsEnd, SkipSpaces, AfterSign, Minus, IsDigit;
    var i, negative := SkipSign(t);
    var b, k := base, i;
    if (base == 0 || base == 16) && HexPrefix(t, i) {
      k, b := i + 2, 16;
    } else if base == 0 {
      b := if i < |t| && t[i] == '0' then 8 else 10;
    }
    if b < 2 || b > 36 { return 0; }
    var v, overflow, e := ParseDigits(t, k, b);
    if overflow { return MAX; }
    return if negative then Negated(v) else v;
  }

  /** What strtol makes of the magnitude: clamped to the signed range. */
  function Clamped(negative: bool, magnitude: nat): int
    requires magnitude < WORD
  {
    if negative then (if magnitude > HALF then -HALF else Signed(Negated(magnitude)))
    else if magnitude > HALF - 1 then HALF - 1 else magnitude
  }

  /** The nearest number of the signed range. */
  lemma ClampedNearest(negative: bool, magnitude: nat)
    requires magnitude < WORD
    ensures var v: int := if negative then -(magnitude as int) else magnitude as int;
      var c := Clamped(negative, magnitude);
      && -HALF <= c < HALF && (-HALF <= v < HALF ==> c == v)
      && (v >= HALF ==> c == HALF - 1) && (v < -HALF ==> c == -HALF)
  {
  }

  function ParsedSigned(t: string, base: nat): int {
    var s := SkipSpaces(t, 0);
    var i := AfterSign(t, s);
    if Parsed(t[i..], base) < WORD then Clamped(Minus(t, s), Parsed(t[i..], base)) else 0
  }

  /** strtol: a sign of its own, then strtoul on the rest. */
  method Strtol(t: string, base: nat) returns (value: int)
    ensures value == ParsedSigned(t, base)
  {
    hide Value, Parsed;
    var i, negative := SkipSign(t);
    var magnitude := Strtoul(t[i..], base);
    return Clamped(negative, magnitude);
  }

  // ----- both undo each other -----

  lemma {:induction false} DigitsValue(v: nat, base: nat)
    requires 2 <= base <= 16
    ensures AllDigits(Digits(v, base), base) && Value(Digits(v, base), base) == v
    ensures Digits(v, base) != "" && (Digits(v, base)[0] == '0' ==> |Digits(v, base)| == 1)
    decreases v
  {
    hide Times, Quotient, Remainder;
    if v < base {
      ValueMore("", DigitChar(v), base);
      TimesZero(base);
      assert "" + [DigitChar(v)] == [DigitChar(v)];
    } else {
      Smaller(v, base);
      var q, r := Quotient(v, base), Remainder(v, base);
      DigitsValue(q, base);
      ValueMore(Digits(q, base), DigitChar(r), base);
      if Digits(q, base)[0] == '0' { LeadingZero(q, base); }
    }
  }

  /** Only the text of zero starts with a zero. */
  lemma {:induction false} LeadingZero(v: nat, base: nat)
    requires 2 <= base <= 16 && Digits(v, base) != "" && Digits(v, base)[0] == '0'
    ensures v == 0
    decreases v
  {
    hide Quotient, Remainder;
    if v >= base {
      Smaller(v, base);
      NotEmpty(Quotient(v, base), base);
      LeadingZero(Quotient(v, base), base);
    }
  }

  lemma NotEmpty(v: nat, base: nat)
    requires 2 <= base <= 16
    ensures Digits(v, base) != ""
  {
  }

  lemma {:induction false} AllRead(t: string, i: nat, base: nat)
    requires i <= |t| && AllDigits(t[i..], base)
    ensures DigitsEnd(t, i, base) == |t|
    decreases |t| - i
  {
    if i < |t| {
      assert t[i..][0] == t[i] && t[i + 1..] == t[i..][1..];
      AllRead(t, i + 1, base);
    }
  }

  /** strtoul reads back what %lu, %lx and %lo print, for every 64-bit value. */
  lemma UnsignedRoundTrip(v: nat, base: nat)
    requires v < WORD && 2 <= base <= 16
    ensures Parsed(Digits(v, base), base) == v
  {
    hide Value, Digits;
    var t := Digits(v, base);
    DigitsValue(v, base);
    assert IsDigit(t[0], base);
    assert t[0..] == t;
    AllRead(t, 0, base);
    assert t[0..|t|] == t;
  }

  /** Without a base strtoul finds it: hexadecimal behind 0x, octal behind 0, decimal otherwise. */
  lemma BaseFound(v: nat, x: char)
    requires v < WORD && (x == 'x' || x == 'X')
    ensures Parsed(['0', x] + Digits(v, 16), 0) == Parsed(['0', x] + Digits(v, 16), 16) == v
    ensures Parsed("0" + Digits(v, 8), 0) == v
    ensures Parsed(Digits(v, 10), 0) == v
  {
    hide Value, Digits;
    var h, d := Digits(v, 16), Digits(v, 10);
    DigitsValue(v, 16);
    DigitsValue(v, 10);
    var t := ['0', x] + h;
    assert t[2..] == h && t[2] == h[0] && IsDigit(h[0], 16);
    AllRead(t, 2, 16);
    assert t[2..|t|] == h;
    OctalFound(v);
    assert IsDigit(d[0], 10) && d[0..] == d && d[0..|d|] == d;
    if d[0] == '0' {
      LeadingZero(v, 10);
      assert d == "0" + "";
      AllRead(d, 0, 8);
      LeadingZeros("", 8);
      EmptyValue(8);
    } else {
      AllRead(d, 0, 10);
    }
  }

  lemma OctalFound(v: nat)
    requires v < WORD
    ensures Parsed("0" + Digits(v, 8), 0) == v
  {
    hide Value, Digits;
    var o := Digits(v, 8);
    DigitsValue(v, 8);
    var t := "0" + o;
    assert forall i :: 0 <= i < |t| ==> IsDigit(t[i], 8);
    assert IsDigit(t[1], 8) && t[0..] == t && t[0..|t|] == t;
    AllRead(t, 0, 8);
    LeadingZeros(o, 8);
  }

  lemma EmptyValue(base: nat)
    ensures Value("", base) == 0
  {
  }

  /** A zero in front changes nothing. */
  lemma {:induction false} LeadingZeros(s: string, base: nat)
    requires AllDigits(s, base) && base >= 2
    ensures AllDigits("0" + s, base) && Value("0" + s, base) == Value(s, base)
  {
    if s == "" {
      ValueMore("", '0', base);
      TimesZero(base);
      assert "" + ['0'] == "0" + s;
    } else {
      var n := |s| - 1;
      LeadingZeros(s[..n], base);
      assert ("0" + s)[..|s|] == "0" + s[..n] && ("0" + s)[|s|] == s[n];
    }
  }

  /** strtol reads back what %ld prints, for every 64-bit value, the least one included. */
  lemma SignedRoundTrip(v: int)
    requires -HALF <= v < HALF
    ensures ParsedSigned(SignedText(v), 10) == v
  {
    hide Parsed, Digits;
    var m := Magnitude(v);
    UnsignedRoundTrip(m, 10);
    DigitsValue(m, 10);
    assert IsDigit(Digits(m, 10)[0], 10);
    var t := SignedText(v);
    if v < 0 {
      assert t[1..] == Digits(m, 10);
    } else {
      assert t[0..] == t;
    }
  }
}
