/** What tokens the number service (src/idamesh/domain/services/number.py) reads, and what it renders, in full. */
module NumberLaws {
  import opened Common
  import opened Strings
  import opened Number

  // ---------------------------------------------------------------- digits

  const LOWER := "0123456789abcdef"
  const UPPER := "0123456789ABCDEF"

  lemma DigitIsSpelledOut(c: char, d: nat)
    ensures DigitOf(c) == Some(d) <==> d < 16 && (c == LOWER[d] || c == UPPER[d])
  {
  }

  function Power(radix: nat, n: nat): nat {
    if n == 0 then 1 else radix * Power(radix, n - 1)
  }

  /** The digits weighted by their places, the first one highest. */
  function ValueOf(s: string, radix: nat): nat {
    if s == "" then 0
    else (if DigitOf(s[0]).Some? then DigitOf(s[0]).value else 0) * Power(radix, |s| - 1) + ValueOf(s[1..], radix)
  }

  function WithoutUnderscores(s: string): string {
    if s == "" then "" else (if s[0] == '_' then "" else [s[0]]) + WithoutUnderscores(s[1..])
  }

  predicate IsDigitOf(c: char, radix: nat) { DigitOf(c).Some? && DigitOf(c).value < radix }

  /** Digits of the radix, with single underscores allowed between them. */
  predicate AreDigits(s: string, radix: nat) {
    && s != "" && s[0] != '_' && s[|s| - 1] != '_'
    && (forall i :: 0 <= i < |s| ==> s[i] == '_' || IsDigitOf(s[i], radix))
    && forall i :: 1 <= i < |s| && s[i] == '_' ==> s[i - 1] != '_'
  }

  predicate IsNumeral(s: string, radix: nat, v: int) {
    AreDigits(s, radix) && v == ValueOf(WithoutUnderscores(s), radix)
  }

  lemma {:induction false} WithoutConcat(a: string, b: string)
    ensures WithoutUnderscores(a + b) == WithoutUnderscores(a) + WithoutUnderscores(b)
    decreases |a|
  {
    if a == "" {
      assert a + b == b;
    } else {
      assert (a + b)[1..] == a[1..] + b;
      WithoutConcat(a[1..], b);
    }
  }

  lemma {:induction false} ValueAppends(a: string, c: char, radix: nat)
    requires DigitOf(c).Some?
    ensures ValueOf(a + [c], radix) == ValueOf(a, radix) * radix + DigitOf(c).value
    decreases |a|
  {
    if a == "" {
      assert a + [c] == [c];
    } else {
      var d := if DigitOf(a[0]).Some? then DigitOf(a[0]).value else 0;
      assert (a + [c])[1..] == a[1..] + [c];
      ValueAppends(a[1..], c, radix);
      hide DigitOf;
      calc {
        ValueOf(a + [c], radix);
        d * Power(radix, |a|) + (ValueOf(a[1..], radix) * radix + DigitOf(c).value);
        { Regroup(d, Power(radix, |a| - 1), radix, ValueOf(a[1..], radix)); }
        (d * Power(radix, |a| - 1) + ValueOf(a[1..], radix)) * radix + DigitOf(c).value;
      }
    }
  }

  lemma Regroup(d: nat, p: nat, radix: nat, v: nat)
    ensures d * (radix * p) + v * radix == (d * p + v) * radix
  {
  }

  /** What precedes the last digit, and the underscore before it if there is one. */
  function Before(s: string): string
    requires |s| >= 2
  {
    if s[|s| - 2] == '_' then s[..|s| - 2] else s[..|s| - 1]
  }

  lemma AreDigitsEnds(s: string, radix: nat)
    requires |s| >= 2
    ensures AreDigits(s, radix) <==> IsDigitOf(s[|s| - 1], radix) && AreDigits(Before(s), radix)
  {
    var n, b := |s| - 1, Before(s);
    assert DigitOf('_') == None;
    hide DigitOf;
    if AreDigits(s, radix) {
      assert IsDigitOf(s[n], radix);
      if s[n - 1] == '_' { assert n - 2 >= 0 && s[n - 2] != '_'; }
    }
  }

  lemma ValueEnds(s: string, radix: nat)
    requires |s| >= 2 && DigitOf(s[|s| - 1]).Some?
    ensures ValueOf(WithoutUnderscores(s), radix)
         == ValueOf(WithoutUnderscores(Before(s)), radix) * radix + DigitOf(s[|s| - 1]).value
  {
    var n, b := |s| - 1, Before(s);
    assert DigitOf('_') == None;
    var last := [s[n]];
    assert WithoutUnderscores(last) == last by { assert last[1..] == ""; }
    if s[n - 1] == '_' {
      assert s == b + "_" + last;
      WithoutConcat(b + "_", last);
      WithoutConcat(b, "_");
      assert WithoutUnderscores("_") == "";
      assert WithoutUnderscores(s) == WithoutUnderscores(b) + last;
    } else {
      assert s == b + last;
      WithoutConcat(b, last);
    }
    hide WithoutUnderscores, DigitOf, ValueOf;
    ValueAppends(WithoutUnderscores(b), s[n], radix);
  }

  /** A digit string is read exactly if it is digits and separators, and as the sum of its digits by place. */
  lemma {:induction false} NumeralIsRead(s: string, radix: nat, v: nat)
    ensures ReadDigits(s, radix) == Some(v) <==> IsNumeral(s, radix, v)
    decreases |s|
  {
    assert DigitOf('_') == None;
    if s == "" {
    } else if |s| == 1 {
      assert s == [s[0]];
      OneDigit(s[0], radix);
    } else {
      AreDigitsEnds(s, radix);
      ReadEnds(s, radix);
      hide DigitOf, ReadDigits, AreDigits, ValueOf, WithoutUnderscores;
      if IsDigitOf(s[|s| - 1], radix) {
        ValueEnds(s, radix);
        var w := ValueOf(WithoutUnderscores(Before(s)), radix);
        NumeralIsRead(Before(s), radix, w);
        if ReadDigits(Before(s), radix).Some? { NumeralIsRead(Before(s), radix, ReadDigits(Before(s), radix).value); }
      }
    }
  }

  lemma OneDigit(c: char, radix: nat)
    ensures WithoutUnderscores([c]) == if c == '_' then "" else [c]
    ensures ValueOf([c], radix) == if DigitOf(c).Some? then DigitOf(c).value else 0
  {
    assert [c][1..] == "";
    assert Power(radix, 0) == 1 && ValueOf("", radix) == 0;
    hide DigitOf;
  }

  lemma ReadEnds(s: string, radix: nat)
    requires |s| >= 2
    ensures ReadDigits(s, radix) ==
      if !IsDigitOf(s[|s| - 1], radix) || ReadDigits(Before(s), radix) == None then None
      else Some(ReadDigits(Before(s), radix).value * radix + DigitOf(s[|s| - 1]).value)
  {
    hide DigitOf;
  }

  // ---------------------------------------------------------------- tokens

  /** A decimal numeral with at most one sign in front. */
  predicate IsDecimal(s: string, v: int) {
    if s != "" && s[0] == '-' then IsNumeral(s[1..], 10, 0 - v)
    else if s != "" && s[0] == '+' then IsNumeral(s[1..], 10, v)
    else IsNumeral(s, 10, v)
  }

  lemma DecimalIsRead(s: string, v: int)
    ensures ReadDecimal(s) == Some(v) <==> IsDecimal(s, v)
  {
    if s != "" && (s[0] == '+' || s[0] == '-') {
      if v >= 0 { NumeralIsRead(s[1..], 10, v); }
      if v <= 0 { NumeralIsRead(s[1..], 10, 0 - v); }
    } else if v >= 0 {
      NumeralIsRead(s, 10, v);
    }
    hide ReadDigits, AreDigits, ValueOf, WithoutUnderscores;
  }

  predicate IsPrefixed(s: string, lower: char, upper: char) {
    |s| >= 2 && s[0] == '0' && (s[1] == lower || s[1] == upper)
  }

  /** What follows a prefix: a numeral, or an underscore and a numeral. */
  predicate IsAfterPrefix(s: string, radix: nat, v: int) {
    IsNumeral(if s != "" && s[0] == '_' then s[1..] else s, radix, v)
  }

  predicate IsQuoted(s: string) { |s| >= 2 && s[0] == s[|s| - 1] && (s[0] == '\'' || s[0] == '"') }

  /** A character in quotes, a numeral with a radix prefix, or a decimal one. */
  predicate IsMagnitude(s: string, v: int) {
    if IsQuoted(s) then |s| == 3 && v == s[1] as int
    else if IsPrefixed(s, 'x', 'X') then IsAfterPrefix(s[2..], 16, v)
    else if IsPrefixed(s, 'b', 'B') then IsAfterPrefix(s[2..], 2, v)
    else if IsPrefixed(s, 'o', 'O') then IsAfterPrefix(s[2..], 8, v)
    else IsDecimal(s, v)
  }

  /** `body` is what the sign of `text`, if it has one, stands in front of. */
  ghost predicate IsSigned(text: string, negative: bool, body: string) {
    if text != "" && (text[0] == '-' || text[0] == '+') then negative == (text[0] == '-') && IsStripped(text[1..], body)
    else !negative && body == text
  }

  lemma MagnitudeIsRead(s: string, v: int)
    requires s != "" && !IsQuoted(s)
    ensures ReadMagnitude(s) == Some(v) <==> IsMagnitude(s, v)
  {
    DecimalIsRead(s, v);
    if |s| >= 2 {
      PrefixedIsRead(s[2..], 16, v);
      PrefixedIsRead(s[2..], 2, v);
      PrefixedIsRead(s[2..], 8, v);
    }
    hide ReadDecimal, ReadPrefixed, IsDecimal, IsAfterPrefix;
  }

  lemma PrefixedIsRead(s: string, radix: nat, v: int)
    ensures ReadPrefixed(s, radix) == Some(v) <==> IsAfterPrefix(s, radix, v)
  {
    if v >= 0 { NumeralIsRead(if s != "" && s[0] == '_' then s[1..] else s, radix, v); }
    hide ReadDigits, AreDigits, ValueOf, WithoutUnderscores;
  }

  /** `value`, without the blanks around it, is an optionally signed magnitude, and stands for `n`. */
  ghost predicate IsToken(value: string, n: int) {
    exists text, body, negative, v :: IsStripped(value, text) && IsSigned(text, negative, body) && body != ""
      && IsMagnitude(body, v) && n == if negative then 0 - v else v
  }

  lemma SignedIsUnique(text: string) returns (body: string, negative: bool)
    ensures IsSigned(text, negative, body)
    ensures forall b, m :: IsSigned(text, m, b) ==> b == body && m == negative
    ensures text != "" ==>
      body == (if text[0] == '+' || text[0] == '-' then Strip(text[1..]) else text) && negative == (text[0] == '-')
  {
    if text != "" && (text[0] == '-' || text[0] == '+') {
      body, negative := Strip(text[1..]), text[0] == '-';
      StripIsExact(text[1..]);
      forall b | IsStripped(text[1..], b) ensures b == body { StrippedIsUnique(text[1..], b, body); }
    } else {
      body, negative := text, false;
    }
    hide Strip, IsStripped;
  }

  /** Exactly these tokens are read, each as the number it stands for. */
  lemma TokenIsRead(value: string, n: int)
    ensures Parse(value) == Success(n) <==> IsToken(value, n)
  {
    var text := Strip(value);
    StripIsExact(value);
    forall t | IsStripped(value, t) ensures t == text { StrippedIsUnique(value, t, text); }
    var body, negative := SignedIsUnique(text);
    var v := if negative then 0 - n else n;
    if body != "" && !IsQuoted(body) { MagnitudeIsRead(body, v); }
    assert IsToken(value, n) <==> body != "" && IsMagnitude(body, v) by {
      hide Strip, IsStripped, IsSigned, IsMagnitude;
      if body != "" && IsMagnitude(body, v) {
        assert IsStripped(value, text) && IsSigned(text, negative, body);
      }
    }
    ParseUnfolds(value, body, negative, n);
    hide Parse, Strip, ReadMagnitude, IsToken;
  }

  lemma ParseUnfolds(value: string, body: string, negative: bool, n: int)
    requires Strip(value) != "" ==>
      var text := Strip(value);
      body == (if text[0] == '+' || text[0] == '-' then Strip(text[1..]) else text) && negative == (text[0] == '-')
    requires Strip(value) == "" ==> body == ""
    ensures Parse(value) == Success(n) <==>
      && body != ""
      && if IsQuoted(body) then |body| == 3 && n == (if negative then 0 - body[1] as int else body[1] as int)
         else ReadMagnitude(body) == Some(if negative then 0 - n else n)
  {
    hide Strip, ReadMagnitude;
  }

  // ---------------------------------------------------------------- the conversion

  /** Powers of two are what they are called. */
  lemma Powers()
    ensures Power2(0) == 1 && Power2(1) == 2 && Power2(8) == 256 && Power2(16) == 65536
    ensures forall n: nat :: Power2(n) == Power(2, n)
  {
    forall n: nat ensures Power2(n) == Power(2, n) { PowerIsPower(n); }
    assert Power2(4) == 16 && Power2(8) == 256 && Power2(12) == 4096 && Power2(16) == 65536;
  }

  lemma {:induction false} PowerIsPower(n: nat)
    ensures Power2(n) == Power(2, n)
  {
    if n > 0 { PowerIsPower(n - 1); }
  }

  /** The text is the numeral of `n`: lower-case digits, no separators and no leading zero. */
  predicate IsRendering(s: string, radix: nat, n: nat) {
    && IsNumeral(s, radix, n)
    && (forall i :: 0 <= i < |s| ==> s[i] in LOWER)
    && (|s| > 1 ==> s[0] != '0')
  }

  lemma {:induction false} DigitsRender(n: nat, radix: nat)
    requires IsRadix(radix)
    ensures IsRendering(Digits(n, radix), radix, n)
    decreases n
  {
    QuotientShrinks(n, radix);
    DigitsReadBack(n, radix);
    NumeralIsRead(Digits(n, radix), radix, n);
    DigitsAreLower(n, radix);
    hide Digits, IsNumeral;
  }

  lemma {:induction false} DigitsAreLower(n: nat, radix: nat)
    requires IsRadix(radix)
    ensures var s := Digits(n, radix);
      (forall i :: 0 <= i < |s| ==> s[i] in LOWER) && (n > 0 ==> s[0] != '0') && (n == 0 ==> |s| == 1)
    decreases n
  {
    QuotientShrinks(n, radix);
    CharIsLower(n % radix);
    if n >= radix {
      DigitsAreLower(n / radix, radix);
      SmallQuotient(n, radix);
      assert Digits(n, radix) == Digits(n / radix, radix) + [DigitChar(n % radix)];
      hide Digits, DigitChar;
    } else {
      assert n % radix == n;
    }
  }

  lemma SmallQuotient(n: nat, radix: nat)
    requires IsRadix(radix) && n >= radix
    ensures n / radix > 0
  {
  }

  lemma CharIsLower(d: nat)
    requires d < 16
    ensures DigitChar(d) in LOWER && (d > 0 ==> DigitChar(d) != '0')
  {
    assert DigitChar(d) == LOWER[d];
  }

  /** The unsigned view lies in its range and differs by a multiple of 2^bits; the signed one wraps at the half. */
  predicate AreViews(n: int, bits: nat, unsigned: int, signed: int) {
    && 0 <= unsigned < Power2(bits) && (n - unsigned) % Power2(bits) == 0
    && signed == if 2 * unsigned < Power2(bits) then unsigned else unsigned - Power2(bits)
  }

  lemma ViewsAre(n: int, bits: nat)
    requires bits >= 1
    ensures AreViews(n, bits, Unsigned(n, bits), Signed(n, bits))
  {
    ViewsAreRepresentatives(n, bits);
    hide Unsigned, Signed, Power2;
  }

  predicate IsRendered(s: string, prefix: string, radix: nat, n: int) {
    n >= 0 && prefix <= s && IsRendering(s[|prefix|..], radix, n)
  }

  /** Every field of a conversion, and when there is one. */
  lemma ConversionIsSpelledOut(value: string, bits: int)
    ensures Convert(value, bits).Success? <==> 1 <= bits <= 512 && exists n :: IsToken(value, n)
    ensures Convert(value, bits).Success? ==>
      var c := Convert(value, bits).value;
      && c.input == value && c.bits == bits && IsToken(value, c.decimal)
      && AreViews(c.decimal, bits, c.unsigned, c.signed)
      && IsRendered(c.hex, "0x", 16, c.unsigned)
      && IsRendered(c.binary, "0b", 2, c.unsigned)
      && IsRendered(c.octal, "0o", 8, c.unsigned)
      && c.character == if 0x20 <= c.unsigned <= 0x7E then Some(c.unsigned as char) else None
  {
    ConversionFields(value, bits);
    forall n ensures Parse(value) == Success(n) <==> IsToken(value, n) { TokenIsRead(value, n); }
    hide *;
    if Convert(value, bits).Success? {
      var c := Convert(value, bits).value;
      ViewsAre(c.decimal, bits);
      Rendered(c.unsigned, 16, "0x");
      Rendered(c.unsigned, 2, "0b");
      Rendered(c.unsigned, 8, "0o");
    }
  }

  lemma ConversionFields(value: string, bits: int)
    ensures Convert(value, bits).Success? <==> 1 <= bits <= 512 && Parse(value).Success?
    ensures Convert(value, bits).Success? ==>
      var c := Convert(value, bits).value;
      && c.input == value && c.bits == bits && Parse(value) == Success(c.decimal)
      && c.unsigned == Unsigned(c.decimal, bits) && c.signed == Signed(c.decimal, bits) && c.unsigned >= 0
      && c.hex == "0x" + Digits(c.unsigned, 16) && c.binary == "0b" + Digits(c.unsigned, 2)
      && c.octal == "0o" + Digits(c.unsigned, 8)
      && c.character == if 0x20 <= c.unsigned <= 0x7E then Some(c.unsigned as char) else None
  {
    hide Parse, Digits, Signed;
  }

  lemma Rendered(n: nat, radix: nat, prefix: string)
    requires IsRadix(radix)
    ensures IsRendered(prefix + Digits(n, radix), prefix, radix, n)
  {
    DigitsRender(n, radix);
    assert (prefix + Digits(n, radix))[|prefix|..] == Digits(n, radix);
    hide Digits, IsRendering;
  }

  /** Which error a failed conversion gives: a bad width before a blank token before anything else. */
  lemma ErrorIsSpelledOut(value: string, bits: int)
    ensures Convert(value, bits) == Failure(BitsOutOfRange) <==> bits < 1 || bits > 512
    ensures Convert(value, bits) == Failure(EmptyToken) <==> 1 <= bits <= 512 && AreSpaces(value)
  {
    BlanksDoNotMatter(value);
    WidthIsNoParseError(value);
    hide Parse;
  }

  lemma WidthIsNoParseError(value: string)
    ensures Parse(value) != Failure(BitsOutOfRange)
  {
  }
}
