/** Reading one integer token and rendering it at a bit width (src/idamesh/domain/services/number.py). */
module Number {
  import opened Common
  import opened Strings

  const MIN_BITS := 1
  const MAX_BITS := 512

  datatype Error = BitsOutOfRange | EmptyToken | NotOneCharacter | Unparsable

  datatype Conversion = Conversion(input: string, bits: int, decimal: int, unsigned: int, signed: int,
                                   hex: string, binary: string, octal: string, character: Option<char>)

  // ---------------------------------------------------------------- reading

  function DigitOf(c: char): Option<nat> {
    if '0' <= c <= '9' then Some(c as nat - '0' as nat)
    else if 'a' <= c <= 'f' then Some(c as nat - 'a' as nat + 10)
    else if 'A' <= c <= 'F' then Some(c as nat - 'A' as nat + 10)
    else None
  }

  /** The value of a digit string; single underscores may stand between digits. */
  function ReadDigits(s: string, radix: nat): Option<nat> {
    if s == "" then None
    else
      var d := DigitOf(s[|s| - 1]);
      if d == None || d.value >= radix then None
      else if |s| == 1 then d
      else
        var before := ReadDigits(if s[|s| - 2] == '_' then s[..|s| - 2] else s[..|s| - 1], radix);
        if before == None then None else Some(before.value * radix + d.value)
  }

  /** What follows a radix prefix; one underscore may open it. */
  function ReadPrefixed(s: string, radix: nat): Option<int> {
    var v := ReadDigits(if s != "" && s[0] == '_' then s[1..] else s, radix);
    if v == None then None else Some(v.value)
  }

  /** A decimal number, which may carry a sign of its own. */
  function ReadDecimal(s: string): Option<int>
  {
    if s != "" && (s[0] == '+' || s[0] == '-') then
      var v := ReadDigits(s[1..], 10);
      if v == None then None else Some(if s[0] == '-' then 0 - v.value else v.value)
    else
      var v := ReadDigits(s, 10);
      if v == None then None else Some(v.value)
  }

  predicate HasPrefix(s: string, lower: char, upper: char) {
    |s| >= 2 && s[0] == '0' && (s[1] == lower || s[1] == upper)
  }

  function ReadMagnitude(body: string): Option<int> {
    if HasPrefix(body, 'x', 'X') then ReadPrefixed(body[2..], 16)
    else if HasPrefix(body, 'b', 'B') then ReadPrefixed(body[2..], 2)
    else if HasPrefix(body, 'o', 'O') then ReadPrefixed(body[2..], 8)
    else ReadDecimal(body)
  }

  function Parse(value: string): Result<int, Error> {
    var text := Strip(value);
    if text == "" then Failure(EmptyToken)
    else
      var sign := if text[0] == '-' then -1 else 1;
      var body := if text[0] == '+' || text[0] == '-' then Strip(text[1..]) else text;
      if body == "" then Failure(Unparsable)
      else if |body| >= 2 && body[0] == body[|body| - 1] && (body[0] == '\'' || body[0] == '"') then
        if |body| == 3 then Success(sign * body[1] as int) else Failure(NotOneCharacter)
      else
        var magnitude := ReadMagnitude(body);
        if magnitude == None then Failure(Unparsable) else Success(sign * magnitude.value)
  }

  // ---------------------------------------------------------------- rendering

  function DigitChar(d: nat): (c: char)
    requires d < 16
    ensures DigitOf(c) == Some(d) && !IsSpace(c)
  {
    if d < 10 then ('0' as nat + d) as char else ('a' as nat + d - 10) as char
  }

  predicate IsDigit(c: char, radix: nat) { DigitOf(c).Some? && DigitOf(c).value < radix && !IsSpace(c) }

  predicate IsRadix(radix: nat) { radix == 2 || radix == 8 || radix == 10 || radix == 16 }

  /** The digits of `n`, none to spare. */
  function Digits(n: nat, radix: nat): (s: string)
    requires IsRadix(radix)
    ensures s != "" && forall i :: 0 <= i < |s| ==> IsDigit(s[i], radix)
    decreases n
  {
    QuotientShrinks(n, radix);
    if n < radix then [DigitChar(n)] else Digits(n / radix, radix) + [DigitChar(n % radix)]
  }

  lemma QuotientShrinks(n: nat, radix: nat)
    requires IsRadix(radix)
    ensures 0 <= n / radix && (n >= radix ==> n / radix < n) && 0 <= n % radix < radix
      && n / radix * radix + n % radix == n
  {
    if radix == 2 {
    } else if radix == 8 {
    } else if radix == 10 {
    }
  }

  function SignedText(n: int): string {
    if n < 0 then "-" + Digits(-n, 10) else Digits(n, 10)
  }

  function Power2(n: nat): (p: int)
    ensures p >= 1
  {
    if n == 0 then 1 else 2 * Power2(n - 1)
  }

  function Unsigned(n: int, bits: nat): int { n % Power2(bits) }

  predicate HasBit(n: int, bit: nat) { n / Power2(bit) % 2 == 1 }

  function Signed(n: int, bits: nat): int
    requires bits >= 1
  {
    var u := Unsigned(n, bits);
    if HasBit(u, bits - 1) then u - Power2(bits) else u
  }

  function Convert(value: string, bits: int): Result<Conversion, Error> {
    if !(MIN_BITS <= bits <= MAX_BITS) then Failure(BitsOutOfRange)
    else
      var parsed := Parse(value);
      if parsed.Failure? then Failure(parsed.error)
      else
        var n := parsed.value;
        var u := Unsigned(n, bits);
        Success(Conversion(value, bits, n, u, Signed(n, bits), "0x" + Digits(u, 16), "0b" + Digits(u, 2),
                           "0o" + Digits(u, 8),
                           if 0x20 <= u <= 0x7E then Some(u as char) else None))
  }

  // ---------------------------------------------------------------- two's complement

  /** The unsigned and signed views are the representatives of the number modulo 2^bits in their ranges. */
  lemma ViewsAreRepresentatives(n: int, bits: nat)
    requires bits >= 1
    ensures var u, s, m := Unsigned(n, bits), Signed(n, bits), Power2(bits);
      && 0 <= u < m && -m <= 2 * s < m
      && (n - u) % m == 0 && (u - s == 0 || u - s == m)
  {
    SignedRange(n, bits);
    MinusRemainder(n, Power2(bits));
  }

  lemma SignedRange(n: int, bits: nat)
    requires bits >= 1
    ensures var u, s, m := Unsigned(n, bits), Signed(n, bits), Power2(bits);
      0 <= u < m && -m <= 2 * s < m && (s == u || s == u - m)
  {
    assert Power2(bits) == 2 * Power2(bits - 1);
    QuotientIsBit(Unsigned(n, bits), Power2(bits - 1));
  }

  lemma QuotientOf(n: int, bits: nat) returns (q: int)
    ensures n == Unsigned(n, bits) + Power2(bits) * q
  {
    q := n / Power2(bits);
  }

  lemma QuotientIsBit(u: int, h: int)
    requires h >= 1 && 0 <= u < 2 * h
    ensures u / h % 2 == 1 <==> u >= h
  {
    if u >= h {
      assert (u - h) / h == 0 && u / h == (u - h) / h + 1;
    } else {
      assert u / h == 0;
    }
  }

  lemma MinusRemainder(n: int, m: int)
    requires m >= 1
    ensures (n - n % m) % m == 0
  {
    assert n - n % m == m * (n / m);
    MultipleRemainder(n / m, m, 0);
  }

  lemma MultipleRemainder(k: int, m: int, r: int)
    requires 0 <= r < m
    ensures (m * k + r) % m == r
  {
    var q, e := (m * k + r) / m, (m * k + r) % m;
    assert m * (k - q) == e - r;
    assert k - q >= 1 ==> m * (k - q) >= m;
    assert k - q <= -1 ==> m * (k - q) <= -m;
  }

  /** Numbers in one residue class have the same views. */
  lemma SameClass(a: int, b: int, k: int, bits: nat)
    requires bits >= 1 && a == b + Power2(bits) * k
    ensures Unsigned(a, bits) == Unsigned(b, bits) && Signed(a, bits) == Signed(b, bits)
  {
    var m := Power2(bits);
    assert a == m * (b / m + k) + b % m;
    MultipleRemainder(b / m + k, m, b % m);
  }

  lemma ViewsKeepTheirViews(n: int, bits: nat)
    requires bits >= 1
    ensures Unsigned(Unsigned(n, bits), bits) == Unsigned(n, bits) == Unsigned(Signed(n, bits), bits)
    ensures Signed(Unsigned(n, bits), bits) == Signed(n, bits) == Signed(Signed(n, bits), bits)
  {
    ViewsAreRepresentatives(n, bits);
    var u, s, m := Unsigned(n, bits), Signed(n, bits), Power2(bits);
    SameClass(n, u, n / m, bits);
    if s == u {
      SameClass(u, s, 0, bits);
    } else {
      SameClass(u, s, 1, bits);
    }
  }

  /** The signed view is the number itself exactly when the number fits. */
  lemma SignedIfItFits(n: int, bits: nat)
    requires bits >= 1
    ensures Signed(n, bits) == n <==> -Power2(bits) <= 2 * n < Power2(bits)
  {
    hide *;
    SignedRange(n, bits);
    var u, s, m := Unsigned(n, bits), Signed(n, bits), Power2(bits);
    var q := QuotientOf(n, bits);
    if -m <= 2 * n < m {
      if s == u {
        SmallMultiple(m, q, n - s);
      } else {
        assert m * (q + 1) == m * q + m;
        SmallMultiple(m, q + 1, n - s);
      }
    }
  }

  lemma SmallMultiple(m: int, j: int, d: int)
    requires m >= 1 && d == m * j && -m < d < m
    ensures d == 0
  {
    assert j >= 1 ==> m * j >= m;
    assert j <= -1 ==> m * j <= -m;
  }

  lemma {:induction false} PowerSplits(a: nat, b: nat)
    ensures Power2(a + b) == Power2(a) * Power2(b)
  {
    if a > 0 { PowerSplits(a - 1, b); }
  }

  /** A wider signed view has the same sign extension: it fits, so it stays. */
  lemma WideningKeepsSigned(n: int, narrow: nat, wide: nat)
    requires 1 <= narrow <= wide
    ensures Signed(Signed(n, narrow), wide) == Signed(n, narrow)
  {
    hide *;
    SignedRange(n, narrow);
    PowerSplits(narrow, wide - narrow);
    var m, f := Power2(narrow), Power2(wide - narrow);
    assert m * f >= m;
    SignedIfItFits(Signed(n, narrow), wide);
  }

  /** Taking the narrow view of a wide view loses nothing. */
  lemma NarrowingIsTruncation(n: int, narrow: nat, wide: nat)
    requires 1 <= narrow <= wide
    ensures Unsigned(Unsigned(n, wide), narrow) == Unsigned(n, narrow)
    ensures Signed(Unsigned(n, wide), narrow) == Signed(n, narrow)
  {
    hide *;
    PowerSplits(narrow, wide - narrow);
    var q := QuotientOf(n, wide);
    var m, f := Power2(narrow), Power2(wide - narrow);
    assert m * f * q == m * (f * q);
    SameClass(n, Unsigned(n, wide), f * q, narrow);
  }

  // ---------------------------------------------------------------- round trips

  lemma {:induction false} DigitsReadBack(n: nat, radix: nat)
    requires IsRadix(radix)
    ensures ReadDigits(Digits(n, radix), radix) == Some(n)
    decreases n
  {
    if n >= radix {
      QuotientShrinks(n, radix);
      var before := Digits(n / radix, radix);
      DigitsReadBack(n / radix, radix);
      var s := Digits(n, radix);
      assert s == before + [DigitChar(n % radix)];
      hide Digits;
      ReadsOneMore(before, DigitChar(n % radix), radix);
    }
  }

  lemma ReadsOneMore(before: string, c: char, radix: nat)
    requires before != "" && IsDigit(before[|before| - 1], radix) && IsDigit(c, radix)
      && ReadDigits(before, radix).Some?
    ensures ReadDigits(before + [c], radix) == Some(ReadDigits(before, radix).value * radix + DigitOf(c).value)
  {
    var s := before + [c];
    assert s[..|s| - 1] == before && s[|s| - 2] == before[|before| - 1];
    assert DigitOf('_') == None;
    hide DigitOf, IsSpace;
  }

  /** Each prefixed rendering parses to the number it renders. */
  lemma PrefixedReadsBack(n: nat, radix: nat, prefix: string)
    requires (radix == 16 && prefix == "0x") || (radix == 2 && prefix == "0b") || (radix == 8 && prefix == "0o")
    ensures Parse(prefix + Digits(n, radix)) == Success(n)
  {
    var digits := Digits(n, radix);
    DigitsReadBack(n, radix);
    hide Digits;
    assert IsDigit(digits[0], radix) && IsDigit(digits[|digits| - 1], radix);
    PrefixedParses(digits, radix, prefix, n);
  }

  lemma PrefixedParses(digits: string, radix: nat, prefix: string, n: nat)
    requires (radix == 16 && prefix == "0x") || (radix == 2 && prefix == "0b") || (radix == 8 && prefix == "0o")
    requires digits != "" && IsDigit(digits[0], radix) && IsDigit(digits[|digits| - 1], radix)
      && ReadDigits(digits, radix) == Some(n)
    ensures Parse(prefix + digits) == Success(n)
  {
    var text := prefix + digits;
    assert text[|text| - 1] == digits[|digits| - 1] && text[2..] == digits;
    StripIsIdentity(text);
    assert digits[0] != '_';
    hide Strip, ReadDigits, IsSpace;
  }

  /** A decimal rendering parses to the number it renders, sign included. */
  lemma DecimalReadsBack(n: int)
    ensures Parse(SignedText(n)) == Success(n)
  {
    var digits := Digits(if n < 0 then -n else n, 10);
    DigitsReadBack(if n < 0 then -n else n, 10);
    hide Digits;
    DecimalParses(digits, if n < 0 then -n else n);
  }

  lemma DecimalParses(digits: string, n: nat)
    requires digits != "" && (forall i :: 0 <= i < |digits| ==> IsDigit(digits[i], 10))
      && ReadDigits(digits, 10) == Some(n)
    ensures Parse(digits) == Success(n) && Parse("-" + digits).Success? && Parse("-" + digits).value + n == 0
  {
    assert IsDigit(digits[0], 10) && IsDigit(digits[|digits| - 1], 10);
    PlainDecimal(digits);
    StripIsIdentity(digits);
    StripIsIdentity("-" + digits);
    assert ("-" + digits)[1..] == digits;
    hide Strip, ReadDigits, IsSpace, ReadMagnitude, DigitOf;
  }

  lemma PlainDecimal(digits: string)
    requires digits != "" && forall i :: 0 <= i < |digits| ==> IsDigit(digits[i], 10)
    ensures ReadMagnitude(digits) == ReadDecimal(digits)
    ensures digits[0] !in {'+', '-', '\'', '"'}
  {
    assert |digits| >= 2 ==> IsDigit(digits[1], 10);
    hide ReadDigits;
  }

  lemma LiteralReadsBack(c: char)
    ensures Parse("'" + [c] + "'") == Success(c as int)
  {
    StripIsIdentity("'" + [c] + "'");
    hide Strip;
  }

  /** Blank space around a token does not matter, and a blank token is the only empty one. */
  lemma BlanksDoNotMatter(value: string)
    ensures Parse(value) == Parse(Strip(value))
    ensures Parse(value) == Failure(EmptyToken) <==> forall i :: 0 <= i < |value| ==> IsSpace(value[i])
  {
    StripIsEmpty(value);
    if Strip(value) != "" { StripIsIdentity(Strip(value)); }
    hide Strip, IsSpace, ReadMagnitude;
  }

  /** A leading minus negates an unsigned token and a leading plus keeps it; what cannot be read stays unreadable. */
  lemma SignNegates(body: string)
    requires body != "" && !IsSpace(body[0]) && !IsSpace(body[|body| - 1]) && body[0] != '+' && body[0] != '-'
    ensures Parse("+" + body) == Parse(body)
    ensures Parse("-" + body) == match Parse(body) case Success(n) => Success(-n) case Failure(e) => Failure(e)
  {
    StripIsIdentity(body);
    StripIsIdentity("+" + body);
    StripIsIdentity("-" + body);
    assert ("+" + body)[1..] == body && ("-" + body)[1..] == body;
    hide Strip, IsSpace, ReadMagnitude;
  }

  predicate SameViews(a: Conversion, r: Result<Conversion, Error>) {
    r.Success? && r.value.unsigned == a.unsigned && r.value.signed == a.signed
  }

  /** Converting any rendering of a conversion again, at the same width, gives the same values. */
  lemma ReconvertKeepsViews(value: string, bits: int)
    requires Convert(value, bits).Success?
    ensures var c := Convert(value, bits).value;
      && SameViews(c, Convert(c.hex, bits)) && SameViews(c, Convert(c.binary, bits))
        && SameViews(c, Convert(c.octal, bits))
      && SameViews(c, Convert(SignedText(c.signed), bits)) && SameViews(c, Convert(SignedText(c.unsigned), bits))
      && (c.character.Some? ==> SameViews(c, Convert("'" + [c.character.value] + "'", bits)))
  {
    var c := Convert(value, bits).value;
    ViewsAreRepresentatives(c.decimal, bits);
    ViewsKeepTheirViews(c.decimal, bits);
    PrefixedReadsBack(c.unsigned, 16, "0x");
    PrefixedReadsBack(c.unsigned, 2, "0b");
    PrefixedReadsBack(c.unsigned, 8, "0o");
    DecimalReadsBack(c.signed);
    DecimalReadsBack(c.unsigned);
    if c.character.Some? { LiteralReadsBack(c.character.value); }
    hide Parse, Digits, SignedText, Unsigned, Signed;
  }

  /**
    Converting the signed decimal at a greater width keeps the signed value; converting the hexadecimal
    at a smaller one truncates.
  */
  lemma WidthsAgree(value: string, bits: int, other: int)
    requires Convert(value, bits).Success? && MIN_BITS <= other <= MAX_BITS
    ensures var c := Convert(value, bits).value;
      && (bits <= other ==> Convert(SignedText(c.signed), other).Success?
                            && Convert(SignedText(c.signed), other).value.signed == c.signed)
      && (other <= bits ==> Convert(value, other).Success?
                            && SameViews(Convert(value, other).value, Convert(c.hex, other)))
  {
    var c := Convert(value, bits).value;
    ViewsAreRepresentatives(c.decimal, bits);
    DecimalReadsBack(c.signed);
    PrefixedReadsBack(c.unsigned, 16, "0x");
    if bits <= other { WideningKeepsSigned(c.decimal, bits, other); }
    if other <= bits { NarrowingIsTruncation(c.decimal, other, bits); }
    hide Parse, Digits, SignedText, Unsigned, Signed;
  }

  /** The decimal field is the parsed number; the signed one is it too exactly when it fits the width. */
  lemma SignedFieldIfItFits(value: string, bits: int)
    requires Convert(value, bits).Success?
    ensures var c := Convert(value, bits).value;
      c.signed == c.decimal <==> -Power2(bits) <= 2 * c.decimal < Power2(bits)
  {
    SignedIfItFits(Convert(value, bits).value.decimal, bits);
    hide Parse, Digits, Unsigned, Signed;
  }
}
