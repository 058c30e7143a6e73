/** `java.awt.Color.decode` and the `Integer.decode` it rests on, reduced to
    the outcome the core looks at: a colour, a `NumberFormatException`, or
    the `NullPointerException` a null string raises. Digits are ASCII only. */
module JavaColor {

  import opened JavaString

  /** `Color.GRAY`: red, green and blue all 128. */
  const Gray: nat := 0x808080

  /** The largest `int`; `Integer.MIN_VALUE` is its negation minus one. */
  const IntMax: nat := 0x7FFF_FFFF

  /** The value a letter or digit stands for in radix 36, 36 for anything else. */
  function AsciiDigit(c: char): (d: nat)
    ensures d <= 36
  {
    if '0' <= c <= '9' then (c - '0') as nat
    else if 'a' <= c <= 'z' then (c - 'a') as nat + 10
    else if 'A' <= c <= 'Z' then (c - 'A') as nat + 10
    else 36
  }

  /** `Character.digit(c, radix)`, with -1 as `None`. */
  function DigitValue(c: char, radix: nat): (r: Option<nat>)
    ensures r.Some? ==> r.value < radix
  {
    if AsciiDigit(c) < radix then Some(AsciiDigit(c)) else None
  }

  predicate IsHexDigit(c: char) {
    '0' <= c <= '9' || 'a' <= c <= 'f' || 'A' <= c <= 'F'
  }

  lemma HexDigitValue(c: char)
    ensures DigitValue(c, 16).Some? <==> IsHexDigit(c)
  {
  }

  function Pow(b: nat, n: nat): (r: nat)
    ensures b > 0 ==> r > 0
  {
    if n == 0 then 1 else b * Pow(b, n - 1)
  }

  /** The value of a run of digits read most significant first, or `None`
      when one of them is not a digit of the radix. */
  function DigitsValue(s: string, radix: nat): Option<nat>
    decreases |s|
  {
    if s == [] then Some(0)
    else
      var init, last := s[..|s| - 1], s[|s| - 1];
      match DigitsValue(init, radix)
      case None => None
      case Some(v) =>
        match DigitValue(last, radix)
        case None => None
        case Some(d) => Some(v * radix + d)
  }

  /** Every character of `s` is a digit of the radix. */
  predicate AllDigits(s: string, radix: nat) {
    forall i :: 0 <= i < |s| ==> DigitValue(s[i], radix).Some?
  }

  /** A run of digits has a value exactly when every character is a digit of
      the radix, and `n` digits stay below `radix^n`. */
  lemma {:induction false} DigitsValueSpec(s: string, radix: nat)
    ensures DigitsValue(s, radix).Some? <==> AllDigits(s, radix)
    ensures DigitsValue(s, radix).Some? ==> DigitsValue(s, radix).value < Pow(radix, |s|)
    decreases |s|
  {
    if s != [] {
      var init := s[..|s| - 1];
      var last := s[|s| - 1];
      DigitsValueSpec(init, radix);
      AllDigitsSnoc(s, radix);
      assert DigitsValue(s, radix).Some? <==> DigitsValue(init, radix).Some? && DigitValue(last, radix).Some?;
      if DigitsValue(s, radix).Some? {
        var v := DigitsValue(init, radix).value;
        var d := DigitValue(last, radix).value;
        assert DigitsValue(s, radix).value == v * radix + d;
        assert Pow(radix, |s|) == radix * Pow(radix, |init|);
        NextDigitBound(v, d, radix, Pow(radix, |init|));
      }
    }
  }

  /** All of `s` are digits exactly when all but the last are and the last is. */
  lemma AllDigitsSnoc(s: string, radix: nat)
    requires s != []
    ensures AllDigits(s, radix) <==> AllDigits(s[..|s| - 1], radix) && DigitValue(s[|s| - 1], radix).Some?
  {
    var init := s[..|s| - 1];
    assert forall i :: 0 <= i < |init| ==> init[i] == s[i];
  }

  /** One more digit keeps the value below the next power of the radix. */
  lemma NextDigitBound(v: nat, d: nat, radix: nat, p: nat)
    requires v < p && d < radix
    ensures v * radix + d < radix * p
  {
    calc {
      v * radix + d;
    <  v * radix + radix;
    == (v + 1) * radix;
    <= { MulMonotone(v + 1, p, radix); }
      p * radix;
    ==
      radix * p;
    }
  }

  lemma MulMonotone(a: nat, b: nat, c: nat)
    requires a <= b
    ensures a * c <= b * c
  {
  }

  /** `Integer.parseInt` on what follows the prefix: no digits at all is a
      `NumberFormatException` too. */
  function ParseUnsigned(s: string, radix: nat): Option<nat> {
    if s == [] then None else DigitsValue(s, radix)
  }

  datatype Decoded = Decoded(value: int) | NumberFormatError

  /** `Integer.decode(nm)` for a non-null `nm`: an optional sign, then `0x`,
      `0X` or `#` for hexadecimal, or a leading `0` (with more after it) for
      octal; a second sign is refused, and the magnitude must fit an `int`
      (the negative side reaching one further). */
  function IntegerDecode(nm: string): (r: Decoded)
    ensures r.Decoded? ==> -(IntMax + 1) <= r.value <= IntMax
  {
    if nm == [] then NumberFormatError
    else
      var negative := nm[0] == '-';
      var index := if nm[0] == '-' || nm[0] == '+' then 1 else 0;
      var hex := index + 1 < |nm| && nm[index] == '0' && (nm[index + 1] == 'x' || nm[index + 1] == 'X');
      var hash := index < |nm| && nm[index] == '#';
      var octal := index < |nm| && nm[index] == '0' && |nm| > 1 + index;
      var radix: nat := if hex || hash then 16 else if octal then 8 else 10;
      var start := if hex then index + 2 else if hash || octal then index + 1 else index;
      if start < |nm| && (nm[start] == '-' || nm[start] == '+') then NumberFormatError
      else
        match ParseUnsigned(nm[start..], radix)
        case None => NumberFormatError
        case Some(v) =>
          if negative then (if v <= IntMax + 1 then Decoded(-(v as int)) else NumberFormatError)
          else (if v <= IntMax then Decoded(v) else NumberFormatError)
  }

  /** What `Color.decode` ends in. */
  datatype ColorOutcome = ColorOk(rgb: nat) | ColorNumberFormatError | ColorNullPointer

  /** `Color.decode(nm)`: the low 24 bits of the decoded `int` (in two's
      complement, which the non-negative `%` gives) as red, green and blue. */
  function DecodeColor(nm: Option<string>): (r: ColorOutcome)
    ensures r.ColorOk? ==> r.rgb < 0x100_0000
  {
    match nm
    case None => ColorNullPointer
    case Some(s) =>
      match IntegerDecode(s)
      case NumberFormatError => ColorNumberFormatError
      case Decoded(i) => ColorOk(i % 0x100_0000)
  }

  /** `#` and six characters decode exactly when the six are hexadecimal
      digits, and then to the colour they spell. */
  lemma HashSixDecodes(v: string)
    requires |v| == 7 && v[0] == '#'
    ensures DecodeColor(Some(v)).ColorOk? <==> forall i :: 1 <= i < 7 ==> IsHexDigit(v[i])
    ensures DecodeColor(Some(v)).ColorOk? ==> Some(DecodeColor(Some(v)).rgb) == DigitsValue(v[1..], 16)
  {
    var digits := v[1..];
    DigitsValueSpec(digits, 16);
    assert Pow(16, 6) == 0x100_0000;
    forall i | 0 <= i < 6 ensures DigitValue(digits[i], 16).Some? <==> IsHexDigit(v[i + 1]) {
      HexDigitValue(v[i + 1]);
    }
    if v[1] == '-' || v[1] == '+' {
      assert !IsHexDigit(v[1]);
    }
  }

  /** The hexadecimal digit for a value below 16, upper case as `%06X` writes it. */
  function HexChar(d: nat): (c: char)
    requires d < 16
    ensures IsHexDigit(c) && DigitValue(c, 16) == Some(d)
  {
    if d < 10 then ('0' as int + d) as char else ('A' as int + d - 10) as char
  }

  /** The last `k` hexadecimal digits of `n`. */
  function HexDigits(n: nat, k: nat): (s: string)
    ensures |s| == k
  {
    if k == 0 then [] else HexDigits(n / 16, k - 1) + [HexChar(n % 16)]
  }

  /** `k` hexadecimal digits spell any value below `16^k`. */
  lemma {:induction false} HexDigitsValue(n: nat, k: nat)
    requires n < Pow(16, k)
    ensures DigitsValue(HexDigits(n, k), 16) == Some(n)
  {
    if k > 0 {
      var s := HexDigits(n, k);
      assert s[..|s| - 1] == HexDigits(n / 16, k - 1);
      QuotientBelow(n, Pow(16, k - 1));
      HexDigitsValue(n / 16, k - 1);
    }
  }

  lemma QuotientBelow(n: nat, p: nat)
    requires n < 16 * p
    ensures n / 16 < p
  {
  }

  /** A colour written `#RRGGBB` decodes back to itself. */
  lemma HexColorRoundTrip(rgb: nat)
    requires rgb < 0x100_0000
    ensures DecodeColor(Some("#" + HexDigits(rgb, 6))) == ColorOk(rgb)
  {
    var v := "#" + HexDigits(rgb, 6);
    assert v[1..] == HexDigits(rgb, 6);
    assert Pow(16, 6) == 0x100_0000;
    HexDigitsValue(rgb, 6);
    forall i | 1 <= i < 7 ensures IsHexDigit(v[i]) {
      DigitsValueSpec(v[1..], 16);
      HexDigitValue(v[i]);
    }
    HashSixDecodes(v);
  }
}
