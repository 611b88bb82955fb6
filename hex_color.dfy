/** parse_hex_color of src/lib.rs: a `#RRGGBB` colour, read from the bytes
    of a string. At most one leading `#` is dropped; what remains must be
    six bytes, read as three base-16 pairs the way Rust's
    `u8::from_str_radix(_, 16)` reads them. */
module HexColor {
  import opened Wrappers
  import opened Color

  type Bytes = seq<bv8>

  const Hash: bv8 := 0x23
  const Plus: bv8 := 0x2B

  datatype HexError = WrongLength | InvalidHex

  /** `0`-`9`, `a`-`f` or `A`-`F`. */
  predicate IsHexDigit(b: bv8)
  {
    (0x30 <= b <= 0x39) || (0x61 <= b <= 0x66) || (0x41 <= b <= 0x46)
  }

  function DigitValue(b: bv8): (d: bv8)
    requires IsHexDigit(b)
    ensures d < 16
  {
    if b <= 0x39 then b - 0x30
    else if b >= 0x61 then b - 0x61 + 10
    else b - 0x41 + 10
  }

  /** The input with one leading `#` removed, if it has one. */
  function StripHash(s: Bytes): Bytes
  {
    if |s| > 0 && s[0] == Hash then s[1..] else s
  }

  /** One two-byte field in base 16. As in `from_str_radix` for an unsigned
      type, a leading `+` followed by one digit is accepted; `-` is not. */
  function ParseByte(hi: bv8, lo: bv8): (r: Result<bv8, HexError>)
  {
    if hi == Plus then
      if IsHexDigit(lo) then Ok(DigitValue(lo)) else Err(InvalidHex)
    else if IsHexDigit(hi) && IsHexDigit(lo) then Ok(DigitValue(hi) * 16 + DigitValue(lo))
    else Err(InvalidHex)
  }

  /** The colour a string names, or why it names none. */
  function ParseHexColor(s: Bytes): (r: Result<Rgb, HexError>)
    ensures r == Err(WrongLength) <==> |StripHash(s)| != 6
  {
    var t := StripHash(s);
    if |t| != 6 then Err(WrongLength)
    else
      var r, g, b := ParseByte(t[0], t[1]), ParseByte(t[2], t[3]), ParseByte(t[4], t[5]);
      if r.Ok? && g.Ok? && b.Ok? then Ok(Rgb(r.value, g.value, b.value))
      else Err(InvalidHex)
  }

  lemma NotHash(b: bv8)
    requires IsHexDigit(b)
    ensures b != Hash
  {
  }

  /** The lower-case hex digit for a value below 16. */
  function LowerDigit(d: bv8): (b: bv8)
    requires d < 16
    ensures IsHexDigit(b) && DigitValue(b) == d
  {
    if d < 10 then 0x30 + d else 0x61 + (d - 10)
  }

  /** `#` followed by two lower-case hex digits per channel. */
  function FormatHexColor(c: Rgb): (s: Bytes)
  {
    [Hash] + HexDigits(c)
  }

  /** Two lower-case hex digits per channel, high digit first. */
  function HexDigits(c: Rgb): (t: Bytes)
  {
    [LowerDigit(c.r / 16), LowerDigit(c.r % 16), LowerDigit(c.g / 16),
     LowerDigit(c.g % 16), LowerDigit(c.b / 16), LowerDigit(c.b % 16)]
  }

  lemma ByteRoundTrip(v: bv8)
    ensures ParseByte(LowerDigit(v / 16), LowerDigit(v % 16)) == Ok(v)
  {
    assert (v / 16) * 16 + v % 16 == v;
  }

  /** Formatting a colour and parsing the result gives the colour back, with
      or without the leading `#`. */
  lemma FormatParseRoundTrip(c: Rgb)
    ensures ParseHexColor(FormatHexColor(c)) == Ok(c)
    ensures ParseHexColor(FormatHexColor(c)[1..]) == Ok(c)
  {
    var t := HexDigits(c);
    ParseSix(t, c);
    assert FormatHexColor(c)[1..] == t;
    HashOptional(t);
  }

  /** Six formatted digits parse to the colour they were formatted from. */
  lemma ParseSix(t: Bytes, c: Rgb)
    requires t == HexDigits(c)
    ensures |t| == 6 && t[0] != Hash && ParseHexColor(t) == Ok(c)
  {
    NotHash(t[0]);
    ByteRoundTrip(c.r);
    ByteRoundTrip(c.g);
    ByteRoundTrip(c.b);
    FieldsOk(t, c);
  }

  lemma FieldsOk(t: Bytes, c: Rgb)
    requires |t| == 6 && t[0] != Hash
    requires ParseByte(t[0], t[1]) == Ok(c.r) && ParseByte(t[2], t[3]) == Ok(c.g) && ParseByte(t[4], t[5]) == Ok(c.b)
    ensures ParseHexColor(t) == Ok(c)
  {
  }

  /** A leading `#` is optional: with or without it the input names the
      same colour or fails the same way. */
  lemma HashOptional(s: Bytes)
    requires |s| == 0 || s[0] != Hash
    ensures ParseHexColor([Hash] + s) == ParseHexColor(s)
  {
    assert ([Hash] + s)[1..] == s;
  }

  /** Only one `#` is dropped: a second one leaves seven bytes. */
  lemma OneHashOnly(digits: Bytes)
    requires |digits| == 6
    ensures ParseHexColor([Hash, Hash] + digits) == Err(WrongLength)
  {
    assert ([Hash, Hash] + digits)[1..] == [Hash] + digits;
  }

  /** Six hex digits name the colour whose channels are the three pairs read
      as base-16 numbers, high digit first. */
  lemma ParseDigits(s: Bytes)
    requires
      var t := StripHash(s);
      |t| == 6 && forall j :: 0 <= j < 6 ==> IsHexDigit(t[j])
    ensures
      var t := StripHash(s);
      ParseHexColor(s).Ok? &&
      ParseHexColor(s).value.r as int == 16 * DigitValue(t[0]) as int + DigitValue(t[1]) as int &&
      ParseHexColor(s).value.g as int == 16 * DigitValue(t[2]) as int + DigitValue(t[3]) as int &&
      ParseHexColor(s).value.b as int == 16 * DigitValue(t[4]) as int + DigitValue(t[5]) as int
  {
    var t := StripHash(s);
    PairValue(t[0], t[1]);
    PairValue(t[2], t[3]);
    PairValue(t[4], t[5]);
  }

  lemma PairValue(hi: bv8, lo: bv8)
    requires IsHexDigit(hi) && IsHexDigit(lo)
    ensures ParseByte(hi, lo).Ok?
    ensures ParseByte(hi, lo).value as int == 16 * DigitValue(hi) as int + DigitValue(lo) as int
  {
    var h, l := DigitValue(hi), DigitValue(lo);
    assert (h * 16 + l) as int == 16 * h as int + l as int;
  }

  /** A two-byte field `from_str_radix` accepts: two hex digits, or a `+`
      followed by one. */
  predicate IsField(hi: bv8, lo: bv8)
  {
    IsHexDigit(lo) && (IsHexDigit(hi) || hi == Plus)
  }

  /** The number a field names: a `+` adds nothing, so `+d` is the digit `d`. */
  function FieldValue(hi: bv8, lo: bv8): int
    requires IsField(hi, lo)
  {
    if hi == Plus then DigitValue(lo) as int else 16 * DigitValue(hi) as int + DigitValue(lo) as int
  }

  /** A field parses exactly when it is well formed, to the number it names. */
  lemma ParseField(hi: bv8, lo: bv8)
    ensures ParseByte(hi, lo).Ok? <==> IsField(hi, lo)
    ensures ParseByte(hi, lo).Ok? ==> ParseByte(hi, lo).value as int == FieldValue(hi, lo)
  {
    if IsHexDigit(hi) && IsHexDigit(lo) {
      PairValue(hi, lo);
    }
  }

  /** A six-byte input names a colour exactly when each of its three pairs is
      a field, and then each channel is the number its pair names. */
  lemma ParseFields(s: Bytes)
    requires |StripHash(s)| == 6
    ensures
      var t := StripHash(s);
      ParseHexColor(s).Ok? <==> IsField(t[0], t[1]) && IsField(t[2], t[3]) && IsField(t[4], t[5])
    ensures
      var t := StripHash(s);
      ParseHexColor(s).Ok? ==>
        ParseHexColor(s).value.r as int == FieldValue(t[0], t[1]) &&
        ParseHexColor(s).value.g as int == FieldValue(t[2], t[3]) &&
        ParseHexColor(s).value.b as int == FieldValue(t[4], t[5])
  {
    var t := StripHash(s);
    ParseField(t[0], t[1]);
    ParseField(t[2], t[3]);
    ParseField(t[4], t[5]);
  }

  /** A six-byte input fails when some byte is neither a hex digit nor a `+`
      that opens a pair and is followed by a digit. */
  lemma ParseRejects(s: Bytes, j: int)
    requires
      var t := StripHash(s);
      |t| == 6 && 0 <= j < 6 && !IsHexDigit(t[j]) && !(j % 2 == 0 && t[j] == Plus && IsHexDigit(t[j + 1]))
    ensures ParseHexColor(s) == Err(InvalidHex)
  {
  }

  /** "ffaaff" and "#ffaaff" name the same colour; "+f" is read as 15. */
  lemma ParseExamples()
    ensures ParseHexColor([0x66, 0x66, 0x61, 0x61, 0x66, 0x66]) == Ok(Rgb(255, 170, 255))
    ensures ParseHexColor([Hash, 0x66, 0x66, 0x61, 0x61, 0x66, 0x66]) == Ok(Rgb(255, 170, 255))
    ensures ParseHexColor([Plus, 0x66, 0x30, 0x30, 0x30, 0x30]) == Ok(Rgb(15, 0, 0))
  {
  }
}
