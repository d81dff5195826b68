/** `getFlagEmoji` and `getCountryLabel` (scripts/script.js:80-93): a two-letter
    country code turned into the pair of regional indicator symbols that renders
    as its flag.

    A Dafny `char` is a Unicode scalar value, while a JavaScript string is a
    sequence of UTF-16 code units: `length` and `charCodeAt` count and read code
    units, and the spread `[...code]` walks code points. The functions below make
    that distinction explicit. */
module Flag {
  import opened Options

  /** U+1F310 GLOBE WITH MERIDIANS, the fallback symbol. */
  const Globe: string := "\U{1F310}"

  /** The distance from `A` to U+1F1E6 REGIONAL INDICATOR SYMBOL LETTER A. */
  const IndicatorOffset: int := 127397

  /** `s.length`: the number of UTF-16 code units, two for a character outside the
      Basic Multilingual Plane. */
  function Utf16Length(s: string): (n: nat)
    ensures n >= |s|
  {
    if s == [] then 0 else (if s[0] as int < 0x1_0000 then 1 else 2) + Utf16Length(s[1..])
  }

  /** `toUpperCase` restricted to ASCII: `a`-`z` become `A`-`Z`. */
  function AsciiUpper(c: char): (u: char)
    ensures 'a' <= c <= 'z' ==> 'A' <= u <= 'Z' && u as int == c as int - 32
    ensures !('a' <= c <= 'z') ==> u == c
  {
    if 'a' <= c <= 'z' then (c as int - 32) as char else c
  }

  /** `char.charCodeAt(0)` for the string holding one code point: the code point
      itself inside the Basic Multilingual Plane, its high surrogate outside it. */
  function FirstCodeUnit(c: char): (u: int)
    ensures 0 <= u < 0x1_0000
    ensures c as int < 0x1_0000 ==> u == c as int
    ensures c as int >= 0x1_0000 ==> 0xD800 <= u < 0xDC00
  {
    if c as int < 0x1_0000 then c as int else 0xD800 + (c as int - 0x1_0000) / 0x400
  }

  /** `String.fromCodePoint(char.charCodeAt(0) + 127397)` for one code point of the
      upper-cased code. */
  function Indicator(c: char): (r: char)
    ensures r as int == FirstCodeUnit(AsciiUpper(c)) + IndicatorOffset
  {
    (FirstCodeUnit(AsciiUpper(c)) + IndicatorOffset) as char
  }

  /** `getFlagEmoji(countryCode)`; `None` stands for `null` or `undefined`. A code of
      two letters, in either case, gives the two regional indicator symbols that
      spell it in upper case. */
  function GetFlagEmoji(countryCode: Option<string>): (r: string)
    ensures countryCode.None? || Utf16Length(countryCode.value) != 2 ==> r == Globe
    ensures countryCode.Some? && |countryCode.value| == 2
              && IsAsciiLetter(countryCode.value[0]) && IsAsciiLetter(countryCode.value[1])
              ==>
      |r| == 2 && IsRegionalIndicator(r[0]) && IsRegionalIndicator(r[1]) &&
      IndicatorLetter(r[0]) == AsciiUpper(countryCode.value[0]) &&
      IndicatorLetter(r[1]) == AsciiUpper(countryCode.value[1])
  {
    if countryCode.None? then Globe
    else
      var code := countryCode.value;
      Utf16LengthTwo(code);
      if Utf16Length(code) != 2 then Globe
      else seq(|code|, i requires 0 <= i < |code| => Indicator(code[i]))
  }

  /** `getCountryLabel(code)`, with the English region name that `Intl.DisplayNames`
      supplies given as `name`. */
  function CountryLabel(code: Option<string>, name: string): (r: string)
    ensures code.None? || code.value == [] ==> r == Globe + " World (UN)"
  {
    if code.None? || code.value == [] then Globe + " World (UN)"
    else GetFlagEmoji(code) + " " + name + " (" + code.value + ")"
  }

  predicate IsAsciiLetter(c: char) {
    'A' <= c <= 'Z' || 'a' <= c <= 'z'
  }

  /** The regional indicator symbols, U+1F1E6 to U+1F1FF. */
  predicate IsRegionalIndicator(c: char) {
    0x1_F1E6 <= c as int <= 0x1_F1FF
  }

  /** A code of UTF-16 length two is either two characters of the Basic
      Multilingual Plane or a single character outside it. */
  lemma Utf16LengthTwo(s: string)
    ensures Utf16Length(s) == 2 <==>
      (|s| == 2 && s[0] as int < 0x1_0000 && s[1] as int < 0x1_0000) || (|s| == 1 && s[0] as int >= 0x1_0000)
  {
    if |s| >= 2 {
      assert Utf16Length(s) == (if s[0] as int < 0x1_0000 then 1 else 2) + Utf16Length(s[1..]);
      assert Utf16Length(s[1..]) == (if s[1] as int < 0x1_0000 then 1 else 2) + Utf16Length(s[2..]);
    }
  }

  /** The flag is the globe exactly when the code is missing or its length is not
      two: a flag of a code of length two never equals the globe. */
  lemma GlobeIff(countryCode: Option<string>)
    ensures GetFlagEmoji(countryCode) == Globe <==>
      countryCode.None? || Utf16Length(countryCode.value) != 2
  {
    if countryCode.Some? && Utf16Length(countryCode.value) == 2 {
      var code := countryCode.value;
      var r := GetFlagEmoji(countryCode);
      Utf16LengthTwo(code);
      if |code| == 1 {
        assert r[0] as int >= 0xD800 + IndicatorOffset;
        assert Globe[0] as int == 0x1_F310;
      }
    }
  }

  /** A letter of the code maps to the regional indicator of the same letter,
      whatever its case: `A` and `a` both give U+1F1E6. */
  lemma LetterIndicator(c: char)
    requires IsAsciiLetter(c)
    ensures IsRegionalIndicator(Indicator(c))
    ensures Indicator(c) as int - 0x1_F1E6 == AsciiUpper(c) as int - 'A' as int
  {
  }

  /** A two-letter code gives exactly two regional indicators, and reading them back
      gives the upper-cased code. */
  lemma TwoLetterFlag(a: char, b: char)
    requires IsAsciiLetter(a) && IsAsciiLetter(b)
    ensures GetFlagEmoji(Some([a, b])) == [Indicator(a), Indicator(b)]
    ensures IsRegionalIndicator(Indicator(a)) && IsRegionalIndicator(Indicator(b))
    ensures IndicatorLetter(Indicator(a)) == AsciiUpper(a) && IndicatorLetter(Indicator(b)) == AsciiUpper(b)
  {
    assert Utf16Length([a, b]) == 2 by {
      Utf16LengthTwo([a, b]);
    }
    LetterIndicator(a);
    LetterIndicator(b);
  }

  /** The letter a regional indicator stands for. */
  function IndicatorLetter(r: char): (c: char)
    requires IsRegionalIndicator(r)
    ensures 'A' <= c <= 'Z'
  {
    (r as int - IndicatorOffset) as char
  }

  /** The flag does not depend on the case of the code. */
  lemma FlagIgnoresCase(a: char, b: char)
    requires IsAsciiLetter(a) && IsAsciiLetter(b)
    ensures GetFlagEmoji(Some([a, b])) == GetFlagEmoji(Some([AsciiUpper(a), AsciiUpper(b)]))
  {
    TwoLetterFlag(a, b);
    TwoLetterFlag(AsciiUpper(a), AsciiUpper(b));
  }

  /** `gb` gives U+1F1EC U+1F1E7, the flag of the United Kingdom. */
  lemma FlagExample()
    ensures GetFlagEmoji(Some("gb")) == "\U{1F1EC}\U{1F1E7}"
  {
    TwoLetterFlag('g', 'b');
    assert "gb" == ['g', 'b'];
  }
}
