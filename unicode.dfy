/**
  Character classification used by the text-node engine.

  The two small, fixed Unicode properties the engine needs (White_Space, used by
  `char::is_whitespace`, `str::trim` and `str::split_whitespace`, and the Space_Separator
  category Zs, used by the sentence-split pattern) and the ASCII classes of `count_words`
  are written out in full.  The large tables (General_Category for the punctuation
  classes, the letter/number class of `[\p{L}\p{N}]`, `str::to_lowercase` and the
  ISO 3166-1 alpha-2 code list) are the fields of a `Tables` value that every operation
  takes as a parameter; `Valid` states what is known of them for ASCII and for the few
  non-ASCII characters the engine names.
 */
module Unicode {

  /** The part of Unicode General_Category the engine distinguishes
      (section 5.7.1 of Unicode Standard Annex #44: Pi, Ps, Pf, Pe; all others). */
  datatype GeneralCategory =
    | InitialPunctuation
    | OpenPunctuation
    | FinalPunctuation
    | ClosePunctuation
    | OtherCategory

  /** The Unicode data the engine consults, as total functions. */
  datatype Tables = Tables(
    category: char -> GeneralCategory,
    isLetterOrNumber: char -> bool,
    lowercase: string -> string,
    countryCodes: set<string>)

  /** Unicode White_Space (what Rust's `char::is_whitespace` tests). */
  predicate IsWhitespace(c: char) {
    || (0x09 <= c as int <= 0x0D)
    || c as int == 0x20
    || c as int == 0x85
    || c as int == 0xA0
    || c as int == 0x1680
    || (0x2000 <= c as int <= 0x200A)
    || c as int == 0x2028
    || c as int == 0x2029
    || c as int == 0x202F
    || c as int == 0x205F
    || c as int == 0x3000
  }

  /** General_Category Zs (the `\p{Zs}` class). */
  predicate IsSpaceSeparator(c: char) {
    || c as int == 0x20
    || c as int == 0xA0
    || c as int == 0x1680
    || (0x2000 <= c as int <= 0x200A)
    || c as int == 0x202F
    || c as int == 0x205F
    || c as int == 0x3000
  }

  predicate IsAscii(c: char) {
    c as int < 0x80
  }

  /** Rust's `char::is_ascii_whitespace`: space, tab, line feed, form feed, carriage return. */
  predicate IsAsciiWhitespace(c: char) {
    c == ' ' || c == '\t' || c == '\n' || c as int == 0x0C || c == '\r'
  }

  predicate IsAsciiAlphabetic(c: char) {
    ('a' <= c <= 'z') || ('A' <= c <= 'Z')
  }

  predicate IsAsciiDigit(c: char) {
    '0' <= c <= '9'
  }

  /** Rust's `char::is_ascii_punctuation`: the ASCII graphic characters that are
      neither letters nor digits. */
  predicate IsAsciiPunctuation(c: char) {
    || (0x21 <= c as int <= 0x2F)
    || (0x3A <= c as int <= 0x40)
    || (0x5B <= c as int <= 0x60)
    || (0x7B <= c as int <= 0x7E)
  }

  predicate IsAsciiString(s: string) {
    forall i :: 0 <= i < |s| ==> IsAscii(s[i])
  }

  function AsciiLowerChar(c: char): char {
    if 'A' <= c <= 'Z' then (c as int + 32) as char else c
  }

  /** ASCII case mapping of a whole string. */
  function AsciiLowercase(s: string): (r: string)
    ensures |r| == |s|
    ensures forall i :: 0 <= i < |s| ==> r[i] == AsciiLowerChar(s[i])
  {
    seq(|s|, i requires 0 <= i < |s| => AsciiLowerChar(s[i]))
  }

  /** General_Category restricted to ASCII: the only Ps/Pe characters below U+0080 are
      the three bracket pairs; ASCII has no Pi/Pf characters. */
  function AsciiCategory(c: char): GeneralCategory {
    if c == '(' || c == '[' || c == '{' then OpenPunctuation
    else if c == ')' || c == ']' || c == '}' then ClosePunctuation
    else OtherCategory
  }

  /** What is known of the Unicode tables. */
  ghost predicate Valid(t: Tables) {
    // General_Category
    && (forall c: char :: IsAscii(c) ==> t.category(c) == AsciiCategory(c))
    && (forall c: char :: IsWhitespace(c) ==> t.category(c) == OtherCategory)
    && t.category('¡') == OtherCategory      // Po
    && t.category('¿') == OtherCategory      // Po
    && t.category('…') == OtherCategory      // Po
    && t.category('«') == InitialPunctuation
    && t.category('»') == FinalPunctuation
    && t.category('“') == InitialPunctuation
    && t.category('”') == FinalPunctuation
    // [\p{L}\p{N}]
    && (forall c: char :: IsAscii(c) ==> (t.isLetterOrNumber(c) <==> IsAsciiAlphabetic(c) || IsAsciiDigit(c)))
    && (forall c: char :: IsWhitespace(c) ==> !t.isLetterOrNumber(c))
    && (forall c: char :: t.category(c) != OtherCategory ==> !t.isLetterOrNumber(c))
    && !t.isLetterOrNumber('¡') && !t.isLetterOrNumber('¿') && !t.isLetterOrNumber('…')
    // str::to_lowercase agrees with ASCII case mapping on ASCII text
    && (forall s: string :: IsAsciiString(s) ==> t.lowercase(s) == AsciiLowercase(s))
    // rust_iso3166::ALL_ALPHA2, lower-cased: two-letter codes, among them "dk"
    && "dk" in t.countryCodes
    && (forall code :: code in t.countryCodes ==>
          |code| == 2 && 'a' <= code[0] <= 'z' && 'a' <= code[1] <= 'z')
  }

  /** A table that knows only ASCII; it shows that `Valid` can be met. */
  function AsciiOnlyTables(): Tables {
    Tables(AsciiOnlyCategory, AsciiOnlyLetterOrNumber, AsciiLowercase,
           {"dk", "es", "fr", "it", "de", "gb"})
  }

  function AsciiOnlyCategory(c: char): GeneralCategory {
    if c == '«' || c == '“' then InitialPunctuation
    else if c == '»' || c == '”' then FinalPunctuation
    else if IsAscii(c) then AsciiCategory(c)
    else OtherCategory
  }

  predicate AsciiOnlyLetterOrNumber(c: char) {
    IsAsciiAlphabetic(c) || IsAsciiDigit(c)
  }

  lemma AsciiOnlyTablesValid()
    ensures Valid(AsciiOnlyTables())
  {
    AsciiOnlyCategoryFacts();
    AsciiOnlyLetterFacts();
    AsciiOnlyCodes();
  }

  lemma AsciiOnlyCategoryFacts()
    ensures forall c: char :: IsAscii(c) ==> AsciiOnlyCategory(c) == AsciiCategory(c)
    ensures forall c: char :: IsWhitespace(c) ==> AsciiOnlyCategory(c) == OtherCategory
  {
  }

  lemma AsciiOnlyLetterFacts()
    ensures forall c: char :: IsWhitespace(c) ==> !AsciiOnlyLetterOrNumber(c)
    ensures forall c: char :: AsciiOnlyCategory(c) != OtherCategory ==> !AsciiOnlyLetterOrNumber(c)
  {
  }

  lemma AsciiOnlyCodes()
    ensures var codes := AsciiOnlyTables().countryCodes;
      && "dk" in codes
      && forall code :: code in codes ==> |code| == 2 && 'a' <= code[0] <= 'z' && 'a' <= code[1] <= 'z'
  {
  }
}
