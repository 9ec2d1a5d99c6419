/**
  The punctuation classes of html_parsing_tools/src/text_nodes.rs: characters after
  which a space is dropped (open-like), before which a space is dropped (close-like), and
  the wider left-hand set of the tie test in `regroup_node`.
 */
module Punctuation {
  import opened Unicode

  /** General_Category Pi or Ps (`OPEN_PUNCTUATION_CATEGORIES`). */
  predicate IsOpenCategory(g: GeneralCategory) {
    g == InitialPunctuation || g == OpenPunctuation
  }

  /** General_Category Pf or Pe (`CLOSE_PUNCTUATION_CATEGORIES`). */
  predicate IsCloseCategory(g: GeneralCategory) {
    g == FinalPunctuation || g == ClosePunctuation
  }

  /** `OPEN_PUNCTUATION_CHARS`. */
  predicate IsOpenChar(c: char) {
    c == '¡' || c == '¿'
  }

  /** `OPEN_PUNCTUATION_CHARS_EXTENDED`. */
  predicate IsOpenCharExtended(c: char) {
    c == '¡' || c == '¿' || c == ',' || c == ':'
  }

  /** `CLOSE_PUNCTUATION_CHARS`. */
  predicate IsCloseChar(c: char) {
    c == '.' || c == ',' || c == ';' || c == ':' || c == '!' || c == '?' || c == '…'
  }

  predicate OpenLike(u: Tables, c: char) {
    IsOpenCategory(u.category(c)) || IsOpenChar(c)
  }

  predicate CloseLike(u: Tables, c: char) {
    IsCloseCategory(u.category(c)) || IsCloseChar(c)
  }

  /** Under the Unicode tables no character is both open-like and close-like, and no
      whitespace character is either. */
  lemma ClassesDisjoint(u: Tables, c: char)
    requires Valid(u)
    ensures !(OpenLike(u, c) && CloseLike(u, c))
    ensures IsWhitespace(c) ==> !OpenLike(u, c) && !CloseLike(u, c)
    ensures OpenLike(u, '[') && OpenLike(u, '(') && CloseLike(u, ')') && CloseLike(u, '.')
  {
    assert IsAscii('[') && IsAscii('(') && IsAscii(')') && IsAscii('.');
    if IsCloseChar(c) && c != '…' {
      assert IsAscii(c);
    }
  }
}
