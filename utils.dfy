/**
  The string helpers of `html_parsing_tools/src/utils.rs`: the word counter
  `count_words`, the space normaliser `trim_whitespace` with its `trim_punctuation`,
  the clean-up pipeline `apply` and the string filter of `get_text_nodes`.
 */
module Utils {
  import opened Unicode
  import opened Strings

  // ---------------------------------------------------------------------------
  // count_words

  /** `char::MAX`, the value `previous` starts from. */
  const MaxChar: char := '\U{10FFFF}'

  /** The loop's test: `c` opens a new word when the character before it is ASCII
      whitespace and `c` is an ASCII letter, digit or punctuation mark. */
  predicate OpensWord(previous: char, c: char) {
    IsAsciiWhitespace(previous) && (IsAsciiAlphabetic(c) || IsAsciiDigit(c) || IsAsciiPunctuation(c))
  }

  /** What the loop adds to `total` while it reads `s`, `previous` being the character
      read before. */
  function OpenedFrom(previous: char, s: string): nat
    decreases |s|
  {
    if s == [] then 0
    else (if OpensWord(previous, s[0]) then 1 else 0) + OpenedFrom(s[0], s[1..])
  }

  /** What `count_words` returns. */
  function WordCount(s: string): nat {
    OpenedFrom(MaxChar, s) + (if s == [] then 0 else 1)
  }

  method CountWords(s: string) returns (total: nat)
    ensures total == WordCount(s)
  {
    total := 0;
    var previous := MaxChar;
    for i := 0 to |s|
      invariant total + OpenedFrom(previous, s[i..]) == OpenedFrom(MaxChar, s)
    {
      assert s[i..][1..] == s[i + 1..];
      var c := s[i];
      if IsAsciiWhitespace(previous) {
        if IsAsciiAlphabetic(c) || IsAsciiDigit(c) || IsAsciiPunctuation(c) {
          total := total + 1;
        }
      }
      previous := c;
    }
    assert s[|s|..] == [];
    if s != [] {
      total := total + 1;
    }
  }

  /** The positions `1 <= i < |s|` at which a word opens, counted pair by pair. */
  function OpenPositions(s: string): nat
    decreases |s|
  {
    if |s| < 2 then 0
    else (if OpensWord(s[0], s[1]) then 1 else 0) + OpenPositions(s[1..])
  }

  /** The number of ASCII whitespace characters. */
  function AsciiWhitespaceCount(s: string): nat {
    if s == [] then 0
    else (if IsAsciiWhitespace(s[0]) then 1 else 0) + AsciiWhitespaceCount(s[1..])
  }

  lemma {:induction false} OpenedFromPositions(previous: char, s: string)
    ensures OpenedFrom(previous, s) == OpenPositions([previous] + s)
    decreases |s|
  {
    var t := [previous] + s;
    if s != [] {
      OpenedFromPositions(s[0], s[1..]);
      assert t[1..] == [s[0]] + s[1..];
    }
  }

  /** `count_words` is one more than the number of positions whose previous character
      is ASCII whitespace and whose own character is an ASCII letter, digit or
      punctuation mark; the first character is never such a position, since
      `char::MAX` is not whitespace. */
  lemma WordCountPositions(s: string)
    requires s != []
    ensures WordCount(s) == 1 + OpenPositions(s)
  {
    assert !IsAsciiWhitespace(MaxChar);
    OpenedFromPositions(s[0], s[1..]);
    assert [s[0]] + s[1..] == s;
  }

  lemma {:induction false} OpenPositionsBound(s: string)
    ensures OpenPositions(s) <= AsciiWhitespaceCount(s)
    decreases |s|
  {
    if s != [] {
      OpenPositionsBound(s[1..]);
    }
  }

  /** `count_words(s)` is 0 exactly for the empty string, and otherwise at most one more
      than the number of ASCII whitespace characters. */
  lemma WordCountBounds(s: string)
    ensures WordCount(s) == 0 <==> s == []
    ensures WordCount(s) <= 1 + AsciiWhitespaceCount(s)
  {
    if s != [] {
      WordCountPositions(s);
      OpenPositionsBound(s);
    }
  }

  /** A non-empty string without ASCII whitespace is one word. */
  lemma WordCountOfWord(s: string)
    requires s != [] && forall i :: 0 <= i < |s| ==> !IsAsciiWhitespace(s[i])
    ensures WordCount(s) == 1
  {
    WordCountBounds(s);
    NoAsciiWhitespace(s);
  }

  lemma {:induction false} NoAsciiWhitespace(s: string)
    requires forall i :: 0 <= i < |s| ==> !IsAsciiWhitespace(s[i])
    ensures AsciiWhitespaceCount(s) == 0
  {
    if s != [] {
      assert !IsAsciiWhitespace(s[0]);
      NoAsciiWhitespace(s[1..]);
    }
  }

  // ---------------------------------------------------------------------------
  // trim_punctuation and trim_whitespace

  /** `trim_punctuation`: a result that is `n`, or `n` without its last character, the
      latter exactly when that character is `.` or `,`; `n` must not be empty (the
      source unwraps its last character). */
  function TrimPunctuation(n: string): (r: string)
    requires n != []
    ensures |n| - 1 <= |r| <= |n| && r == n[..|r|]
    ensures |r| < |n| <==> Last(n) == '.' || Last(n) == ','
  {
    if Last(n) == '.' || Last(n) == ',' then n[..|n| - 1] else n
  }

  /** What `trim_whitespace` returns. */
  function TrimmedWhitespace(s: string): string {
    var joined := Join(SplitWhitespace(s), " ");
    if joined == "" then "" else TrimPunctuation(joined)
  }

  method TrimWhitespace(s: string) returns (result: string)
    ensures result == TrimmedWhitespace(s)
  {
    var words := SplitWhitespace(s);
    result := "";
    for k := 0 to |words|
      invariant result == Join(words[..k], " ")
    {
      JoinAppendOne(words[..k], words[k], " ");
      assert words[..k + 1] == words[..k] + [words[k]];
      if k > 0 {
        JoinFirst(words[..k]);
      }
      if result != "" {
        result := result + " ";
      }
      result := result + words[k];
    }
    assert words[..|words|] == words;
    if result == "" {
      return result;
    }
    result := TrimPunctuation(result);
  }

  lemma SplitWhitespaceOfBlank(s: string)
    requires NoWordChar(s)
    ensures SplitWhitespace(s) == []
  {
    ConcatSplitWhitespace(s);
    RemoveWhitespaceOfBlank(s);
  }

  lemma {:induction false} RemovedHasNoWhitespace(s: string)
    ensures NoWhitespace(RemoveWhitespace(s))
  {
    if s != [] {
      RemovedHasNoWhitespace(s[1..]);
    }
  }

  /** The words of `s` joined by single spaces; then at most one final `.` or `,` is
      dropped. So every non-whitespace character of `s` is kept, in order, except that
      one; and an all-whitespace input gives `""`. */
  lemma TrimmedWhitespaceText(s: string)
    ensures var joined := Join(SplitWhitespace(s), " ");
      SingleSpaced(joined) && RemoveWhitespace(joined) == RemoveWhitespace(s)
      && (TrimmedWhitespace(s) == joined
          || (joined != "" && (Last(joined) == '.' || Last(joined) == ',')
              && TrimmedWhitespace(s) + [Last(joined)] == joined))
    ensures NoWordChar(s) ==> TrimmedWhitespace(s) == ""
  {
    var joined := Join(SplitWhitespace(s), " ");
    JoinWordsSingleSpaced(SplitWhitespace(s));
    RemoveWhitespaceJoin(SplitWhitespace(s));
    ConcatSplitWhitespace(s);
    RemovedHasNoWhitespace(s);
    RemoveWhitespaceOfWord(RemoveWhitespace(s));
    if joined != "" && (Last(joined) == '.' || Last(joined) == ',') {
      assert joined == joined[..|joined| - 1] + [Last(joined)];
    }
    if NoWordChar(s) {
      SplitWhitespaceOfBlank(s);
    }
  }

  /** The result need not be trimmed on the right: `"a ."` gives `"a "` (a parameter,
      so that the literal is not unfolded eagerly). */
  lemma TrimmedWhitespaceKeepsSpace(s: string)
    requires s == "a ."
    ensures TrimmedWhitespace(s) == "a "
  {
    var e: string := "";
    SplitWhitespaceAppendWord(".", e);
    assert "." + e == ".";
    assert SplitWhitespace(".") == ["."];
    assert " ."[1..] == ".";
    assert SplitWhitespace(" .") == ["."];
    SplitWhitespaceAppendWord("a", " .");
    assert "a" + " ." == s;
    assert SplitWhitespace(s) == ["a", "."];
    assert Join(["a", "."], " ") == "a .";
    assert TrimPunctuation("a .") == "a ";
  }

  // ---------------------------------------------------------------------------
  // apply

  /** One sentence after the two `map` steps: the stop words replaced by `""` (the
      caller's regular expression, a parameter), then trimmed and re-spaced. */
  function Cleaned(stopWords: string -> string, n: string): (r: string)
    ensures SingleSpaced(r)
  {
    var words := SplitWhitespace(Trim(stopWords(n)));
    JoinWordsSingleSpaced(words);
    Join(words, " ")
  }

  /** The `filter` step. */
  predicate Admitted(u: Tables, n: string) {
    !Contains(u.lowercase(n), "cookie") && !Contains(n, "©") && WordCount(n) > 0
  }

  /** What every element of the output of `apply` is: single-spaced (so trimmed),
      non-empty, and free of `cookie` (in any case) and of `©`. */
  predicate CleanSentence(u: Tables, n: string) {
    SingleSpaced(n) && IsTrimmed(n) && n != ""
    && !Contains(u.lowercase(n), "cookie") && !Contains(n, "©")
  }

  /** What one sentence contributes to the output. */
  function ApplyOne(u: Tables, stopWords: string -> string, sentence: string): (r: seq<string>)
    ensures |r| <= 1 && forall k :: 0 <= k < |r| ==> CleanSentence(u, r[k])
  {
    var n := Cleaned(stopWords, sentence);
    SingleSpacedIsTrimmed(n);
    WordCountBounds(n);
    if Admitted(u, n) then [n] else []
  }

  /** What `apply` returns: clean sentences only, never more than were given. */
  function Apply(u: Tables, stopWords: string -> string, sentences: seq<string>): (r: seq<string>)
    ensures |r| <= |sentences|
    ensures forall k :: 0 <= k < |r| ==> CleanSentence(u, r[k])
  {
    if sentences == [] then []
    else
      var head := ApplyOne(u, stopWords, sentences[0]);
      var tail := Apply(u, stopWords, sentences[1..]);
      CleanAppend(u, head, tail);
      head + tail
  }

  lemma CleanAppend(u: Tables, a: seq<string>, b: seq<string>)
    requires forall k :: 0 <= k < |a| ==> CleanSentence(u, a[k])
    requires forall k :: 0 <= k < |b| ==> CleanSentence(u, b[k])
    ensures forall k :: 0 <= k < |a + b| ==> CleanSentence(u, (a + b)[k])
  {
    forall k | 0 <= k < |a + b| ensures CleanSentence(u, (a + b)[k]) {
      if k < |a| { assert (a + b)[k] == a[k]; } else { assert (a + b)[k] == b[k - |a|]; }
    }
  }

  lemma ApplyCons(u: Tables, stopWords: string -> string, n: string, rest: seq<string>)
    ensures Apply(u, stopWords, [n] + rest)
         == Apply(u, stopWords, [n]) + Apply(u, stopWords, rest)
  {
    assert ([n] + rest)[1..] == rest;
    ApplySingle(u, stopWords, n);
  }

  /** `apply` works sentence by sentence and keeps the input order. */
  lemma {:induction false} ApplyAppend(u: Tables, stopWords: string -> string, a: seq<string>, b: seq<string>)
    ensures Apply(u, stopWords, a + b) == Apply(u, stopWords, a) + Apply(u, stopWords, b)
  {
    if a != [] {
      var x, rest := a[0], a[1..];
      assert a == [x] + rest;
      assert a + b == [x] + (rest + b);
      ApplyAppend(u, stopWords, rest, b);
      var h := Apply(u, stopWords, [x]);
      calc {
        Apply(u, stopWords, a + b);
        { ApplyCons(u, stopWords, x, rest + b); }
        h + Apply(u, stopWords, rest + b);
        h + (Apply(u, stopWords, rest) + Apply(u, stopWords, b));
        { AppendAssoc(h, Apply(u, stopWords, rest), Apply(u, stopWords, b)); }
        (h + Apply(u, stopWords, rest)) + Apply(u, stopWords, b);
        { ApplyCons(u, stopWords, x, rest); }
        Apply(u, stopWords, a) + Apply(u, stopWords, b);
      }
    } else {
      assert a + b == b;
    }
  }

  /** One sentence: its cleaned form, when the filter admits it. */
  lemma ApplySingle(u: Tables, stopWords: string -> string, n: string)
    ensures Apply(u, stopWords, [n])
         == if Admitted(u, Cleaned(stopWords, n)) then [Cleaned(stopWords, n)] else []
  {
    assert [n][1..] == [];
    assert ApplyOne(u, stopWords, n) + [] == ApplyOne(u, stopWords, n);
  }

  /** For a single-spaced sentence the clean-up changes nothing but the stop words. */
  lemma CleanedOfSingleSpaced(stopWords: string -> string, n: string)
    requires SingleSpaced(stopWords(n))
    ensures Cleaned(stopWords, n) == stopWords(n)
  {
    SingleSpacedIsTrimmed(stopWords(n));
    SingleSpacedJoinSplit(stopWords(n));
  }

  /** Already single-spaced, left alone by the stop-word pattern, and admitted. */
  predicate Untouched(u: Tables, stopWords: string -> string, n: string) {
    stopWords(n) == n && SingleSpaced(n) && Admitted(u, n)
  }

  lemma {:induction false} ApplyOfClean(u: Tables, stopWords: string -> string, sentences: seq<string>)
    requires forall k :: 0 <= k < |sentences| ==> Untouched(u, stopWords, sentences[k])
    ensures Apply(u, stopWords, sentences) == sentences
  {
    if sentences != [] {
      ApplyOfClean(u, stopWords, sentences[1..]);
      UntouchedCons(u, stopWords, sentences[0], sentences[1..]);
      assert [sentences[0]] + sentences[1..] == sentences;
    }
  }

  lemma UntouchedCons(u: Tables, stopWords: string -> string, n: string, rest: seq<string>)
    requires Untouched(u, stopWords, n) && Apply(u, stopWords, rest) == rest
    ensures Apply(u, stopWords, [n] + rest) == [n] + rest
  {
    CleanedOfSingleSpaced(stopWords, n);
    assert ApplyOne(u, stopWords, n) == [n];
    assert ([n] + rest)[1..] == rest;
  }

  /** For a single-spaced string the word-count test of the filter is a test for
      emptiness. */
  lemma AdmittedCount(u: Tables, n: string)
    ensures Admitted(u, n) <==> !Contains(u.lowercase(n), "cookie") && !Contains(n, "©") && n != ""
  {
    WordCountBounds(n);
  }

  // ---------------------------------------------------------------------------
  // The filter of get_text_nodes

  /** Contains `<` and `>`, and a closing `</` or a self-closing `/>`. */
  predicate LooksLikeMarkup(s: string) {
    Contains(s, "<") && Contains(s, ">") && (Contains(s, "</") || Contains(s, "/>"))
  }

  /** The strings `get_text_nodes` keeps from the text of the DOM text nodes (given in
      document order): each trimmed, non-empty and not markup, never more than given. */
  function TextNodeStrings(texts: seq<string>): (r: seq<string>)
    ensures |r| <= |texts|
    ensures forall k :: 0 <= k < |r| ==> r[k] != "" && IsTrimmed(r[k]) && !LooksLikeMarkup(r[k])
  {
    if texts == [] then []
    else
      var t := Trim(texts[0]);
      TrimProperties(texts[0]);
      var head := if t != "" && !LooksLikeMarkup(t) then [t] else [];
      var tail := TextNodeStrings(texts[1..]);
      KeptAppend(head, tail);
      head + tail
  }

  lemma KeptAppend(a: seq<string>, b: seq<string>)
    requires forall k :: 0 <= k < |a| ==> a[k] != "" && IsTrimmed(a[k]) && !LooksLikeMarkup(a[k])
    requires forall k :: 0 <= k < |b| ==> b[k] != "" && IsTrimmed(b[k]) && !LooksLikeMarkup(b[k])
    ensures forall k :: 0 <= k < |a + b| ==>
      (a + b)[k] != "" && IsTrimmed((a + b)[k]) && !LooksLikeMarkup((a + b)[k])
  {
    forall k | 0 <= k < |a + b|
      ensures (a + b)[k] != "" && IsTrimmed((a + b)[k]) && !LooksLikeMarkup((a + b)[k])
    {
      if k < |a| { assert (a + b)[k] == a[k]; } else { assert (a + b)[k] == b[k - |a|]; }
    }
  }

  lemma TextNodeStringsCons(t: string, rest: seq<string>)
    ensures TextNodeStrings([t] + rest) == TextNodeStrings([t]) + TextNodeStrings(rest)
  {
    assert ([t] + rest)[1..] == rest;
    assert [t][1..] == [];
  }

  /** The filter works text by text and keeps the document order. */
  lemma {:induction false} TextNodeStringsAppend(a: seq<string>, b: seq<string>)
    ensures TextNodeStrings(a + b) == TextNodeStrings(a) + TextNodeStrings(b)
  {
    if a != [] {
      var x, rest := a[0], a[1..];
      assert a == [x] + rest;
      assert a + b == [x] + (rest + b);
      TextNodeStringsAppend(rest, b);
      calc {
        TextNodeStrings(a + b);
        { TextNodeStringsCons(x, rest + b); }
        TextNodeStrings([x]) + TextNodeStrings(rest + b);
        TextNodeStrings([x]) + (TextNodeStrings(rest) + TextNodeStrings(b));
        { AppendAssoc(TextNodeStrings([x]), TextNodeStrings(rest), TextNodeStrings(b)); }
        (TextNodeStrings([x]) + TextNodeStrings(rest)) + TextNodeStrings(b);
        { TextNodeStringsCons(x, rest); }
        TextNodeStrings(a) + TextNodeStrings(b);
      }
    } else {
      assert a + b == b;
    }
  }

  /** One text: kept as its trim exactly when that is non-empty and not markup. */
  lemma TextNodeStringsOne(t: string)
    ensures TextNodeStrings([t])
         == if Trim(t) != "" && !LooksLikeMarkup(Trim(t)) then [Trim(t)] else []
  {
    assert [t][1..] == [];
  }

  /** A text without `<` is never taken for markup. */
  lemma PlainTextKept(t: string)
    requires Trim(t) != "" && !Contains(t, "<")
    ensures TextNodeStrings([t]) == [Trim(t)]
  {
    TextNodeStringsOne(t);
    TrimProperties(t);
    SliceContains(t, TrimOffset(t), TrimOffset(t) + |Trim(t)|, "<");
  }

  /** What the whole string does not contain, no slice of it contains. */
  lemma SliceContains(s: string, i: nat, j: nat, pat: string)
    requires i <= j <= |s| && !Contains(s, pat)
    ensures !Contains(s[i..j], pat)
  {
    var m := s[i..j];
    forall k | 0 <= k <= |m| - |pat|
      ensures !OccursAt(m, pat, k)
    {
      if OccursAt(m, pat, k) {
        OccursInSlice(s, i, j, pat, k);
      }
    }
  }

  lemma OccursInSlice(s: string, i: nat, j: nat, pat: string, k: nat)
    requires i <= j <= |s| && OccursAt(s[i..j], pat, k)
    ensures OccursAt(s, pat, i + k)
  {
    var m := s[i..j];
    assert forall x :: 0 <= x < |pat| ==> s[i + k + x] == m[k + x] == pat[x];
    assert s[i + k..i + k + |pat|] == pat;
  }
}
