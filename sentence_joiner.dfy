/**
  `join_sentences` (html_parsing_tools/src/text_nodes.rs): re-join the words of a chain
  of lines with single spaces, protect `.word` tokens with the marker `[\DOT]`, delete
  the spaces after open-like and before close-like characters, and remove the markers.
 */
module SentenceJoiner {
  import opened Unicode
  import opened Strings
  import opened Punctuation

  const DotMarker: string := "[\\DOT]"

  /** `format!("{}.", dot_marker)`. */
  const DotMarkerWithDot: string := DotMarker + "."

  /** The fixed words of `WORDS_WITH_DOT` together with the country codes. */
  function Lexicon(u: Tables): set<string> {
    {"net", "travis", "git", "gitignore", "com", "gov", "org"} + u.countryCodes
  }

  /** The maximal prefix of letters and numbers (`[\p{L}\p{N}]*`). */
  function AlnumRun(u: Tables, s: string): (r: string)
    ensures |r| <= |s| && r == s[..|r|]
    ensures forall i :: 0 <= i < |r| ==> u.isLetterOrNumber(r[i])
    ensures |r| == |s| || !u.isLetterOrNumber(s[|r|])
  {
    if s != [] && u.isLetterOrNumber(s[0]) then [s[0]] + AlnumRun(u, s[1..]) else ""
  }

  predicate AllDigits(s: string) {
    s != "" && forall i :: 0 <= i < |s| ==> IsAsciiDigit(s[i])
  }

  /** `str::parse::<f64>` succeeds, for a string of letters and numbers: a decimal
      integer, an integer with a decimal exponent, or one of the lower-case special
      values. */
  predicate ParsesAsFloat(s: string) {
    || AllDigits(s)
    || (exists i :: 0 < i < |s| - 1 && s[i] == 'e' && AllDigits(s[..i]) && AllDigits(s[i + 1..]))
    || s == "inf" || s == "infinity" || s == "nan"
  }

  /** A `.word` token whose letter/number run, lower-cased, parses as a number or is in
      the lexicon: the space before it is kept. */
  predicate IsProtected(u: Tables, w: string) {
    |w| > 1 && w[0] == '.' &&
    var base := u.lowercase(AlnumRun(u, w[1..]));
    ParsesAsFloat(base) || base in Lexicon(u)
  }

  function Mark(u: Tables, w: string): string {
    if IsProtected(u, w) then DotMarker + w else w
  }

  function MarkAll(u: Tables, ws: seq<string>): (r: seq<string>)
    ensures |r| == |ws| && forall k :: 0 <= k < |ws| ==> r[k] == Mark(u, ws[k])
  {
    seq(|ws|, k requires 0 <= k < |ws| => Mark(u, ws[k]))
  }

  /** The words of the joined lines. */
  function Words(lines: seq<string>): seq<string> {
    SplitWhitespace(Join(lines, " "))
  }

  // ---------------------------------------------------------------------------
  // Words separated by a space or by nothing.

  /** One decision per gap between consecutive words. */
  predicate Fits(ws: seq<string>, drop: seq<bool>) {
    if ws == [] then drop == [] else |drop| == |ws| - 1
  }

  /** The words, with a `' '` in every gap whose `drop` is false. */
  function Spaced(ws: seq<string>, drop: seq<bool>): string
    requires Fits(ws, drop)
  {
    if |ws| <= 1 then (if ws == [] then "" else ws[0])
    else ws[0] + (if drop[0] then "" else " ") + Spaced(ws[1..], drop[1..])
  }

  predicate NonEmptyAll(ws: seq<string>) {
    forall k :: 0 <= k < |ws| ==> ws[k] != ""
  }

  /** The gaps in which the text the loop has rewritten so far has no space: after a word
      ending in an open character already treated, or before a word starting with a
      close character already treated. */
  function Drops(ws: seq<string>, open: set<char>, close: set<char>): (d: seq<bool>)
    requires NonEmptyAll(ws)
    ensures Fits(ws, d)
  {
    if ws == [] then []
    else seq(|ws| - 1, i requires 0 <= i < |ws| - 1 => Last(ws[i]) in open || ws[i + 1][0] in close)
  }

  function Glue(ws: seq<string>, open: set<char>, close: set<char>): string
    requires NonEmptyAll(ws)
  {
    Spaced(ws, Drops(ws, open, close))
  }

  function CharsOf(s: string): set<char> {
    set i | 0 <= i < |s| :: s[i]
  }

  function OpenOf(u: Tables, chars: set<char>): set<char> {
    set c | c in chars && OpenLike(u, c)
  }

  /** The characters of the `else if` branch: close-like and not open-like. */
  function CloseOf(u: Tables, chars: set<char>): set<char> {
    set c | c in chars && !OpenLike(u, c) && CloseLike(u, c)
  }

  /** Some word is a protected `.word` token. */
  predicate AnyProtected(u: Tables, ws: seq<string>) {
    exists k :: 0 <= k < |ws| && IsProtected(u, ws[k])
  }

  /** The marked words after every open-like and close-like character of the text has
      had its adjacent space removed. */
  function Respaced(u: Tables, marked: seq<string>): string
    requires NonEmptyAll(marked)
  {
    var chars := CharsOf(Join(marked, " "));
    Glue(marked, OpenOf(u, chars), CloseOf(u, chars))
  }

  /** What `join_sentences` returns. */
  function Joined(u: Tables, lines: seq<string>): string {
    var words := Words(lines);
    MarkAllNonEmpty(u, words);
    var text := Respaced(u, MarkAll(u, words));
    if AnyProtected(u, words) then ReplaceAll(text, DotMarkerWithDot, ".") else text
  }

  lemma JoinedOf(u: Tables, lines: seq<string>, ws: seq<string>)
    requires ws == Words(lines)
    ensures NonEmptyAll(MarkAll(u, ws))
    ensures Joined(u, lines)
         == if AnyProtected(u, ws) then ReplaceAll(Respaced(u, MarkAll(u, ws)), DotMarkerWithDot, ".")
            else Respaced(u, MarkAll(u, ws))
  {
    MarkAllNonEmpty(u, ws);
  }

  lemma MarkAllNonEmpty(u: Tables, ws: seq<string>)
    requires AllWords(ws)
    ensures NonEmptyAll(MarkAll(u, ws)) && AllWords(MarkAll(u, ws))
  {
    forall k | 0 <= k < |ws|
      ensures IsWord(MarkAll(u, ws)[k])
    {
      assert IsWord(ws[k]);
      if IsProtected(u, ws[k]) {
        var m := DotMarker + ws[k];
        forall i | 0 <= i < |m| ensures !IsWhitespace(m[i]) {
          if i >= |DotMarker| { assert m[i] == ws[k][i - |DotMarker|]; }
        }
      }
    }
  }

  /** The first loop of `join_sentences`: protect the `.word` tokens, and note whether
      any was protected. */
  method MarkWords(u: Tables, all: seq<string>) returns (words: seq<string>, marked: bool)
    requires AllWords(all)
    ensures words == MarkAll(u, all)
    ensures marked <==> AnyProtected(u, all)
  {
    words := [];
    marked := false;
    for i := 0 to |all|
      invariant words == MarkAll(u, all[..i])
      invariant marked <==> exists k :: 0 <= k < i && IsProtected(u, all[k])
    {
      var word, protected := MarkWord(u, all[i]);
      if protected {
        marked := true;
      }
      MarkAllSnoc(u, all, i);
      words := words + [word];
    }
    assert all[..|all|] == all;
  }

  /** The body of the first loop, for one word. */
  method MarkWord(u: Tables, w: string) returns (word: string, protected: bool)
    requires IsWord(w)
    ensures word == Mark(u, w) && (protected <==> IsProtected(u, w))
  {
    word := w;
    protected := false;
    if word[0] == '.' && |word| > 1 {
      var wordbase := u.lowercase(AlnumRun(u, word[1..]));
      if ParsesAsFloat(wordbase) || wordbase in Lexicon(u) {
        word := DotMarker + word;
        protected := true;
      }
    }
  }

  lemma MarkAllSnoc(u: Tables, ws: seq<string>, i: nat)
    requires i < |ws|
    ensures MarkAll(u, ws[..i + 1]) == MarkAll(u, ws[..i]) + [Mark(u, ws[i])]
  {
    assert ws[..i + 1] == ws[..i] + [ws[i]];
  }

  lemma OfAdd(u: Tables, done: set<char>, ch: char)
    ensures OpenOf(u, done + {ch}) == if OpenLike(u, ch) then OpenOf(u, done) + {ch} else OpenOf(u, done)
    ensures CloseOf(u, done + {ch})
         == if !OpenLike(u, ch) && CloseLike(u, ch) then CloseOf(u, done) + {ch} else CloseOf(u, done)
  {
  }

  /** The second loop of `join_sentences`: for every distinct character of the joined
      text, drop the space after it when it is open-like, or else the space before it
      when it is close-like. */
  method RemoveSpaces(u: Tables, words: seq<string>) returns (text: string)
    requires Valid(u)
    requires AllWords(words) && NonEmptyAll(words)
    ensures text == Respaced(u, words)
  {
    text := Join(words, " ");
    ghost var chars := CharsOf(text);
    var todo := CharsOf(text);
    ghost var done: set<char> := {};
    GlueWithoutDrops(words);
    assert OpenOf(u, {}) == {} && CloseOf(u, {}) == {};
    while todo != {}
      invariant todo + done == chars && todo !! done
      invariant text == Glue(words, OpenOf(u, done), CloseOf(u, done))
      decreases todo
    {
      var ch :| ch in todo;
      MoveOne(todo, done, chars, ch);
      todo := todo - {ch};
      ClassesDisjoint(u, ch);
      var errorCase: string;
      if OpenLike(u, ch) {
        errorCase := [ch, ' '];
      } else if CloseLike(u, ch) {
        errorCase := [' ', ch];
      } else {
        OfAdd(u, done, ch);
        done := done + {ch};
        continue;
      }
      if Contains(text, errorCase) {
        text := ReplaceAll(text, errorCase, [ch]);
      } else {
        ReplaceAllAbsent(text, errorCase, [ch]);
      }
      OfAdd(u, done, ch);
      if OpenLike(u, ch) {
        OpenStep(words, OpenOf(u, done), CloseOf(u, done), ch);
      } else {
        CloseStep(words, OpenOf(u, done), CloseOf(u, done), ch);
      }
      done := done + {ch};
    }
    assert done == chars;
  }

  lemma MoveOne<T>(todo: set<T>, done: set<T>, all: set<T>, x: T)
    requires todo + done == all && todo !! done && x in todo
    ensures (todo - {x}) + (done + {x}) == all && (todo - {x}) !! (done + {x})
  {
  }

  method JoinSentences(u: Tables, sentences: seq<string>) returns (text: string)
    requires Valid(u)
    ensures text == Joined(u, sentences)
  {
    var all := SplitWhitespace(Join(sentences, " "));
    var words, marked := MarkWords(u, all);
    MarkAllNonEmpty(u, all);
    text := RemoveSpaces(u, words);
    if marked {
      text := ReplaceAll(text, DotMarkerWithDot, ".");
    }
    JoinedOf(u, sentences, all);
  }

  // ---------------------------------------------------------------------------
  // The rewriting steps.

  lemma {:induction false} GlueWithoutDrops(ws: seq<string>)
    requires NonEmptyAll(ws)
    ensures Glue(ws, {}, {}) == Join(ws, " ")
  {
    if |ws| > 1 {
      GlueWithoutDrops(ws[1..]);
      assert Drops(ws, {}, {})[1..] == Drops(ws[1..], {}, {});
    }
  }

  /** `str::replace` does not change a prefix in which no occurrence starts. */
  lemma {:induction false} ReplaceAllKeepsPrefix(a: string, t: string, pat: string, rep: string)
    requires pat != []
    requires forall p :: 0 <= p < |a| ==> !OccursAt(a + t, pat, p)
    ensures ReplaceAll(a + t, pat, rep) == a + ReplaceAll(t, pat, rep)
    decreases |a|
  {
    if a == [] {
      assert a + t == t;
    } else if |a + t| < |pat| {
    } else {
      assert !OccursAt(a + t, pat, 0);
      assert (a + t)[..|pat|] != pat;
      var r := ReplaceAll(a[1..] + t, pat, rep);
      assert ReplaceAll(a + t, pat, rep) == [a[0]] + r by {
        assert (a + t)[1..] == a[1..] + t;
      }
      NoOccurrenceInTail(a, t, pat);
      ReplaceAllKeepsPrefix(a[1..], t, pat, rep);
      assert r == a[1..] + ReplaceAll(t, pat, rep);
      assert [a[0]] + (a[1..] + ReplaceAll(t, pat, rep)) == a + ReplaceAll(t, pat, rep) by {
        assert [a[0]] + a[1..] == a;
      }
    }
  }

  lemma NoOccurrenceInTail(a: string, t: string, pat: string)
    requires a != [] && forall p :: 0 <= p < |a| ==> !OccursAt(a + t, pat, p)
    ensures forall p :: 0 <= p < |a[1..]| ==> !OccursAt(a[1..] + t, pat, p)
  {
    forall p | 0 <= p < |a[1..]|
      ensures !OccursAt(a[1..] + t, pat, p)
    {
      assert !OccursAt(a + t, pat, p + 1);
      if p + |pat| <= |a[1..] + t| {
        assert (a + t)[p + 1..p + 1 + |pat|] == (a[1..] + t)[p..p + |pat|];
      }
    }
  }

  lemma SpacedFirst(ws: seq<string>, d: seq<bool>)
    requires Fits(ws, d) && ws != [] && ws[0] != []
    ensures Spaced(ws, d) != [] && Spaced(ws, d)[0] == ws[0][0]
  {
  }

  /** The gaps after `ch` lose their space. */
  function OpenDrops(ws: seq<string>, d: seq<bool>, ch: char): (r: seq<bool>)
    requires NonEmptyAll(ws) && Fits(ws, d)
    ensures Fits(ws, r)
  {
    if ws == [] then [] else seq(|d|, i requires 0 <= i < |d| => d[i] || Last(ws[i]) == ch)
  }

  /** The gaps before `ch` lose their space. */
  function CloseDrops(ws: seq<string>, d: seq<bool>, ch: char): (r: seq<bool>)
    requires NonEmptyAll(ws) && Fits(ws, d)
    ensures Fits(ws, r)
  {
    if ws == [] then [] else seq(|d|, i requires 0 <= i < |d| => d[i] || ws[i + 1][0] == ch)
  }

  lemma ReplaceInWord(w: string, pat: string, rep: string)
    requires IsWord(w) && |pat| == 2 && (pat[0] == ' ' || pat[1] == ' ')
    ensures ReplaceAll(w, pat, rep) == w
  {
    forall p | 0 <= p < |w| ensures !OccursAt(w + "", pat, p) {
      assert (w + "")[p] == w[p];
      assert !IsWhitespace(w[p]);
      if p + 1 < |w| { assert (w + "")[p + 1] == w[p + 1]; assert !IsWhitespace(w[p + 1]); }
    }
    ReplaceAllKeepsPrefix(w, "", pat, rep);
    assert w + "" == w;
  }

  lemma OpenNoSpace(w: string, g: string, ch: char)
    requires IsWord(w) && g != [] && !IsWhitespace(g[0])
    ensures ReplaceAll(w + g, [ch, ' '], [ch]) == w + ReplaceAll(g, [ch, ' '], [ch])
  {
    var s := w + g;
    forall p | 0 <= p < |w| ensures !OccursAt(s, [ch, ' '], p) {
      if p + 1 < |w| { assert s[p + 1] == w[p + 1]; assert !IsWhitespace(w[p + 1]); }
      else { assert s[p + 1] == g[0]; }
    }
    ReplaceAllKeepsPrefix(w, g, [ch, ' '], [ch]);
  }

  lemma OpenMatch(w: string, g: string, ch: char)
    requires IsWord(w) && Last(w) == ch
    ensures ReplaceAll(w + " " + g, [ch, ' '], [ch]) == w + ReplaceAll(g, [ch, ' '], [ch])
  {
    var pat := [ch, ' '];
    var w' := w[..|w| - 1];
    var t := pat + g;
    var s := w' + t;
    assert w' + [ch] == w;
    assert w + " " + g == s;
    forall p | 0 <= p < |w'| ensures !OccursAt(s, pat, p) {
      assert s[p + 1] == w[p + 1];
      assert !IsWhitespace(w[p + 1]);
    }
    ReplaceAllKeepsPrefix(w', t, pat, [ch]);
    calc {
      ReplaceAll(s, pat, [ch]);
      w' + ReplaceAll(t, pat, [ch]);
      { ReplaceAllAtStart(pat, g, [ch]); }
      w' + ([ch] + ReplaceAll(g, pat, [ch]));
      { AppendAssoc(w', [ch], ReplaceAll(g, pat, [ch])); }
      (w' + [ch]) + ReplaceAll(g, pat, [ch]);
    }
  }

  lemma OpenKeep(w: string, g: string, ch: char)
    requires IsWord(w) && Last(w) != ch && ch != ' '
    ensures ReplaceAll(w + " " + g, [ch, ' '], [ch]) == w + " " + ReplaceAll(g, [ch, ' '], [ch])
  {
    var s := (w + " ") + g;
    forall p | 0 <= p < |w + " "| ensures !OccursAt(s, [ch, ' '], p) {
      if p + 1 < |w| { assert s[p + 1] == w[p + 1]; assert !IsWhitespace(w[p + 1]); }
      else if p + 1 == |w| { assert s[p] == Last(w); }
      else { assert s[p] == ' '; }
    }
    ReplaceAllKeepsPrefix(w + " ", g, [ch, ' '], [ch]);
  }

  lemma CloseNoSpace(w: string, g: string, ch: char)
    requires IsWord(w)
    ensures ReplaceAll(w + g, [' ', ch], [ch]) == w + ReplaceAll(g, [' ', ch], [ch])
  {
    var s := w + g;
    forall p | 0 <= p < |w| ensures !OccursAt(s, [' ', ch], p) {
      assert s[p] == w[p];
      assert !IsWhitespace(w[p]);
    }
    ReplaceAllKeepsPrefix(w, g, [' ', ch], [ch]);
  }

  lemma CloseMatch(w: string, g: string, ch: char)
    requires IsWord(w) && g != [] && g[0] == ch && ch != ' '
    ensures ReplaceAll(w + " " + g, [' ', ch], [ch]) == w + ReplaceAll(g, [' ', ch], [ch])
  {
    var pat := [' ', ch];
    var s := w + ([' '] + g);
    assert w + " " + g == s;
    forall p | 0 <= p < |w| ensures !OccursAt(s, pat, p) {
      assert s[p] == w[p];
      assert !IsWhitespace(w[p]);
    }
    ReplaceAllKeepsPrefix(w, [' '] + g, pat, [ch]);
    assert ([' '] + g)[..2] == pat && ([' '] + g)[2..] == g[1..];
    ReplaceAllSkip(g, pat, [ch]);
    assert [g[0]] + g[1..] == g;
  }

  lemma CloseKeep(w: string, g: string, ch: char)
    requires IsWord(w) && g != [] && g[0] != ch
    ensures ReplaceAll(w + " " + g, [' ', ch], [ch]) == w + " " + ReplaceAll(g, [' ', ch], [ch])
  {
    var s := (w + " ") + g;
    forall p | 0 <= p < |w + " "| ensures !OccursAt(s, [' ', ch], p) {
      if p < |w| { assert s[p] == w[p]; assert !IsWhitespace(w[p]); }
      else { assert s[p + 1] == g[0]; }
    }
    ReplaceAllKeepsPrefix(w + " ", g, [' ', ch], [ch]);
  }

  /** Replacing `"ch "` by `"ch"` drops the spaces after words ending in `ch`. */
  lemma {:induction false} ReplaceOpen(ws: seq<string>, d: seq<bool>, ch: char)
    requires AllWords(ws) && NonEmptyAll(ws) && Fits(ws, d) && ch != ' '
    ensures ReplaceAll(Spaced(ws, d), [ch, ' '], [ch]) == Spaced(ws, OpenDrops(ws, d, ch))
  {
    var pat := [ch, ' '];
    if |ws| == 1 {
      assert IsWord(ws[0]);
      ReplaceInWord(ws[0], pat, [ch]);
    } else if |ws| > 1 {
      var w, rest, drest := ws[0], ws[1..], d[1..];
      var d' := OpenDrops(ws, d, ch);
      assert IsWord(w) && IsWord(ws[1]);
      var g := Spaced(rest, drest);
      var r := ReplaceAll(g, pat, [ch]);
      assert r == Spaced(rest, d'[1..]) by {
        assert AllWords(rest);
        assert d'[1..] == OpenDrops(rest, drest, ch);
        ReplaceOpen(rest, drest, ch);
      }
      assert g != [] && !IsWhitespace(g[0]) by { SpacedFirst(rest, drest); }
      assert Spaced(ws, d) == w + (if d[0] then "" else " ") + g;
      assert Spaced(ws, d') == w + (if d[0] || Last(w) == ch then "" else " ") + r;
      OpenHead(w, g, ch, d[0]);
    }
  }

  /** The first word of the text, its gap and the rest, under `"ch "` to `"ch"`. */
  lemma OpenHead(w: string, g: string, ch: char, dropped: bool)
    requires IsWord(w) && g != [] && !IsWhitespace(g[0]) && ch != ' '
    ensures ReplaceAll(w + (if dropped then "" else " ") + g, [ch, ' '], [ch])
         == w + (if dropped || Last(w) == ch then "" else " ") + ReplaceAll(g, [ch, ' '], [ch])
  {
    if dropped {
      OpenHeadDropped(w, g, ch);
    } else if Last(w) == ch {
      OpenHeadMatch(w, g, ch);
    } else {
      OpenKeep(w, g, ch);
    }
  }

  lemma OpenHeadDropped(w: string, g: string, ch: char)
    requires IsWord(w) && g != [] && !IsWhitespace(g[0]) && ch != ' '
    ensures ReplaceAll(w + "" + g, [ch, ' '], [ch]) == w + "" + ReplaceAll(g, [ch, ' '], [ch])
  {
    assert w + "" == w;
    OpenNoSpace(w, g, ch);
  }

  lemma OpenHeadMatch(w: string, g: string, ch: char)
    requires IsWord(w) && g != [] && !IsWhitespace(g[0]) && ch != ' ' && Last(w) == ch
    ensures ReplaceAll(w + " " + g, [ch, ' '], [ch]) == w + "" + ReplaceAll(g, [ch, ' '], [ch])
  {
    assert w + "" == w;
    OpenMatch(w, g, ch);
  }

  /** Replacing `" ch"` by `"ch"` drops the spaces before words starting with `ch`. */
  lemma {:induction false} ReplaceClose(ws: seq<string>, d: seq<bool>, ch: char)
    requires AllWords(ws) && NonEmptyAll(ws) && Fits(ws, d) && ch != ' '
    ensures ReplaceAll(Spaced(ws, d), [' ', ch], [ch]) == Spaced(ws, CloseDrops(ws, d, ch))
  {
    var pat := [' ', ch];
    if |ws| == 1 {
      assert IsWord(ws[0]);
      ReplaceInWord(ws[0], pat, [ch]);
    } else if |ws| > 1 {
      var w, rest, drest := ws[0], ws[1..], d[1..];
      var d' := CloseDrops(ws, d, ch);
      assert IsWord(w) && IsWord(ws[1]);
      var g := Spaced(rest, drest);
      var r := ReplaceAll(g, pat, [ch]);
      assert r == Spaced(rest, d'[1..]) by {
        assert AllWords(rest);
        assert d'[1..] == CloseDrops(rest, drest, ch) by {
          forall i | 0 <= i < |drest| ensures d'[1..][i] == CloseDrops(rest, drest, ch)[i] {
            assert rest[i + 1] == ws[i + 2];
          }
        }
        ReplaceClose(rest, drest, ch);
      }
      assert g != [] && g[0] == ws[1][0] by { SpacedFirst(rest, drest); }
      assert Spaced(ws, d) == w + (if d[0] then "" else " ") + g;
      assert Spaced(ws, d') == w + (if d[0] || g[0] == ch then "" else " ") + r;
      CloseHead(w, g, ch, d[0]);
    }
  }

  /** The first word of the text, its gap and the rest, under `" ch"` to `"ch"`. */
  lemma CloseHead(w: string, g: string, ch: char, dropped: bool)
    requires IsWord(w) && g != [] && ch != ' '
    ensures ReplaceAll(w + (if dropped then "" else " ") + g, [' ', ch], [ch])
         == w + (if dropped || g[0] == ch then "" else " ") + ReplaceAll(g, [' ', ch], [ch])
  {
    if dropped {
      CloseHeadDropped(w, g, ch);
    } else if g[0] == ch {
      CloseHeadMatch(w, g, ch);
    } else {
      CloseKeep(w, g, ch);
    }
  }

  lemma CloseHeadDropped(w: string, g: string, ch: char)
    requires IsWord(w) && g != [] && ch != ' '
    ensures ReplaceAll(w + "" + g, [' ', ch], [ch]) == w + "" + ReplaceAll(g, [' ', ch], [ch])
  {
    assert w + "" == w;
    CloseNoSpace(w, g, ch);
  }

  lemma CloseHeadMatch(w: string, g: string, ch: char)
    requires IsWord(w) && g != [] && ch != ' ' && g[0] == ch
    ensures ReplaceAll(w + " " + g, [' ', ch], [ch]) == w + "" + ReplaceAll(g, [' ', ch], [ch])
  {
    assert w + "" == w;
    CloseMatch(w, g, ch);
  }

  lemma OpenStep(ws: seq<string>, open: set<char>, close: set<char>, ch: char)
    requires AllWords(ws) && NonEmptyAll(ws) && ch != ' '
    ensures ReplaceAll(Glue(ws, open, close), [ch, ' '], [ch]) == Glue(ws, open + {ch}, close)
  {
    ReplaceOpen(ws, Drops(ws, open, close), ch);
    assert OpenDrops(ws, Drops(ws, open, close), ch) == Drops(ws, open + {ch}, close);
  }

  lemma CloseStep(ws: seq<string>, open: set<char>, close: set<char>, ch: char)
    requires AllWords(ws) && NonEmptyAll(ws) && ch != ' '
    ensures ReplaceAll(Glue(ws, open, close), [' ', ch], [ch]) == Glue(ws, open, close + {ch})
  {
    ReplaceClose(ws, Drops(ws, open, close), ch);
    assert CloseDrops(ws, Drops(ws, open, close), ch) == Drops(ws, open, close + {ch});
  }

  // ---------------------------------------------------------------------------
  // What the joined text is, in terms of the words of the lines.

  predicate NoBackslash(s: string) {
    '\\' !in s
  }

  /** The gap rule of `join_sentences`, stated on the words before marking: no space
      after a word ending in an open-like character, nor before a word starting with a
      close-like character, unless that word is a protected `.word` token. */
  function RuleDrops(u: Tables, ws: seq<string>): (d: seq<bool>)
    requires NonEmptyAll(ws)
    ensures Fits(ws, d)
  {
    if ws == [] then [] else seq(|ws| - 1, i requires 0 <= i < |ws| - 1 => RuleGap(u, ws[i], ws[i + 1]))
  }

  predicate RuleGap(u: Tables, left: string, right: string)
    requires left != [] && right != []
  {
    OpenLike(u, Last(left)) || (!IsProtected(u, right) && CloseLike(u, right[0]))
  }

  lemma CharsOfMember(s: string, c: char)
    ensures c in CharsOf(s) <==> c in s
  {
    if c in s {
      var i :| 0 <= i < |s| && s[i] == c;
      assert s[i] in CharsOf(s);
    }
  }

  lemma MarkAllTail(u: Tables, ws: seq<string>)
    requires ws != []
    ensures MarkAll(u, ws)[1..] == MarkAll(u, ws[1..])
  {
  }

  /** A protected word, marked, starts with the marker and its dot. */
  lemma MarkedProtected(u: Tables, w: string)
    requires IsProtected(u, w)
    ensures Mark(u, w) == DotMarkerWithDot + w[1..]
    ensures Mark(u, w)[0] == '['
  {
    assert w == [w[0]] + w[1..];
    assert DotMarker + ([w[0]] + w[1..]) == (DotMarker + [w[0]]) + w[1..];
  }

  /** The gaps of the marked words, with every character of the text treated, are the
      gaps of the rule. */
  lemma MarkedDrops(u: Tables, ws: seq<string>)
    requires Valid(u) && AllWords(ws)
    ensures NonEmptyAll(MarkAll(u, ws))
    ensures Respaced(u, MarkAll(u, ws)) == Spaced(MarkAll(u, ws), RuleDrops(u, ws))
  {
    MarkAllNonEmpty(u, ws);
    var m := MarkAll(u, ws);
    var chars := CharsOf(Join(m, " "));
    calc {
      Respaced(u, m);
      Glue(m, OpenOf(u, chars), CloseOf(u, chars));
      Spaced(m, Drops(m, OpenOf(u, chars), CloseOf(u, chars)));
      { DropsOfMarked(u, ws, m, chars); }
      Spaced(m, RuleDrops(u, ws));
    }
  }

  lemma DropsOfMarked(u: Tables, ws: seq<string>, m: seq<string>, chars: set<char>)
    requires Valid(u) && AllWords(ws)
    requires m == MarkAll(u, ws) && chars == CharsOf(Join(m, " ")) && NonEmptyAll(m)
    ensures Drops(m, OpenOf(u, chars), CloseOf(u, chars)) == RuleDrops(u, ws)
  {
    var d := Drops(m, OpenOf(u, chars), CloseOf(u, chars));
    var r := RuleDrops(u, ws);
    assert |d| == |r|;
    forall i | 0 <= i < |d| ensures d[i] == r[i] {
      MarkedGap(u, ws, m, chars, i);
    }
  }

  lemma MarkedGap(u: Tables, ws: seq<string>, m: seq<string>, chars: set<char>, i: nat)
    requires Valid(u) && AllWords(ws) && i + 1 < |ws|
    requires m == MarkAll(u, ws) && chars == CharsOf(Join(m, " ")) && NonEmptyAll(m)
    ensures Drops(m, OpenOf(u, chars), CloseOf(u, chars))[i] == RuleDrops(u, ws)[i]
  {
    AfterMarked(u, ws, m, chars, i);
    BeforeMarked(u, ws, m, chars, i + 1);
  }

  /** The last character of a marked word is the word's own, and it is in the text. */
  lemma AfterMarked(u: Tables, ws: seq<string>, m: seq<string>, chars: set<char>, i: nat)
    requires AllWords(ws) && i < |ws|
    requires m == MarkAll(u, ws) && chars == CharsOf(Join(m, " ")) && NonEmptyAll(m)
    ensures Last(m[i]) == Last(ws[i]) && (Last(m[i]) in OpenOf(u, chars) <==> OpenLike(u, Last(ws[i])))
  {
    assert IsWord(ws[i]);
    JoinHasPartChars(m, " ", i, |m[i]| - 1);
    CharsOfMember(Join(m, " "), Last(m[i]));
  }

  /** The first character of a marked word is `[` for a protected word and the word's own
      otherwise; it is in the text. */
  lemma BeforeMarked(u: Tables, ws: seq<string>, m: seq<string>, chars: set<char>, i: nat)
    requires Valid(u) && AllWords(ws) && i < |ws|
    requires m == MarkAll(u, ws) && chars == CharsOf(Join(m, " ")) && NonEmptyAll(m)
    ensures ws[i] != [] && (m[i][0] in CloseOf(u, chars)
                            <==> !IsProtected(u, ws[i]) && CloseLike(u, ws[i][0]))
  {
    assert IsWord(ws[i]);
    JoinHasPartChars(m, " ", i, 0);
    CharsOfMember(Join(m, " "), m[i][0]);
    if IsProtected(u, ws[i]) {
      MarkedProtected(u, ws[i]);
      assert OpenLike(u, '[');
    } else {
      ClassesDisjoint(u, ws[i][0]);
    }
  }

  /** `str::replace` leaves a prefix alone when no backslash follows any of its
      characters, if the pattern's second character is a backslash (as the marker's is). */
  lemma SkipUnmarked(pat: string, a: string, t: string)
    requires |pat| > 1 && pat[1] == '\\'
    requires forall p :: 0 < p <= |a| && p < |a + t| ==> (a + t)[p] != '\\'
    ensures ReplaceAll(a + t, pat, ".") == a + ReplaceAll(t, pat, ".")
  {
    forall p | 0 <= p < |a| ensures !OccursAt(a + t, pat, p) {
      if p + |pat| <= |a + t| {
        assert (a + t)[p..p + |pat|][1] == (a + t)[p + 1];
      }
    }
    ReplaceAllKeepsPrefix(a, t, pat, ".");
  }

  /** One unmarked word, its gap and the rest of the text. */
  lemma UnmarkPlain(pat: string, w: string, sep: string, g: string, h: string)
    requires |pat| > 1 && pat[1] == '\\'
    requires NoBackslash(w) && NoBackslash(sep) && (g == [] || g[0] != '\\')
    requires ReplaceAll(g, pat, ".") == h
    ensures ReplaceAll(w + sep + g, pat, ".") == w + sep + h
  {
    var a := w + sep;
    forall p | 0 < p <= |a| && p < |a + g| ensures (a + g)[p] != '\\' {
      if p < |w| { assert (a + g)[p] == w[p]; }
      else if p < |a| { assert (a + g)[p] == sep[p - |w|]; }
      else { assert (a + g)[p] == g[0]; }
    }
    SkipUnmarked(pat, a, g);
  }

  /** One marked word, its gap and the rest of the text. */
  lemma UnmarkProtected(pat: string, w: string, sep: string, g: string, h: string)
    requires |pat| > 1 && pat[1] == '\\'
    requires |w| > 1 && w[0] == '.'
    requires NoBackslash(w) && NoBackslash(sep) && (g == [] || g[0] != '\\')
    requires ReplaceAll(g, pat, ".") == h
    ensures ReplaceAll(pat + w[1..] + sep + g, pat, ".") == w + sep + h
  {
    var tail := w[1..];
    assert ReplaceAll(pat + (tail + sep + g), pat, ".") == "." + (tail + sep + h) by {
      NoBackslashTail(w);
      UnmarkPlain(pat, tail, sep, g, h);
      UnmarkHead(pat, tail + sep + g, tail + sep + h);
    }
    assert pat + tail + sep + g == pat + (tail + sep + g) by {
      AppendAssoc(pat + tail, sep, g);
      AppendAssoc(pat, tail, sep + g);
    }
    assert "." + (tail + sep + h) == w + sep + h by {
      AppendAssoc(".", tail + sep, h);
      AppendAssoc(".", tail, sep);
      assert "." + tail == w;
    }
  }

  lemma UnmarkHead(pat: string, t: string, r: string)
    requires pat != [] && ReplaceAll(t, pat, ".") == r
    ensures ReplaceAll(pat + t, pat, ".") == "." + r
  {
    ReplaceAllAtStart(pat, t, ".");
  }

  lemma NoBackslashTail(w: string)
    requires w != [] && NoBackslash(w)
    ensures NoBackslash(w[1..])
  {
    assert w == [w[0]] + w[1..];
  }

  /** Removing the markers gives back the unmarked words, with the same gaps. */
  lemma {:induction false} UnmarkSpaced(u: Tables, ws: seq<string>, d: seq<bool>)
    requires AllWords(ws) && Fits(ws, d)
    requires forall k :: 0 <= k < |ws| ==> NoBackslash(ws[k])
    ensures NonEmptyAll(MarkAll(u, ws))
    ensures ReplaceAll(Spaced(MarkAll(u, ws), d), DotMarkerWithDot, ".") == Spaced(ws, d)
  {
    MarkAllNonEmpty(u, ws);
    var m := MarkAll(u, ws);
    if ws != [] {
      var w := ws[0];
      assert IsWord(w) && NoBackslash(w);
      var sep: string, g: string, h: string;
      if |ws| == 1 {
        sep, g, h := "", "", "";
        assert Spaced(m, d) == m[0] + sep + g;
        assert Spaced(ws, d) == w + sep + h;
      } else {
        sep := if d[0] then "" else " ";
        MarkAllTail(u, ws);
        assert AllWords(ws[1..]);
        UnmarkSpaced(u, ws[1..], d[1..]);
        g := Spaced(m[1..], d[1..]);
        h := Spaced(ws[1..], d[1..]);
        SpacedFirst(m[1..], d[1..]);
        assert IsWord(ws[1]) && NoBackslash(ws[1]);
        if IsProtected(u, ws[1]) { MarkedProtected(u, ws[1]); }
        assert Spaced(m, d) == m[0] + sep + g;
        assert Spaced(ws, d) == w + sep + h;
      }
      if IsProtected(u, w) {
        MarkedProtected(u, w);
        UnmarkProtected(DotMarkerWithDot, w, sep, g, h);
      } else {
        UnmarkPlain(DotMarkerWithDot, w, sep, g, h);
      }
    }
  }

  /** A character of a word of the lines is a character of one of the lines. */
  lemma WordsChars(lines: seq<string>, k: nat, j: nat)
    requires k < |Words(lines)| && j < |Words(lines)[k]| && Words(lines)[k][j] != ' '
    ensures exists m, i :: 0 <= m < |lines| && 0 <= i < |lines[m]| && lines[m][i] == Words(lines)[k][j]
  {
    var t := Join(lines, " ");
    var w := Words(lines)[k];
    SplitWhitespaceChars(t, w, j);
    var x :| 0 <= x < |t| && t[x] == w[j];
    JoinCharFromPart(lines, x);
  }

  /** `join_sentences`, for lines without backslashes: the words of the lines, each
      followed by a space unless the rule drops it. */
  lemma {:induction false} JoinedMeaning(u: Tables, lines: seq<string>)
    requires Valid(u)
    requires forall k :: 0 <= k < |lines| ==> NoBackslash(lines[k])
    ensures NonEmptyAll(Words(lines))
    ensures Joined(u, lines) == Spaced(Words(lines), RuleDrops(u, Words(lines)))
  {
    var ws := Words(lines);
    assert AllWords(ws);
    forall k | 0 <= k < |ws| ensures NoBackslash(ws[k]) {
      forall j | 0 <= j < |ws[k]| ensures ws[k][j] != '\\' {
        if ws[k][j] != ' ' {
          WordsChars(lines, k, j);
        }
      }
    }
    JoinedOf(u, lines, ws);
    MarkedDrops(u, ws);
    var d := RuleDrops(u, ws);
    if AnyProtected(u, ws) {
      UnmarkSpaced(u, ws, d);
    } else {
      assert MarkAll(u, ws) == ws;
    }
  }

  lemma SpacedFirstRest(ws: seq<string>, d: seq<bool>)
    requires Fits(ws, d) && |ws| > 1 && ws[1] != []
    ensures Spaced(ws[1..], d[1..]) != [] && Spaced(ws[1..], d[1..])[0] == ws[1][0]
  {
    SpacedFirst(ws[1..], d[1..]);
  }

  /** The words, spaced or glued, keep every non-space character in order. */
  lemma {:induction false} RemoveWhitespaceSpaced(ws: seq<string>, d: seq<bool>)
    requires AllWords(ws) && Fits(ws, d)
    ensures RemoveWhitespace(Spaced(ws, d)) == Concat(ws)
  {
    if |ws| == 1 {
      assert IsWord(ws[0]);
      RemoveWhitespaceOfWord(ws[0]);
      assert Concat(ws) == ws[0] + Concat([]);
    } else if |ws| > 1 {
      var sep := if d[0] then "" else " ";
      var g := Spaced(ws[1..], d[1..]);
      assert RemoveWhitespace(sep) == "" by {
        if !d[0] { assert RemoveWhitespace(sep) == "" + RemoveWhitespace(sep[1..]); }
      }
      calc {
        RemoveWhitespace(Spaced(ws, d));
        RemoveWhitespace((ws[0] + sep) + g);
        { RemoveWhitespaceAppend(ws[0] + sep, g); }
        RemoveWhitespace(ws[0] + sep) + RemoveWhitespace(g);
        { RemoveWhitespaceAppend(ws[0], sep); }
        RemoveWhitespace(ws[0]) + "" + RemoveWhitespace(g);
        { assert IsWord(ws[0]); RemoveWhitespaceOfWord(ws[0]); }
        ws[0] + "" + RemoveWhitespace(g);
        { assert AllWords(ws[1..]); RemoveWhitespaceSpaced(ws[1..], d[1..]); }
        ws[0] + "" + Concat(ws[1..]);
        { assert ws[0] + "" == ws[0]; }
        Concat(ws);
      }
    }
  }

  /** Words spaced or glued: the only whitespace is a single `' '` strictly inside. */
  lemma {:induction false} SpacedSingleSpaced(ws: seq<string>, d: seq<bool>)
    requires AllWords(ws) && Fits(ws, d)
    ensures SingleSpaced(Spaced(ws, d))
  {
    if |ws| == 1 {
      assert IsWord(ws[0]);
    } else if |ws| > 1 {
      assert IsWord(ws[0]) && IsWord(ws[1]);
      var sep := if d[0] then "" else " ";
      var g := Spaced(ws[1..], d[1..]);
      assert AllWords(ws[1..]);
      SpacedSingleSpaced(ws[1..], d[1..]);
      SpacedFirstRest(ws, d);
      var s := Spaced(ws, d);
      var a := ws[0] + sep;
      assert s == a + g;
      forall i | 0 <= i < |s|
        ensures IsWhitespace(s[i]) ==> s[i] == ' ' && 0 < i < |s| - 1 && !IsWhitespace(s[i + 1])
      {
        if i < |ws[0]| {
          assert s[i] == ws[0][i];
        } else if i < |a| {
          assert s[i] == ' ' && s[i + 1] == g[0];
        } else {
          assert s[i] == g[i - |a|];
          if i + 1 < |s| { assert s[i + 1] == g[i + 1 - |a|]; }
        }
      }
    }
  }

  /** `join_sentences` changes nothing but whitespace: its non-whitespace characters are
      those of the lines, in order. */
  lemma JoinedKeepsText(u: Tables, lines: seq<string>)
    requires Valid(u)
    requires forall k :: 0 <= k < |lines| ==> NoBackslash(lines[k])
    ensures RemoveWhitespace(Joined(u, lines)) == RemoveWhitespace(Concat(lines))
  {
    JoinedMeaning(u, lines);
    var ws := Words(lines);
    RemoveWhitespaceSpaced(ws, RuleDrops(u, ws));
    ConcatSplitWhitespace(Join(lines, " "));
    RemoveWhitespaceJoin(lines);
  }

  /** The joined text has no leading, trailing or repeated whitespace, and every
      whitespace character left is a plain space. */
  lemma JoinedSingleSpaced(u: Tables, lines: seq<string>)
    requires Valid(u)
    requires forall k :: 0 <= k < |lines| ==> NoBackslash(lines[k])
    ensures SingleSpaced(Joined(u, lines)) && IsTrimmed(Joined(u, lines))
  {
    JoinedMeaning(u, lines);
    var ws := Words(lines);
    SpacedSingleSpaced(ws, RuleDrops(u, ws));
    SingleSpacedIsTrimmed(Joined(u, lines));
  }

  lemma {:induction false} SpacedWithoutDrops(ws: seq<string>, d: seq<bool>)
    requires Fits(ws, d) && forall i :: 0 <= i < |d| ==> !d[i]
    ensures Spaced(ws, d) == Join(ws, " ")
  {
    if |ws| > 1 {
      SpacedWithoutDrops(ws[1..], d[1..]);
    }
  }

  /** No open-like, close-like or backslash character anywhere in the lines. */
  predicate PlainLines(u: Tables, lines: seq<string>) {
    forall k, i :: 0 <= k < |lines| && 0 <= i < |lines[k]| ==>
      lines[k][i] != '\\' && !OpenLike(u, lines[k][i]) && !CloseLike(u, lines[k][i])
  }

  lemma PlainWord(u: Tables, lines: seq<string>, k: nat, j: nat)
    requires PlainLines(u, lines) && k < |Words(lines)| && j < |Words(lines)[k]|
    ensures NoWhitespace(Words(lines)[k])
    ensures !OpenLike(u, Words(lines)[k][j]) && !CloseLike(u, Words(lines)[k][j])
  {
    assert AllWords(Words(lines)) && IsWord(Words(lines)[k]);
    WordsChars(lines, k, j);
  }

  /** Lines without any open-like, close-like or backslash character are joined with
      single spaces between their words. */
  lemma JoinedPlain(u: Tables, lines: seq<string>)
    requires Valid(u) && PlainLines(u, lines)
    ensures Joined(u, lines) == Join(Words(lines), " ")
  {
    forall k | 0 <= k < |lines| ensures NoBackslash(lines[k]) {
      assert forall i :: 0 <= i < |lines[k]| ==> lines[k][i] != '\\';
    }
    JoinedMeaning(u, lines);
    var ws := Words(lines);
    var d := RuleDrops(u, ws);
    forall i | 0 <= i < |d| ensures !d[i] {
      PlainGap(u, lines, ws, i);
    }
    SpacedWithoutDrops(ws, d);
  }

  lemma PlainGap(u: Tables, lines: seq<string>, ws: seq<string>, i: nat)
    requires PlainLines(u, lines) && ws == Words(lines) && i + 1 < |ws|
    ensures NonEmptyAll(ws) && !RuleDrops(u, ws)[i]
  {
    assert AllWords(ws);
    PlainWord(u, lines, i, |ws[i]| - 1);
    PlainWord(u, lines, i + 1, 0);
    assert !OpenLike(u, Last(ws[i])) && !CloseLike(u, ws[i + 1][0]);
    assert RuleDrops(u, ws)[i] == RuleGap(u, ws[i], ws[i + 1]);
  }

  lemma JoinedEmpty(u: Tables)
    ensures Joined(u, []) == ""
  {
    assert Words([]) == [];
  }

  // ---------------------------------------------------------------------------
  // Cases of the unit test of `join_sentences` (text_nodes.rs:370-430).

  /** What `Valid` tables say of an ASCII character. */
  lemma AsciiClass(u: Tables, c: char)
    requires Valid(u) && IsAscii(c)
    ensures u.category(c) == AsciiCategory(c)
    ensures u.isLetterOrNumber(c) <==> IsAsciiAlphabetic(c) || IsAsciiDigit(c)
  {
  }

  /** `join_sentences(["tel.", ":", "+390441234567"])` is `"tel.: +390441234567"`: the
      space before the close character `:` goes, the one after it stays. */
  lemma JoinedTel(u: Tables, lines: seq<string>)
    requires Valid(u) && |lines| == 3
    requires lines[0] == "tel." && lines[1] == ":" && lines[2] == "+390441234567"
    ensures Joined(u, lines) == "tel.: +390441234567"
  {
    WordsOfTel(lines);
    SplitJoinWords(lines);
    DropsOfTel(u, lines);
    SpacedOfTel(lines);
    JoinedByRule(u, lines, lines, [true, false]);
  }

  /** `JoinedMeaning` with the words and the gap decisions worked out beforehand. */
  lemma JoinedByRule(u: Tables, lines: seq<string>, ws: seq<string>, d: seq<bool>)
    requires Valid(u)
    requires forall k :: 0 <= k < |lines| ==> NoBackslash(lines[k])
    requires Words(lines) == ws && NonEmptyAll(ws) && RuleDrops(u, ws) == d
    ensures Joined(u, lines) == Spaced(ws, d)
  {
    JoinedMeaning(u, lines);
  }

  lemma WordsOfTel(lines: seq<string>)
    requires |lines| == 3 && lines[0] == "tel." && lines[1] == ":" && lines[2] == "+390441234567"
    ensures AllWords(lines) && NonEmptyAll(lines)
    ensures forall k :: 0 <= k < |lines| ==> NoBackslash(lines[k])
  {
    assert IsWord(lines[0]) && IsWord(lines[1]) && IsWord(lines[2]);
    assert NoBackslash(lines[0]) && NoBackslash(lines[1]) && NoBackslash(lines[2]);
  }

  lemma DropsOfTel(u: Tables, lines: seq<string>)
    requires Valid(u)
    requires |lines| == 3 && lines[0] == "tel." && lines[1] == ":" && lines[2] == "+390441234567"
    ensures NonEmptyAll(lines) && RuleDrops(u, lines) == [true, false]
  {
    ColonGap(u, lines[0], lines[1]);
    PlusGap(u, lines[1], lines[2]);
    DropsOfThree(u, lines);
  }

  lemma DropsOfThree(u: Tables, ws: seq<string>)
    requires |ws| == 3 && ws[0] != [] && ws[1] != [] && ws[2] != []
    ensures NonEmptyAll(ws)
    ensures RuleDrops(u, ws) == [RuleGap(u, ws[0], ws[1]), RuleGap(u, ws[1], ws[2])]
  {
  }

  /** The gap between `tel.` and the close character `:` is dropped. */
  lemma ColonGap(u: Tables, left: string, right: string)
    requires Valid(u) && left == "tel." && right == ":"
    ensures left != [] && right != [] && RuleGap(u, left, right)
  {
    AsciiClass(u, ':');
  }

  /** The gap between `:` and `+390441234567` is kept. */
  lemma PlusGap(u: Tables, left: string, right: string)
    requires Valid(u) && left == ":" && right == "+390441234567"
    ensures left != [] && right != [] && !RuleGap(u, left, right)
  {
    AsciiClass(u, ':');
    AsciiClass(u, '+');
  }

  lemma SpacedOfTel(lines: seq<string>)
    requires |lines| == 3 && lines[0] == "tel." && lines[1] == ":" && lines[2] == "+390441234567"
    ensures Spaced(lines, [true, false]) == "tel.: +390441234567"
  {
    assert lines[1..][1..] == [lines[2]];
    assert Spaced(lines[1..], [false]) == ":" + " " + "+390441234567";
  }

  // The `.NET`/`.dk` case of the unit test (text_nodes.rs:412-429): every `.word` token in
  // it is protected, so no space is dropped.

  /** No gap between consecutive words is dropped by the rule. */
  predicate Kept(u: Tables, ws: seq<string>)
    requires NonEmptyAll(ws)
  {
    |ws| <= 1 || (!RuleGap(u, ws[0], ws[1]) && Kept(u, ws[1..]))
  }

  /** When every gap is kept, the words are joined with single spaces. */
  lemma {:induction false} KeptJoin(u: Tables, ws: seq<string>)
    requires NonEmptyAll(ws) && Kept(u, ws)
    ensures Spaced(ws, RuleDrops(u, ws)) == Join(ws, " ")
  {
    if |ws| > 1 {
      assert RuleDrops(u, ws)[1..] == RuleDrops(u, ws[1..]);
      KeptJoin(u, ws[1..]);
    }
  }

  lemma KeptCons(u: Tables, w: string, rest: seq<string>)
    requires w != [] && rest != [] && NonEmptyAll(rest) && Kept(u, rest) && !RuleGap(u, w, rest[0])
    ensures NonEmptyAll([w] + rest) && Kept(u, [w] + rest)
  {
    assert ([w] + rest)[1..] == rest;
  }

  /** The space between two words stays when the left one ends in an ASCII character
      other than a bracket and the right one starts with an ASCII character that is
      neither a bracket nor a close character. */
  lemma KeptGapPlain(u: Tables, left: string, right: string)
    requires Valid(u) && left != [] && right != []
    requires IsAscii(Last(left)) && AsciiCategory(Last(left)) == OtherCategory
    requires IsAscii(right[0]) && AsciiCategory(right[0]) == OtherCategory && !IsCloseChar(right[0])
    ensures !RuleGap(u, left, right)
  {
    AsciiClass(u, Last(left));
    AsciiClass(u, right[0]);
  }

  /** The space before a protected `.word` token stays when the word on its left ends in
      an ASCII character other than a bracket. */
  lemma KeptGapProtected(u: Tables, left: string, right: string)
    requires Valid(u) && left != [] && right != []
    requires IsAscii(Last(left)) && AsciiCategory(Last(left)) == OtherCategory
    requires IsProtected(u, right)
    ensures !RuleGap(u, left, right)
  {
    AsciiClass(u, Last(left));
  }

  /** The letter/number run of a text is its prefix of ASCII letters and digits, when an
      ASCII character that is neither (or the end) follows that prefix. */
  lemma {:induction false} AlnumRunAscii(u: Tables, s: string, k: nat)
    requires Valid(u) && k <= |s|
    requires forall i :: 0 <= i < k ==> IsAscii(s[i]) && (IsAsciiAlphabetic(s[i]) || IsAsciiDigit(s[i]))
    requires k == |s| || (IsAscii(s[k]) && !IsAsciiAlphabetic(s[k]) && !IsAsciiDigit(s[k]))
    ensures AlnumRun(u, s) == s[..k]
  {
    if k == 0 {
      if s != [] {
        AsciiClass(u, s[0]);
      }
    } else {
      AsciiClass(u, s[0]);
      var t := s[1..];
      forall i | 0 <= i < k - 1
        ensures IsAscii(t[i]) && (IsAsciiAlphabetic(t[i]) || IsAsciiDigit(t[i]))
      {
        assert t[i] == s[i + 1];
      }
      assert k - 1 == |t| || t[k - 1] == s[k];
      AlnumRunAscii(u, t, k - 1);
      assert AlnumRun(u, s) == [s[0]] + AlnumRun(u, t);
      assert s[..k] == [s[0]] + t[..k - 1];
    }
  }

  /** A `.word` token whose ASCII letter/number run, lower-cased, is a word of the
      lexicon is protected. */
  lemma ProtectedByLexicon(u: Tables, w: string, run: string, rest: string)
    requires Valid(u) && |w| > 1 && w[0] == '.' && w[1..] == run + rest
    requires forall i :: 0 <= i < |run| ==> IsAsciiAlphabetic(run[i]) || IsAsciiDigit(run[i])
    requires rest == [] || (IsAscii(rest[0]) && !IsAsciiAlphabetic(rest[0]) && !IsAsciiDigit(rest[0]))
    requires AsciiLowercase(run) in Lexicon(u)
    ensures IsProtected(u, w)
  {
    assert (run + rest)[..|run|] == run;
    AlnumRunAscii(u, run + rest, |run|);
    assert IsAsciiString(run);
    assert u.lowercase(AlnumRun(u, w[1..])) in Lexicon(u);
  }

  lemma LowercaseOfLower(s: string)
    requires forall i :: 0 <= i < |s| ==> 'a' <= s[i] <= 'z'
    ensures AsciiLowercase(s) == s
  {
  }

  lemma JoinCons(x: string, rest: seq<string>)
    requires rest != []
    ensures Join([x] + rest, " ") == x + " " + Join(rest, " ")
  {
    assert ([x] + rest)[1..] == rest;
  }

  /** The expected text of the last case, written as its three runs joined by spaces. */
  const DotWordsText: string :=
    "F#, .NET, C# ect." + " " + "Please, add .gitignore and .travis.yml" + " " + "for all .dk and .com domains."

  /** `join_sentences` of the last case of the unit test gives back its words joined by
      single spaces: `.NET`, `.gitignore`, `.travis.yml`, `.dk` and `.com` are protected
      `.word` tokens, so the space before each of them stays. */
  lemma JoinedDotWords(u: Tables, lines: seq<string>)
    requires Valid(u) && |lines| == 9
    requires lines[0] == "F#," && lines[1] == ".NET," && lines[2] == "C# ect."
    requires lines[3] == "Please, add" && lines[4] == ".gitignore and" && lines[5] == ".travis.yml"
    requires lines[6] == "for all" && lines[7] == ".dk" && lines[8] == "and .com domains."
    ensures Joined(u, lines) == DotWordsText
  {
    var a := ["F#,", ".NET,", "C#", "ect."];
    var b := ["Please,", "add", ".gitignore", "and", ".travis.yml"];
    var c := ["for", "all", ".dk", "and", ".com", "domains."];
    WordsOfDotWords(lines, a, b, c);
    KeptDotWords(u, a, b, c);
    KeptJoin(u, a + b + c);
    JoinedByRule(u, lines, a + b + c, RuleDrops(u, a + b + c));
  }

  /** The words of the lines of the last case, in three runs. */
  lemma WordsOfDotWords(lines: seq<string>, a: seq<string>, b: seq<string>, c: seq<string>)
    requires |lines| == 9
    requires lines[0] == "F#," && lines[1] == ".NET," && lines[2] == "C# ect."
    requires lines[3] == "Please, add" && lines[4] == ".gitignore and" && lines[5] == ".travis.yml"
    requires lines[6] == "for all" && lines[7] == ".dk" && lines[8] == "and .com domains."
    requires a == ["F#,", ".NET,", "C#", "ect."]
    requires b == ["Please,", "add", ".gitignore", "and", ".travis.yml"]
    requires c == ["for", "all", ".dk", "and", ".com", "domains."]
    ensures Words(lines) == a + b + c && Join(a + b + c, " ") == DotWordsText
    ensures forall k :: 0 <= k < |lines| ==> NoBackslash(lines[k])
  {
    var la, lb, lc := lines[..3], lines[3..6], lines[6..];
    assert lines == la + lb + lc;
    DotLinesPlain(la, lb, lc);
    DotRunsA(la, a);
    DotRunsB(lb, b);
    DotRunsC(lc, c);
    WordsOfRuns(la, lb, lc, a, b, c);
  }

  /** Lines whose three runs join to the same texts as three runs of words have those
      words, and the words join to the runs' texts joined by spaces. */
  lemma WordsOfRuns(la: seq<string>, lb: seq<string>, lc: seq<string>, a: seq<string>, b: seq<string>, c: seq<string>)
    requires la != [] && lb != [] && lc != [] && a != [] && b != [] && c != []
    requires AllWords(a) && AllWords(b) && AllWords(c)
    requires Join(la, " ") == Join(a, " ") && Join(lb, " ") == Join(b, " ") && Join(lc, " ") == Join(c, " ")
    ensures Words(la + lb + lc) == a + b + c
    ensures Join(a + b + c, " ") == Join(a, " ") + " " + Join(b, " ") + " " + Join(c, " ")
  {
    AllWordsAppend(a, b);
    AllWordsAppend(a + b, c);
    JoinOfThreeRuns(a, b, c);
    JoinOfThreeRuns(la, lb, lc);
    SplitJoinWords(a + b + c);
  }

  lemma AllWordsAppend(a: seq<string>, b: seq<string>)
    requires AllWords(a) && AllWords(b)
    ensures AllWords(a + b)
  {
    assert forall k :: |a| <= k < |a + b| ==> (a + b)[k] == b[k - |a|];
  }

  lemma DotLinesPlain(la: seq<string>, lb: seq<string>, lc: seq<string>)
    requires la == ["F#,", ".NET,", "C# ect."]
    requires lb == ["Please, add", ".gitignore and", ".travis.yml"]
    requires lc == ["for all", ".dk", "and .com domains."]
    ensures forall k :: 0 <= k < |la + lb + lc| ==> NoBackslash((la + lb + lc)[k])
  {
    assert NoBackslash(la[0]) && NoBackslash(la[1]) && NoBackslash(la[2]);
    assert NoBackslash(lb[0]) && NoBackslash(lb[1]) && NoBackslash(lb[2]);
    assert NoBackslash(lc[0]) && NoBackslash(lc[1]) && NoBackslash(lc[2]);
    forall k | 0 <= k < |la + lb + lc| ensures NoBackslash((la + lb + lc)[k]) {
      if k < 3 { assert (la + lb + lc)[k] == la[k]; }
      else if k < 6 { assert (la + lb + lc)[k] == lb[k - 3]; }
      else { assert (la + lb + lc)[k] == lc[k - 6]; }
    }
  }

  /** Three non-empty runs joined by spaces. */
  lemma JoinOfThreeRuns(a: seq<string>, b: seq<string>, c: seq<string>)
    requires a != [] && b != [] && c != []
    ensures Join(a + b + c, " ") == Join(a, " ") + " " + Join(b, " ") + " " + Join(c, " ")
  {
    JoinAppend(a + b, c);
    JoinAppend(a, b);
  }

  lemma JoinLinesA()
    ensures Join(["F#,", ".NET,", "C# ect."], " ") == "F#," + " " + (".NET," + " " + "C# ect.")
  {
    var t: seq<string> := ["C# ect."];
    JoinCons(".NET,", t);
    t := [".NET,"] + t;
    JoinCons("F#,", t);
    t := ["F#,"] + t;
    assert t == ["F#,", ".NET,", "C# ect."];
  }

  lemma SpellLinesA()
    ensures "F#," + " " + (".NET," + " " + "C# ect.") == "F#, .NET, C# ect."
  {
  }

  lemma JoinWordsA()
    ensures Join(["F#,", ".NET,", "C#", "ect."], " ") == "F#," + " " + (".NET," + " " + ("C#" + " " + "ect."))
  {
    var t: seq<string> := ["ect."];
    JoinCons("C#", t);
    t := ["C#"] + t;
    JoinCons(".NET,", t);
    t := [".NET,"] + t;
    JoinCons("F#,", t);
    t := ["F#,"] + t;
    assert t == ["F#,", ".NET,", "C#", "ect."];
  }

  lemma SpellWordsA()
    ensures "F#," + " " + (".NET," + " " + ("C#" + " " + "ect.")) == "F#, .NET, C# ect."
  {
  }

  lemma JoinLinesB()
    ensures Join(["Please, add", ".gitignore and", ".travis.yml"], " ") == "Please, add" + " " + (".gitignore and" + " " + ".travis.yml")
  {
    var t: seq<string> := [".travis.yml"];
    JoinCons(".gitignore and", t);
    t := [".gitignore and"] + t;
    JoinCons("Please, add", t);
    t := ["Please, add"] + t;
    assert t == ["Please, add", ".gitignore and", ".travis.yml"];
  }

  lemma SpellLinesB()
    ensures "Please, add" + " " + (".gitignore and" + " " + ".travis.yml") == "Please, add .gitignore and .travis.yml"
  {
  }

  lemma JoinWordsB()
    ensures Join(["Please,", "add", ".gitignore", "and", ".travis.yml"], " ") == "Please," + " " + ("add" + " " + (".gitignore" + " " + ("and" + " " + ".travis.yml")))
  {
    var t: seq<string> := [".travis.yml"];
    JoinCons("and", t);
    t := ["and"] + t;
    JoinCons(".gitignore", t);
    t := [".gitignore"] + t;
    JoinCons("add", t);
    t := ["add"] + t;
    JoinCons("Please,", t);
    t := ["Please,"] + t;
    assert t == ["Please,", "add", ".gitignore", "and", ".travis.yml"];
  }

  lemma SpellWordsB()
    ensures "Please," + " " + ("add" + " " + (".gitignore" + " " + ("and" + " " + ".travis.yml"))) == "Please, add .gitignore and .travis.yml"
  {
  }

  lemma JoinLinesC()
    ensures Join(["for all", ".dk", "and .com domains."], " ") == "for all" + " " + (".dk" + " " + "and .com domains.")
  {
    var t: seq<string> := ["and .com domains."];
    JoinCons(".dk", t);
    t := [".dk"] + t;
    JoinCons("for all", t);
    t := ["for all"] + t;
    assert t == ["for all", ".dk", "and .com domains."];
  }

  lemma SpellLinesC()
    ensures "for all" + " " + (".dk" + " " + "and .com domains.") == "for all .dk and .com domains."
  {
  }

  lemma JoinWordsC()
    ensures Join(["for", "all", ".dk", "and", ".com", "domains."], " ") == "for" + " " + ("all" + " " + (".dk" + " " + ("and" + " " + (".com" + " " + "domains."))))
  {
    var t: seq<string> := ["domains."];
    JoinCons(".com", t);
    t := [".com"] + t;
    JoinCons("and", t);
    t := ["and"] + t;
    JoinCons(".dk", t);
    t := [".dk"] + t;
    JoinCons("all", t);
    t := ["all"] + t;
    JoinCons("for", t);
    t := ["for"] + t;
    assert t == ["for", "all", ".dk", "and", ".com", "domains."];
  }

  lemma SpellWordsC()
    ensures "for" + " " + ("all" + " " + (".dk" + " " + ("and" + " " + (".com" + " " + "domains.")))) == "for all .dk and .com domains."
  {
  }

  lemma DotRunsA(la: seq<string>, a: seq<string>)
    requires la == ["F#,", ".NET,", "C# ect."]
    requires a == ["F#,", ".NET,", "C#", "ect."]
    ensures AllWords(a) && Join(la, " ") == Join(a, " ") == "F#, .NET, C# ect."
  {
    DotLinesA(la);
    DotWordsA(a);
  }

  lemma DotLinesA(la: seq<string>)
    requires la == ["F#,", ".NET,", "C# ect."]
    ensures Join(la, " ") == "F#, .NET, C# ect."
  {
    JoinLinesA();
    SpellLinesA();
  }

  lemma DotWordsA(a: seq<string>)
    requires a == ["F#,", ".NET,", "C#", "ect."]
    ensures AllWords(a) && Join(a, " ") == "F#, .NET, C# ect."
  {
    assert IsWord(a[0]) && IsWord(a[1]) && IsWord(a[2]) && IsWord(a[3]);
    JoinWordsA();
    SpellWordsA();
  }


  lemma DotRunsB(lb: seq<string>, b: seq<string>)
    requires lb == ["Please, add", ".gitignore and", ".travis.yml"]
    requires b == ["Please,", "add", ".gitignore", "and", ".travis.yml"]
    ensures AllWords(b) && Join(lb, " ") == Join(b, " ") == "Please, add .gitignore and .travis.yml"
  {
    DotLinesB(lb);
    DotWordsB(b);
  }

  lemma DotLinesB(lb: seq<string>)
    requires lb == ["Please, add", ".gitignore and", ".travis.yml"]
    ensures Join(lb, " ") == "Please, add .gitignore and .travis.yml"
  {
    JoinLinesB();
    SpellLinesB();
  }

  lemma DotWordsB(b: seq<string>)
    requires b == ["Please,", "add", ".gitignore", "and", ".travis.yml"]
    ensures AllWords(b) && Join(b, " ") == "Please, add .gitignore and .travis.yml"
  {
    assert IsWord(b[0]) && IsWord(b[1]) && IsWord(b[2]) && IsWord(b[3]) && IsWord(b[4]);
    JoinWordsB();
    SpellWordsB();
  }


  lemma DotRunsC(lc: seq<string>, c: seq<string>)
    requires lc == ["for all", ".dk", "and .com domains."]
    requires c == ["for", "all", ".dk", "and", ".com", "domains."]
    ensures AllWords(c) && Join(lc, " ") == Join(c, " ") == "for all .dk and .com domains."
  {
    DotLinesC(lc);
    DotWordsC(c);
  }

  lemma DotLinesC(lc: seq<string>)
    requires lc == ["for all", ".dk", "and .com domains."]
    ensures Join(lc, " ") == "for all .dk and .com domains."
  {
    JoinLinesC();
    SpellLinesC();
  }

  lemma DotWordsC(c: seq<string>)
    requires c == ["for", "all", ".dk", "and", ".com", "domains."]
    ensures AllWords(c) && Join(c, " ") == "for all .dk and .com domains."
  {
    assert IsWord(c[0]) && IsWord(c[1]) && IsWord(c[2]) && IsWord(c[3]) && IsWord(c[4]) && IsWord(c[5]);
    JoinWordsC();
    SpellWordsC();
  }


  lemma {:induction false} JoinAppend(a: seq<string>, b: seq<string>)
    requires a != [] && b != []
    ensures Join(a + b, " ") == Join(a, " ") + " " + Join(b, " ")
  {
    if |a| == 1 {
      JoinCons(a[0], b);
    } else {
      JoinAppend(a[1..], b);
      assert (a + b)[1..] == a[1..] + b;
    }
  }

  lemma {:induction false} KeptAppend(u: Tables, a: seq<string>, b: seq<string>)
    requires a != [] && b != [] && NonEmptyAll(a) && NonEmptyAll(b) && Kept(u, a) && Kept(u, b)
    requires !RuleGap(u, a[|a| - 1], b[0])
    ensures NonEmptyAll(a + b) && Kept(u, a + b)
  {
    if |a| == 1 {
      KeptCons(u, a[0], b);
      assert [a[0]] + b == a + b;
    } else {
      KeptAppend(u, a[1..], b);
      assert a[1..][|a[1..]| - 1] == a[|a| - 1];
      KeptCons(u, a[0], a[1..] + b);
      assert [a[0]] + (a[1..] + b) == a + b;
    }
  }

  /** Every gap of the words of the last case is kept. */
  lemma KeptDotWords(u: Tables, a: seq<string>, b: seq<string>, c: seq<string>)
    requires Valid(u)
    requires a == ["F#,", ".NET,", "C#", "ect."]
    requires b == ["Please,", "add", ".gitignore", "and", ".travis.yml"]
    requires c == ["for", "all", ".dk", "and", ".com", "domains."]
    ensures NonEmptyAll(a + b + c) && Kept(u, a + b + c)
  {
    KeptDotWordsA(u, a);
    KeptDotWordsB(u, b);
    KeptDotWordsC(u, c);
    KeptAtEct(u, a[|a| - 1], b[0]);
    KeptAtTravis(u, b[|b| - 1], c[0]);
    KeptThreeRuns(u, a, b, c);
  }

  lemma KeptAtEct(u: Tables, left: string, right: string)
    requires Valid(u) && left == "ect." && right == "Please,"
    ensures !RuleGap(u, left, right)
  {
    KeptGapPlain(u, left, right);
  }


  lemma KeptAtTravis(u: Tables, left: string, right: string)
    requires Valid(u) && left == ".travis.yml" && right == "for"
    ensures !RuleGap(u, left, right)
  {
    KeptGapPlain(u, left, right);
  }


  lemma KeptThreeRuns(u: Tables, a: seq<string>, b: seq<string>, c: seq<string>)
    requires a != [] && b != [] && c != [] && NonEmptyAll(a) && NonEmptyAll(b) && NonEmptyAll(c)
    requires Kept(u, a) && Kept(u, b) && Kept(u, c)
    requires !RuleGap(u, a[|a| - 1], b[0]) && !RuleGap(u, b[|b| - 1], c[0])
    ensures NonEmptyAll(a + b + c) && Kept(u, a + b + c)
  {
    KeptAppend(u, a, b);
    assert (a + b)[|a + b| - 1] == b[|b| - 1];
    KeptAppend(u, a + b, c);
  }

  lemma KeptDotWordsA(u: Tables, a: seq<string>)
    requires Valid(u) && a == ["F#,", ".NET,", "C#", "ect."]
    ensures NonEmptyAll(a) && Kept(u, a)
  {
    KeptAroundNet(u, a[0], a[1], a[2]);
    KeptGapPlain(u, a[2], a[3]);
    KeptOfFour(u, a);
  }

  lemma KeptDotWordsB(u: Tables, b: seq<string>)
    requires Valid(u) && b == ["Please,", "add", ".gitignore", "and", ".travis.yml"]
    ensures NonEmptyAll(b) && Kept(u, b)
  {
    KeptBeforeGitignore(u, b[0], b[1], b[2]);
    KeptAroundAnd(u, b[2], b[3], b[4]);
    KeptOfFive(u, b);
  }

  lemma KeptDotWordsC(u: Tables, c: seq<string>)
    requires Valid(u) && c == ["for", "all", ".dk", "and", ".com", "domains."]
    ensures NonEmptyAll(c) && Kept(u, c)
  {
    KeptBeforeDk(u, c[0], c[1], c[2]);
    KeptAfterDk(u, c[2], c[3], c[4]);
    KeptGapPlain(u, c[4], c[5]);
    KeptOfSix(u, c);
  }

  /** The gaps on both sides of the middle word of three consecutive words. */
  lemma KeptAroundNet(u: Tables, x: string, y: string, z: string)
    requires Valid(u) && x == "F#," && y == ".NET," && z == "C#"
    ensures x != [] && y != [] && z != [] && !RuleGap(u, x, y) && !RuleGap(u, y, z)
  {
    ProtectedNet(u, y);
    KeptGapProtected(u, x, y);
    KeptGapPlain(u, y, z);
  }

  lemma KeptBeforeGitignore(u: Tables, x: string, y: string, z: string)
    requires Valid(u) && x == "Please," && y == "add" && z == ".gitignore"
    ensures x != [] && y != [] && z != [] && !RuleGap(u, x, y) && !RuleGap(u, y, z)
  {
    ProtectedGitignore(u, z);
    KeptGapPlain(u, x, y);
    KeptGapProtected(u, y, z);
  }

  lemma KeptAroundAnd(u: Tables, x: string, y: string, z: string)
    requires Valid(u) && x == ".gitignore" && y == "and" && z == ".travis.yml"
    ensures x != [] && y != [] && z != [] && !RuleGap(u, x, y) && !RuleGap(u, y, z)
  {
    ProtectedTravis(u, z);
    KeptGapPlain(u, x, y);
    KeptGapProtected(u, y, z);
  }

  lemma KeptBeforeDk(u: Tables, x: string, y: string, z: string)
    requires Valid(u) && x == "for" && y == "all" && z == ".dk"
    ensures x != [] && y != [] && z != [] && !RuleGap(u, x, y) && !RuleGap(u, y, z)
  {
    ProtectedDk(u, z);
    KeptGapPlain(u, x, y);
    KeptGapProtected(u, y, z);
  }

  lemma KeptAfterDk(u: Tables, x: string, y: string, z: string)
    requires Valid(u) && x == ".dk" && y == "and" && z == ".com"
    ensures x != [] && y != [] && z != [] && !RuleGap(u, x, y) && !RuleGap(u, y, z)
  {
    ProtectedCom(u, z);
    KeptGapPlain(u, x, y);
    KeptGapProtected(u, y, z);
  }

  lemma KeptOfFour(u: Tables, ws: seq<string>)
    requires |ws| == 4 && ws[0] != [] && ws[1] != [] && ws[2] != [] && ws[3] != []
    requires !RuleGap(u, ws[0], ws[1]) && !RuleGap(u, ws[1], ws[2]) && !RuleGap(u, ws[2], ws[3])
    ensures NonEmptyAll(ws) && Kept(u, ws)
  {
    var t := ws[2..];
    assert t == [ws[2], ws[3]] && t[1..] == [ws[3]];
    KeptCons(u, ws[1], t);
    KeptCons(u, ws[0], [ws[1]] + t);
    assert [ws[0]] + ([ws[1]] + t) == ws;
  }

  lemma KeptOfFive(u: Tables, ws: seq<string>)
    requires |ws| == 5 && ws[0] != [] && ws[1] != [] && ws[2] != [] && ws[3] != [] && ws[4] != []
    requires !RuleGap(u, ws[0], ws[1]) && !RuleGap(u, ws[1], ws[2]) && !RuleGap(u, ws[2], ws[3])
    requires !RuleGap(u, ws[3], ws[4])
    ensures NonEmptyAll(ws) && Kept(u, ws)
  {
    KeptOfFour(u, ws[1..]);
    KeptCons(u, ws[0], ws[1..]);
    assert [ws[0]] + ws[1..] == ws;
  }

  lemma KeptOfSix(u: Tables, ws: seq<string>)
    requires |ws| == 6 && ws[0] != [] && ws[1] != [] && ws[2] != [] && ws[3] != [] && ws[4] != []
    requires ws[5] != []
    requires !RuleGap(u, ws[0], ws[1]) && !RuleGap(u, ws[1], ws[2]) && !RuleGap(u, ws[2], ws[3])
    requires !RuleGap(u, ws[3], ws[4]) && !RuleGap(u, ws[4], ws[5])
    ensures NonEmptyAll(ws) && Kept(u, ws)
  {
    KeptOfFive(u, ws[1..]);
    KeptCons(u, ws[0], ws[1..]);
    assert [ws[0]] + ws[1..] == ws;
  }

  /** The five `.word` tokens of the last case are protected by the lexicon. */
  lemma ProtectedNet(u: Tables, w: string)
    requires Valid(u) && w == ".NET,"
    ensures IsProtected(u, w)
  {
    assert AsciiLowercase("NET") == "net";
    ProtectedByLexicon(u, w, "NET", ",");
  }

  lemma ProtectedGitignore(u: Tables, w: string)
    requires Valid(u) && w == ".gitignore"
    ensures IsProtected(u, w)
  {
    LowercaseOfLower("gitignore");
    ProtectedByLexicon(u, w, "gitignore", "");
  }

  lemma ProtectedTravis(u: Tables, w: string)
    requires Valid(u) && w == ".travis.yml"
    ensures IsProtected(u, w)
  {
    LowercaseOfLower("travis");
    ProtectedByLexicon(u, w, "travis", ".yml");
  }

  lemma ProtectedDk(u: Tables, w: string)
    requires Valid(u) && w == ".dk"
    ensures IsProtected(u, w)
  {
    LowercaseOfLower("dk");
    ProtectedByLexicon(u, w, "dk", "");
  }

  lemma ProtectedCom(u: Tables, w: string)
    requires Valid(u) && w == ".com"
    ensures IsProtected(u, w)
  {
    LowercaseOfLower("com");
    ProtectedByLexicon(u, w, "com", "");
  }
}
