/**
  `split_sentence` and `split_by_words` (html_parsing_tools/src/text_nodes.rs): cut a
  string at the matches of `SENTENCE_SPLIT_RE` (`|`, a Zs character followed by `-`,
  or `-` followed by a Zs character), trim the parts, drop the empty ones and, when a
  stop-word set is given, split each part further at its stop words.
 */
module SentenceSplitter {
  import opened Unicode
  import opened Strings
  import opened Options

  // ---------------------------------------------------------------------------
  // The split pattern, as a scanner.

  /** Length of the match of `\||\p{Zs}\-|\-\p{Zs}` that starts at `i`, or 0. The
      alternatives are tried in order. */
  function DelimiterAt(s: string, i: nat): (n: nat)
    requires i < |s|
    ensures n <= 2 && i + n <= |s|
  {
    if s[i] == '|' then 1
    else if IsSpaceSeparator(s[i]) && i + 1 < |s| && s[i + 1] == '-' then 2
    else if s[i] == '-' && i + 1 < |s| && IsSpaceSeparator(s[i + 1]) then 2
    else 0
  }

  /** No match of the split pattern starts anywhere in `s`. */
  predicate NoDelimiter(s: string) {
    forall i :: 0 <= i < |s| ==> DelimiterAt(s, i) == 0
  }

  /** `Regex::split` from position `i`, the current part having started at `start`:
      the parts between the leftmost non-overlapping matches, empty ones included. */
  function SplitFrom(s: string, start: nat, i: nat): seq<string>
    requires start <= i <= |s|
    decreases |s| - i
  {
    if i == |s| then [s[start..]]
    else
      var d := DelimiterAt(s, i);
      if d == 0 then SplitFrom(s, start, i + 1)
      else [s[start..i]] + SplitFrom(s, i + d, i + d)
  }

  /** The matched delimiters, in the same scan. */
  function MatchesFrom(s: string, i: nat): seq<string>
    requires i <= |s|
    decreases |s| - i
  {
    if i == |s| then []
    else
      var d := DelimiterAt(s, i);
      if d == 0 then MatchesFrom(s, i + 1)
      else [s[i..i + d]] + MatchesFrom(s, i + d)
  }

  /** `SENTENCE_SPLIT_RE.split(s)`. */
  function SplitParts(s: string): seq<string> {
    SplitFrom(s, 0, 0)
  }

  function Delimiters(s: string): seq<string> {
    MatchesFrom(s, 0)
  }

  /** Parts and delimiters interleaved: `p0 + d0 + p1 + d1 + ... + pn`. */
  function Weave(parts: seq<string>, delims: seq<string>): string
    requires |parts| == |delims| + 1
  {
    if delims == [] then parts[0]
    else parts[0] + delims[0] + Weave(parts[1..], delims[1..])
  }

  // ---------------------------------------------------------------------------
  // `split_by_words`.

  /** The loop state: `result` and `temp`. */
  datatype Grouping = Grouping(done: seq<string>, temp: seq<string>)

  predicate IsStopWord(u: Tables, stop: set<string>, w: string) {
    u.lowercase(w) in stop
  }

  function GroupStep(u: Tables, stop: set<string>, g: Grouping, w: string): Grouping {
    if IsStopWord(u, stop, w) then
      if g.temp != [] then Grouping(g.done + [Join(g.temp, " ")], []) else g
    else g.(temp := g.temp + [w])
  }

  function GroupFrom(u: Tables, stop: set<string>, g: Grouping, ws: seq<string>): Grouping
    decreases |ws|
  {
    if ws == [] then g else GroupFrom(u, stop, GroupStep(u, stop, g, ws[0]), ws[1..])
  }

  function Flush(g: Grouping): seq<string> {
    if g.temp == [] then g.done else g.done + [Join(g.temp, " ")]
  }

  /** What `split_by_words` returns. */
  function WordGroups(u: Tables, s: string, stop: set<string>): seq<string> {
    Flush(GroupFrom(u, stop, Grouping([], []), SplitWhitespace(s)))
  }

  method SplitByWords(u: Tables, sentence: string, splitWords: set<string>)
    returns (result: seq<string>)
    ensures result == WordGroups(u, sentence, splitWords)
  {
    result := [];
    var temp: seq<string> := [];
    var words := SplitWhitespace(sentence);
    for i := 0 to |words|
      invariant GroupFrom(u, splitWords, Grouping(result, temp), words[i..])
             == GroupFrom(u, splitWords, Grouping([], []), words)
    {
      assert words[i..][1..] == words[i + 1..];
      var word := words[i];
      if u.lowercase(word) in splitWords {
        if temp != [] {
          result := result + [Join(temp, " ")];
          temp := [];
        }
        continue;
      }
      temp := temp + [word];
    }
    assert words[|words|..] == [];
    if temp != [] {
      result := result + [Join(temp, " ")];
    }
  }

  // ---------------------------------------------------------------------------
  // `split_sentence`.

  /** What one part contributes. */
  function KeepPart(u: Tables, part: string, splitWords: Option<set<string>>): seq<string> {
    var t := Trim(part);
    if t == "" then []
    else match splitWords
      case None => [t]
      case Some(stop) => WordGroups(u, t, stop)
  }

  function KeepParts(u: Tables, parts: seq<string>, splitWords: Option<set<string>>): seq<string> {
    if parts == [] then []
    else KeepParts(u, parts[..|parts| - 1], splitWords) + KeepPart(u, parts[|parts| - 1], splitWords)
  }

  /** What `split_sentence` with `SENTENCE_SPLIT_RE` returns. */
  function Sentences(u: Tables, s: string, splitWords: Option<set<string>>): seq<string> {
    KeepParts(u, SplitParts(s), splitWords)
  }

  method SplitSentence(u: Tables, sentence: string, splitWords: Option<set<string>>)
    returns (result: seq<string>)
    ensures result == Sentences(u, sentence, splitWords)
  {
    result := [];
    var parts := SplitParts(sentence);
    for i := 0 to |parts|
      invariant result == KeepParts(u, parts[..i], splitWords)
    {
      KeepPartsSnoc(u, parts, i, splitWords);
      var more := KeepOne(u, parts[i], splitWords);
      result := result + more;
    }
    assert parts[..|parts|] == parts;
  }

  /** The body of the loop of `split_sentence`, for one part. */
  method KeepOne(u: Tables, sentence: string, splitWords: Option<set<string>>)
    returns (more: seq<string>)
    ensures more == KeepPart(u, sentence, splitWords)
  {
    var part := Trim(sentence);
    if part == "" {
      return [];
    }
    if splitWords.Some? {
      more := SplitByWords(u, part, splitWords.value);
    } else {
      more := [part];
    }
  }

  lemma KeepPartsSnoc(u: Tables, parts: seq<string>, i: nat, splitWords: Option<set<string>>)
    requires i < |parts|
    ensures KeepParts(u, parts[..i + 1], splitWords)
         == KeepParts(u, parts[..i], splitWords) + KeepPart(u, parts[i], splitWords)
  {
    assert parts[..i + 1][..i] == parts[..i];
  }

  // ---------------------------------------------------------------------------
  // Properties of the split.

  lemma {:induction false} SplitFromWeave(s: string, start: nat, i: nat)
    requires start <= i <= |s|
    requires forall j :: start <= j < i ==> DelimiterAt(s, j) == 0
    ensures |SplitFrom(s, start, i)| == |MatchesFrom(s, i)| + 1
    ensures Weave(SplitFrom(s, start, i), MatchesFrom(s, i)) == s[start..]
    decreases |s| - i
  {
    if i < |s| {
      var d := DelimiterAt(s, i);
      if d == 0 {
        SplitFromWeave(s, start, i + 1);
      } else {
        SplitFromWeave(s, i + d, i + d);
        WeaveAtDelimiter(s, start, i, d);
      }
    }
  }

  /** The step of `SplitFromWeave` at a match. */
  lemma WeaveAtDelimiter(s: string, start: nat, i: nat, d: nat)
    requires start <= i < |s| && d == DelimiterAt(s, i) && d != 0
    requires |SplitFrom(s, i + d, i + d)| == |MatchesFrom(s, i + d)| + 1
    requires Weave(SplitFrom(s, i + d, i + d), MatchesFrom(s, i + d)) == s[i + d..]
    ensures |SplitFrom(s, start, i)| == |MatchesFrom(s, i)| + 1
    ensures Weave(SplitFrom(s, start, i), MatchesFrom(s, i)) == s[start..]
  {
    var ps := SplitFrom(s, i + d, i + d);
    var ds := MatchesFrom(s, i + d);
    var p, m := s[start..i], s[i..i + d];
    assert SplitFrom(s, start, i) == [p] + ps;
    assert MatchesFrom(s, i) == [m] + ds;
    calc {
      Weave([p] + ps, [m] + ds);
      { WeaveCons(p, m, ps, ds); }
      p + m + s[i + d..];
      { SliceSplit(s, start, i, i + d); }
      s[start..];
    }
  }

  lemma SliceSplit(s: string, a: nat, b: nat, c: nat)
    requires a <= b <= c <= |s|
    ensures s[a..b] + s[b..c] + s[c..] == s[a..]
  {
  }

  lemma WeaveCons(p: string, d: string, ps: seq<string>, ds: seq<string>)
    requires |ps| == |ds| + 1
    ensures Weave([p] + ps, [d] + ds) == p + d + Weave(ps, ds)
  {
    assert ([p] + ps)[1..] == ps;
    assert ([d] + ds)[1..] == ds;
  }

  /** Round trip: the parts with the matched delimiters between them give back the input,
      and every delimiter is one of the three shapes of the pattern. */
  lemma SplitRoundTrip(s: string)
    ensures |SplitParts(s)| == |Delimiters(s)| + 1
    ensures Weave(SplitParts(s), Delimiters(s)) == s
  {
    SplitFromWeave(s, 0, 0);
  }

  lemma {:induction false} SplitFromNoDelimiter(s: string, start: nat, i: nat)
    requires start <= i <= |s|
    requires forall j :: start <= j < i ==> DelimiterAt(s, j) == 0
    ensures forall k :: 0 <= k < |SplitFrom(s, start, i)| ==> NoDelimiter(SplitFrom(s, start, i)[k])
    decreases |s| - i
  {
    if i == |s| {
      PieceNoDelimiter(s, start, i);
      assert s[start..i] == s[start..];
    } else {
      var d := DelimiterAt(s, i);
      if d == 0 {
        SplitFromNoDelimiter(s, start, i + 1);
      } else {
        PieceNoDelimiter(s, start, i);
        SplitFromNoDelimiter(s, i + d, i + d);
      }
    }
  }

  /** A stretch of `s` in which no match starts has no match of its own. */
  lemma PieceNoDelimiter(s: string, start: nat, i: nat)
    requires start <= i <= |s|
    requires forall j :: start <= j < i ==> DelimiterAt(s, j) == 0
    ensures NoDelimiter(s[start..i])
  {
    var p := s[start..i];
    forall j | 0 <= j < |p|
      ensures DelimiterAt(p, j) == 0
    {
      assert p[j] == s[start + j];
      assert DelimiterAt(s, start + j) == 0;
      if j + 1 < |p| {
        assert p[j + 1] == s[start + j + 1];
      }
    }
  }

  /** A part of a string without a match is one too. */
  lemma SubstringNoDelimiter(p: string, a: nat, b: nat)
    requires a <= b <= |p| && NoDelimiter(p)
    ensures NoDelimiter(p[a..b])
  {
    var t := p[a..b];
    forall j | 0 <= j < |t|
      ensures DelimiterAt(t, j) == 0
    {
      assert t[j] == p[a + j];
      assert DelimiterAt(p, a + j) == 0;
      if j + 1 < |t| {
        assert t[j + 1] == p[a + j + 1];
      }
    }
  }

  /** Every part is free of the pattern (in particular of `|`). */
  lemma SplitPartsNoDelimiter(s: string)
    ensures forall k :: 0 <= k < |SplitParts(s)| ==> NoDelimiter(SplitParts(s)[k])
  {
    SplitFromNoDelimiter(s, 0, 0);
  }

  lemma {:induction false} SplitFromWhole(s: string, start: nat, i: nat)
    requires start <= i <= |s| && NoDelimiter(s)
    ensures SplitFrom(s, start, i) == [s[start..]]
    decreases |s| - i
  {
    if i < |s| {
      SplitFromWhole(s, start, i + 1);
    }
  }

  /** A string without a match is a single part. */
  lemma SplitPartsOfUndelimited(s: string)
    requires NoDelimiter(s)
    ensures SplitParts(s) == [s]
  {
    SplitFromWhole(s, 0, 0);
    assert s[0..] == s;
  }

  lemma NoDelimiterNoBar(s: string)
    requires NoDelimiter(s)
    ensures '|' !in s
  {
    forall i | 0 <= i < |s|
      ensures s[i] != '|'
    {
      assert DelimiterAt(s, i) == 0;
    }
  }

  // ---------------------------------------------------------------------------
  // Properties of `split_by_words`.

  /** The words of a list of strings, in order. */
  function WordsOf(parts: seq<string>): seq<string> {
    if parts == [] then [] else WordsOf(parts[..|parts| - 1]) + SplitWhitespace(parts[|parts| - 1])
  }

  /** The words that are not stop words, in order. */
  function NonStop(u: Tables, stop: set<string>, ws: seq<string>): seq<string> {
    if ws == [] then []
    else (if IsStopWord(u, stop, ws[0]) then [] else [ws[0]]) + NonStop(u, stop, ws[1..])
  }

  lemma WordsOfAppend(parts: seq<string>, e: string)
    ensures WordsOf(parts + [e]) == WordsOf(parts) + SplitWhitespace(e)
  {
    assert (parts + [e])[..|parts|] == parts;
  }

  /** A group is a non-empty, single-spaced string of non-stop words. */
  predicate CleanGroup(u: Tables, stop: set<string>, e: string) {
    && e != ""
    && SingleSpaced(e)
    && forall k :: 0 <= k < |SplitWhitespace(e)| ==> !IsStopWord(u, stop, SplitWhitespace(e)[k])
  }

  /** What the loop keeps true: every finished group is clean, and the pending words are
      words that are not stop words. */
  predicate GroupingInvariant(u: Tables, stop: set<string>, g: Grouping) {
    && (forall k :: 0 <= k < |g.done| ==> CleanGroup(u, stop, g.done[k]))
    && AllWords(g.temp)
    && (forall k :: 0 <= k < |g.temp| ==> !IsStopWord(u, stop, g.temp[k]))
  }

  lemma PendingGroupClean(u: Tables, stop: set<string>, temp: seq<string>)
    requires temp != [] && AllWords(temp)
    requires forall k :: 0 <= k < |temp| ==> !IsStopWord(u, stop, temp[k])
    ensures CleanGroup(u, stop, Join(temp, " "))
    ensures SplitWhitespace(Join(temp, " ")) == temp
  {
    SplitJoinWords(temp);
    JoinWordsSingleSpaced(temp);
    JoinFirst(temp);
  }

  lemma {:induction false} GroupFromInvariant(u: Tables, stop: set<string>, g: Grouping, ws: seq<string>)
    requires GroupingInvariant(u, stop, g) && AllWords(ws)
    ensures GroupingInvariant(u, stop, GroupFrom(u, stop, g, ws))
    decreases |ws|
  {
    if ws != [] {
      var g' := GroupStep(u, stop, g, ws[0]);
      if IsStopWord(u, stop, ws[0]) && g.temp != [] {
        PendingGroupClean(u, stop, g.temp);
      }
      assert GroupingInvariant(u, stop, g');
      GroupFromInvariant(u, stop, g', ws[1..]);
    }
  }

  lemma FlushClean(u: Tables, stop: set<string>, g: Grouping)
    requires GroupingInvariant(u, stop, g)
    ensures forall k :: 0 <= k < |Flush(g)| ==> CleanGroup(u, stop, Flush(g)[k])
  {
    if g.temp != [] {
      PendingGroupClean(u, stop, g.temp);
    }
  }

  lemma FlushWords(g: Grouping)
    requires AllWords(g.temp)
    ensures WordsOf(Flush(g)) == WordsOf(g.done) + g.temp
  {
    if g.temp != [] {
      SplitJoinWords(g.temp);
      WordsOfAppend(g.done, Join(g.temp, " "));
    }
  }

  /** One step of the loop adds the word, unless it is a stop word, to the words of the
      flushed state. */
  lemma GroupStepWords(u: Tables, stop: set<string>, g: Grouping, w: string)
    requires AllWords(g.temp) && IsWord(w)
    ensures AllWords(GroupStep(u, stop, g, w).temp)
    ensures WordsOf(Flush(GroupStep(u, stop, g, w)))
         == WordsOf(Flush(g)) + (if IsStopWord(u, stop, w) then [] else [w])
  {
    var g' := GroupStep(u, stop, g, w);
    FlushWords(g);
    if IsStopWord(u, stop, w) {
      if g.temp != [] {
        SplitJoinWords(g.temp);
        WordsOfAppend(g.done, Join(g.temp, " "));
        assert WordsOf(Flush(g')) == WordsOf(g'.done);
      }
    } else {
      assert AllWords(g'.temp);
      FlushWords(g');
    }
  }

  lemma {:induction false} GroupFromWords(u: Tables, stop: set<string>, g: Grouping, ws: seq<string>)
    requires AllWords(g.temp) && AllWords(ws)
    ensures WordsOf(Flush(GroupFrom(u, stop, g, ws))) == WordsOf(Flush(g)) + NonStop(u, stop, ws)
    decreases |ws|
  {
    if ws != [] {
      var w, rest := ws[0], ws[1..];
      assert IsWord(w);
      assert AllWords(rest) by {
        forall k | 0 <= k < |rest| ensures IsWord(rest[k]) { assert rest[k] == ws[k + 1]; }
      }
      var g' := GroupStep(u, stop, g, w);
      var head := if IsStopWord(u, stop, w) then [] else [w];
      var a, n := WordsOf(Flush(g)), NonStop(u, stop, rest);
      calc {
        WordsOf(Flush(GroupFrom(u, stop, g, ws)));
        WordsOf(Flush(GroupFrom(u, stop, g', rest)));
        { GroupStepWords(u, stop, g, w); GroupFromWords(u, stop, g', rest); }
        WordsOf(Flush(g')) + n;
        { GroupStepWords(u, stop, g, w); }
        (a + head) + n;
        a + (head + n);
        a + NonStop(u, stop, ws);
      }
    }
  }

  /** `split_by_words` output: non-empty single-spaced groups without stop words whose
      words, read in order, are exactly the non-stop words of the input. */
  lemma WordGroupsProperties(u: Tables, s: string, stop: set<string>)
    ensures forall k :: 0 <= k < |WordGroups(u, s, stop)| ==> CleanGroup(u, stop, WordGroups(u, s, stop)[k])
    ensures WordsOf(WordGroups(u, s, stop)) == NonStop(u, stop, SplitWhitespace(s))
  {
    var g0 := Grouping([], []);
    GroupFromInvariant(u, stop, g0, SplitWhitespace(s));
    FlushClean(u, stop, GroupFrom(u, stop, g0, SplitWhitespace(s)));
    GroupFromWords(u, stop, g0, SplitWhitespace(s));
    FlushWords(g0);
  }

  // ---------------------------------------------------------------------------
  // Properties of `split_sentence`.

  /** An output string of `split_sentence`: non-empty, trimmed, without `|`. */
  predicate CleanPart(s: string) {
    s != "" && IsTrimmed(s) && '|' !in s
  }

  lemma KeepPartClean(u: Tables, part: string, splitWords: Option<set<string>>)
    requires NoDelimiter(part)
    ensures forall k :: 0 <= k < |KeepPart(u, part, splitWords)| ==> CleanPart(KeepPart(u, part, splitWords)[k])
    ensures splitWords.None? ==> forall k :: 0 <= k < |KeepPart(u, part, splitWords)| ==> NoDelimiter(KeepPart(u, part, splitWords)[k])
  {
    var t := Trim(part);
    TrimTrimmed(part);
    TrimNoDelimiter(part);
    NoDelimiterNoBar(t);
    if t != "" && splitWords.Some? {
      WordGroupsClean(u, t, splitWords.value);
    }
  }

  lemma TrimNoDelimiter(s: string)
    requires NoDelimiter(s)
    ensures NoDelimiter(Trim(s))
  {
    TrimSlice(s);
    SubstringNoDelimiter(s, TrimOffset(s), TrimOffset(s) + |Trim(s)|);
  }

  /** The groups of a string without `|` are clean. */
  lemma WordGroupsClean(u: Tables, t: string, stop: set<string>)
    requires '|' !in t
    ensures forall k :: 0 <= k < |WordGroups(u, t, stop)| ==> CleanPart(WordGroups(u, t, stop)[k])
  {
    WordGroupsProperties(u, t, stop);
    var out := WordGroups(u, t, stop);
    forall k | 0 <= k < |out|
      ensures CleanPart(out[k])
    {
      SingleSpacedIsTrimmed(out[k]);
      NoBarInGroup(u, t, stop, out, k);
    }
  }

  /** A group of `split_by_words` has no `|` when its input has none. */
  lemma NoBarInGroup(u: Tables, t: string, stop: set<string>, out: seq<string>, k: nat)
    requires '|' !in t && out == WordGroups(u, t, stop) && k < |out|
    ensures '|' !in out[k]
  {
    WordGroupsProperties(u, t, stop);
    var e := out[k];
    SingleSpacedJoinSplit(e);
    if '|' in e {
      var i :| 0 <= i < |e| && e[i] == '|';
      var ws := SplitWhitespace(e);
      assert AllWords(ws);
      JoinCharFromPart(ws, i);
      var m, j :| 0 <= m < |ws| && 0 <= j < |ws[m]| && ws[m][j] == '|';
      WordsOfHasWord(out, k, m);
      NonStopOfSplit(u, stop, t, ws[m]);
      SplitWhitespaceChars(t, ws[m], j);
    }
  }

  lemma WordsOfHasWord(out: seq<string>, k: nat, m: nat)
    requires k < |out| && m < |SplitWhitespace(out[k])|
    ensures SplitWhitespace(out[k])[m] in WordsOf(out)
  {
    if k == |out| - 1 {
      assert WordsOf(out) == WordsOf(out[..|out| - 1]) + SplitWhitespace(out[k]);
    } else {
      WordsOfHasWord(out[..|out| - 1], k, m);
    }
  }

  lemma NonStopOfSplit(u: Tables, stop: set<string>, t: string, w: string)
    requires w in NonStop(u, stop, SplitWhitespace(t))
    ensures w in SplitWhitespace(t)
  {
    NonStopSubset(u, stop, SplitWhitespace(t));
  }

  lemma NonStopSubset(u: Tables, stop: set<string>, ws: seq<string>)
    ensures forall w :: w in NonStop(u, stop, ws) ==> w in ws
  {
    if ws != [] {
      NonStopSubset(u, stop, ws[1..]);
    }
  }

  lemma {:induction false} KeepPartsClean(u: Tables, parts: seq<string>, splitWords: Option<set<string>>)
    requires forall k :: 0 <= k < |parts| ==> NoDelimiter(parts[k])
    ensures forall k :: 0 <= k < |KeepParts(u, parts, splitWords)| ==> CleanPart(KeepParts(u, parts, splitWords)[k])
    ensures splitWords.None? ==> forall k :: 0 <= k < |KeepParts(u, parts, splitWords)| ==> NoDelimiter(KeepParts(u, parts, splitWords)[k])
  {
    if parts != [] {
      KeepPartsClean(u, parts[..|parts| - 1], splitWords);
      KeepPartClean(u, parts[|parts| - 1], splitWords);
    }
  }

  /** Every string `split_sentence` returns is non-empty, trimmed and free of `|`; without
      stop words it is free of every match of the split pattern. */
  lemma SentencesClean(u: Tables, s: string, splitWords: Option<set<string>>)
    ensures forall k :: 0 <= k < |Sentences(u, s, splitWords)| ==> CleanPart(Sentences(u, s, splitWords)[k])
    ensures splitWords.None? ==> forall k :: 0 <= k < |Sentences(u, s, splitWords)| ==> NoDelimiter(Sentences(u, s, splitWords)[k])
  {
    SplitPartsNoDelimiter(s);
    KeepPartsClean(u, SplitParts(s), splitWords);
  }

  /** A string without a match gives exactly its trim, or nothing when that is empty. */
  lemma SentencesOfUndelimited(u: Tables, s: string)
    requires NoDelimiter(s)
    ensures Sentences(u, s, None) == if Trim(s) == "" then [] else [Trim(s)]
  {
    SplitPartsOfUndelimited(s);
    assert [s][..0] == [];
    assert KeepParts(u, [s], None) == KeepParts(u, [], None) + KeepPart(u, s, None);
  }

  /** The words of the parts that are not stop words, part by part, in order. */
  function NonStopParts(u: Tables, stop: set<string>, parts: seq<string>): seq<string> {
    if parts == [] then []
    else NonStopParts(u, stop, parts[..|parts| - 1]) + NonStop(u, stop, SplitWhitespace(parts[|parts| - 1]))
  }

  lemma {:induction false} WordsOfConcat(a: seq<string>, b: seq<string>)
    ensures WordsOf(a + b) == WordsOf(a) + WordsOf(b)
    decreases |b|
  {
    if b == [] {
      assert a + b == a;
    } else {
      var b', x := b[..|b| - 1], b[|b| - 1];
      var w := SplitWhitespace(x);
      calc {
        WordsOf(a + b);
        { assert (a + b)[..|a + b| - 1] == a + b' && (a + b)[|a + b| - 1] == x; }
        WordsOf(a + b') + w;
        { WordsOfConcat(a, b'); }
        (WordsOf(a) + WordsOf(b')) + w;
        { AppendAssoc(WordsOf(a), WordsOf(b'), w); }
        WordsOf(a) + (WordsOf(b') + w);
      }
    }
  }

  lemma {:induction false} SplitWhitespaceOfTrimStart(s: string)
    ensures SplitWhitespace(TrimStart(s)) == SplitWhitespace(s)
  {
    if s != [] && IsWhitespace(s[0]) {
      SplitWhitespaceOfTrimStart(s[1..]);
    }
  }

  lemma {:induction false} SplitWhitespaceDropLast(s: string)
    requires s != [] && IsWhitespace(Last(s))
    ensures SplitWhitespace(s[..|s| - 1]) == SplitWhitespace(s)
    decreases |s|
  {
    var s' := s[..|s| - 1];
    if |s| == 1 {
    } else if IsWhitespace(s[0]) {
      var t := s[1..];
      assert s'[0] == s[0] && s'[1..] == t[..|t| - 1];
      assert Last(t) == Last(s);
      SplitWhitespaceDropLast(t);
    } else {
      var n := WordLen(s);
      var t := s[n..];
      assert n < |s|;
      assert Last(t) == Last(s);
      assert SplitWhitespace(s') == [s[..n]] + SplitWhitespace(t[..|t| - 1]) by {
        WordLenOfPrefix(s, |s| - 1);
        assert s'[..n] == s[..n];
        assert s'[n..] == t[..|t| - 1];
      }
      SplitWhitespaceDropLast(t);
    }
  }

  lemma {:induction false} WordLenOfPrefix(s: string, m: nat)
    requires s != [] && !IsWhitespace(s[0]) && WordLen(s) <= m <= |s|
    ensures s[..m] != [] && WordLen(s[..m]) == WordLen(s)
  {
    if WordLen(s) > 1 {
      assert s[..m][1..] == s[1..][..m - 1];
      WordLenOfPrefix(s[1..], m - 1);
    }
  }

  lemma {:induction false} SplitWhitespaceOfTrimEnd(s: string)
    ensures SplitWhitespace(TrimEnd(s)) == SplitWhitespace(s)
    decreases |s|
  {
    if s != [] && IsWhitespace(Last(s)) {
      SplitWhitespaceDropLast(s);
      SplitWhitespaceOfTrimEnd(s[..|s| - 1]);
    }
  }

  /** `str::trim` does not change the words. */
  lemma SplitWhitespaceOfTrim(s: string)
    ensures SplitWhitespace(Trim(s)) == SplitWhitespace(s)
  {
    SplitWhitespaceOfTrimStart(s);
    SplitWhitespaceOfTrimEnd(TrimStart(s));
  }

  lemma {:induction false} KeepPartsWords(u: Tables, parts: seq<string>, stop: set<string>)
    ensures WordsOf(KeepParts(u, parts, Some(stop))) == NonStopParts(u, stop, parts)
  {
    if parts != [] {
      var init, p := parts[..|parts| - 1], parts[|parts| - 1];
      KeepPartsWords(u, init, stop);
      WordsOfConcat(KeepParts(u, init, Some(stop)), KeepPart(u, p, Some(stop)));
      SplitWhitespaceOfTrim(p);
      TrimProperties(p);
      if Trim(p) != "" {
        WordGroupsProperties(u, Trim(p), stop);
      } else {
        assert SplitWhitespace(Trim(p)) == [];
      }
    }
  }

  /** With stop words, the words of the output, in order, are the non-stop words of the
      parts, in order. */
  lemma SentencesWords(u: Tables, s: string, stop: set<string>)
    ensures WordsOf(Sentences(u, s, Some(stop))) == NonStopParts(u, stop, SplitParts(s))
  {
    KeepPartsWords(u, SplitParts(s), stop);
  }

  // ---------------------------------------------------------------------------
  // The first case of the unit test of `split_sentence` (text_nodes.rs:336-337).

  /** Positions without a match do not change the split. */
  lemma {:induction false} SplitFromSkip(s: string, start: nat, i: nat, k: nat)
    requires start <= i <= k <= |s|
    requires forall j :: i <= j < k ==> DelimiterAt(s, j) == 0
    ensures SplitFrom(s, start, i) == SplitFrom(s, start, k)
    decreases k - i
  {
    if i < k {
      SplitFromSkip(s, start, i + 1, k);
    }
  }

  /** `"about | hello | world"` is cut at its two bars into three parts. */
  lemma SplitPartsOfBars()
    ensures SplitParts("about | hello | world") == ["about ", " hello ", " world"]
  {
    var s := "about | hello | world";
    BarsDelimiters(s);
    SplitFromSkip(s, 0, 0, 6);
    SplitFromSkip(s, 7, 7, 14);
    SplitFromSkip(s, 15, 15, 21);
    assert SplitFrom(s, 15, 21) == [s[15..]];
    assert SplitFrom(s, 7, 14) == [s[7..14]] + SplitFrom(s, 15, 15);
    assert SplitFrom(s, 0, 6) == [s[0..6]] + SplitFrom(s, 7, 7);
  }

  /** Where the delimiters of `"about | hello | world"` are. */
  lemma BarsDelimiters(s: string)
    requires s == "about | hello | world"
    ensures |s| == 21 && DelimiterAt(s, 6) == 1 && DelimiterAt(s, 14) == 1
    ensures forall j :: 0 <= j < 6 ==> DelimiterAt(s, j) == 0
    ensures forall j :: 7 <= j < 14 ==> DelimiterAt(s, j) == 0
    ensures forall j :: 15 <= j < 21 ==> DelimiterAt(s, j) == 0
    ensures s[0..6] == "about " && s[7..14] == " hello " && s[15..] == " world"
  {
  }

  /** `split_sentence("about | hello | world", None)` gives `["about", "hello", "world"]`. */
  lemma SentencesOfBars(u: Tables)
    ensures Sentences(u, "about | hello | world", None) == ["about", "hello", "world"]
  {
    SplitPartsOfBars();
    KeepPartsThree(u, "about ", " hello ", " world");
    TrimAbout();
    KeepPartOfTrim(u, "about ", "about");
    TrimHello();
    KeepPartOfTrim(u, " hello ", "hello");
    TrimWorld();
    KeepPartOfTrim(u, " world", "world");
  }

  lemma KeepPartsThree(u: Tables, a: string, b: string, c: string)
    ensures KeepParts(u, [a, b, c], None) == KeepPart(u, a, None) + KeepPart(u, b, None) + KeepPart(u, c, None)
  {
    var parts := [a, b, c];
    assert parts[..2] == [a, b] && [a, b][..1] == [a] && [a][..0] == parts[..0];
    assert KeepParts(u, [a], None) == KeepParts(u, [], None) + KeepPart(u, a, None);
    assert KeepParts(u, [a, b], None) == KeepParts(u, [a], None) + KeepPart(u, b, None);
  }

  lemma KeepPartOfTrim(u: Tables, part: string, t: string)
    requires Trim(part) == t && t != ""
    ensures KeepPart(u, part, None) == [t]
  {
  }

  lemma TrimAbout()
    ensures Trim("about ") == "about"
  {
    assert "" + "about" + " " == "about ";
    TrimPadded("", "about", " ");
  }

  lemma TrimHello()
    ensures Trim(" hello ") == "hello"
  {
    assert " " + "hello" + " " == " hello ";
    TrimPadded(" ", "hello", " ");
  }

  lemma TrimWorld()
    ensures Trim(" world") == "world"
  {
    assert " " + "world" + "" == " world";
    TrimPadded(" ", "world", "");
  }
}
