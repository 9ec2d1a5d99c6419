/**
  `regroup_node` (html_parsing_tools/src/text_nodes.rs): the lines of one text node are cut
  into chains of lines that are tied to each other (the text runs on across the line
  boundary); every chain is joined with `join_sentences` and then split into sentences.
 */
module Regrouper {
  import opened Unicode
  import opened Strings
  import opened Options
  import opened Punctuation
  import opened SentenceSplitter
  import opened SentenceJoiner

  /** The tie test on the last character of one line and the first of the next: a
      whitespace character, an open-like character of the wider set or a close-like
      character at the boundary. */
  predicate TiedAt(u: Tables, l: char, r: char) {
    || IsWhitespace(l)
    || IsWhitespace(r)
    || IsOpenCategory(u.category(l))
    || IsCloseCategory(u.category(r))
    || IsOpenCharExtended(l)
    || IsCloseChar(r)
  }

  /** Two consecutive lines belong together. */
  predicate Tied(u: Tables, left: string, right: string)
    requires left != [] && right != []
  {
    TiedAt(u, Last(left), right[0])
  }

  function LastLine(c: seq<string>): string
    requires c != []
  {
    c[|c| - 1]
  }

  /** Every chain has a line, and every line a character. */
  predicate WellFormed(cs: seq<seq<string>>) {
    forall k :: 0 <= k < |cs| ==> cs[k] != [] && NonEmptyAll(cs[k])
  }

  /** The chains of a node, in order, built as the loop builds them. */
  function Chains(u: Tables, lines: seq<string>): (cs: seq<seq<string>>)
    requires lines != [] && NonEmptyAll(lines)
    ensures cs != [] && WellFormed(cs)
    ensures LastLine(cs[|cs| - 1]) == LastLine(lines)
  {
    if |lines| == 1 then [[lines[0]]]
    else
      var init := lines[..|lines| - 1];
      var prev := Chains(u, init);
      var x := lines[|lines| - 1];
      if Tied(u, init[|init| - 1], x) then prev[..|prev| - 1] + [prev[|prev| - 1] + [x]]
      else prev + [[x]]
  }

  /** The sentences of every chain, in order. */
  function ChainSentences(u: Tables, cs: seq<seq<string>>): seq<string> {
    if cs == [] then []
    else ChainSentences(u, cs[..|cs| - 1]) + Sentences(u, Joined(u, cs[|cs| - 1]), None)
  }

  /** What `regroup_node` returns. */
  function Regrouped(u: Tables, lines: seq<string>): seq<string>
    requires lines != [] && NonEmptyAll(lines)
  {
    if |lines| == 1 then Sentences(u, lines[0], None)
    else ChainSentences(u, Chains(u, lines))
  }

  method RegroupNode(u: Tables, node: seq<string>) returns (regrouped: seq<string>)
    requires Valid(u)
    requires node != [] && NonEmptyAll(node)
    ensures regrouped == Regrouped(u, node)
  {
    var length := |node|;
    if length == 1 {
      regrouped := SplitSentence(u, node[0], None);
      return;
    }
    regrouped := [];
    var group := [node[0]];
    ghost var closed: seq<seq<string>> := [];
    assert node[..1] == [node[0]];
    for ix := 1 to length
      invariant Chains(u, node[..ix]) == closed + [group]
      invariant regrouped == ChainSentences(u, closed)
    {
      ChainsAdvance(u, node, ix, closed, group);
      var left := Last(node[ix - 1]);
      var right := node[ix][0];
      var tied := TiedAt(u, left, right);
      assert tied == Tied(u, node[ix - 1], node[ix]);
      if tied {
        group := group + [node[ix]];
      } else {
        var parts := CloseChain(u, group);
        ChainSentencesSnoc(u, closed, group);
        regrouped := regrouped + parts;
        closed := closed + [group];
        group := [node[ix]];
      }
    }
    assert node[..length] == node;
    RegroupedOfChains(u, node, closed, group);
    var parts := CloseChain(u, group);
    regrouped := regrouped + parts;
  }

  /** The output of a node of several lines, from its chains split as the last one and
      those before it. */
  lemma RegroupedOfChains(u: Tables, node: seq<string>, closed: seq<seq<string>>, group: seq<string>)
    requires |node| > 1 && NonEmptyAll(node) && Chains(u, node) == closed + [group]
    ensures Regrouped(u, node) == ChainSentences(u, closed) + Sentences(u, Joined(u, group), None)
  {
    ChainSentencesSnoc(u, closed, group);
  }

  /** `join_sentences` and then `split_sentence` on one chain. */
  method CloseChain(u: Tables, group: seq<string>) returns (parts: seq<string>)
    requires Valid(u)
    ensures parts == Sentences(u, Joined(u, group), None)
  {
    var joined := JoinSentences(u, group);
    parts := SplitSentence(u, joined, None);
  }

  /** The loop's view of `ChainsStep`: the open chain grows, or is closed. */
  lemma ChainsAdvance(u: Tables, lines: seq<string>, i: nat, closed: seq<seq<string>>, group: seq<string>)
    requires 0 < i < |lines| && NonEmptyAll(lines)
    requires Chains(u, lines[..i]) == closed + [group]
    ensures Tied(u, lines[i - 1], lines[i]) ==> Chains(u, lines[..i + 1]) == closed + [group + [lines[i]]]
    ensures !Tied(u, lines[i - 1], lines[i]) ==> Chains(u, lines[..i + 1]) == closed + [group] + [[lines[i]]]
  {
    ChainsStep(u, lines, i);
    var prev := closed + [group];
    assert prev[..|prev| - 1] == closed && prev[|prev| - 1] == group;
  }

  /** One more line: it joins the last chain or starts a new one. */
  lemma ChainsStep(u: Tables, lines: seq<string>, i: nat)
    requires 0 < i < |lines| && NonEmptyAll(lines)
    ensures NonEmptyAll(lines[..i]) && NonEmptyAll(lines[..i + 1])
    ensures var prev := Chains(u, lines[..i]);
            Chains(u, lines[..i + 1])
            == if Tied(u, lines[i - 1], lines[i]) then prev[..|prev| - 1] + [prev[|prev| - 1] + [lines[i]]]
               else prev + [[lines[i]]]
  {
    assert lines[..i + 1][..i] == lines[..i];
  }

  lemma ChainSentencesSnoc(u: Tables, cs: seq<seq<string>>, c: seq<string>)
    ensures ChainSentences(u, cs + [c]) == ChainSentences(u, cs) + Sentences(u, Joined(u, c), None)
  {
    assert (cs + [c])[..|cs|] == cs;
  }

  // ---------------------------------------------------------------------------
  // Properties.

  function Flatten(cs: seq<seq<string>>): seq<string> {
    if cs == [] then [] else Flatten(cs[..|cs| - 1]) + cs[|cs| - 1]
  }

  lemma FlattenSnoc(cs: seq<seq<string>>, c: seq<string>)
    ensures Flatten(cs + [c]) == Flatten(cs) + c
  {
    assert (cs + [c])[..|cs|] == cs;
  }

  /** The chains cut the node without losing, repeating or reordering a line. */
  lemma {:induction false} ChainsCover(u: Tables, lines: seq<string>)
    requires lines != [] && NonEmptyAll(lines)
    ensures Flatten(Chains(u, lines)) == lines
  {
    if |lines| == 1 {
      FlattenSnoc([], [lines[0]]);
      assert [] + [[lines[0]]] == [[lines[0]]];
      assert [lines[0]] == lines;
    } else {
      ChainsCover(u, lines[..|lines| - 1]);
      CoverStep(u, lines);
    }
  }

  lemma CoverStep(u: Tables, lines: seq<string>)
    requires |lines| > 1 && NonEmptyAll(lines)
    requires Flatten(Chains(u, lines[..|lines| - 1])) == lines[..|lines| - 1]
    ensures Flatten(Chains(u, lines)) == lines
  {
    var init := lines[..|lines| - 1];
    var x := lines[|lines| - 1];
    assert init + [x] == lines;
    if Tied(u, init[|init| - 1], x) {
      var prev := Chains(u, init);
      var front := prev[..|prev| - 1];
      assert prev == front + [prev[|prev| - 1]];
      CoverTied(front, prev[|prev| - 1], x);
    } else {
      FlattenSnoc(Chains(u, init), [x]);
    }
  }

  /** A line added to the last chain is added to the flattened chains. */
  lemma CoverTied(front: seq<seq<string>>, c: seq<string>, x: string)
    ensures Flatten(front + [c + [x]]) == Flatten(front + [c]) + [x]
  {
    FlattenSnoc(front, c + [x]);
    FlattenSnoc(front, c);
    AppendAssoc(Flatten(front), c, [x]);
  }

  /** Inside a chain every two consecutive lines are tied. */
  predicate TiedWithin(u: Tables, c: seq<string>)
    requires NonEmptyAll(c)
  {
    forall j :: 0 <= j < |c| - 1 ==> Tied(u, c[j], c[j + 1])
  }

  /** Consecutive chains: the last line of one is not tied to the first of the next; and
      inside each chain all consecutive lines are tied. */
  predicate MaximalChains(u: Tables, cs: seq<seq<string>>)
    requires WellFormed(cs)
  {
    && (forall k :: 0 <= k < |cs| ==> TiedWithin(u, cs[k]))
    && (forall k :: 0 <= k < |cs| - 1 ==> !Tied(u, LastLine(cs[k]), cs[k + 1][0]))
  }

  /** The chains are exactly the maximal runs of tied lines. */
  lemma {:induction false} ChainsMaximal(u: Tables, lines: seq<string>)
    requires lines != [] && NonEmptyAll(lines)
    ensures MaximalChains(u, Chains(u, lines))
  {
    if |lines| > 1 {
      var init := lines[..|lines| - 1];
      ChainsMaximal(u, init);
      var prev := Chains(u, init);
      var x := lines[|lines| - 1];
      var cs := Chains(u, lines);
      if Tied(u, init[|init| - 1], x) {
        ExtendLastChain(u, prev, x);
      } else {
        NewChain(u, prev, x);
      }
    }
  }

  lemma ExtendLastChain(u: Tables, prev: seq<seq<string>>, x: string)
    requires prev != [] && WellFormed(prev) && x != []
    requires MaximalChains(u, prev) && Tied(u, LastLine(prev[|prev| - 1]), x)
    ensures WellFormed(prev[..|prev| - 1] + [prev[|prev| - 1] + [x]])
    ensures MaximalChains(u, prev[..|prev| - 1] + [prev[|prev| - 1] + [x]])
  {
    var c := prev[|prev| - 1];
    var c' := c + [x];
    var cs := prev[..|prev| - 1] + [c'];
    assert NonEmptyAll(c');
    assert TiedWithin(u, c');
    forall k | 0 <= k < |cs| ensures cs[k] != [] && NonEmptyAll(cs[k]) && TiedWithin(u, cs[k]) {
      if k < |cs| - 1 { assert cs[k] == prev[k]; }
    }
    forall k | 0 <= k < |cs| - 1 ensures !Tied(u, LastLine(cs[k]), cs[k + 1][0]) {
      assert cs[k] == prev[k];
      if k + 1 < |cs| - 1 { assert cs[k + 1] == prev[k + 1]; }
      else { assert cs[k + 1][0] == c[0]; }
    }
  }

  lemma NewChain(u: Tables, prev: seq<seq<string>>, x: string)
    requires prev != [] && WellFormed(prev) && x != []
    requires MaximalChains(u, prev) && !Tied(u, LastLine(prev[|prev| - 1]), x)
    ensures WellFormed(prev + [[x]])
    ensures MaximalChains(u, prev + [[x]])
  {
    var cs := prev + [[x]];
    forall k | 0 <= k < |cs| ensures cs[k] != [] && NonEmptyAll(cs[k]) && TiedWithin(u, cs[k]) {
      if k < |cs| - 1 { assert cs[k] == prev[k]; }
    }
    forall k | 0 <= k < |cs| - 1 ensures !Tied(u, LastLine(cs[k]), cs[k + 1][0]) {
      assert cs[k] == prev[k];
      if k + 1 < |cs| - 1 { assert cs[k + 1] == prev[k + 1]; }
    }
  }

  lemma {:induction false} ChainSentencesClean(u: Tables, cs: seq<seq<string>>)
    ensures forall k :: 0 <= k < |ChainSentences(u, cs)| ==> CleanPart(ChainSentences(u, cs)[k])
  {
    if cs != [] {
      ChainSentencesClean(u, cs[..|cs| - 1]);
      SentencesClean(u, Joined(u, cs[|cs| - 1]), None);
    }
  }

  /** Every sentence of the regrouped node is non-empty, trimmed and free of `|`. */
  lemma RegroupedClean(u: Tables, lines: seq<string>)
    requires lines != [] && NonEmptyAll(lines)
    ensures forall k :: 0 <= k < |Regrouped(u, lines)| ==> CleanPart(Regrouped(u, lines)[k])
  {
    if |lines| == 1 {
      SentencesClean(u, lines[0], None);
    } else {
      ChainSentencesClean(u, Chains(u, lines));
    }
  }

  /** When every boundary is tied the node is one chain: it is joined as a whole. */
  lemma {:induction false} AllTiedOneChain(u: Tables, lines: seq<string>)
    requires lines != [] && NonEmptyAll(lines)
    requires forall j :: 0 <= j < |lines| - 1 ==> Tied(u, lines[j], lines[j + 1])
    ensures Chains(u, lines) == [lines]
  {
    if |lines| == 1 {
      assert [lines[0]] == lines;
    } else {
      var init := lines[..|lines| - 1];
      AllTiedOneChain(u, init);
      assert init[|init| - 1] == lines[|lines| - 2];
      assert Tied(u, init[|init| - 1], lines[|lines| - 1]);
      assert Chains(u, lines) == [init + [lines[|lines| - 1]]];
      assert init + [lines[|lines| - 1]] == lines;
    }
  }

  lemma AllTiedRegrouped(u: Tables, lines: seq<string>)
    requires |lines| > 1 && NonEmptyAll(lines)
    requires forall j :: 0 <= j < |lines| - 1 ==> Tied(u, lines[j], lines[j + 1])
    ensures Regrouped(u, lines) == Sentences(u, Joined(u, lines), None)
  {
    AllTiedOneChain(u, lines);
    ChainSentencesSnoc(u, [], lines);
    assert [] + [lines] == [lines];
  }

  /** When no boundary is tied every line is a chain of its own. */
  lemma {:induction false} NoneTiedSingletons(u: Tables, lines: seq<string>)
    requires lines != [] && NonEmptyAll(lines)
    requires forall j :: 0 <= j < |lines| - 1 ==> !Tied(u, lines[j], lines[j + 1])
    ensures |Chains(u, lines)| == |lines|
    ensures forall k :: 0 <= k < |lines| ==> Chains(u, lines)[k] == [lines[k]]
  {
    if |lines| > 1 {
      var init := lines[..|lines| - 1];
      NoneTiedSingletons(u, init);
      assert init[|init| - 1] == lines[|lines| - 2];
      assert !Tied(u, init[|init| - 1], lines[|lines| - 1]);
      assert Chains(u, lines) == Chains(u, init) + [[lines[|lines| - 1]]];
    }
  }

  // ---------------------------------------------------------------------------
  // The first case of the unit test of `regroup_node` (text_nodes.rs:438-441).

  /** A single line that is trimmed and has no match of the split pattern comes back
      unchanged. */
  lemma RegroupedCleanLine(u: Tables, lines: seq<string>)
    requires |lines| == 1 && lines[0] != [] && IsTrimmed(lines[0]) && NoDelimiter(lines[0])
    ensures NonEmptyAll(lines) && Regrouped(u, lines) == lines
  {
    RegroupedOne(u, lines);
    SentencesOfClean(u, lines[0]);
  }

  /** A node of one line is split as it stands. */
  lemma RegroupedOne(u: Tables, lines: seq<string>)
    requires |lines| == 1 && lines[0] != []
    ensures NonEmptyAll(lines) && Regrouped(u, lines) == Sentences(u, lines[0], None)
    ensures lines == [lines[0]]
  {
  }

  /** `regroup_node(["Más información y precios"])`. */
  lemma RegroupedSingleLine(u: Tables, lines: seq<string>)
    requires |lines| == 1 && lines[0] == "Más información y precios"
    ensures NonEmptyAll(lines) && Regrouped(u, lines) == lines
  {
    CleanSingleLine(lines[0]);
    RegroupedCleanLine(u, lines);
  }

  lemma CleanSingleLine(s: string)
    requires s == "Más información y precios"
    ensures s != [] && IsTrimmed(s) && NoDelimiter(s)
  {
  }

  // ---------------------------------------------------------------------------
  // The `vinissimus` case of the unit test of `regroup_node` (text_nodes.rs:479-501).

  /** Two tied lines form one chain. */
  lemma RegroupedPair(u: Tables, a: string, b: string)
    requires a != [] && b != [] && Tied(u, a, b)
    ensures Regrouped(u, [a, b]) == Sentences(u, Joined(u, [a, b]), None)
  {
    ChainsOfPair(u, a, b);
    ChainSentencesSnoc(u, [], [a, b]);
    assert [] + [[a, b]] == [[a, b]];
  }

  lemma ChainsOfPair(u: Tables, a: string, b: string)
    requires a != [] && b != [] && Tied(u, a, b)
    ensures NonEmptyAll([a, b]) && Chains(u, [a, b]) == [[a, b]]
  {
    var lines := [a, b];
    assert lines[..1] == [a];
    var prev := Chains(u, [a]);
    assert prev == [[a]];
    assert prev[..0] == [] && prev[0] + [b] == [a, b];
  }

  /** A line not tied to the last one opens a new chain. */
  lemma ChainsSnocApart(u: Tables, lines: seq<string>, c: string)
    requires lines != [] && NonEmptyAll(lines) && c != []
    requires !Tied(u, lines[|lines| - 1], c)
    ensures NonEmptyAll(lines + [c])
    ensures Chains(u, lines + [c]) == Chains(u, lines) + [[c]]
  {
    var all := lines + [c];
    assert all[..|all| - 1] == lines;
  }

  /** A line tied to the last one extends the last chain. */
  lemma ChainsSnocTied(u: Tables, lines: seq<string>, d: string)
    requires lines != [] && NonEmptyAll(lines) && d != []
    requires Tied(u, lines[|lines| - 1], d)
    ensures NonEmptyAll(lines + [d])
    ensures var prev := Chains(u, lines);
            Chains(u, lines + [d]) == prev[..|prev| - 1] + [prev[|prev| - 1] + [d]]
  {
    var all := lines + [d];
    assert all[..|all| - 1] == lines;
  }

  /** Appending two tied lines that are not tied to the last line opens one new chain. */
  lemma ChainsSnocPair(u: Tables, lines: seq<string>, c: string, d: string)
    requires lines != [] && NonEmptyAll(lines) && c != [] && d != []
    requires !Tied(u, lines[|lines| - 1], c) && Tied(u, c, d)
    ensures NonEmptyAll(lines + [c, d])
    ensures Chains(u, lines + [c, d]) == Chains(u, lines) + [[c, d]]
  {
    ChainsSnocApart(u, lines, c);
    var mid := lines + [c];
    ChainsSnocTied(u, mid, d);
    assert mid + [d] == lines + [c, d];
    var next := Chains(u, lines) + [[c]];
    assert next[..|next| - 1] == Chains(u, lines) && next[|next| - 1] + [d] == [c, d];
  }

  /** The same, for the sentences: the new chain adds its own regrouping. */
  lemma RegroupedSnocPair(u: Tables, lines: seq<string>, c: string, d: string)
    requires |lines| >= 2 && NonEmptyAll(lines) && c != [] && d != []
    requires !Tied(u, lines[|lines| - 1], c) && Tied(u, c, d)
    ensures NonEmptyAll(lines + [c, d])
    ensures Regrouped(u, lines + [c, d]) == Regrouped(u, lines) + Regrouped(u, [c, d])
  {
    ChainsSnocPair(u, lines, c, d);
    var prev := Chains(u, lines);
    calc {
      Regrouped(u, lines + [c, d]);
      ChainSentences(u, prev + [[c, d]]);
      { ChainSentencesSnoc(u, prev, [c, d]); }
      ChainSentences(u, prev) + Sentences(u, Joined(u, [c, d]), None);
      { RegroupedPair(u, c, d); }
      Regrouped(u, lines) + Regrouped(u, [c, d]);
    }
  }

  /** A word and a line made of a space and a second word, with nothing open-like or
      close-like at the boundary, are joined with one space. */
  lemma JoinedWordPair(u: Tables, x: string, w: string)
    requires Valid(u) && IsWord(x) && IsWord(w) && NoBackslash(x) && NoBackslash(w)
    requires !OpenLike(u, Last(x)) && !CloseLike(u, w[0])
    ensures Joined(u, [x, " " + w]) == x + " " + w
  {
    WordsOfPair(x, w);
    assert NoBackslash(" " + w);
    assert RuleDrops(u, [x, w]) == [false];
    assert Spaced([x, w], [false]) == x + " " + w;
    JoinedByRule(u, [x, " " + w], [x, w], [false]);
  }

  lemma WordsOfPair(x: string, w: string)
    requires IsWord(x) && IsWord(w)
    ensures Words([x, " " + w]) == [x, w]
  {
    var lines := [x, " " + w];
    SplitWhitespaceJoin(lines);
    assert lines[1..] == [" " + w] && lines[1..][1..] == [];
    assert LineWords(lines) == SplitWhitespace(x) + SplitWhitespace(" " + w) + LineWords([]);
    SplitJoinWords([x]);
    SplitJoinWords([w]);
    assert " " + w == "" + " " + w;
    SplitWhitespaceSpaceJoin("", w);
  }

  /** A trimmed string without a match of the split pattern is one sentence. */
  lemma SentencesOfClean(u: Tables, s: string)
    requires s != [] && IsTrimmed(s) && NoDelimiter(s)
    ensures Sentences(u, s, None) == [s]
  {
    SentencesOfUndelimited(u, s);
    TrimOfTrimmed(s);
  }

  /** A site name and its bracketed language on the next line, after a space, make one
      sentence: the line starting with a space is tied to the name, the joined text keeps
      the space before the opening bracket, and the split pattern finds nothing in it. */
  lemma SiteSentence(u: Tables, x: string, y: string, w: string, s: string)
    requires Valid(u) && IsWord(x) && IsWord(w) && NoBackslash(x) && NoBackslash(w)
    requires !OpenLike(u, Last(x)) && !CloseLike(u, w[0])
    requires y == " " + w && s == x + " " + w && NoDelimiter(s)
    ensures Tied(u, x, y)
    ensures Regrouped(u, [x, y]) == [s]
  {
    JoinedWordPair(u, x, w);
    SentencesOfClean(u, s);
    RegroupedPair(u, x, y);
  }

  /** Five pairs of tied lines, no pair tied to the next: five chains. */
  lemma RegroupedFivePairs(u: Tables, a0: string, b0: string, a1: string, b1: string,
                           a2: string, b2: string, a3: string, b3: string, a4: string, b4: string)
    requires a0 != [] && b0 != [] && a1 != [] && b1 != [] && a2 != [] && b2 != []
    requires a3 != [] && b3 != [] && a4 != [] && b4 != []
    requires Tied(u, a0, b0) && Tied(u, a1, b1) && Tied(u, a2, b2) && Tied(u, a3, b3) && Tied(u, a4, b4)
    requires !Tied(u, b0, a1) && !Tied(u, b1, a2) && !Tied(u, b2, a3) && !Tied(u, b3, a4)
    ensures NonEmptyAll([a0, b0] + [a1, b1] + [a2, b2] + [a3, b3] + [a4, b4])
    ensures Regrouped(u, [a0, b0] + [a1, b1] + [a2, b2] + [a3, b3] + [a4, b4])
         == Regrouped(u, [a0, b0]) + Regrouped(u, [a1, b1]) + Regrouped(u, [a2, b2])
            + Regrouped(u, [a3, b3]) + Regrouped(u, [a4, b4])
  {
    var l4 := [a0, b0] + [a1, b1];
    var l6 := l4 + [a2, b2];
    var l8 := l6 + [a3, b3];
    assert l4[|l4| - 1] == b1 && l6[|l6| - 1] == b2 && l8[|l8| - 1] == b3;
    RegroupedSnocPair(u, [a0, b0], a1, b1);
    RegroupedSnocPair(u, l4, a2, b2);
    RegroupedSnocPair(u, l6, a3, b3);
    RegroupedSnocPair(u, l8, a4, b4);
  }

  /** `regroup_node` on the ten lines of the test: five site names, each followed by its
      language in brackets on a line of its own, give five sentences. */
  lemma RegroupedVinissimus(u: Tables, lines: seq<string>)
    requires Valid(u) && |lines| == 10
    requires lines[0] == "vinissimus.com" && lines[1] == " (español)"
    requires lines[2] == "vinissimus.co.uk" && lines[3] == " (english)"
    requires lines[4] == "vinissimus.fr" && lines[5] == " (français)"
    requires lines[6] == "vinissimus.it" && lines[7] == " (italiano)"
    requires lines[8] == "hispavinus.de" && lines[9] == " (deutsch)"
    ensures NonEmptyAll(lines)
    ensures Regrouped(u, lines)
         == ["vinissimus.com (español)", "vinissimus.co.uk (english)",
             "vinissimus.fr (français)", "vinissimus.it (italiano)", "hispavinus.de (deutsch)"]
  {
    var a0, b0, t0 := "vinissimus.com", " (español)", "vinissimus.com (español)";
    var a1, b1, t1 := "vinissimus.co.uk", " (english)", "vinissimus.co.uk (english)";
    var a2, b2, t2 := "vinissimus.fr", " (français)", "vinissimus.fr (français)";
    var a3, b3, t3 := "vinissimus.it", " (italiano)", "vinissimus.it (italiano)";
    var a4, b4, t4 := "hispavinus.de", " (deutsch)", "hispavinus.de (deutsch)";
    PairsOfTen(lines, a0, b0, a1, b1, a2, b2, a3, b3, a4, b4);
    assert Regrouped(u, [a0, b0] + [a1, b1] + [a2, b2] + [a3, b3] + [a4, b4])
        == [t0] + [t1] + [t2] + [t3] + [t4] by {
      SiteCom(u, a0, b0, t0);
      SiteCoUk(u, a1, b1, t1);
      SiteFr(u, a2, b2, t2);
      SiteIt(u, a3, b3, t3);
      SiteDe(u, a4, b4, t4);
      SitesApart(u, b0, a1, b1, a2, b2, a3, b3, a4);
      RegroupedFivePairs(u, a0, b0, a1, b1, a2, b2, a3, b3, a4, b4);
    }
    SinglesOfFive(t0, t1, t2, t3, t4);
  }

  lemma SinglesOfFive(t0: string, t1: string, t2: string, t3: string, t4: string)
    ensures [t0] + [t1] + [t2] + [t3] + [t4] == [t0, t1, t2, t3, t4]
  {
  }

  lemma PairsOfTen(lines: seq<string>, a0: string, b0: string, a1: string, b1: string,
                   a2: string, b2: string, a3: string, b3: string, a4: string, b4: string)
    requires |lines| == 10 && lines[0] == a0 && lines[1] == b0 && lines[2] == a1 && lines[3] == b1
    requires lines[4] == a2 && lines[5] == b2 && lines[6] == a3 && lines[7] == b3
    requires lines[8] == a4 && lines[9] == b4
    ensures lines == [a0, b0] + [a1, b1] + [a2, b2] + [a3, b3] + [a4, b4]
  {
  }

  lemma SitesApart(u: Tables, b0: string, a1: string, b1: string, a2: string, b2: string,
                   a3: string, b3: string, a4: string)
    requires Valid(u)
    requires b0 == " (español)" && a1 == "vinissimus.co.uk" && b1 == " (english)"
    requires a2 == "vinissimus.fr" && b2 == " (français)" && a3 == "vinissimus.it"
    requires b3 == " (italiano)" && a4 == "hispavinus.de"
    ensures !Tied(u, b0, a1) && !Tied(u, b1, a2) && !Tied(u, b2, a3) && !Tied(u, b3, a4)
  {
    assert Last(b0) == ')' && Last(b1) == ')' && Last(b2) == ')' && Last(b3) == ')';
    assert a1[0] == 'v' && a2[0] == 'v' && a3[0] == 'v' && a4[0] == 'h';
    ParenThenLetterApart(u, b0, a1);
    ParenThenLetterApart(u, b1, a2);
    ParenThenLetterApart(u, b2, a3);
    ParenThenLetterApart(u, b3, a4);
  }

  /** A line ending in `)` is not tied to a next line that starts with `v` or `h`. */
  lemma ParenThenLetterApart(u: Tables, left: string, right: string)
    requires Valid(u) && left != [] && right != []
    requires Last(left) == ')' && (right[0] == 'v' || right[0] == 'h')
    ensures !Tied(u, left, right)
  {
    AsciiClass(u, ')');
    AsciiClass(u, right[0]);
  }

  lemma SiteCom(u: Tables, x: string, y: string, t: string)
    requires Valid(u) && x == "vinissimus.com" && y == " (español)" && t == "vinissimus.com (español)"
    ensures x != [] && y != [] && Tied(u, x, y)
    ensures Regrouped(u, [x, y]) == [t]
  {
    WordsOfSiteCom();
    GapOfSiteCom(u);
    DelimiterOfSiteCom();
    SiteSentence(u, x, y, "(español)", t);
  }

  lemma WordsOfSiteCom()
    ensures IsWord("vinissimus.com") && NoBackslash("vinissimus.com")
    ensures IsWord("(español)") && NoBackslash("(español)")
    ensures " (español)" == " " + "(español)" && "vinissimus.com (español)" == "vinissimus.com" + " " + "(español)"
  {
  }

  lemma GapOfSiteCom(u: Tables)
    requires Valid(u)
    ensures !OpenLike(u, Last("vinissimus.com")) && !CloseLike(u, "(español)"[0])
  {
    AsciiClass(u, 'm');
    AsciiClass(u, '(');
  }

  lemma DelimiterOfSiteCom()
    ensures NoDelimiter("vinissimus.com (español)")
  {
  }

  lemma SiteCoUk(u: Tables, x: string, y: string, t: string)
    requires Valid(u) && x == "vinissimus.co.uk" && y == " (english)" && t == "vinissimus.co.uk (english)"
    ensures x != [] && y != [] && Tied(u, x, y)
    ensures Regrouped(u, [x, y]) == [t]
  {
    WordsOfSiteCoUk();
    GapOfSiteCoUk(u);
    DelimiterOfSiteCoUk();
    SiteSentence(u, x, y, "(english)", t);
  }

  lemma WordsOfSiteCoUk()
    ensures IsWord("vinissimus.co.uk") && NoBackslash("vinissimus.co.uk")
    ensures IsWord("(english)") && NoBackslash("(english)")
    ensures " (english)" == " " + "(english)" && "vinissimus.co.uk (english)" == "vinissimus.co.uk" + " " + "(english)"
  {
  }

  lemma GapOfSiteCoUk(u: Tables)
    requires Valid(u)
    ensures !OpenLike(u, Last("vinissimus.co.uk")) && !CloseLike(u, "(english)"[0])
  {
    AsciiClass(u, 'k');
    AsciiClass(u, '(');
  }

  lemma DelimiterOfSiteCoUk()
    ensures NoDelimiter("vinissimus.co.uk (english)")
  {
  }

  lemma SiteFr(u: Tables, x: string, y: string, t: string)
    requires Valid(u) && x == "vinissimus.fr" && y == " (français)" && t == "vinissimus.fr (français)"
    ensures x != [] && y != [] && Tied(u, x, y)
    ensures Regrouped(u, [x, y]) == [t]
  {
    WordsOfSiteFr();
    GapOfSiteFr(u);
    DelimiterOfSiteFr();
    SiteSentence(u, x, y, "(français)", t);
  }

  lemma WordsOfSiteFr()
    ensures IsWord("vinissimus.fr") && NoBackslash("vinissimus.fr")
    ensures IsWord("(français)") && NoBackslash("(français)")
    ensures " (français)" == " " + "(français)" && "vinissimus.fr (français)" == "vinissimus.fr" + " " + "(français)"
  {
  }

  lemma GapOfSiteFr(u: Tables)
    requires Valid(u)
    ensures !OpenLike(u, Last("vinissimus.fr")) && !CloseLike(u, "(français)"[0])
  {
    AsciiClass(u, 'r');
    AsciiClass(u, '(');
  }

  lemma DelimiterOfSiteFr()
    ensures NoDelimiter("vinissimus.fr (français)")
  {
  }

  lemma SiteIt(u: Tables, x: string, y: string, t: string)
    requires Valid(u) && x == "vinissimus.it" && y == " (italiano)" && t == "vinissimus.it (italiano)"
    ensures x != [] && y != [] && Tied(u, x, y)
    ensures Regrouped(u, [x, y]) == [t]
  {
    WordsOfSiteIt();
    GapOfSiteIt(u);
    DelimiterOfSiteIt();
    SiteSentence(u, x, y, "(italiano)", t);
  }

  lemma WordsOfSiteIt()
    ensures IsWord("vinissimus.it") && NoBackslash("vinissimus.it")
    ensures IsWord("(italiano)") && NoBackslash("(italiano)")
    ensures " (italiano)" == " " + "(italiano)" && "vinissimus.it (italiano)" == "vinissimus.it" + " " + "(italiano)"
  {
  }

  lemma GapOfSiteIt(u: Tables)
    requires Valid(u)
    ensures !OpenLike(u, Last("vinissimus.it")) && !CloseLike(u, "(italiano)"[0])
  {
    AsciiClass(u, 't');
    AsciiClass(u, '(');
  }

  lemma DelimiterOfSiteIt()
    ensures NoDelimiter("vinissimus.it (italiano)")
  {
  }

  lemma SiteDe(u: Tables, x: string, y: string, t: string)
    requires Valid(u) && x == "hispavinus.de" && y == " (deutsch)" && t == "hispavinus.de (deutsch)"
    ensures x != [] && y != [] && Tied(u, x, y)
    ensures Regrouped(u, [x, y]) == [t]
  {
    WordsOfSiteDe();
    GapOfSiteDe(u);
    DelimiterOfSiteDe();
    SiteSentence(u, x, y, "(deutsch)", t);
  }

  lemma WordsOfSiteDe()
    ensures IsWord("hispavinus.de") && NoBackslash("hispavinus.de")
    ensures IsWord("(deutsch)") && NoBackslash("(deutsch)")
    ensures " (deutsch)" == " " + "(deutsch)" && "hispavinus.de (deutsch)" == "hispavinus.de" + " " + "(deutsch)"
  {
  }

  lemma GapOfSiteDe(u: Tables)
    requires Valid(u)
    ensures !OpenLike(u, Last("hispavinus.de")) && !CloseLike(u, "(deutsch)"[0])
  {
    AsciiClass(u, 'e');
    AsciiClass(u, '(');
  }

  lemma DelimiterOfSiteDe()
    ensures NoDelimiter("hispavinus.de (deutsch)")
  {
  }
}
