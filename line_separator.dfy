/**
  `separate_line_breakers` (html_parsing_tools/src/text_nodes.rs): turns the raw text
  fragments into tokens, each either a single line break `"\n"` or a maximal run of
  characters without `\n`.
 */
module LineSeparator {
  import opened Strings

  /** `str::replace('\r', "\n")`: every carriage return becomes a line feed. */
  function NormalizeCr(s: string): (r: string)
    ensures |r| == |s| && '\r' !in r
    ensures forall i :: 0 <= i < |s| ==> r[i] == (if s[i] == '\r' then '\n' else s[i])
  {
    seq(|s|, i requires 0 <= i < |s| => if s[i] == '\r' then '\n' else s[i])
  }

  /** Length of the maximal prefix of `s` without a line feed. */
  function RunLen(s: string): (n: nat)
    requires s != [] && s[0] != '\n'
    ensures 0 < n <= |s|
    ensures forall i :: 0 <= i < n ==> s[i] != '\n'
    ensures n == |s| || s[n] == '\n'
  {
    if |s| == 1 || s[1] == '\n' then 1 else 1 + RunLen(s[1..])
  }

  /** The matches of the pattern `\n|[^\n]+`, left to right (`find_iter`). */
  function LineTokens(s: string): seq<string>
    decreases |s|
  {
    if s == [] then []
    else if s[0] == '\n' then ["\n"] + LineTokens(s[1..])
    else
      var n := RunLen(s);
      [s[..n]] + LineTokens(s[n..])
  }

  /** What `separate_line_breakers` returns: the tokens of every non-empty fragment,
      after `\r` has been rewritten as `\n`, in order. */
  function Tokens(fragments: seq<string>): seq<string> {
    if fragments == [] then []
    else
      (if fragments[0] == "" then [] else LineTokens(NormalizeCr(fragments[0])))
      + Tokens(fragments[1..])
  }

  method SeparateLineBreakers(fragments: seq<string>) returns (lines: seq<string>)
    ensures lines == Tokens(fragments)
  {
    lines := [];
    for i := 0 to |fragments|
      invariant lines + Tokens(fragments[i..]) == Tokens(fragments)
    {
      var sentence := fragments[i];
      ghost var rest := Tokens(fragments[i + 1..]);
      TokensStep(fragments, i);
      if sentence == "" {
        continue;
      }
      if '\r' in sentence {
        sentence := NormalizeCr(sentence);
      } else {
        NormalizeCrWithoutCr(sentence);
      }
      var matches := LineTokens(sentence);
      assert Tokens(fragments[i..]) == matches + rest;
      ghost var before := lines;
      lines := PushAll(lines, matches);
      AppendAssoc(before, matches, rest);
    }
    assert fragments[|fragments|..] == [];
  }

  /** The inner loop of `separate_line_breakers`: every match pushed in turn. */
  method PushAll(lines: seq<string>, matches: seq<string>) returns (r: seq<string>)
    ensures r == lines + matches
  {
    r := lines;
    for k := 0 to |matches|
      invariant r == lines + matches[..k]
    {
      r := r + [matches[k]];
      assert matches[..k + 1] == matches[..k] + [matches[k]];
    }
    assert matches[..|matches|] == matches;
  }

  lemma TokensStep(fragments: seq<string>, i: nat)
    requires i < |fragments|
    ensures fragments[i] == "" ==> Tokens(fragments[i..]) == Tokens(fragments[i + 1..])
    ensures fragments[i] != "" ==>
      Tokens(fragments[i..]) == LineTokens(NormalizeCr(fragments[i])) + Tokens(fragments[i + 1..])
  {
    assert fragments[i..][1..] == fragments[i + 1..];
    assert [] + Tokens(fragments[i + 1..]) == Tokens(fragments[i + 1..]);
  }

  lemma NormalizeCrWithoutCr(s: string)
    requires '\r' !in s
    ensures NormalizeCr(s) == s
  {
  }

  // ---------------------------------------------------------------------------
  // Properties.

  /** The shape of one token. */
  predicate IsToken(t: string) {
    t != "" && '\r' !in t && (t == "\n" || '\n' !in t)
  }

  lemma {:induction false} LineTokensShape(s: string)
    requires '\r' !in s
    ensures forall k :: 0 <= k < |LineTokens(s)| ==> IsToken(LineTokens(s)[k])
    decreases |s|
  {
    if s == [] {
    } else if s[0] == '\n' {
      LineTokensShape(s[1..]);
    } else {
      var n := RunLen(s);
      assert '\n' !in s[..n];
      LineTokensShape(s[n..]);
    }
  }

  /** Every token is non-empty, has no `\r`, and is either `"\n"` or free of `\n`. */
  lemma {:induction false} TokensShape(fragments: seq<string>)
    ensures forall k :: 0 <= k < |Tokens(fragments)| ==> IsToken(Tokens(fragments)[k])
  {
    if fragments != [] {
      TokensShape(fragments[1..]);
      if fragments[0] != "" {
        LineTokensShape(NormalizeCr(fragments[0]));
      }
    }
  }

  lemma {:induction false} ConcatLineTokens(s: string)
    ensures Concat(LineTokens(s)) == s
    decreases |s|
  {
    if s == [] {
    } else {
      var n := if s[0] == '\n' then 1 else RunLen(s);
      var rest := LineTokens(s[n..]);
      if s[0] == '\n' { assert s[..1] == "\n"; }
      assert LineTokens(s) == [s[..n]] + rest;
      ConcatLineTokens(s[n..]);
      ConcatAppend([s[..n]], rest);
      assert Concat([s[..n]]) == s[..n] + Concat([]);
      assert s == s[..n] + s[n..];
    }
  }

  /** A run without line feeds, followed by a line feed or nothing, is one token. */
  lemma {:induction false} LineTokensOfRun(w: string, t: string)
    requires w != [] && '\n' !in w && (t == [] || t[0] == '\n')
    ensures LineTokens(w + t) == [w] + LineTokens(t)
  {
    RunLenOfRun(w, t);
    assert (w + t)[..|w|] == w && (w + t)[|w|..] == t;
  }

  lemma {:induction false} RunLenOfRun(w: string, t: string)
    requires w != [] && '\n' !in w && (t == [] || t[0] == '\n')
    ensures (w + t)[0] != '\n' && RunLen(w + t) == |w|
  {
    assert (w + t)[0] == w[0];
    if |w| > 1 {
      assert (w + t)[1..] == w[1..] + t;
      RunLenOfRun(w[1..], t);
    }
  }

  lemma NormalizeCrAppend(a: string, b: string)
    ensures NormalizeCr(a + b) == NormalizeCr(a) + NormalizeCr(b)
  {
  }

  /** Round trip: the tokens concatenated give back the input text with `\r` read as `\n`. */
  lemma {:induction false} TokensRoundTrip(fragments: seq<string>)
    ensures Concat(Tokens(fragments)) == NormalizeCr(Concat(fragments))
  {
    if fragments != [] {
      var head := if fragments[0] == "" then [] else LineTokens(NormalizeCr(fragments[0]));
      TokensRoundTrip(fragments[1..]);
      ConcatLineTokens(NormalizeCr(fragments[0]));
      ConcatAppend(head, Tokens(fragments[1..]));
      NormalizeCrAppend(fragments[0], Concat(fragments[1..]));
      assert Concat(head) == NormalizeCr(fragments[0]);
    }
  }

  lemma TokensCons(f: string, rest: seq<string>)
    ensures Tokens([f] + rest)
         == (if f == "" then [] else LineTokens(NormalizeCr(f))) + Tokens(rest)
  {
    assert ([f] + rest)[1..] == rest;
  }

  /** The literal cases of the unit test of `separate_line_breakers`. */
  lemma TokensExamples()
    ensures Tokens(["\r"]) == ["\n"]
    ensures Tokens(["hello"]) == ["hello"]
  {
    assert NormalizeCr("\r") == "\n";
    assert LineTokens("\n") == ["\n"] + LineTokens("");
    TokensCons("\r", []);
    assert NormalizeCr("hello") == "hello";
    LineTokensOfRun("hello", "");
    assert "hello" + "" == "hello";
    TokensCons("hello", []);
  }

  lemma MixedFragmentTokens()
    ensures LineTokens(NormalizeCr("\n!")) == ["\n", "!"]
    ensures LineTokens(NormalizeCr("\n\n\r")) == ["\n", "\n", "\n"]
    ensures LineTokens(NormalizeCr(" ")) == [" "]
  {
    assert NormalizeCr("\n!") == "\n!";
    LineTokensOfRun("!", "");
    assert "!" + "" == "!";
    assert LineTokens("\n!") == ["\n"] + LineTokens("!");
    assert NormalizeCr("\n\n\r") == "\n\n\n";
    assert LineTokens("\n") == ["\n"] + LineTokens("");
    assert LineTokens("\n\n") == ["\n"] + LineTokens("\n");
    assert LineTokens("\n\n\n") == ["\n"] + LineTokens("\n\n");
    assert NormalizeCr(" ") == " ";
    LineTokensOfRun(" ", "");
    assert " " + "" == " ";
  }

  lemma {:induction false} BreakToken(t: string)
    ensures LineTokens("\n" + t) == ["\n"] + LineTokens(t)
  {
    assert ("\n" + t)[0] == '\n';
    assert ("\n" + t)[1..] == t;
  }

  /** The `"Hello\n\rWorld\n\n"` fragment of the unit test (a parameter, so that the
      literal is not unfolded eagerly). */
  lemma {:induction false} HelloWorldTokens(s: string)
    requires s == "Hello\n\rWorld\n\n"
    ensures LineTokens(NormalizeCr(s)) == ["Hello", "\n", "\n", "World", "\n", "\n"]
  {
    assert NormalizeCr(s) == "Hello" + "\n\n" + "World" + "\n\n";
    TwoRunsTokens("Hello", "World");
  }

  /** Two runs, each followed by two line feeds. */
  lemma {:induction false} TwoRunsTokens(v: string, w: string)
    requires v != [] && '\n' !in v && w != [] && '\n' !in w
    ensures LineTokens(v + "\n\n" + w + "\n\n") == [v, "\n", "\n", w, "\n", "\n"]
  {
    RunTwoBreaks(w, []);
    RunTwoBreaks(v, w + "\n\n");
    assert w + "\n\n" + [] == w + "\n\n";
    assert v + "\n\n" + (w + "\n\n") == v + "\n\n" + w + "\n\n";
  }

  /** A run followed by two line feeds gives three tokens. */
  lemma {:induction false} RunTwoBreaks(w: string, t: string)
    requires w != [] && '\n' !in w
    ensures LineTokens(w + "\n\n" + t) == [w, "\n", "\n"] + LineTokens(t)
  {
    var b := "\n" + ("\n" + t);
    var rest := LineTokens(t);
    assert LineTokens(b) == ["\n", "\n"] + rest by {
      BreakToken("\n" + t);
      BreakToken(t);
    }
    assert LineTokens(w + b) == [w] + LineTokens(b) by {
      LineTokensOfRun(w, b);
    }
    assert w + "\n\n" + t == w + b;
    assert [w] + (["\n", "\n"] + rest) == [w, "\n", "\n"] + rest;
  }

  /** The mixed-fragment case of the unit test of `separate_line_breakers`. */
  lemma {:induction false} TokensExampleMixed(fs: seq<string>)
    requires fs == ["", " ", "", "Hello\n\rWorld\n\n", "\n\n\r", "\n!"]
    ensures Tokens(fs)
         == [" ", "Hello", "\n", "\n", "World", "\n", "\n", "\n", "\n", "\n", "\n", "!"]
  {
    var t3 := Tokens(fs[3..]);
    MixedTail(fs);
    assert Tokens(fs) == [" "] + t3 by {
      MixedHead(fs);
    }
  }

  lemma {:induction false} MixedHead(fs: seq<string>)
    requires |fs| == 6 && fs[0] == "" && fs[1] == " " && fs[2] == ""
    ensures Tokens(fs) == [" "] + Tokens(fs[3..])
  {
    TokensStep(fs, 2);
    TokensStep(fs, 1);
    TokensStep(fs, 0);
    assert fs[0..] == fs;
    MixedFragmentTokens();
  }

  lemma {:induction false} MixedTail(fs: seq<string>)
    requires |fs| == 6 && fs[3] == "Hello\n\rWorld\n\n" && fs[4] == "\n\n\r" && fs[5] == "\n!"
    ensures Tokens(fs[3..])
         == ["Hello", "\n", "\n", "World", "\n", "\n", "\n", "\n", "\n", "\n", "!"]
  {
    var t5 := Tokens(fs[5..]);
    assert t5 == ["\n", "!"] by {
      TokensStep(fs, 5);
      assert fs[6..] == [];
      MixedFragmentTokens();
    }
    var t4 := Tokens(fs[4..]);
    assert t4 == ["\n", "\n", "\n"] + t5 by {
      TokensStep(fs, 4);
      MixedFragmentTokens();
    }
    assert Tokens(fs[3..]) == ["Hello", "\n", "\n", "World", "\n", "\n"] + t4 by {
      TokensStep(fs, 3);
      HelloWorldTokens(fs[3]);
    }
  }
}
