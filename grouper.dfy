/**
  `group_text_nodes` (html_parsing_tools/src/text_nodes.rs): the page's text fragments are
  cut into line tokens; the tokens that carry text are collected into a node until enough
  line breaks follow (the threshold `min_split`) or the tokens run out; every node is
  then kept as it is (threshold 0) or regrouped into sentences.
 */
module Grouper {
  import opened Unicode
  import opened Strings
  import opened Options
  import opened LineSeparator
  import opened MinSplit
  import opened SentenceSplitter
  import opened SentenceJoiner
  import opened Regrouper

  /** Whether the first character that is not White_Space exists and is not `<`. */
  predicate LeadsWithText(s: string) {
    s != [] && if IsWhitespace(s[0]) then LeadsWithText(s[1..]) else s[0] != '<'
  }

  /** The test of the source, on the trimmed token, says the same. */
  lemma {:induction false} LeadsWithTextTrim(s: string)
    ensures LeadsWithText(s) <==> Trim(s) != "" && Trim(s)[0] != '<'
  {
    if s != [] {
      if IsWhitespace(s[0]) {
        LeadsWithTextTrim(s[1..]);
        assert TrimStart(s) == TrimStart(s[1..]);
      } else {
        assert TrimStart(s) == s;
        var e := TrimEnd(s);
        assert e != [];
        assert e[0] == s[0];
      }
    }
  }

  /** A token that goes into the current node: not a line break, not blank, and not
      starting (after trimming) with `<`. */
  predicate Survives(t: string) {
    t != "\n" && LeadsWithText(t)
  }

  /** The loop state, with the nodes still as the raw token lists they were collected as:
      the finished nodes, the current node and `split_count`. */
  datatype Collect = Collect(nodes: seq<seq<string>>, node: seq<string>, splitCount: int)

  const Start := Collect([], [], 0)

  /** The first half of an iteration: count a line break, or take a surviving token
      into the node. */
  function Absorb(st: Collect, t: string): (r: Collect)
    ensures r.nodes == st.nodes
    ensures r.node == st.node + (if Survives(t) then [t] else [])
    ensures r.splitCount == if t == "\n" then st.splitCount + 1 else if Survives(t) then 0 else st.splitCount
  {
    if t == "\n" then st.(splitCount := st.splitCount + 1)
    else if Survives(t) then st.(node := st.node + [t], splitCount := 0)
    else st
  }

  /** One iteration of the loop; `last` tells whether `t` is the last token. */
  function CollectStep(st: Collect, t: string, last: bool, minSplit: int): Collect
  {
    var st' := Absorb(st, t);
    if (st'.splitCount >= minSplit || last) && st'.node != [] then Collect(st'.nodes + [st'.node], [], 0)
    else st'
  }

  function CollectFrom(st: Collect, ts: seq<string>, minSplit: int): Collect
    decreases |ts|
  {
    if ts == [] then st else CollectFrom(CollectStep(st, ts[0], |ts| == 1, minSplit), ts[1..], minSplit)
  }

  /** The nodes as token lists, before regrouping. */
  function Partition(ts: seq<string>, minSplit: int): seq<seq<string>> {
    CollectFrom(Start, ts, minSplit).nodes
  }

  /** What is pushed for one node. */
  function Emit(u: Tables, node: seq<string>, minSplit: int): seq<string>
    requires node != [] && NonEmptyAll(node)
  {
    if minSplit == 0 then node else Regrouped(u, node)
  }

  function EmitAll(u: Tables, nodes: seq<seq<string>>, minSplit: int): (r: seq<seq<string>>)
    requires WellFormed(nodes)
    ensures |r| == |nodes|
  {
    if nodes == [] then []
    else EmitAll(u, nodes[..|nodes| - 1], minSplit) + [Emit(u, nodes[|nodes| - 1], minSplit)]
  }

  /** The threshold in use: the caller's, else that of `select_min_split`. */
  function SplitThreshold(fragments: seq<string>, minSplit: Option<int>): int {
    if minSplit.Some? then minSplit.value else MinSplitOf(fragments)
  }

  /** What `group_text_nodes` returns. */
  function Grouped(u: Tables, fragments: seq<string>, minSplit: Option<int>): (r: Option<seq<seq<string>>>)
    ensures r.None? <==> fragments == []
  {
    if fragments == [] then None
    else
      var m := SplitThreshold(fragments, minSplit);
      var ts := Tokens(fragments);
      PartitionWellFormed(ts, m);
      Some(EmitAll(u, Partition(ts, m), m))
  }

  method GroupTextNodes(u: Tables, sentences: seq<string>, minSplit: Option<int>)
    returns (r: Option<seq<seq<string>>>)
    requires Valid(u)
    ensures r == Grouped(u, sentences, minSplit)
  {
    if sentences == [] {
      return None;
    }
    var threshold;
    if minSplit.Some? {
      threshold := minSplit.value;
    } else {
      threshold := SelectMinSplit(sentences);
    }
    var textElements := SeparateLineBreakers(sentences);
    var textNodes := GroupTokens(u, textElements, threshold);
    r := Some(textNodes);
  }

  /** The loop of `group_text_nodes` over the tokens. */
  method GroupTokens(u: Tables, textElements: seq<string>, threshold: int) returns (textNodes: seq<seq<string>>)
    requires Valid(u)
    ensures WellFormed(Partition(textElements, threshold))
            && textNodes == EmitAll(u, Partition(textElements, threshold), threshold)
  {
    textNodes := [];
    var node: seq<string> := [];
    var splitCount := 0;
    var length := |textElements|;
    ghost var nodes: seq<seq<string>> := [];
    for ix := 0 to length
      invariant CollectFrom(Collect(nodes, node, splitCount), textElements[ix..], threshold)
             == CollectFrom(Start, textElements, threshold)
      invariant WellFormed(nodes) && NonEmptyAll(node)
      invariant textNodes == EmitAll(u, nodes, threshold)
    {
      var text := textElements[ix];
      ghost var next := CollectStep(Collect(nodes, node, splitCount), text, ix == length - 1, threshold);
      Advance(Collect(nodes, node, splitCount), textElements, ix, threshold);
      node, splitCount := TakeToken(node, splitCount, text, nodes);
      if splitCount >= threshold || ix == length - 1 {
        if node != [] {
          var pushed := EmitNode(u, node, threshold);
          EmitAllSnoc(u, nodes, node, threshold);
          textNodes := textNodes + [pushed];
          nodes := nodes + [node];
          node := [];
          splitCount := 0;
        }
      }
      assert Collect(nodes, node, splitCount) == next;
    }
    assert textElements[length..] == [];
    PartitionWellFormed(textElements, threshold);
  }

  /** The node pushed: as it is when the threshold is 0, else regrouped. */
  method EmitNode(u: Tables, node: seq<string>, threshold: int) returns (pushed: seq<string>)
    requires Valid(u) && node != [] && NonEmptyAll(node)
    ensures pushed == Emit(u, node, threshold)
  {
    if threshold == 0 {
      pushed := node;
    } else {
      pushed := RegroupNode(u, node);
    }
  }

  /** The first half of the loop body: a line break is counted, a token with text is
      pushed onto the node and resets the count, any other token is skipped. */
  method TakeToken(node: seq<string>, splitCount: int, text: string, ghost nodes: seq<seq<string>>)
    returns (node': seq<string>, splitCount': int)
    requires NonEmptyAll(node)
    ensures Collect(nodes, node', splitCount') == Absorb(Collect(nodes, node, splitCount), text)
    ensures node' == node + (if Survives(text) then [text] else [])
    ensures splitCount' == if text == "\n" then splitCount + 1 else if Survives(text) then 0 else splitCount
    ensures NonEmptyAll(node')
  {
    node', splitCount' := node, splitCount;
    var textCleaned := Trim(text);
    if text == "\n" {
      splitCount' := splitCount' + 1;
    } else if !(textCleaned == "" || textCleaned[0] == '<') {
      LeadsWithTextTrim(text);
      NonEmptySnoc(node', text);
      node' := node' + [text];
      splitCount' := 0;
    } else {
      LeadsWithTextTrim(text);
    }
  }

  lemma NonEmptySnoc(node: seq<string>, t: string)
    requires NonEmptyAll(node) && LeadsWithText(t)
    ensures NonEmptyAll(node + [t])
  {
  }

  /** The loop moves past token `i`. */
  lemma Advance(st: Collect, ts: seq<string>, i: nat, minSplit: int)
    requires i < |ts| && CollectFrom(st, ts[i..], minSplit) == CollectFrom(Start, ts, minSplit)
    ensures CollectFrom(CollectStep(st, ts[i], i == |ts| - 1, minSplit), ts[i + 1..], minSplit)
         == CollectFrom(Start, ts, minSplit)
  {
    assert ts[i..][1..] == ts[i + 1..];
  }

  lemma EmitAllSnoc(u: Tables, nodes: seq<seq<string>>, node: seq<string>, minSplit: int)
    requires WellFormed(nodes) && node != [] && NonEmptyAll(node)
    ensures WellFormed(nodes + [node])
    ensures EmitAll(u, nodes + [node], minSplit) == EmitAll(u, nodes, minSplit) + [Emit(u, node, minSplit)]
  {
    assert (nodes + [node])[..|nodes|] == nodes;
  }

  // ---------------------------------------------------------------------------
  // Properties.

  /** The tokens that go into nodes, in order. */
  function Survivors(ts: seq<string>): (r: seq<string>)
    ensures forall k :: 0 <= k < |r| ==> Survives(r[k])
  {
    if ts == [] then [] else (if Survives(ts[0]) then [ts[0]] else []) + Survivors(ts[1..])
  }

  lemma SurvivorNonEmpty(t: string)
    requires Survives(t)
    ensures t != []
  {
  }

  lemma {:induction false} CollectFromWellFormed(st: Collect, ts: seq<string>, minSplit: int)
    requires WellFormed(st.nodes) && NonEmptyAll(st.node)
    ensures WellFormed(CollectFrom(st, ts, minSplit).nodes)
    ensures NonEmptyAll(CollectFrom(st, ts, minSplit).node)
    decreases |ts|
  {
    if ts != [] {
      var t := ts[0];
      if Survives(t) { SurvivorNonEmpty(t); }
      var st' := CollectStep(st, t, |ts| == 1, minSplit);
      assert NonEmptyAll(st'.node);
      assert WellFormed(st'.nodes) by {
        var s1 := Absorb(st, t);
        if (s1.splitCount >= minSplit || |ts| == 1) && s1.node != [] {
          assert st'.nodes == st.nodes + [s1.node];
        }
      }
      CollectFromWellFormed(st', ts[1..], minSplit);
    }
  }

  /** Every node holds at least one token, and every token a character. */
  lemma PartitionWellFormed(ts: seq<string>, minSplit: int)
    ensures WellFormed(Partition(ts, minSplit))
  {
    CollectFromWellFormed(Start, ts, minSplit);
  }

  lemma SurvivorsCons(t: string, ts: seq<string>)
    ensures Survivors([t] + ts) == (if Survives(t) then [t] else []) + Survivors(ts)
  {
    assert ([t] + ts)[1..] == ts;
  }

  /** What a step adds to the tokens collected so far. */
  lemma CollectStepKeeps(st: Collect, t: string, last: bool, minSplit: int)
    ensures var r := CollectStep(st, t, last, minSplit);
            Flatten(r.nodes) + r.node == Flatten(st.nodes) + st.node + (if Survives(t) then [t] else [])
    ensures last ==> CollectStep(st, t, last, minSplit).node == []
  {
    var st' := Absorb(st, t);
    assert Flatten(st'.nodes) + st'.node == Flatten(st.nodes) + st.node + (if Survives(t) then [t] else []);
    if (st'.splitCount >= minSplit || last) && st'.node != [] {
      FlattenSnoc(st'.nodes, st'.node);
      assert Flatten(st'.nodes + [st'.node]) + [] == Flatten(st'.nodes) + st'.node;
    }
  }

  lemma KeepsLast(st: Collect, t: string, minSplit: int)
    ensures var r := CollectFrom(st, [t], minSplit);
            Flatten(r.nodes) == Flatten(st.nodes) + st.node + Survivors([t]) && r.node == []
  {
    var st' := CollectStep(st, t, true, minSplit);
    CollectStepKeeps(st, t, true, minSplit);
    SurvivorsCons(t, []);
    assert [t][1..] == [];
    assert CollectFrom(st, [t], minSplit) == st';
    assert Flatten(st'.nodes) + [] == Flatten(st'.nodes);
    assert Survivors([t]) + [] == Survivors([t]) by { assert [t] + [] == [t]; }
  }

  lemma KeepsStep(st: Collect, ts: seq<string>, minSplit: int)
    requires |ts| > 1
    requires var r := CollectFrom(CollectStep(st, ts[0], false, minSplit), ts[1..], minSplit);
             var s1 := CollectStep(st, ts[0], false, minSplit);
             Flatten(r.nodes) == Flatten(s1.nodes) + s1.node + Survivors(ts[1..]) && r.node == []
    ensures var r := CollectFrom(st, ts, minSplit);
            Flatten(r.nodes) == Flatten(st.nodes) + st.node + Survivors(ts) && r.node == []
  {
    var t := ts[0];
    var st' := CollectStep(st, t, false, minSplit);
    var a := if Survives(t) then [t] else [];
    CollectStepKeeps(st, t, false, minSplit);
    SurvivorsCons(t, ts[1..]);
    assert [t] + ts[1..] == ts;
    var before := Flatten(st.nodes) + st.node;
    var r := CollectFrom(st', ts[1..], minSplit);
    assert CollectFrom(st, ts, minSplit) == r;
    calc {
      Flatten(r.nodes);
      Flatten(st'.nodes) + st'.node + Survivors(ts[1..]);
      (before + a) + Survivors(ts[1..]);
      { AppendAssoc(before, a, Survivors(ts[1..])); }
      before + (a + Survivors(ts[1..]));
      before + Survivors(ts);
    }
  }

  lemma {:induction false} CollectFromKeeps(st: Collect, ts: seq<string>, minSplit: int)
    requires ts != []
    ensures var r := CollectFrom(st, ts, minSplit);
            Flatten(r.nodes) == Flatten(st.nodes) + st.node + Survivors(ts) && r.node == []
    decreases |ts|
  {
    if |ts| == 1 {
      assert ts == [ts[0]];
      KeepsLast(st, ts[0], minSplit);
    } else {
      CollectFromKeeps(CollectStep(st, ts[0], false, minSplit), ts[1..], minSplit);
      KeepsStep(st, ts, minSplit);
    }
  }

  /** The nodes cut the surviving tokens without losing, repeating or reordering one. */
  lemma PartitionCovers(ts: seq<string>, minSplit: int)
    ensures Flatten(Partition(ts, minSplit)) == Survivors(ts)
  {
    if ts != [] {
      CollectFromKeeps(Start, ts, minSplit);
    }
  }

  function Singletons(ts: seq<string>): (r: seq<seq<string>>)
    ensures |r| == |ts|
  {
    seq(|ts|, k requires 0 <= k < |ts| => [ts[k]])
  }

  lemma SingletonsAppend(a: seq<string>, b: seq<string>)
    ensures Singletons(a + b) == Singletons(a) + Singletons(b)
  {
  }

  lemma {:induction false} CollectFromEager(st: Collect, ts: seq<string>, minSplit: int)
    requires minSplit <= 0 && st.node == [] && st.splitCount >= 0
    ensures CollectFrom(st, ts, minSplit).nodes == st.nodes + Singletons(Survivors(ts))
    decreases |ts|
  {
    if ts == [] {
      assert st.nodes + Singletons([]) == st.nodes;
    } else {
      var t := ts[0];
      var st' := CollectStep(st, t, |ts| == 1, minSplit);
      var a := if Survives(t) then [t] else [];
      EagerOrLastStep(st, t, |ts| == 1, minSplit);
      CollectFromEager(st', ts[1..], minSplit);
      SurvivorsCons(t, ts[1..]);
      assert [t] + ts[1..] == ts;
      SingletonsAppend(a, Survivors(ts[1..]));
      assert st.nodes + Singletons(a) + Singletons(Survivors(ts[1..]))
          == st.nodes + (Singletons(a) + Singletons(Survivors(ts[1..])));
    }
  }

  /** With a threshold of zero or less every surviving token is a node of its own. */
  lemma PartitionEager(ts: seq<string>, minSplit: int)
    requires minSplit <= 0
    ensures Partition(ts, minSplit) == Singletons(Survivors(ts))
  {
    CollectFromEager(Start, ts, minSplit);
  }

  /** Every surviving token, unless it is the last, is followed at once by a line break. */
  predicate BrokenAfterEach(ts: seq<string>) {
    forall k :: 0 <= k < |ts| - 1 && Survives(ts[k]) ==> ts[k + 1] == "\n"
  }

  lemma {:induction false} CollectFromBroken(st: Collect, ts: seq<string>, minSplit: int)
    requires minSplit <= 1 && st.node == [] && st.splitCount >= 0 && BrokenAfterEach(ts)
    ensures CollectFrom(st, ts, minSplit).nodes == st.nodes + Singletons(Survivors(ts))
    decreases |ts|
  {
    if ts == [] {
      assert st.nodes + Singletons([]) == st.nodes;
    } else if !Survives(ts[0]) || |ts| == 1 || minSplit <= 0 {
      var st' := CollectStep(st, ts[0], |ts| == 1, minSplit);
      EagerOrLastStep(st, ts[0], |ts| == 1, minSplit);
      BrokenSuffix(ts, 1);
      CollectFromBroken(st', ts[1..], minSplit);
      SingletonsCons(st.nodes, ts, 1);
    } else {
      BreakClosesNode(st, ts, minSplit);
      BrokenSuffix(ts, 2);
      CollectFromBroken(Collect(st.nodes + [[ts[0]]], [], 0), ts[2..], minSplit);
      SingletonsCons(st.nodes, ts, 2);
    }
  }

  /** The surviving tokens of a prefix of one or two tokens, of which only the first may
      survive, followed by those of the rest. */
  lemma SingletonsCons(nodes: seq<seq<string>>, ts: seq<string>, n: nat)
    requires 1 <= n <= 2 && n <= |ts| && (n == 2 ==> ts[1] == "\n")
    ensures nodes + Singletons(if Survives(ts[0]) then [ts[0]] else []) + Singletons(Survivors(ts[n..]))
         == nodes + Singletons(Survivors(ts))
  {
    var h := if Survives(ts[0]) then [ts[0]] else [];
    SurvivorsPrefix(ts, n);
    SingletonsAssoc(nodes, h, Survivors(ts[n..]));
  }

  lemma SurvivorsPrefix(ts: seq<string>, n: nat)
    requires 1 <= n <= 2 && n <= |ts| && (n == 2 ==> ts[1] == "\n")
    ensures Survivors(ts) == (if Survives(ts[0]) then [ts[0]] else []) + Survivors(ts[n..])
  {
    var h := if Survives(ts[0]) then [ts[0]] else [];
    SurvivorsHead(ts);
    if n == 2 {
      calc {
        Survivors(ts);
        h + Survivors(ts[1..]);
        { SurvivorsAfterBreak(ts); }
        h + Survivors(ts[2..]);
      }
    }
  }

  lemma SurvivorsHead(ts: seq<string>)
    requires ts != []
    ensures Survivors(ts) == (if Survives(ts[0]) then [ts[0]] else []) + Survivors(ts[1..])
  {
    SurvivorsCons(ts[0], ts[1..]);
    assert [ts[0]] + ts[1..] == ts;
  }

  lemma SurvivorsAfterBreak(ts: seq<string>)
    requires |ts| >= 2 && ts[1] == "\n"
    ensures Survivors(ts[1..]) == Survivors(ts[2..])
  {
    SurvivorsCons("\n", ts[2..]);
    assert ["\n"] + ts[2..] == ts[1..];
  }

  lemma SingletonsAssoc(nodes: seq<seq<string>>, a: seq<string>, rest: seq<string>)
    ensures nodes + Singletons(a) + Singletons(rest) == nodes + Singletons(a + rest)
  {
    SingletonsAppend(a, rest);
  }

  lemma BrokenSuffix(ts: seq<string>, i: nat)
    requires i <= |ts| && BrokenAfterEach(ts)
    ensures BrokenAfterEach(ts[i..])
  {
    forall k | 0 <= k < |ts[i..]| - 1 && Survives(ts[i..][k]) ensures ts[i..][k + 1] == "\n" {
      assert ts[i..][k] == ts[i + k] && ts[i..][k + 1] == ts[i + k + 1];
    }
  }

  /** Under the threshold 1, a surviving token and the line break after it make a node. */
  lemma BreakClosesNode(st: Collect, ts: seq<string>, minSplit: int)
    requires minSplit == 1 && st.node == [] && |ts| >= 2 && Survives(ts[0]) && ts[1] == "\n"
    ensures CollectFrom(st, ts, minSplit) == CollectFrom(Collect(st.nodes + [[ts[0]]], [], 0), ts[2..], minSplit)
  {
    var t := ts[0];
    var st1 := CollectStep(st, t, false, minSplit);
    assert st1 == Collect(st.nodes, [t], 0);
    var st2 := CollectStep(st1, "\n", |ts| == 2, minSplit);
    assert st2 == Collect(st.nodes + [[t]], [], 0);
    assert ts[1..][1..] == ts[2..];
  }

  /** One step from an empty node, when the token is not followed by a line break that
      would close it: the token, if it survives, is a node of its own. */
  lemma EagerOrLastStep(st: Collect, t: string, last: bool, minSplit: int)
    requires st.node == [] && st.splitCount >= 0
    requires Survives(t) ==> last || minSplit <= 0
    ensures var r := CollectStep(st, t, last, minSplit);
            r.node == [] && r.splitCount >= 0
            && r.nodes == st.nodes + Singletons(if Survives(t) then [t] else [])
  {
    var s1 := Absorb(st, t);
    if Survives(t) {
      assert Singletons([t]) == [[t]];
      assert s1.node == [t];
    } else {
      assert s1.node == [];
      assert st.nodes + Singletons([]) == st.nodes;
    }
  }

  /** With a threshold of at most 1, a line break right after a surviving token closes the
      node: when every surviving token is followed by one, each is a node of its own. So
      single line breaks between lines, whose runs all have length 1 and give the default
      threshold 1, never fuse lines into a node. */
  lemma PartitionSingleBreaks(ts: seq<string>, minSplit: int)
    requires minSplit <= 1 && BrokenAfterEach(ts)
    ensures Partition(ts, minSplit) == Singletons(Survivors(ts))
  {
    CollectFromBroken(Start, ts, minSplit);
  }

  /** Three lines separated by single line breaks stay three nodes under the threshold
      that `select_min_split` picks for them. */
  lemma PartitionSingleBreaksExample(ts: seq<string>)
    requires |ts| == 5 && ts[0] == "1" && ts[1] == "\n" && ts[2] == "2" && ts[3] == "\n" && ts[4] == "3"
    ensures Partition(ts, 1) == [["1"], ["2"], ["3"]]
  {
    AlternatingBroken(ts);
    PartitionSingleBreaks(ts, 1);
  }

  /** Three surviving tokens, each followed by a line break. */
  lemma AlternatingBroken(ts: seq<string>)
    requires |ts| == 5 && ts[0] == "1" && ts[1] == "\n" && ts[2] == "2" && ts[3] == "\n" && ts[4] == "3"
    ensures BrokenAfterEach(ts) && Survivors(ts) == [ts[0], ts[2], ts[4]]
  {
    assert Survives(ts[0]) && Survives(ts[2]) && Survives(ts[4]);
    assert !Survives(ts[1]) && !Survives(ts[3]);
    assert Survivors(ts[4..]) == [ts[4]] by { assert ts[4..][1..] == []; }
    assert Survivors(ts[3..]) == [ts[4]] by { assert ts[3..][1..] == ts[4..]; }
    assert Survivors(ts[2..]) == [ts[2], ts[4]] by { assert ts[2..][1..] == ts[3..]; }
    assert Survivors(ts[1..]) == [ts[2], ts[4]] by { assert ts[1..][1..] == ts[2..]; }
  }

  /** The line breaks read since the last surviving token (or since the start): the
      value `split_count` has as long as no node has been closed. */
  function Pending(p: seq<string>): nat {
    if p == [] then 0
    else
      var t := p[|p| - 1];
      if t == "\n" then Pending(p[..|p| - 1]) + 1
      else if Survives(t) then 0
      else Pending(p[..|p| - 1])
  }

  /** Every count of pending line breaks stays below the threshold. */
  predicate Quiet(ts: seq<string>, minSplit: int) {
    forall i :: 0 <= i <= |ts| ==> Pending(ts[..i]) < minSplit
  }

  lemma SurvivorsSnoc(ts: seq<string>, k: nat)
    requires k < |ts|
    ensures Survivors(ts[..k + 1]) == Survivors(ts[..k]) + (if Survives(ts[k]) then [ts[k]] else [])
  {
    SurvivorsAppend(ts[..k], [ts[k]]);
    assert ts[..k + 1] == ts[..k] + [ts[k]];
    assert [ts[k]][1..] == [];
    assert (if Survives(ts[k]) then [ts[k]] else []) + [] == (if Survives(ts[k]) then [ts[k]] else []);
  }

  lemma {:induction false} SurvivorsAppend(a: seq<string>, b: seq<string>)
    ensures Survivors(a + b) == Survivors(a) + Survivors(b)
  {
    if a == [] {
      assert a + b == b;
    } else {
      SurvivorsAppend(a[1..], b);
      assert (a + b)[1..] == a[1..] + b;
      var h := if Survives(a[0]) then [a[0]] else [];
      AppendAssoc(h, Survivors(a[1..]), Survivors(b));
    }
  }

  /** While every run of pending breaks stays below the threshold, the state is the
      single open node of the survivors so far. */
  lemma {:induction false} QuietFrom(ts: seq<string>, k: nat, minSplit: int)
    requires minSplit > 0 && k < |ts|
    requires Quiet(ts, minSplit)
    ensures CollectFrom(Collect([], Survivors(ts[..k]), Pending(ts[..k])), ts[k..], minSplit).nodes
         == if Survivors(ts) == [] then [] else [Survivors(ts)]
    decreases |ts| - k
  {
    var st := Collect([], Survivors(ts[..k]), Pending(ts[..k]));
    var t := ts[k];
    var s1 := Absorb(st, t);
    assert ts[..k + 1][..k] == ts[..k];
    SurvivorsSnoc(ts, k);
    assert s1 == Collect([], Survivors(ts[..k + 1]), Pending(ts[..k + 1]));
    CollectFromStep(st, ts, k, minSplit);
    if k == |ts| - 1 {
      assert ts[..k + 1] == ts;
      assert ts[k + 1..] == [];
    } else {
      assert Pending(ts[..k + 1]) < minSplit;
      QuietFrom(ts, k + 1, minSplit);
    }
  }

  lemma CollectFromStep(st: Collect, ts: seq<string>, i: nat, minSplit: int)
    requires i < |ts|
    ensures CollectFrom(st, ts[i..], minSplit)
         == CollectFrom(CollectStep(st, ts[i], i == |ts| - 1, minSplit), ts[i + 1..], minSplit)
  {
    assert ts[i..][1..] == ts[i + 1..];
  }

  /** No early flush: when the threshold is positive and exceeds every count of line
      breaks read since the last surviving token, the surviving tokens form one node,
      closed at the last token (or none, when there are none). */
  lemma PartitionQuiet(ts: seq<string>, minSplit: int)
    requires minSplit > 0
    requires Quiet(ts, minSplit)
    ensures Partition(ts, minSplit) == if Survivors(ts) == [] then [] else [Survivors(ts)]
  {
    if ts != [] {
      QuietFrom(ts, 0, minSplit);
      assert ts[..0] == [] && ts[0..] == ts;
    }
  }

  /** In particular, without any line break token. */
  lemma {:induction false} PendingWithoutBreaks(ts: seq<string>, i: nat)
    requires i <= |ts| && forall k :: 0 <= k < |ts| ==> ts[k] != "\n"
    ensures Pending(ts[..i]) == 0
  {
    if i > 0 {
      assert ts[..i][..i - 1] == ts[..i - 1];
      PendingWithoutBreaks(ts, i - 1);
    }
  }

  lemma PartitionWithoutBreaks(ts: seq<string>, minSplit: int)
    requires minSplit > 0
    requires forall k :: 0 <= k < |ts| ==> ts[k] != "\n"
    ensures Partition(ts, minSplit) == if Survivors(ts) == [] then [] else [Survivors(ts)]
  {
    forall i | 0 <= i <= |ts|
      ensures Pending(ts[..i]) < minSplit
    {
      PendingWithoutBreaks(ts, i);
    }
    assert Quiet(ts, minSplit);
    PartitionQuiet(ts, minSplit);
  }

  /** Without an early flush `group_text_nodes` returns at most one node, and one
      exactly when some token survives. */
  lemma GroupedQuiet(u: Tables, fragments: seq<string>, minSplit: Option<int>)
    requires fragments != [] && SplitThreshold(fragments, minSplit) > 0
    requires Quiet(Tokens(fragments), SplitThreshold(fragments, minSplit))
    ensures |Grouped(u, fragments, minSplit).value| == if Survivors(Tokens(fragments)) == [] then 0 else 1
  {
    PartitionQuiet(Tokens(fragments), SplitThreshold(fragments, minSplit));
  }

  /** Threshold 0: the nodes are the raw surviving tokens, one per node. */
  lemma GroupedZero(u: Tables, fragments: seq<string>)
    requires fragments != []
    ensures Grouped(u, fragments, Some(0)) == Some(Singletons(Survivors(Tokens(fragments))))
  {
    var ts := Tokens(fragments);
    PartitionEager(ts, 0);
    PartitionWellFormed(ts, 0);
    EmitAllRaw(u, Partition(ts, 0));
  }

  lemma {:induction false} EmitAllRaw(u: Tables, nodes: seq<seq<string>>)
    requires WellFormed(nodes)
    ensures EmitAll(u, nodes, 0) == nodes
  {
    if nodes != [] {
      var front := nodes[..|nodes| - 1];
      assert WellFormed(front);
      EmitAllRaw(u, front);
      assert front + [nodes[|nodes| - 1]] == nodes;
    }
  }

  lemma {:induction false} EmitAllClean(u: Tables, nodes: seq<seq<string>>, minSplit: int)
    requires WellFormed(nodes) && minSplit != 0
    ensures forall k, j :: 0 <= k < |nodes| && 0 <= j < |EmitAll(u, nodes, minSplit)[k]| ==>
              CleanPart(EmitAll(u, nodes, minSplit)[k][j])
  {
    if nodes != [] {
      var front := nodes[..|nodes| - 1];
      assert WellFormed(front);
      EmitAllClean(u, front, minSplit);
      RegroupedClean(u, nodes[|nodes| - 1]);
    }
  }

  /** A non-zero threshold: every string returned is a non-empty trimmed sentence
      without `|`. */
  lemma GroupedClean(u: Tables, fragments: seq<string>, minSplit: Option<int>)
    requires fragments != [] && SplitThreshold(fragments, minSplit) != 0
    ensures var r := Grouped(u, fragments, minSplit).value;
            forall k, j :: 0 <= k < |r| && 0 <= j < |r[k]| ==> CleanPart(r[k][j])
  {
    var m := SplitThreshold(fragments, minSplit);
    PartitionWellFormed(Tokens(fragments), m);
    EmitAllClean(u, Partition(Tokens(fragments), m), m);
  }

  /** Without a caller's threshold the threshold is at least 1, so nodes are regrouped. */
  lemma DefaultThresholdRegroups(fragments: seq<string>)
    ensures SplitThreshold(fragments, None) >= 1
  {
    MinSplitBounds(fragments);
  }
}
