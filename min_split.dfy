/**
  `select_min_split` (html_parsing_tools/src/text_nodes.rs): the paragraph-break
  threshold of a page.  It records, for every non-blank fragment that follows a run of
  `"\n"` fragments after the first non-blank fragment, the length of that run; the
  threshold is the upper median of those lengths, bumped by one when some run is longer.
 */
module MinSplit {
  import opened Unicode
  import opened Strings

  /** A fragment with a non-whitespace character: one `str::trim` does not reduce to
      `""` (`TrimProperties`). */
  predicate NonBlank(f: string) {
    !NoWordChar(f)
  }

  /** A fragment that is exactly one line feed. */
  predicate IsBreak(f: string) {
    f == "\n"
  }

  /** The loop state: `counter_started`, `breaks_count`, `breaks_counts`. */
  datatype Counter = Counter(started: bool, count: int, runs: seq<int>)

  const Initial := Counter(false, 0, [])

  /** One iteration of the counting loop. */
  function CountStep(c: Counter, f: string): Counter {
    if f == "" then c
    else if c.started then
      if IsBreak(f) then c.(count := c.count + 1)
      else if NonBlank(f) && c.count > 0 then Counter(true, 0, c.runs + [c.count])
      else c
    else if NonBlank(f) then c.(started := true)
    else c
  }

  function CountFrom(c: Counter, fs: seq<string>): Counter
    decreases |fs|
  {
    if fs == [] then c else CountFrom(CountStep(c, fs[0]), fs[1..])
  }

  /** The recorded break runs (`breaks_counts` before sorting). */
  function BreakRuns(fs: seq<string>): seq<int> {
    CountFrom(Initial, fs).runs
  }

  // ---------------------------------------------------------------------------
  // `Vec::sort` on integers, as a function.

  predicate Sorted(s: seq<int>) {
    forall i, j :: 0 <= i < j < |s| ==> s[i] <= s[j]
  }

  lemma SortedCons(a: int, t: seq<int>)
    requires Sorted(t) && (t == [] || a <= t[0])
    ensures Sorted([a] + t)
  {
    var r := [a] + t;
    forall i, j | 0 <= i < j < |r| ensures r[i] <= r[j] {
      if i > 0 {
        assert r[i] == t[i - 1] && r[j] == t[j - 1];
      } else {
        assert r[j] == t[j - 1] && t[0] <= t[j - 1];
      }
    }
  }

  function Insert(x: int, s: seq<int>): (r: seq<int>)
    ensures |r| == |s| + 1 && multiset(r) == multiset(s) + multiset{x}
    ensures r[0] == if s == [] || x <= s[0] then x else s[0]
  {
    if s == [] then [x]
    else if x <= s[0] then [x] + s
    else
      assert s == [s[0]] + s[1..];
      [s[0]] + Insert(x, s[1..])
  }

  /** Inserting into a sorted sequence keeps it sorted. */
  lemma {:induction false} InsertSorted(x: int, s: seq<int>)
    requires Sorted(s)
    ensures Sorted(Insert(x, s))
  {
    if s == [] {
    } else if x <= s[0] {
      SortedCons(x, s);
    } else {
      var t := Insert(x, s[1..]);
      InsertSorted(x, s[1..]);
      SortedCons(s[0], t);
      assert Insert(x, s) == [s[0]] + t;
    }
  }

  function Sort(s: seq<int>): (r: seq<int>)
    ensures |r| == |s| && Sorted(r) && multiset(r) == multiset(s)
  {
    if s == [] then []
    else
      assert s == [s[0]] + s[1..];
      InsertSorted(s[0], Sort(s[1..]));
      Insert(s[0], Sort(s[1..]))
  }

  lemma SortMembers(s: seq<int>)
    ensures forall x :: x in Sort(s) <==> x in s
  {
    assert forall x :: x in Sort(s) <==> x in multiset(Sort(s));
  }

  /** The threshold the recorded runs give: 1 without runs, otherwise the element at
      index `len / 2` of the sorted runs, plus one when some run exceeds it. */
  function Threshold(runs: seq<int>): int {
    if runs == [] then 1
    else
      var m := Median(runs);
      if SomeLonger(runs, m) then m + 1 else m
  }

  /** The element at index `len / 2` of the sorted runs; one of the runs. */
  function Median(runs: seq<int>): (m: int)
    requires runs != []
    ensures m in runs
  {
    SortMembers(runs);
    Sort(runs)[|runs| / 2]
  }

  lemma SortedLonger(runs: seq<int>, k: int, m: int)
    requires 0 <= k < |runs| && Sort(runs)[k] > m
    ensures SomeLonger(runs, m)
  {
    SortMembers(runs);
    assert Sort(runs)[k] in runs;
  }

  lemma SortedNotLonger(runs: seq<int>, m: int)
    requires forall j :: 0 <= j < |runs| ==> Sort(runs)[j] <= m
    ensures !SomeLonger(runs, m)
  {
    SortMembers(runs);
    forall k | 0 <= k < |runs| ensures runs[k] <= m {
      assert runs[k] in Sort(runs);
    }
  }

  lemma MedianOfSorted(runs: seq<int>)
    requires runs != []
    ensures Median(runs) == Sort(runs)[|runs| / 2]
  {
  }

  /** The threshold of non-empty runs, by whether a run exceeds their median. */
  lemma ThresholdByMedian(runs: seq<int>, m: int)
    requires runs != [] && m == Median(runs)
    ensures SomeLonger(runs, m) ==> Threshold(runs) == m + 1
    ensures !SomeLonger(runs, m) ==> Threshold(runs) == m
  {
  }

  /** Some run is longer than `m`. */
  predicate SomeLonger(runs: seq<int>, m: int) {
    exists k :: 0 <= k < |runs| && runs[k] > m
  }

  /** What `select_min_split` returns. */
  function MinSplitOf(fs: seq<string>): int {
    Threshold(BreakRuns(fs))
  }

  method SelectMinSplit(fragments: seq<string>) returns (minSplit: int)
    ensures minSplit == MinSplitOf(fragments)
  {
    var breaksCounts := CountBreakRuns(fragments);
    if breaksCounts == [] {
      return 1;
    }
    var runs := breaksCounts;
    breaksCounts := Sort(breaksCounts);
    var mid := |breaksCounts| / 2;
    var median := breaksCounts[mid];
    MedianOfSorted(runs);
    for k := 0 to |breaksCounts|
      invariant forall j :: 0 <= j < k ==> breaksCounts[j] <= median
    {
      if breaksCounts[k] > median {
        SortedLonger(runs, k, median);
        ThresholdByMedian(runs, median);
        return median + 1;
      }
    }
    SortedNotLonger(runs, median);
    ThresholdByMedian(runs, median);
    minSplit := median;
  }

  /** The counting loop of `select_min_split`. */
  method CountBreakRuns(fragments: seq<string>) returns (breaksCounts: seq<int>)
    ensures breaksCounts == BreakRuns(fragments)
  {
    breaksCounts := [];
    var breaksCount := 0;
    var counterStarted := false;
    for i := 0 to |fragments|
      invariant CountFrom(Counter(counterStarted, breaksCount, breaksCounts), fragments[i..])
             == CountFrom(Initial, fragments)
    {
      assert fragments[i..][1..] == fragments[i + 1..];
      var sentence := fragments[i];
      TrimProperties(sentence);
      if sentence == "" {
        continue;
      }
      if counterStarted {
        if sentence == "\n" {
          breaksCount := breaksCount + 1;
        } else if Trim(sentence) != "" && breaksCount > 0 {
          breaksCounts := breaksCounts + [breaksCount];
          breaksCount := 0;
        }
      } else if Trim(sentence) != "" {
        counterStarted := true;
      }
    }
    assert fragments[|fragments|..] == [];
  }

  // ---------------------------------------------------------------------------
  // Properties of the runs.

  lemma {:induction false} CountFromRunsPositive(c: Counter, fs: seq<string>)
    requires c.count >= 0
    requires forall k :: 0 <= k < |c.runs| ==> c.runs[k] >= 1
    ensures forall k :: 0 <= k < |CountFrom(c, fs).runs| ==> CountFrom(c, fs).runs[k] >= 1
    decreases |fs|
  {
    if fs != [] {
      CountFromRunsPositive(CountStep(c, fs[0]), fs[1..]);
    }
  }

  /** Every recorded run has at least one break. */
  lemma BreakRunsPositive(fs: seq<string>)
    ensures forall k :: 0 <= k < |BreakRuns(fs)| ==> BreakRuns(fs)[k] >= 1
  {
    CountFromRunsPositive(Initial, fs);
  }

  /** A non-blank fragment, later a `"\n"` fragment, later again a non-blank fragment. */
  predicate BreakBetween(fs: seq<string>) {
    exists i, j, k :: 0 <= i < j < k < |fs| && NonBlank(fs[i]) && IsBreak(fs[j]) && NonBlank(fs[k])
  }

  predicate HasNonBlank(fs: seq<string>) {
    exists k :: 0 <= k < |fs| && NonBlank(fs[k])
  }

  /** A `"\n"` fragment followed, later, by a non-blank one. */
  predicate BreakThenNonBlank(fs: seq<string>) {
    exists j, k :: 0 <= j < k < |fs| && IsBreak(fs[j]) && NonBlank(fs[k])
  }

  lemma HasNonBlankCons(fs: seq<string>)
    requires fs != []
    ensures HasNonBlank(fs) <==> NonBlank(fs[0]) || HasNonBlank(fs[1..])
  {
    if HasNonBlank(fs) && !NonBlank(fs[0]) {
      var k :| 0 <= k < |fs| && NonBlank(fs[k]);
      assert fs[1..][k - 1] == fs[k];
    }
    if HasNonBlank(fs[1..]) {
      var k :| 0 <= k < |fs[1..]| && NonBlank(fs[1..][k]);
      assert fs[k + 1] == fs[1..][k];
    }
  }

  lemma BreakThenNonBlankCons(fs: seq<string>)
    requires fs != []
    ensures BreakThenNonBlank(fs) <==> (IsBreak(fs[0]) && HasNonBlank(fs[1..])) || BreakThenNonBlank(fs[1..])
  {
    var t := fs[1..];
    if BreakThenNonBlank(fs) {
      var j, k :| 0 <= j < k < |fs| && IsBreak(fs[j]) && NonBlank(fs[k]);
      assert t[k - 1] == fs[k];
      if j > 0 {
        assert t[j - 1] == fs[j];
      }
    }
    if fs[0] == "\n" && HasNonBlank(t) {
      var k :| 0 <= k < |t| && NonBlank(t[k]);
      assert fs[k + 1] == t[k];
    }
    if BreakThenNonBlank(t) {
      var j, k :| 0 <= j < k < |t| && IsBreak(t[j]) && NonBlank(t[k]);
      assert fs[j + 1] == t[j] && fs[k + 1] == t[k];
    }
  }

  lemma BreakBetweenConsDown(fs: seq<string>)
    requires fs != [] && BreakBetween(fs)
    ensures (NonBlank(fs[0]) && BreakThenNonBlank(fs[1..])) || BreakBetween(fs[1..])
  {
    var t := fs[1..];
    var i, j, k :| 0 <= i < j < k < |fs| && NonBlank(fs[i]) && IsBreak(fs[j]) && NonBlank(fs[k]);
    assert t[k - 1] == fs[k] && t[j - 1] == fs[j];
    if i > 0 {
      assert t[i - 1] == fs[i];
      assert BreakBetween(t);
    } else {
      assert BreakThenNonBlank(t);
    }
  }

  lemma BreakBetweenConsUp(fs: seq<string>)
    requires fs != []
    requires (NonBlank(fs[0]) && BreakThenNonBlank(fs[1..])) || BreakBetween(fs[1..])
    ensures BreakBetween(fs)
  {
    var t := fs[1..];
    if NonBlank(fs[0]) && BreakThenNonBlank(t) {
      var j, k :| 0 <= j < k < |t| && IsBreak(t[j]) && NonBlank(t[k]);
      assert fs[j + 1] == t[j] && fs[k + 1] == t[k];
      assert NonBlank(fs[0]) && IsBreak(fs[j + 1]) && NonBlank(fs[k + 1]);
    } else {
      var i, j, k :| 0 <= i < j < k < |t| && NonBlank(t[i]) && IsBreak(t[j]) && NonBlank(t[k]);
      assert fs[i + 1] == t[i] && fs[j + 1] == t[j] && fs[k + 1] == t[k];
    }
  }

  lemma BreakBetweenCons(fs: seq<string>)
    requires fs != []
    ensures BreakBetween(fs) <==> (NonBlank(fs[0]) && BreakThenNonBlank(fs[1..])) || BreakBetween(fs[1..])
  {
    if BreakBetween(fs) {
      BreakBetweenConsDown(fs);
    }
    if (NonBlank(fs[0]) && BreakThenNonBlank(fs[1..])) || BreakBetween(fs[1..]) {
      BreakBetweenConsUp(fs);
    }
  }

  lemma LineBreakIsBlank()
    ensures forall f :: IsBreak(f) ==> !NonBlank(f)
  {
    forall f | IsBreak(f) ensures !NonBlank(f) {
      assert IsWhitespace(f[0]);
    }
  }

  lemma {:induction false} CountFromGrows(c: Counter, fs: seq<string>)
    ensures |CountFrom(c, fs).runs| >= |c.runs|
    decreases |fs|
  {
    if fs != [] {
      CountFromGrows(CountStep(c, fs[0]), fs[1..]);
    }
  }

  /** When the loop, from state `c`, records a new run. */
  lemma {:induction false} CountFromRecords(c: Counter, fs: seq<string>)
    requires c.count >= 0 && (!c.started ==> c.count == 0)
    ensures |CountFrom(c, fs).runs| > |c.runs| <==>
      || (c.started && c.count > 0 && HasNonBlank(fs))
      || (c.started && BreakThenNonBlank(fs))
      || BreakBetween(fs)
    decreases |fs|
  {
    if fs != [] {
      var f, t := fs[0], fs[1..];
      var c' := CountStep(c, f);
      HasNonBlankCons(fs);
      BreakThenNonBlankCons(fs);
      BreakBetweenCons(fs);
      LineBreakIsBlank();
      CountFromRecords(c', t);
      CountFromGrows(c', t);
    }
  }

  /** No run is recorded exactly when no `"\n"` fragment lies between two non-blank
      fragments: in particular for an empty input, for breaks only before the first
      non-blank fragment and for breaks only after the last one. */
  lemma BreakRunsEmpty(fs: seq<string>)
    ensures BreakRuns(fs) == [] <==> !BreakBetween(fs)
  {
    CountFromRecords(Initial, fs);
  }

  /** Without recorded runs the threshold is 1. */
  lemma MinSplitWithoutRuns(fs: seq<string>)
    requires !BreakBetween(fs)
    ensures MinSplitOf(fs) == 1
  {
    BreakRunsEmpty(fs);
  }

  // ---------------------------------------------------------------------------
  // Properties of the threshold.

  /** Number of elements below (`NumBelow`) and not above (`NumAtMost`) a value. */
  function NumBelow(s: seq<int>, v: int): (n: nat)
    ensures n <= |s|
  {
    if s == [] then 0 else (if s[0] < v then 1 else 0) + NumBelow(s[1..], v)
  }

  function NumAtMost(s: seq<int>, v: int): (n: nat)
    ensures n <= |s|
  {
    if s == [] then 0 else (if s[0] <= v then 1 else 0) + NumAtMost(s[1..], v)
  }

  lemma {:induction false} CountsOfInsert(x: int, s: seq<int>, v: int)
    ensures NumBelow(Insert(x, s), v) == NumBelow(s, v) + (if x < v then 1 else 0)
    ensures NumAtMost(Insert(x, s), v) == NumAtMost(s, v) + (if x <= v then 1 else 0)
  {
    if s != [] && x > s[0] {
      var r := [s[0]] + Insert(x, s[1..]);
      assert r[1..] == Insert(x, s[1..]);
      CountsOfInsert(x, s[1..], v);
    } else if s != [] {
      assert ([x] + s)[1..] == s;
    }
  }

  lemma {:induction false} CountsOfSort(s: seq<int>, v: int)
    ensures NumBelow(Sort(s), v) == NumBelow(s, v)
    ensures NumAtMost(Sort(s), v) == NumAtMost(s, v)
  {
    if s != [] {
      CountsOfSort(s[1..], v);
      CountsOfInsert(s[0], Sort(s[1..]), v);
    }
  }

  lemma {:induction false} NumBelowBound(s: seq<int>, v: int, k: nat)
    requires k <= |s|
    requires forall i :: k <= i < |s| ==> s[i] >= v
    ensures NumBelow(s, v) <= k
  {
    if s != [] {
      NumBelowBound(s[1..], v, if k == 0 then 0 else k - 1);
    }
  }

  lemma {:induction false} NumAtMostBound(s: seq<int>, v: int, k: nat)
    requires k <= |s|
    requires forall i :: 0 <= i < k ==> s[i] <= v
    ensures NumAtMost(s, v) >= k
  {
    if k > 0 {
      NumAtMostBound(s[1..], v, k - 1);
    }
  }

  /** The value at index `len / 2` of the sorted runs is an upper median of the runs:
      one of them, with at most `len / 2` runs below it and more than `len / 2` runs not
      above it. */
  lemma MedianRank(runs: seq<int>)
    requires runs != []
    ensures var m := Median(runs);
      && m in runs
      && NumBelow(runs, m) <= |runs| / 2 < NumAtMost(runs, m)
  {
    var s := Sort(runs);
    var h := |runs| / 2;
    var m := s[h];
    SortMembers(runs);
    assert m in s;
    CountsOfSort(runs, m);
    SortedRank(s, h);
  }

  lemma SortedRank(s: seq<int>, h: nat)
    requires Sorted(s) && h < |s|
    ensures NumBelow(s, s[h]) <= h < NumAtMost(s, s[h])
  {
    NumBelowBound(s, s[h], h);
    NumAtMostBound(s, s[h], h + 1);
  }

  /** The threshold lies between 1 and the largest run, and is the median or the median
      plus one, the latter exactly when some run is longer than the median. */
  lemma ThresholdBounds(runs: seq<int>)
    requires runs != []
    requires forall k :: 0 <= k < |runs| ==> runs[k] >= 1
    ensures 1 <= Threshold(runs)
    ensures exists k :: 0 <= k < |runs| && Threshold(runs) <= runs[k]
  {
    var m := Median(runs);
    var j :| 0 <= j < |runs| && runs[j] == m;
    var k := j;
    if SomeLonger(runs, m) {
      k :| 0 <= k < |runs| && runs[k] > m;
    }
    assert Threshold(runs) <= runs[k] && 1 <= runs[j] <= Threshold(runs);
  }

  /** Runs that all equal `k` give the threshold `k`. */
  lemma ThresholdUniform(runs: seq<int>, k: int)
    requires runs != []
    requires forall i :: 0 <= i < |runs| ==> runs[i] == k
    ensures Threshold(runs) == k
  {
    var m := Median(runs);
    var j :| 0 <= j < |runs| && runs[j] == m;
  }

  /** `select_min_split` never returns less than 1, nor more than the longest run. */
  lemma MinSplitBounds(fs: seq<string>)
    ensures 1 <= MinSplitOf(fs)
    ensures BreakRuns(fs) != [] ==>
      exists k :: 0 <= k < |BreakRuns(fs)| && MinSplitOf(fs) <= BreakRuns(fs)[k]
  {
    BreakRunsPositive(fs);
    if BreakRuns(fs) != [] {
      ThresholdBounds(BreakRuns(fs));
    }
  }

  // ---------------------------------------------------------------------------
  // The cases of the unit test of `select_min_split` (text_nodes.rs:303-330).  The
  // run lemmas hold for any non-blank texts in place of the test's digits.

  /** The median is determined by its rank: a value with at most `len / 2` runs below it
      and more than `len / 2` runs not above it is the median. */
  lemma MedianByRank(runs: seq<int>, v: int)
    requires runs != [] && NumBelow(runs, v) <= |runs| / 2 < NumAtMost(runs, v)
    ensures Median(runs) == v
  {
    var m := Median(runs);
    MedianRank(runs);
    if m < v {
      AtMostBelow(runs, m, v);
    } else if v < m {
      AtMostBelow(runs, v, m);
    }
  }

  lemma {:induction false} AtMostBelow(s: seq<int>, a: int, b: int)
    requires a < b
    ensures NumAtMost(s, a) <= NumBelow(s, b)
  {
    if s != [] {
      AtMostBelow(s[1..], a, b);
    }
  }

  lemma {:induction false} CountFromSnoc(c: Counter, fs: seq<string>, f: string)
    ensures CountFrom(c, fs + [f]) == CountStep(CountFrom(c, fs), f)
    decreases |fs|
  {
    if fs == [] {
      assert [] + [f] == [f];
    } else {
      assert (fs + [f])[1..] == fs[1..] + [f];
      CountFromSnoc(CountStep(c, fs[0]), fs[1..], f);
    }
  }

  /** A non-blank fragment is neither skipped as empty nor counted as a line feed. */
  lemma LineBreakNotText(a: string)
    requires NonBlank(a)
    ensures a != "" && a != "\n"
  {
    LineBreakIsBlank();
  }

  /** Texts separated by single line feeds, with empty fragments between */
  lemma {:induction false} RunsOfSingleBreaks(a: string, b: string, c: string, d: string)
    requires NonBlank(a) && NonBlank(b) && NonBlank(c) && NonBlank(d)
    ensures BreakRuns([a, "\n", "", b, "\n", c, "\n", "", d]) == [1, 1, 1]
  {
    LineBreakIsBlank();
    LineBreakNotText(a);
    LineBreakNotText(b);
    LineBreakNotText(c);
    LineBreakNotText(d);
    var br, em := "\n", "";
    assert CountFrom(Initial, [a]) == Counter(true, 0, []);
    assert CountFrom(Initial, [a, br]) == Counter(true, 1, []) by {
      assert [a, br] == [a] + [br];
      CountFromSnoc(Initial, [a], br);
    }
    assert CountFrom(Initial, [a, br, em]) == Counter(true, 1, []) by {
      assert [a, br, em] == [a, br] + [em];
      CountFromSnoc(Initial, [a, br], em);
    }
    assert CountFrom(Initial, [a, br, em, b]) == Counter(true, 0, [1]) by {
      assert [a, br, em, b] == [a, br, em] + [b];
      CountFromSnoc(Initial, [a, br, em], b);
    }
    assert CountFrom(Initial, [a, br, em, b, br]) == Counter(true, 1, [1]) by {
      assert [a, br, em, b, br] == [a, br, em, b] + [br];
      CountFromSnoc(Initial, [a, br, em, b], br);
    }
    assert CountFrom(Initial, [a, br, em, b, br, c]) == Counter(true, 0, [1, 1]) by {
      assert [a, br, em, b, br, c] == [a, br, em, b, br] + [c];
      CountFromSnoc(Initial, [a, br, em, b, br], c);
    }
    assert CountFrom(Initial, [a, br, em, b, br, c, br]) == Counter(true, 1, [1, 1]) by {
      assert [a, br, em, b, br, c, br] == [a, br, em, b, br, c] + [br];
      CountFromSnoc(Initial, [a, br, em, b, br, c], br);
    }
    assert CountFrom(Initial, [a, br, em, b, br, c, br, em]) == Counter(true, 1, [1, 1]) by {
      assert [a, br, em, b, br, c, br, em] == [a, br, em, b, br, c, br] + [em];
      CountFromSnoc(Initial, [a, br, em, b, br, c, br], em);
    }
    assert CountFrom(Initial, [a, br, em, b, br, c, br, em, d]) == Counter(true, 0, [1, 1, 1]) by {
      assert [a, br, em, b, br, c, br, em, d] == [a, br, em, b, br, c, br, em] + [d];
      CountFromSnoc(Initial, [a, br, em, b, br, c, br, em], d);
    }
  }

  /** Texts separated by two line feeds each */
  lemma {:induction false} RunsOfDoubleBreaks(a: string, b: string, c: string, d: string)
    requires NonBlank(a) && NonBlank(b) && NonBlank(c) && NonBlank(d)
    ensures BreakRuns([a, "\n", "\n", b, "\n", "\n", c, "\n", "\n", d]) == [2, 2, 2]
  {
    LineBreakIsBlank();
    LineBreakNotText(a);
    LineBreakNotText(b);
    LineBreakNotText(c);
    LineBreakNotText(d);
    var br, em := "\n", "";
    assert CountFrom(Initial, [a]) == Counter(true, 0, []);
    assert CountFrom(Initial, [a, br]) == Counter(true, 1, []) by {
      assert [a, br] == [a] + [br];
      CountFromSnoc(Initial, [a], br);
    }
    assert CountFrom(Initial, [a, br, br]) == Counter(true, 2, []) by {
      assert [a, br, br] == [a, br] + [br];
      CountFromSnoc(Initial, [a, br], br);
    }
    assert CountFrom(Initial, [a, br, br, b]) == Counter(true, 0, [2]) by {
      assert [a, br, br, b] == [a, br, br] + [b];
      CountFromSnoc(Initial, [a, br, br], b);
    }
    assert CountFrom(Initial, [a, br, br, b, br]) == Counter(true, 1, [2]) by {
      assert [a, br, br, b, br] == [a, br, br, b] + [br];
      CountFromSnoc(Initial, [a, br, br, b], br);
    }
    assert CountFrom(Initial, [a, br, br, b, br, br]) == Counter(true, 2, [2]) by {
      assert [a, br, br, b, br, br] == [a, br, br, b, br] + [br];
      CountFromSnoc(Initial, [a, br, br, b, br], br);
    }
    assert CountFrom(Initial, [a, br, br, b, br, br, c]) == Counter(true, 0, [2, 2]) by {
      assert [a, br, br, b, br, br, c] == [a, br, br, b, br, br] + [c];
      CountFromSnoc(Initial, [a, br, br, b, br, br], c);
    }
    assert CountFrom(Initial, [a, br, br, b, br, br, c, br]) == Counter(true, 1, [2, 2]) by {
      assert [a, br, br, b, br, br, c, br] == [a, br, br, b, br, br, c] + [br];
      CountFromSnoc(Initial, [a, br, br, b, br, br, c], br);
    }
    assert CountFrom(Initial, [a, br, br, b, br, br, c, br, br]) == Counter(true, 2, [2, 2]) by {
      assert [a, br, br, b, br, br, c, br, br] == [a, br, br, b, br, br, c, br] + [br];
      CountFromSnoc(Initial, [a, br, br, b, br, br, c, br], br);
    }
    assert CountFrom(Initial, [a, br, br, b, br, br, c, br, br, d]) == Counter(true, 0, [2, 2, 2]) by {
      assert [a, br, br, b, br, br, c, br, br, d] == [a, br, br, b, br, br, c, br, br] + [d];
      CountFromSnoc(Initial, [a, br, br, b, br, br, c, br, br], d);
    }
  }

  /** Texts separated by two, three and two line feeds */
  lemma {:induction false} RunsOfMixedBreaks(a: string, b: string, c: string, d: string)
    requires NonBlank(a) && NonBlank(b) && NonBlank(c) && NonBlank(d)
    ensures BreakRuns([a, "\n", "\n", b, "\n", "\n", "\n", c, "\n", "\n", d]) == [2, 3, 2]
  {
    LineBreakIsBlank();
    LineBreakNotText(a);
    LineBreakNotText(b);
    LineBreakNotText(c);
    LineBreakNotText(d);
    var br, em := "\n", "";
    assert CountFrom(Initial, [a]) == Counter(true, 0, []);
    assert CountFrom(Initial, [a, br]) == Counter(true, 1, []) by {
      assert [a, br] == [a] + [br];
      CountFromSnoc(Initial, [a], br);
    }
    assert CountFrom(Initial, [a, br, br]) == Counter(true, 2, []) by {
      assert [a, br, br] == [a, br] + [br];
      CountFromSnoc(Initial, [a, br], br);
    }
    assert CountFrom(Initial, [a, br, br, b]) == Counter(true, 0, [2]) by {
      assert [a, br, br, b] == [a, br, br] + [b];
      CountFromSnoc(Initial, [a, br, br], b);
    }
    assert CountFrom(Initial, [a, br, br, b, br]) == Counter(true, 1, [2]) by {
      assert [a, br, br, b, br] == [a, br, br, b] + [br];
      CountFromSnoc(Initial, [a, br, br, b], br);
    }
    assert CountFrom(Initial, [a, br, br, b, br, br]) == Counter(true, 2, [2]) by {
      assert [a, br, br, b, br, br] == [a, br, br, b, br] + [br];
      CountFromSnoc(Initial, [a, br, br, b, br], br);
    }
    assert CountFrom(Initial, [a, br, br, b, br, br, br]) == Counter(true, 3, [2]) by {
      assert [a, br, br, b, br, br, br] == [a, br, br, b, br, br] + [br];
      CountFromSnoc(Initial, [a, br, br, b, br, br], br);
    }
    assert CountFrom(Initial, [a, br, br, b, br, br, br, c]) == Counter(true, 0, [2, 3]) by {
      assert [a, br, br, b, br, br, br, c] == [a, br, br, b, br, br, br] + [c];
      CountFromSnoc(Initial, [a, br, br, b, br, br, br], c);
    }
    assert CountFrom(Initial, [a, br, br, b, br, br, br, c, br]) == Counter(true, 1, [2, 3]) by {
      assert [a, br, br, b, br, br, br, c, br] == [a, br, br, b, br, br, br, c] + [br];
      CountFromSnoc(Initial, [a, br, br, b, br, br, br, c], br);
    }
    assert CountFrom(Initial, [a, br, br, b, br, br, br, c, br, br]) == Counter(true, 2, [2, 3]) by {
      assert [a, br, br, b, br, br, br, c, br, br] == [a, br, br, b, br, br, br, c, br] + [br];
      CountFromSnoc(Initial, [a, br, br, b, br, br, br, c, br], br);
    }
    assert CountFrom(Initial, [a, br, br, b, br, br, br, c, br, br, d]) == Counter(true, 0, [2, 3, 2]) by {
      assert [a, br, br, b, br, br, br, c, br, br, d] == [a, br, br, b, br, br, br, c, br, br] + [d];
      CountFromSnoc(Initial, [a, br, br, b, br, br, br, c, br, br], d);
    }
  }

  /** Line feeds before the first text are not counted; adjacent texts record nothing */
  lemma {:induction false} RunsAfterLeadingBreaks(a: string, b: string, c: string)
    requires NonBlank(a) && NonBlank(b) && NonBlank(c)
    ensures BreakRuns(["\n", "\n", "\n", a, b, "\n", "\n", "\n", "\n", c]) == [4]
  {
    LineBreakIsBlank();
    LineBreakNotText(a);
    LineBreakNotText(b);
    LineBreakNotText(c);
    var br, em := "\n", "";
    assert CountFrom(Initial, [br]) == Initial;
    assert CountFrom(Initial, [br, br]) == Initial by {
      assert [br, br] == [br] + [br];
      CountFromSnoc(Initial, [br], br);
    }
    assert CountFrom(Initial, [br, br, br]) == Initial by {
      assert [br, br, br] == [br, br] + [br];
      CountFromSnoc(Initial, [br, br], br);
    }
    assert CountFrom(Initial, [br, br, br, a]) == Counter(true, 0, []) by {
      assert [br, br, br, a] == [br, br, br] + [a];
      CountFromSnoc(Initial, [br, br, br], a);
    }
    assert CountFrom(Initial, [br, br, br, a, b]) == Counter(true, 0, []) by {
      assert [br, br, br, a, b] == [br, br, br, a] + [b];
      CountFromSnoc(Initial, [br, br, br, a], b);
    }
    assert CountFrom(Initial, [br, br, br, a, b, br]) == Counter(true, 1, []) by {
      assert [br, br, br, a, b, br] == [br, br, br, a, b] + [br];
      CountFromSnoc(Initial, [br, br, br, a, b], br);
    }
    assert CountFrom(Initial, [br, br, br, a, b, br, br]) == Counter(true, 2, []) by {
      assert [br, br, br, a, b, br, br] == [br, br, br, a, b, br] + [br];
      CountFromSnoc(Initial, [br, br, br, a, b, br], br);
    }
    assert CountFrom(Initial, [br, br, br, a, b, br, br, br]) == Counter(true, 3, []) by {
      assert [br, br, br, a, b, br, br, br] == [br, br, br, a, b, br, br] + [br];
      CountFromSnoc(Initial, [br, br, br, a, b, br, br], br);
    }
    assert CountFrom(Initial, [br, br, br, a, b, br, br, br, br]) == Counter(true, 4, []) by {
      assert [br, br, br, a, b, br, br, br, br] == [br, br, br, a, b, br, br, br] + [br];
      CountFromSnoc(Initial, [br, br, br, a, b, br, br, br], br);
    }
    assert CountFrom(Initial, [br, br, br, a, b, br, br, br, br, c]) == Counter(true, 0, [4]) by {
      assert [br, br, br, a, b, br, br, br, br, c] == [br, br, br, a, b, br, br, br, br] + [c];
      CountFromSnoc(Initial, [br, br, br, a, b, br, br, br, br], c);
    }
  }

  /** Texts with no line feed between them record no run */
  lemma {:induction false} RunsWithoutBreaks(a: string, b: string, c: string, d: string)
    requires NonBlank(a) && NonBlank(b) && NonBlank(c) && NonBlank(d)
    ensures BreakRuns([a, b, c, d]) == []
  {
    LineBreakIsBlank();
    LineBreakNotText(a);
    LineBreakNotText(b);
    LineBreakNotText(c);
    LineBreakNotText(d);
    var br, em := "\n", "";
    assert CountFrom(Initial, [a]) == Counter(true, 0, []);
    assert CountFrom(Initial, [a, b]) == Counter(true, 0, []) by {
      assert [a, b] == [a] + [b];
      CountFromSnoc(Initial, [a], b);
    }
    assert CountFrom(Initial, [a, b, c]) == Counter(true, 0, []) by {
      assert [a, b, c] == [a, b] + [c];
      CountFromSnoc(Initial, [a, b], c);
    }
    assert CountFrom(Initial, [a, b, c, d]) == Counter(true, 0, []) by {
      assert [a, b, c, d] == [a, b, c] + [d];
      CountFromSnoc(Initial, [a, b, c], d);
    }
  }

  /** Line feeds after the last text are never recorded */
  lemma {:induction false} RunsOfTrailingBreaks(a: string, b: string)
    requires NonBlank(a) && NonBlank(b)
    ensures BreakRuns(["\n", "\n", "\n", a, b, "\n", "\n", "\n", "\n", "\n"]) == []
  {
    LineBreakIsBlank();
    LineBreakNotText(a);
    LineBreakNotText(b);
    var br, em := "\n", "";
    assert CountFrom(Initial, [br]) == Initial;
    assert CountFrom(Initial, [br, br]) == Initial by {
      assert [br, br] == [br] + [br];
      CountFromSnoc(Initial, [br], br);
    }
    assert CountFrom(Initial, [br, br, br]) == Initial by {
      assert [br, br, br] == [br, br] + [br];
      CountFromSnoc(Initial, [br, br], br);
    }
    assert CountFrom(Initial, [br, br, br, a]) == Counter(true, 0, []) by {
      assert [br, br, br, a] == [br, br, br] + [a];
      CountFromSnoc(Initial, [br, br, br], a);
    }
    assert CountFrom(Initial, [br, br, br, a, b]) == Counter(true, 0, []) by {
      assert [br, br, br, a, b] == [br, br, br, a] + [b];
      CountFromSnoc(Initial, [br, br, br, a], b);
    }
    assert CountFrom(Initial, [br, br, br, a, b, br]) == Counter(true, 1, []) by {
      assert [br, br, br, a, b, br] == [br, br, br, a, b] + [br];
      CountFromSnoc(Initial, [br, br, br, a, b], br);
    }
    assert CountFrom(Initial, [br, br, br, a, b, br, br]) == Counter(true, 2, []) by {
      assert [br, br, br, a, b, br, br] == [br, br, br, a, b, br] + [br];
      CountFromSnoc(Initial, [br, br, br, a, b, br], br);
    }
    assert CountFrom(Initial, [br, br, br, a, b, br, br, br]) == Counter(true, 3, []) by {
      assert [br, br, br, a, b, br, br, br] == [br, br, br, a, b, br, br] + [br];
      CountFromSnoc(Initial, [br, br, br, a, b, br, br], br);
    }
    assert CountFrom(Initial, [br, br, br, a, b, br, br, br, br]) == Counter(true, 4, []) by {
      assert [br, br, br, a, b, br, br, br, br] == [br, br, br, a, b, br, br, br] + [br];
      CountFromSnoc(Initial, [br, br, br, a, b, br, br, br], br);
    }
    assert CountFrom(Initial, [br, br, br, a, b, br, br, br, br, br]) == Counter(true, 5, []) by {
      assert [br, br, br, a, b, br, br, br, br, br] == [br, br, br, a, b, br, br, br, br] + [br];
      CountFromSnoc(Initial, [br, br, br, a, b, br, br, br, br], br);
    }
  }

  /** Line feeds alone never start the counter */
  lemma {:induction false} RunsOfBreaksOnly()
    ensures BreakRuns(["\n", "\n", "\n", "\n", "\n", "\n", "\n", "\n", "\n"]) == []
  {
    LineBreakIsBlank();
    var br, em := "\n", "";
    assert CountFrom(Initial, [br]) == Initial;
    assert CountFrom(Initial, [br, br]) == Initial by {
      assert [br, br] == [br] + [br];
      CountFromSnoc(Initial, [br], br);
    }
    assert CountFrom(Initial, [br, br, br]) == Initial by {
      assert [br, br, br] == [br, br] + [br];
      CountFromSnoc(Initial, [br, br], br);
    }
    assert CountFrom(Initial, [br, br, br, br]) == Initial by {
      assert [br, br, br, br] == [br, br, br] + [br];
      CountFromSnoc(Initial, [br, br, br], br);
    }
    assert CountFrom(Initial, [br, br, br, br, br]) == Initial by {
      assert [br, br, br, br, br] == [br, br, br, br] + [br];
      CountFromSnoc(Initial, [br, br, br, br], br);
    }
    assert CountFrom(Initial, [br, br, br, br, br, br]) == Initial by {
      assert [br, br, br, br, br, br] == [br, br, br, br, br] + [br];
      CountFromSnoc(Initial, [br, br, br, br, br], br);
    }
    assert CountFrom(Initial, [br, br, br, br, br, br, br]) == Initial by {
      assert [br, br, br, br, br, br, br] == [br, br, br, br, br, br] + [br];
      CountFromSnoc(Initial, [br, br, br, br, br, br], br);
    }
    assert CountFrom(Initial, [br, br, br, br, br, br, br, br]) == Initial by {
      assert [br, br, br, br, br, br, br, br] == [br, br, br, br, br, br, br] + [br];
      CountFromSnoc(Initial, [br, br, br, br, br, br, br], br);
    }
    assert CountFrom(Initial, [br, br, br, br, br, br, br, br, br]) == Initial by {
      assert [br, br, br, br, br, br, br, br, br] == [br, br, br, br, br, br, br, br] + [br];
      CountFromSnoc(Initial, [br, br, br, br, br, br, br, br], br);
    }
  }

  lemma DigitsNonBlank()
    ensures NonBlank("1") && NonBlank("2") && NonBlank("3") && NonBlank("4")
  {
    assert !IsWhitespace("1"[0]) && !IsWhitespace("2"[0]);
    assert !IsWhitespace("3"[0]) && !IsWhitespace("4"[0]);
  }

  lemma SingleBreaksExample()
    ensures MinSplitOf(["1", "\n", "", "2", "\n", "3", "\n", "", "4"]) == 1
  {
    DigitsNonBlank();
    RunsOfSingleBreaks("1", "2", "3", "4");
    ThresholdUniform([1, 1, 1], 1);
  }

  lemma DoubleBreaksExample()
    ensures MinSplitOf(["1", "\n", "\n", "2", "\n", "\n", "3", "\n", "\n", "4"]) == 2
  {
    DigitsNonBlank();
    RunsOfDoubleBreaks("1", "2", "3", "4");
    ThresholdUniform([2, 2, 2], 2);
  }

  lemma MixedBreaksExample()
    ensures MinSplitOf(["1", "\n", "\n", "2", "\n", "\n", "\n", "3", "\n", "\n", "4"]) == 3
  {
    DigitsNonBlank();
    RunsOfMixedBreaks("1", "2", "3", "4");
    MedianByRank([2, 3, 2], 2);
    assert SomeLonger([2, 3, 2], 2) by { assert [2, 3, 2][1] > 2; }
  }

  lemma LeadingBreaksExample()
    ensures MinSplitOf(["\n", "\n", "\n", "1", "2", "\n", "\n", "\n", "\n", "3"]) == 4
  {
    DigitsNonBlank();
    RunsAfterLeadingBreaks("1", "2", "3");
    ThresholdUniform([4], 4);
  }

  lemma NoBreaksExample()
    ensures MinSplitOf(["1", "2", "3", "4"]) == 1
  {
    DigitsNonBlank();
    RunsWithoutBreaks("1", "2", "3", "4");
  }

  lemma TrailingBreaksExample()
    ensures MinSplitOf(["\n", "\n", "\n", "1", "2", "\n", "\n", "\n", "\n", "\n"]) == 1
  {
    DigitsNonBlank();
    RunsOfTrailingBreaks("1", "2");
  }

  lemma BreaksOnlyExample()
    ensures MinSplitOf(["\n", "\n", "\n", "\n", "\n", "\n", "\n", "\n", "\n"]) == 1
  {
    RunsOfBreaksOnly();
  }

  /** The eight assertions of the unit test of `select_min_split`. */
  lemma SelectMinSplitExamples()
    ensures MinSplitOf(["1", "\n", "", "2", "\n", "3", "\n", "", "4"]) == 1
    ensures MinSplitOf(["1", "\n", "\n", "2", "\n", "\n", "3", "\n", "\n", "4"]) == 2
    ensures MinSplitOf(["1", "\n", "\n", "2", "\n", "\n", "\n", "3", "\n", "\n", "4"]) == 3
    ensures MinSplitOf(["\n", "\n", "\n", "1", "2", "\n", "\n", "\n", "\n", "3"]) == 4
    ensures MinSplitOf(["1", "2", "3", "4"]) == 1
    ensures MinSplitOf(["\n", "\n", "\n", "1", "2", "\n", "\n", "\n", "\n", "\n"]) == 1
    ensures MinSplitOf(["\n", "\n", "\n", "\n", "\n", "\n", "\n", "\n", "\n"]) == 1
    ensures MinSplitOf([]) == 1
  {
    SingleBreaksExample();
    DoubleBreaksExample();
    MixedBreaksExample();
    LeadingBreaksExample();
    NoBreaksExample();
    TrailingBreaksExample();
    BreaksOnlyExample();
  }
}
