/**
  The Rust standard-library string operations the engine relies on, as functions:
  `str::trim`, `str::split_whitespace`, `[String]::join`, `str::contains` and
  `str::replace` (left-to-right, non-overlapping), with the facts about them that the
  engine's proofs use.
 */
module Strings {
  import opened Unicode

  predicate NoWhitespace(w: string) {
    forall i :: 0 <= i < |w| ==> !IsWhitespace(w[i])
  }

  /** A word in the sense of `split_whitespace`: non-empty, without whitespace. */
  predicate IsWord(w: string) {
    w != [] && NoWhitespace(w)
  }

  predicate AllWords(ws: seq<string>) {
    forall k :: 0 <= k < |ws| ==> IsWord(ws[k])
  }

  function Last(s: string): char
    requires s != []
  {
    s[|s| - 1]
  }

  function TrimStart(s: string): (r: string)
    ensures |r| <= |s| && r == s[|s| - |r|..]
    ensures r == [] || !IsWhitespace(r[0])
    ensures forall i :: 0 <= i < |s| - |r| ==> IsWhitespace(s[i])
  {
    if s != [] && IsWhitespace(s[0]) then TrimStart(s[1..]) else s
  }

  function TrimEnd(s: string): (r: string)
    ensures |r| <= |s| && r == s[..|r|]
    ensures r == [] || !IsWhitespace(Last(r))
    ensures forall i :: |r| <= i < |s| ==> IsWhitespace(s[i])
  {
    if s != [] && IsWhitespace(Last(s)) then TrimEnd(s[..|s| - 1]) else s
  }

  /** `str::trim`: strip leading and trailing White_Space. */
  function Trim(s: string): string {
    TrimEnd(TrimStart(s))
  }

  predicate IsTrimmed(s: string) {
    s == [] || (!IsWhitespace(s[0]) && !IsWhitespace(Last(s)))
  }

  /** Number of characters `str::trim` removes at the front. */
  function TrimOffset(s: string): nat {
    |s| - |TrimStart(s)|
  }

  lemma TrimProperties(s: string)
    ensures IsTrimmed(Trim(s))
    ensures TrimOffset(s) + |Trim(s)| <= |s|
    ensures Trim(s) == s[TrimOffset(s)..TrimOffset(s) + |Trim(s)|]
    ensures Trim(s) == [] <==> NoWordChar(s)
  {
    TrimTrimmed(s);
    TrimSlice(s);
    TrimEmpty(s);
  }

  lemma TrimTrimmed(s: string)
    ensures IsTrimmed(Trim(s))
  {
    var a := TrimStart(s);
    var r := TrimEnd(a);
    if r != [] {
      assert r[0] == a[0];
    }
  }

  lemma TrimSlice(s: string)
    ensures TrimOffset(s) + |Trim(s)| <= |s|
    ensures Trim(s) == s[TrimOffset(s)..TrimOffset(s) + |Trim(s)|]
  {
    var a := TrimStart(s);
    var r := TrimEnd(a);
    SliceOfSlice(s, a, r, |s| - |a|);
  }

  lemma SliceOfSlice(s: string, a: string, r: string, k: nat)
    requires k <= |s| && a == s[k..] && |r| <= |a| && r == a[..|r|]
    ensures r == s[k..k + |r|]
  {
  }

  lemma TrimEmpty(s: string)
    ensures Trim(s) == [] <==> NoWordChar(s)
  {
    var a := TrimStart(s);
    if TrimEnd(a) == [] {
      assert a == [];
    } else {
      assert TrimEnd(a)[0] == a[0] == s[|s| - |a|];
    }
  }

  /** Every character is whitespace. */
  predicate NoWordChar(s: string) {
    forall i :: 0 <= i < |s| ==> IsWhitespace(s[i])
  }

  lemma TrimOfTrimmed(s: string)
    requires IsTrimmed(s)
    ensures Trim(s) == s
  {
  }

  /** Length of the maximal whitespace-free prefix of `s`. */
  function WordLen(s: string): (n: nat)
    requires s != [] && !IsWhitespace(s[0])
    ensures 0 < n <= |s|
    ensures forall i :: 0 <= i < n ==> !IsWhitespace(s[i])
    ensures n == |s| || IsWhitespace(s[n])
  {
    if |s| == 1 || IsWhitespace(s[1]) then 1 else 1 + WordLen(s[1..])
  }

  /** `str::split_whitespace`: the maximal whitespace-free runs, in order. */
  function SplitWhitespace(s: string): (r: seq<string>)
    ensures AllWords(r)
    decreases |s|
  {
    if s == [] then []
    else if IsWhitespace(s[0]) then SplitWhitespace(s[1..])
    else
      var n := WordLen(s);
      [s[..n]] + SplitWhitespace(s[n..])
  }

  /** `[String]::join(sep)`. */
  function Join(parts: seq<string>, sep: string): string {
    if parts == [] then ""
    else if |parts| == 1 then parts[0]
    else parts[0] + sep + Join(parts[1..], sep)
  }

  /** `[String]::concat`. */
  function Concat(parts: seq<string>): string {
    if parts == [] then "" else parts[0] + Concat(parts[1..])
  }

  /** The characters of `s` that are not whitespace, in order. */
  function RemoveWhitespace(s: string): string {
    if s == [] then ""
    else (if IsWhitespace(s[0]) then "" else [s[0]]) + RemoveWhitespace(s[1..])
  }

  /** Whitespace only as single `' '` characters between two non-whitespace characters:
      no leading or trailing whitespace, no run of two. */
  predicate SingleSpaced(s: string) {
    forall i :: 0 <= i < |s| && IsWhitespace(s[i]) ==>
      s[i] == ' ' && 0 < i < |s| - 1 && !IsWhitespace(s[i + 1])
  }

  /** `str::contains` for a string pattern. */
  predicate Contains(s: string, pat: string) {
    exists i :: 0 <= i <= |s| - |pat| && OccursAt(s, pat, i)
  }

  predicate OccursAt(s: string, pat: string, i: nat) {
    i + |pat| <= |s| && s[i..i + |pat|] == pat
  }

  /** `str::replace`: replace every non-overlapping occurrence of `pat`, scanning from the left. */
  function ReplaceAll(s: string, pat: string, rep: string): string
    requires pat != []
    decreases |s|
  {
    if |s| < |pat| then s
    else if s[..|pat|] == pat then rep + ReplaceAll(s[|pat|..], pat, rep)
    else [s[0]] + ReplaceAll(s[1..], pat, rep)
  }

  // ---------------------------------------------------------------------------
  // Facts about these functions.

  /** Associativity of `+` on sequences, as an explicit step for long proofs. */
  lemma AppendAssoc<T>(a: seq<T>, b: seq<T>, c: seq<T>)
    ensures (a + b) + c == a + (b + c)
  {
  }

  lemma RemoveWhitespaceAppend(a: string, b: string)
    ensures RemoveWhitespace(a + b) == RemoveWhitespace(a) + RemoveWhitespace(b)
    decreases |a|
  {
    if a != [] {
      var head := if IsWhitespace(a[0]) then "" else [a[0]];
      assert (a + b)[0] == a[0];
      assert (a + b)[1..] == a[1..] + b;
      RemoveWhitespaceAppend(a[1..], b);
      calc {
        RemoveWhitespace(a + b);
        head + RemoveWhitespace(a[1..] + b);
        head + (RemoveWhitespace(a[1..]) + RemoveWhitespace(b));
        (head + RemoveWhitespace(a[1..])) + RemoveWhitespace(b);
      }
    } else {
      assert a + b == b;
    }
  }

  lemma RemoveWhitespaceOfWord(w: string)
    requires NoWhitespace(w)
    ensures RemoveWhitespace(w) == w
  {
    if w != [] { RemoveWhitespaceOfWord(w[1..]); }
  }

  lemma RemoveWhitespaceOfBlank(s: string)
    requires NoWordChar(s)
    ensures RemoveWhitespace(s) == ""
  {
    if s != [] { RemoveWhitespaceOfBlank(s[1..]); }
  }

  /** The words of `split_whitespace` are exactly the non-whitespace characters. */
  lemma {:induction false} ConcatSplitWhitespace(s: string)
    ensures Concat(SplitWhitespace(s)) == RemoveWhitespace(s)
    decreases |s|
  {
    if s == [] {
    } else if IsWhitespace(s[0]) {
      ConcatSplitWhitespace(s[1..]);
    } else {
      var n := WordLen(s);
      ConcatSplitWhitespace(s[n..]);
      assert s == s[..n] + s[n..];
      RemoveWhitespaceAppend(s[..n], s[n..]);
      RemoveWhitespaceOfWord(s[..n]);
      assert SplitWhitespace(s)[1..] == SplitWhitespace(s[n..]);
    }
  }

  /** Joining with spaces does not change the non-whitespace characters. */
  lemma {:induction false} RemoveWhitespaceJoin(parts: seq<string>)
    ensures RemoveWhitespace(Join(parts, " ")) == RemoveWhitespace(Concat(parts))
  {
    if |parts| == 1 {
      assert Concat(parts[1..]) == "";
      assert Concat(parts) == parts[0] + "";
      assert parts[0] + "" == parts[0];
    } else if |parts| > 1 {
      var rest := Join(parts[1..], " ");
      RemoveWhitespaceJoin(parts[1..]);
      assert RemoveWhitespace(" ") == "";
      calc {
        RemoveWhitespace(Join(parts, " "));
        RemoveWhitespace((parts[0] + " ") + rest);
        { RemoveWhitespaceAppend(parts[0] + " ", rest); }
        RemoveWhitespace(parts[0] + " ") + RemoveWhitespace(rest);
        { RemoveWhitespaceAppend(parts[0], " "); }
        RemoveWhitespace(parts[0]) + RemoveWhitespace(Concat(parts[1..]));
        { RemoveWhitespaceAppend(parts[0], Concat(parts[1..])); }
        RemoveWhitespace(Concat(parts));
      }
    }
  }

  lemma ConcatAppend(a: seq<string>, b: seq<string>)
    ensures Concat(a + b) == Concat(a) + Concat(b)
  {
    if a != [] {
      assert (a + b)[0] == a[0];
      assert (a + b)[1..] == a[1..] + b;
      ConcatAppend(a[1..], b);
      calc {
        Concat(a + b);
        a[0] + Concat(a[1..] + b);
        a[0] + (Concat(a[1..]) + Concat(b));
        (a[0] + Concat(a[1..])) + Concat(b);
      }
    } else {
      assert a + b == b;
    }
  }

  lemma JoinAppendOne(parts: seq<string>, x: string, sep: string)
    ensures Join(parts + [x], sep) == if parts == [] then x else Join(parts, sep) + sep + x
  {
    if |parts| > 1 {
      assert (parts + [x])[1..] == parts[1..] + [x];
      JoinAppendOne(parts[1..], x, sep);
    }
  }

  lemma JoinFirst(parts: seq<string>)
    requires parts != [] && parts[0] != []
    ensures Join(parts, " ") != [] && Join(parts, " ")[0] == parts[0][0]
  {
  }

  lemma JoinLast(parts: seq<string>)
    requires parts != [] && parts[|parts| - 1] != []
    ensures Join(parts, " ") != [] && Last(Join(parts, " ")) == Last(parts[|parts| - 1])
  {
    if |parts| > 1 { JoinLast(parts[1..]); }
  }

  /** A character of one of the parts is a character of the joined string. */
  lemma {:induction false} JoinHasPartChars(parts: seq<string>, sep: string, k: nat, i: nat)
    requires k < |parts| && i < |parts[k]|
    ensures parts[k][i] in Join(parts, sep)
  {
    if |parts| > 1 {
      if k == 0 {
        assert Join(parts, sep)[i] == parts[0][i];
      } else {
        JoinHasPartChars(parts[1..], sep, k - 1, i);
        var rest := Join(parts[1..], sep);
        assert Join(parts, sep) == parts[0] + sep + rest;
        var j :| 0 <= j < |rest| && rest[j] == parts[k][i];
        assert Join(parts, sep)[|parts[0]| + |sep| + j] == rest[j];
      }
    }
  }

  /** Words joined by single spaces form a single-spaced, non-empty-word string. */
  lemma {:induction false} JoinWordsSingleSpaced(ws: seq<string>)
    requires AllWords(ws)
    ensures SingleSpaced(Join(ws, " "))
  {
    if |ws| > 1 {
      JoinWordsSingleSpaced(ws[1..]);
      var rest := Join(ws[1..], " ");
      JoinFirst(ws[1..]);
      var s := Join(ws, " ");
      assert s == ws[0] + " " + rest;
      forall i | 0 <= i < |s|
        ensures IsWhitespace(s[i]) ==> s[i] == ' ' && 0 < i < |s| - 1 && !IsWhitespace(s[i + 1])
      {
        if i < |ws[0]| {
          assert s[i] == ws[0][i];
        } else if i == |ws[0]| {
          assert s[i + 1] == rest[0];
        } else {
          assert s[i] == rest[i - |ws[0]| - 1];
          if i + 1 < |s| { assert s[i + 1] == rest[i - |ws[0]|]; }
        }
      }
    }
  }

  lemma SingleSpacedIsTrimmed(s: string)
    requires SingleSpaced(s)
    ensures IsTrimmed(s) && Trim(s) == s
  {
    if s != [] {
      assert !IsWhitespace(s[0]);
      assert !IsWhitespace(s[|s| - 1]);
    }
  }

  lemma SplitWhitespaceAppendWord(w: string, t: string)
    requires IsWord(w) && (t == [] || IsWhitespace(t[0]))
    ensures SplitWhitespace(w + t) == [w] + SplitWhitespace(t)
  {
    var s := w + t;
    assert s[0] == w[0];
    assert forall i :: 0 <= i < |w| ==> !IsWhitespace(s[i]);
    assert |w| == |s| || IsWhitespace(s[|w|]);
    var n := WordLen(s);
    assert n == |w|;
    assert s[..|w|] == w && s[|w|..] == t;
  }

  /** Round trip: splitting words joined by single spaces gives the words back. */
  lemma {:induction false} SplitJoinWords(ws: seq<string>)
    requires AllWords(ws)
    ensures SplitWhitespace(Join(ws, " ")) == ws
  {
    if |ws| == 1 {
      SplitWhitespaceAppendWord(ws[0], "");
      assert ws[0] + "" == ws[0];
    } else if |ws| > 1 {
      SplitJoinWords(ws[1..]);
      var rest := Join(ws[1..], " ");
      JoinFirst(ws[1..]);
      assert Join(ws, " ") == ws[0] + (" " + rest);
      SplitWhitespaceAppendWord(ws[0], " " + rest);
      assert (" " + rest)[1..] == rest;
    }
  }

  /** Conversely, a single-spaced string is the join of its words. */
  lemma {:induction false} SingleSpacedJoinSplit(s: string)
    requires SingleSpaced(s)
    ensures Join(SplitWhitespace(s), " ") == s
    decreases |s|
  {
    if s != [] {
      assert !IsWhitespace(s[0]);
      var n := WordLen(s);
      if n == |s| {
        assert s[..n] == s;
        assert SplitWhitespace(s[n..]) == [];
      } else {
        assert s[n] == ' ';
        var t := s[n + 1..];
        assert SingleSpaced(t) by {
          forall i | 0 <= i < |t| && IsWhitespace(t[i])
            ensures t[i] == ' ' && 0 < i < |t| - 1 && !IsWhitespace(t[i + 1])
          {
            assert t[i] == s[n + 1 + i];
          }
        }
        SingleSpacedJoinSplit(t);
        assert t != [] && !IsWhitespace(t[0]);
        assert s[n..][1..] == t;
        assert SplitWhitespace(s[n..]) == SplitWhitespace(t);
        assert s == s[..n] + " " + t;
      }
    }
  }

  lemma {:induction false} ReplaceAllAbsent(s: string, pat: string, rep: string)
    requires pat != [] && !Contains(s, pat)
    ensures ReplaceAll(s, pat, rep) == s
    decreases |s|
  {
    if |s| >= |pat| {
      assert !OccursAt(s, pat, 0);
      assert !Contains(s[1..], pat) by {
        if Contains(s[1..], pat) {
          var i :| 0 <= i <= |s[1..]| - |pat| && OccursAt(s[1..], pat, i);
          assert s[1..][i..i + |pat|] == s[i + 1..i + 1 + |pat|];
          assert OccursAt(s, pat, i + 1);
        }
      }
      ReplaceAllAbsent(s[1..], pat, rep);
    }
  }

  /** Scanning past a character that cannot start the pattern. */
  lemma ReplaceAllSkip(s: string, pat: string, rep: string)
    requires pat != [] && s != [] && s[0] != pat[0]
    ensures ReplaceAll(s, pat, rep) == [s[0]] + ReplaceAll(s[1..], pat, rep)
  {
  }

  /** Scanning past a prefix none of whose characters can start the pattern. */
  lemma {:induction false} ReplaceAllSkipPrefix(a: string, t: string, pat: string, rep: string)
    requires pat != [] && pat[0] !in a
    ensures ReplaceAll(a + t, pat, rep) == a + ReplaceAll(t, pat, rep)
    decreases |a|
  {
    if a != [] {
      assert (a + t)[0] == a[0];
      ReplaceAllSkip(a + t, pat, rep);
      assert (a + t)[1..] == a[1..] + t;
      assert pat[0] !in a[1..];
      ReplaceAllSkipPrefix(a[1..], t, pat, rep);
      calc {
        ReplaceAll(a + t, pat, rep);
        [a[0]] + ReplaceAll(a[1..] + t, pat, rep);
        [a[0]] + (a[1..] + ReplaceAll(t, pat, rep));
        ([a[0]] + a[1..]) + ReplaceAll(t, pat, rep);
        { assert [a[0]] + a[1..] == a; }
        a + ReplaceAll(t, pat, rep);
      }
    } else {
      assert a + t == t;
    }
  }

  lemma JoinCharFromPart(ws: seq<string>, i: nat)
    requires i < |Join(ws, " ")| && Join(ws, " ")[i] != ' '
    ensures exists m, j :: 0 <= m < |ws| && 0 <= j < |ws[m]| && ws[m][j] == Join(ws, " ")[i]
  {
    if |ws| == 1 {
      assert ws[0][i] == Join(ws, " ")[i];
    } else if |ws| > 1 {
      var s := Join(ws, " ");
      if i < |ws[0]| {
        assert ws[0][i] == s[i];
      } else {
        var rest := Join(ws[1..], " ");
        assert s == ws[0] + " " + rest;
        assert s[i] == rest[i - |ws[0]| - 1];
        JoinCharFromPart(ws[1..], i - |ws[0]| - 1);
        var m, j :| 0 <= m < |ws[1..]| && 0 <= j < |ws[1..][m]| && ws[1..][m][j] == rest[i - |ws[0]| - 1];
        assert ws[m + 1][j] == s[i];
      }
    }
  }

  /** A character of a word of `split_whitespace(t)` is a character of `t`. */
  lemma SplitWhitespaceChars(t: string, w: string, j: nat)
    requires w in SplitWhitespace(t) && j < |w|
    ensures w[j] in t
    decreases |t|
  {
    if t != [] {
      if IsWhitespace(t[0]) {
        SplitWhitespaceChars(t[1..], w, j);
        assert w[j] in t[1..];
      } else {
        var n := WordLen(t);
        if w == t[..n] {
          assert w[j] == t[j];
        } else {
          assert w in SplitWhitespace(t[n..]);
          SplitWhitespaceChars(t[n..], w, j);
          var x :| 0 <= x < |t[n..]| && t[n..][x] == w[j];
          assert t[n + x] == w[j];
        }
      }
    }
  }

  /** An occurrence at the very start is replaced. */
  lemma ReplaceAllAtStart(pat: string, r: string, rep: string)
    requires pat != []
    ensures ReplaceAll(pat + r, pat, rep) == rep + ReplaceAll(r, pat, rep)
  {
    assert (pat + r)[..|pat|] == pat && (pat + r)[|pat|..] == r;
  }

  /** Whitespace in front of a string that starts with a non-whitespace character is
      all `trim_start` removes. */
  lemma {:induction false} TrimStartPadded(a: string, t: string)
    requires NoWordChar(a) && t != [] && !IsWhitespace(t[0])
    ensures TrimStart(a + t) == t
    decreases |a|
  {
    if a == [] {
      assert a + t == t;
    } else {
      assert (a + t)[0] == a[0] && (a + t)[1..] == a[1..] + t;
      TrimStartPadded(a[1..], t);
    }
  }

  /** Whitespace after a string that ends in a non-whitespace character is all
      `trim_end` removes. */
  lemma {:induction false} TrimEndPadded(t: string, b: string)
    requires NoWordChar(b) && t != [] && !IsWhitespace(Last(t))
    ensures TrimEnd(t + b) == t
    decreases |b|
  {
    if b == [] {
      assert t + b == t;
    } else {
      var s := t + b;
      assert Last(s) == Last(b) && s[..|s| - 1] == t + b[..|b| - 1];
      TrimEndPadded(t, b[..|b| - 1]);
    }
  }

  /** `str::trim` of a trimmed, non-empty string between two runs of whitespace. */
  lemma TrimPadded(a: string, t: string, b: string)
    requires NoWordChar(a) && NoWordChar(b) && t != [] && IsTrimmed(t)
    ensures Trim(a + t + b) == t
  {
    assert a + t + b == a + (t + b);
    TrimStartPadded(a, t + b);
    TrimEndPadded(t, b);
  }

  /** A word followed by more text keeps its length as long as a whitespace character
      (or nothing) follows it. */
  lemma {:induction false} WordLenExtend(a: string, t: string)
    requires a != [] && !IsWhitespace(a[0])
    requires WordLen(a) < |a| || t == [] || IsWhitespace(t[0])
    ensures WordLen(a + t) == WordLen(a)
    decreases |a|
  {
    var s := a + t;
    assert s[0] == a[0];
    if |a| == 1 {
      assert |s| == 1 || s[1] == t[0];
    } else if IsWhitespace(a[1]) {
      assert s[1] == a[1];
    } else {
      assert s[1] == a[1] && s[1..] == a[1..] + t;
      WordLenExtend(a[1..], t);
    }
  }

  /** `split_whitespace` of two texts joined by a space: the words of the first, then
      those of the second. */
  lemma {:induction false} SplitWhitespaceSpaceJoin(a: string, b: string)
    ensures SplitWhitespace(a + " " + b) == SplitWhitespace(a) + SplitWhitespace(b)
    decreases |a|
  {
    var s := a + " " + b;
    if a == [] {
      assert s[0] == ' ' && s[1..] == b;
    } else if IsWhitespace(a[0]) {
      assert s[0] == a[0] && s[1..] == a[1..] + " " + b;
      SplitWhitespaceSpaceJoin(a[1..], b);
    } else {
      var n := WordLen(a);
      assert s == a + (" " + b);
      WordLenExtend(a, " " + b);
      assert s[..n] == a[..n];
      assert s[n..] == a[n..] + " " + b;
      SplitWhitespaceSpaceJoin(a[n..], b);
      AppendAssoc([a[..n]], SplitWhitespace(a[n..]), SplitWhitespace(b));
    }
  }

  /** The words of every line, line by line. */
  function LineWords(lines: seq<string>): seq<string> {
    if lines == [] then [] else SplitWhitespace(lines[0]) + LineWords(lines[1..])
  }

  /** The words of the lines joined by spaces are the words of each line in turn. */
  lemma {:induction false} SplitWhitespaceJoin(lines: seq<string>)
    ensures SplitWhitespace(Join(lines, " ")) == LineWords(lines)
  {
    if |lines| == 1 {
      assert LineWords(lines[1..]) == [];
    } else if |lines| > 1 {
      SplitWhitespaceSpaceJoin(lines[0], Join(lines[1..], " "));
      SplitWhitespaceJoin(lines[1..]);
    }
  }
}
