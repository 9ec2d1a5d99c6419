# Text-node grouping and sentence segmentation, in Dafny

This project models the text engine of `html_parsing_tools` and proves properties of
the model. The engine reads the text fragments of a web page. It cuts them into line
tokens and collects the lines into text nodes at paragraph breaks. It then re-joins the
lines of each node that run on into each other, and splits the result into sentences.
The model also covers the string helpers of `utils.rs` that the page pipeline runs on
those sentences: the word counter, the whitespace normaliser, the `apply` clean-up step
and the string filter of `get_text_nodes`.

Structure, one module per part of the source:

- `Unicode`: the character classes the engine uses.
  - White_Space and the Zs category are written out in full.
  - The large tables are the fields of a `Tables` value passed to every operation: the
    General_Category punctuation classes, `[\p{L}\p{N}]`, `str::to_lowercase` and the
    ISO 3166-1 alpha-2 codes.
  - `Valid` states what is known of these tables for ASCII and for the few non-ASCII
    characters the engine names. `AsciiOnlyTables` shows that `Valid` can be met.
- `Strings`: the standard-library string operations the engine calls, as functions, with
  the facts about them that the proofs need. These are `trim`, `split_whitespace`,
  `join`, `concat`, `replace` and `contains`.
- `Punctuation`: the constant punctuation classes of `text_nodes.rs`.
- `LineSeparator`, `MinSplit`, `Grouper`, `Regrouper`, `SentenceJoiner`,
  `SentenceSplitter`: one module per function of `text_nodes.rs`.
- `Utils`: the pure string helpers of `utils.rs`.

Each imperative Rust function is a Dafny `method` with the same loop. Its `ensures`
ties the result to a specification function: a fold, or a head recursion over the
input. The properties the source promises are lemmas about those functions. The three
regular expressions of `text_nodes.rs` are hand-written scanners: `LineTokens` for
`TEXT_LINES_RE`, `AlnumRun` for `WORD_WITH_DOT_RE` and `DelimiterAt` for
`SENTENCE_SPLIT_RE`.

The `HashSet<char>` loop of `join_sentences` visits characters in an unspecified order.
The model picks the next character with `:|`, so any order is allowed. The method's
`ensures` names a single function of the input, which proves that the result does not
depend on the order.

`regroup_node` and everything after it unwrap the first and last character of each line.
So they require every line to be non-empty. `group_text_nodes` only ever passes lines
that meet this, since each kept line has a non-blank trim.

Where the engine's design description and its code differ, the model follows the code:

- `split_sentence` only splits, trims and drops empty parts, and optionally splits again
  at a set of stop words (`split_by_words`). The stop-word regex, the `cookie` and `©`
  filter and the word-count filter are applied later by `apply` in `utils.rs`, so they
  are modelled there (`Utils.Apply`).
- `count_words` starts a new word only after ASCII whitespace (`is_ascii_whitespace`),
  not after any Unicode whitespace.
- When the flush test of `group_text_nodes` fires on an empty node, the break count is
  not reset, because the loop `continue`s before the reset.
- Lines separated by single `"\n"` fragments are not fused into one node under the
  default threshold. Every run of breaks then has length 1, so `select_min_split` returns
  1. The flush test (`split_count >= min_split`) then fires at every `"\n"` that follows
  a kept line, so each line becomes a node of its own (`Grouper.PartitionSingleBreaks`).

## Model

| member | source | states |
|---|---|---|
| LineSeparator.NormalizeCr | html_parsing_tools/src/text_nodes.rs:99-101 | same length; every `\r` becomes `\n`, every other character is kept, and no `\r` is left |
| LineSeparator.SeparateLineBreakers | html_parsing_tools/src/text_nodes.rs:91-107 | the loop returns `Tokens(fragments)`: the tokens of every non-empty fragment after `\r` is rewritten, in order |
| LineSeparator.TokensShape | html_parsing_tools/src/text_nodes.rs:91-107 | every token is non-empty and has no `\r`; it is exactly `"\n"` or has no `\n` |
| LineSeparator.ConcatLineTokens | html_parsing_tools/src/text_nodes.rs:19 | the matches of `\n\|[^\n]+` concatenate back to the scanned string |
| LineSeparator.TokensRoundTrip | html_parsing_tools/src/text_nodes.rs:98-104 | the output, concatenated, is the input concatenated with `\r` replaced by `\n` |
| LineSeparator.TokensExamples | html_parsing_tools/src/text_nodes.rs:298-299 | `["\r"]` gives `["\n"]`; `["hello"]` gives `["hello"]` |
| LineSeparator.TokensExampleMixed | html_parsing_tools/src/text_nodes.rs:292-297 | the six-fragment example gives the twelve tokens the test expects |
| MinSplit.CountBreakRuns | html_parsing_tools/src/text_nodes.rs:110-129 | the counting loop returns `BreakRuns(fragments)`, the fold of its three state variables |
| MinSplit.Sort | html_parsing_tools/src/text_nodes.rs:133 | the result is sorted, has the same length and is a permutation (same multiset) of the input |
| MinSplit.Median | html_parsing_tools/src/text_nodes.rs:134-135 | the element at index `len / 2` of the sorted runs is one of the runs |
| MinSplit.SelectMinSplit | html_parsing_tools/src/text_nodes.rs:109-143 | returns `Threshold(BreakRuns(fragments))`: 1 without runs, otherwise the median, plus one when some run is longer |
| MinSplit.BreakRunsPositive | html_parsing_tools/src/text_nodes.rs:119-125 | every recorded run counts at least one break |
| MinSplit.CountFromRecords | html_parsing_tools/src/text_nodes.rs:114-129 | from any loop state, the loop records a run iff a non-blank fragment follows pending breaks, or a non-blank fragment, a `"\n"` and a non-blank fragment occur in that order |
| MinSplit.BreakRunsEmpty | html_parsing_tools/src/text_nodes.rs:114-132 | no run is recorded iff there is no `"\n"` fragment between two non-blank fragments |
| MinSplit.MinSplitWithoutRuns | html_parsing_tools/src/text_nodes.rs:130-132 | then the threshold is 1, which covers empty input and breaks only before the first or after the last text |
| MinSplit.MedianRank | html_parsing_tools/src/text_nodes.rs:133-135 | the median is a run; at most `len / 2` runs are below it and more than `len / 2` are at most it |
| MinSplit.ThresholdBounds | html_parsing_tools/src/text_nodes.rs:133-142 | for positive runs the threshold is at least 1 and at most the largest run |
| MinSplit.ThresholdUniform | html_parsing_tools/src/text_nodes.rs:137-142 | when every run equals `k`, the threshold is `k` |
| MinSplit.SelectMinSplitExamples | html_parsing_tools/src/text_nodes.rs:302-330 | the eight inputs of the unit test give the thresholds 1, 2, 3, 4, 1, 1, 1 and 1 |
| MinSplit.MinSplitBounds | html_parsing_tools/src/text_nodes.rs:109-143 | `select_min_split` is at least 1, and at most some recorded run when there is one |
| Grouper.LeadsWithTextTrim | html_parsing_tools/src/text_nodes.rs:64-68 | the trimmed-token test (non-empty, not starting with `<`) is the same as "the first non-whitespace character exists and is not `<`" |
| Grouper.TakeToken | html_parsing_tools/src/text_nodes.rs:64-71 | a `"\n"` increments the count; a surviving token is appended and resets the count; anything else changes nothing |
| Grouper.EmitNode | html_parsing_tools/src/text_nodes.rs:78-82 | the pushed node is the node itself at threshold 0, otherwise the node regrouped |
| Grouper.GroupTokens | html_parsing_tools/src/text_nodes.rs:63-86 | the loop returns the emitted nodes of `Partition(tokens, threshold)`, the fold of its state |
| Grouper.Grouped | html_parsing_tools/src/text_nodes.rs:50-53 | the result is `None` iff the input slice is empty |
| Grouper.GroupTextNodes | html_parsing_tools/src/text_nodes.rs:50-89 | returns `Grouped`: no groups for no input; otherwise the caller's threshold or the computed one, the tokens of `separate_line_breakers` and the grouping loop |
| Grouper.PartitionCovers | html_parsing_tools/src/text_nodes.rs:63-86 | the nodes, concatenated, are exactly the surviving tokens, in order |
| Grouper.PartitionEager | html_parsing_tools/src/text_nodes.rs:73-86 | with a threshold of at most 0, every surviving token is a node of its own |
| Grouper.PartitionSingleBreaks | html_parsing_tools/src/text_nodes.rs:63-86 | with a threshold of at most 1, when every surviving token but the last is followed at once by `"\n"`, every surviving token is a node of its own |
| Grouper.PartitionSingleBreaksExample | html_parsing_tools/src/text_nodes.rs:73 | `["1", "\n", "2", "\n", "3"]` under threshold 1 gives the three nodes `["1"]`, `["2"]`, `["3"]` |
| Grouper.EmitAllRaw | html_parsing_tools/src/text_nodes.rs:78-79 | with threshold 0 the nodes are emitted unchanged |
| Grouper.GroupedZero | html_parsing_tools/src/text_nodes.rs:50-89 | `Some(0)` gives one singleton group per surviving line, untrimmed, in document order |
| Grouper.PartitionQuiet | html_parsing_tools/src/text_nodes.rs:73 | when no pending count of breaks reaches the threshold, there is at most one node, holding every surviving token |
| Grouper.PartitionWithoutBreaks | html_parsing_tools/src/text_nodes.rs:73 | with a positive threshold and no `"\n"` token, the same holds |
| Grouper.GroupedQuiet | html_parsing_tools/src/text_nodes.rs:59-86 | at most one group is emitted (none when no token survives) when the threshold in use is positive and never reached |
| Grouper.GroupedClean | html_parsing_tools/src/text_nodes.rs:78-82 | with a non-zero threshold every emitted string is non-empty, trimmed and has no `\|` |
| Grouper.DefaultThresholdRegroups | html_parsing_tools/src/text_nodes.rs:59 | without a caller's threshold it is at least 1, so nodes are always regrouped |
| Regrouper.CloseChain | html_parsing_tools/src/text_nodes.rs:264-268 | a closed chain contributes `split_sentence(join_sentences(chain))` |
| Regrouper.RegroupNode | html_parsing_tools/src/text_nodes.rs:238-280 | the loop returns `Regrouped(node)`: a single line is split directly, otherwise each chain of tied lines is joined and split, in order |
| Regrouper.ChainsCover | html_parsing_tools/src/text_nodes.rs:243-271 | the chains, concatenated, are exactly the lines of the node |
| Regrouper.ChainsMaximal | html_parsing_tools/src/text_nodes.rs:252-270 | consecutive lines in a chain are tied, and the last line of a chain is never tied to the first line of the next |
| Regrouper.AllTiedRegrouped | html_parsing_tools/src/text_nodes.rs:252-277 | when every adjacent pair is tied, the node is joined once and then split |
| Regrouper.NoneTiedSingletons | html_parsing_tools/src/text_nodes.rs:252-270 | when no pair is tied, every line is a chain of its own, in order |
| Regrouper.RegroupedSingleLine | html_parsing_tools/src/text_nodes.rs:438-441 | the single line `"Más información y precios"` comes back unchanged |
| Regrouper.RegroupedPair | html_parsing_tools/src/text_nodes.rs:252-277 | two tied lines are joined and then split |
| Regrouper.RegroupedSnocPair | html_parsing_tools/src/text_nodes.rs:252-277 | appending two tied lines that are not tied to the last line appends their own regrouping to the result |
| Regrouper.RegroupedVinissimus | html_parsing_tools/src/text_nodes.rs:479-501 | the ten lines of the test, five site names each followed by its bracketed language, give the five sentences `"vinissimus.com (español)"` … `"hispavinus.de (deutsch)"` |
| Regrouper.RegroupedClean | html_parsing_tools/src/text_nodes.rs:238-280 | every string of the result is non-empty, trimmed and free of `\|` |
| Punctuation.ClassesDisjoint | html_parsing_tools/src/text_nodes.rs:6-16 | no character is both open-like and close-like, and whitespace is neither; `[` `(` are open-like and `)` `.` close-like |
| SentenceSplitter.DelimiterAt | html_parsing_tools/src/text_nodes.rs:44 | a match of the split pattern is at most two characters long and lies inside the string |
| SentenceSplitter.SplitRoundTrip | html_parsing_tools/src/text_nodes.rs:152 | there is one more part than delimiters, and parts and delimiters interleaved give back the string |
| SentenceSplitter.SplitPartsNoDelimiter | html_parsing_tools/src/text_nodes.rs:152 | no part contains a match of the split pattern |
| SentenceSplitter.SplitPartsOfUndelimited | html_parsing_tools/src/text_nodes.rs:152 | a string without a match splits into itself alone |
| SentenceSplitter.SplitByWords | html_parsing_tools/src/text_nodes.rs:166-184 | the loop returns `WordGroups`, the fold of its `result`/`temp` state over the words |
| SentenceSplitter.WordGroupsProperties | html_parsing_tools/src/text_nodes.rs:166-184 | every group is non-empty, single-spaced and free of stop words (after lower-casing); the groups' words are the non-stop words, in order |
| SentenceSplitter.KeepOne | html_parsing_tools/src/text_nodes.rs:153-159 | one part contributes nothing when its trim is empty, otherwise its trim or the trim's word groups |
| SentenceSplitter.SplitSentence | html_parsing_tools/src/text_nodes.rs:145-164 | the loop returns `Sentences`, the contributions of every part, in order |
| SentenceSplitter.KeepPartClean | html_parsing_tools/src/text_nodes.rs:153-159 | what one part contributes is non-empty, trimmed and free of `\|`; without stop words it holds no match of the pattern |
| SentenceSplitter.SentencesClean | html_parsing_tools/src/text_nodes.rs:145-164 | every output string is non-empty, trimmed and free of `\|`; without stop words none holds a match of the pattern |
| SentenceSplitter.SentencesOfUndelimited | html_parsing_tools/src/text_nodes.rs:145-164 | a string without a match gives its trim alone, or nothing when the trim is empty |
| SentenceSplitter.SentencesOfBars | html_parsing_tools/src/text_nodes.rs:334-338 | `"about \| hello \| world"` without stop words gives `["about", "hello", "world"]` |
| SentenceSplitter.SentencesWords | html_parsing_tools/src/text_nodes.rs:145-184 | with stop words, the output's words are the non-stop words of every part, part by part, in order |
| SentenceJoiner.AlnumRun | html_parsing_tools/src/text_nodes.rs:25 | the longest prefix of letters and numbers: a prefix, all letters or numbers, and followed by none |
| SentenceJoiner.MarkWord | html_parsing_tools/src/text_nodes.rs:193-205 | a word gets the marker in front iff it is a protected `.word` token, and the flag says whether it did |
| SentenceJoiner.MarkWords | html_parsing_tools/src/text_nodes.rs:192-206 | the first loop marks every word and reports whether any word is protected |
| SentenceJoiner.RemoveSpaces | html_parsing_tools/src/text_nodes.rs:208-229 | the second loop, in any order of the characters, returns `Respaced`: the words with no space after any open-like character or before any close-like one |
| SentenceJoiner.OpenStep | html_parsing_tools/src/text_nodes.rs:217-228 | replacing `"c "` by `"c"` drops exactly the spaces after words ending in `c` |
| SentenceJoiner.CloseStep | html_parsing_tools/src/text_nodes.rs:221-228 | replacing `" c"` by `"c"` drops exactly the spaces before words starting with `c` |
| SentenceJoiner.JoinSentences | html_parsing_tools/src/text_nodes.rs:186-236 | the whole function returns `Joined(lines)` |
| SentenceJoiner.MarkedDrops | html_parsing_tools/src/text_nodes.rs:208-229 | after the marking, the gaps the second loop drops are those of the rule: no space after an open-like end, none before a close-like start unless the word is protected |
| SentenceJoiner.UnmarkSpaced | html_parsing_tools/src/text_nodes.rs:231-233 | removing the markers gives back the unmarked words, with the same gaps |
| SentenceJoiner.JoinedMeaning | html_parsing_tools/src/text_nodes.rs:186-236 | the output is the words of the lines, each gap a single space unless the rule drops it |
| SentenceJoiner.JoinedKeepsText | html_parsing_tools/src/text_nodes.rs:186-236 | the output without whitespace equals the input lines, concatenated, without whitespace |
| SentenceJoiner.JoinedSingleSpaced | html_parsing_tools/src/text_nodes.rs:186-236 | the output has no leading, trailing or repeated whitespace, and every whitespace left is `' '` |
| SentenceJoiner.JoinedPlain | html_parsing_tools/src/text_nodes.rs:192-208 | lines without open-like, close-like or backslash characters give their words joined by single spaces |
| SentenceJoiner.JoinedTel | html_parsing_tools/src/text_nodes.rs:370-372 | `["tel.", ":", "+390441234567"]` gives `"tel.: +390441234567"`: no space before the `:`, one before the number |
| SentenceJoiner.JoinedDotWords | html_parsing_tools/src/text_nodes.rs:416-429 | the nine lines `"F#,"` … `"and .com domains."` give `"F#, .NET, C# ect. Please, add .gitignore and .travis.yml for all .dk and .com domains."`: `.NET`, `.gitignore`, `.travis.yml`, `.dk` and `.com` are protected, so the space before each stays |
| SentenceJoiner.JoinedEmpty | html_parsing_tools/src/text_nodes.rs:432-433 | no lines give `""` |
| Utils.CountWords | html_parsing_tools/src/utils.rs:175-193 | the loop returns `WordCount(s)`, the fold of `total`/`previous` plus one for non-empty input |
| Utils.WordCountPositions | html_parsing_tools/src/utils.rs:177-191 | for non-empty `s`, 1 plus the positions whose previous character is ASCII whitespace and whose own is an ASCII letter, digit or punctuation mark |
| Utils.WordCountBounds | html_parsing_tools/src/utils.rs:175-193 | 0 iff `s` is empty, and at most 1 plus the number of ASCII whitespace characters |
| Utils.WordCountOfWord | html_parsing_tools/src/utils.rs:177-191 | a non-empty string without ASCII whitespace counts as one word |
| Utils.TrimPunctuation | html_parsing_tools/src/utils.rs:165-173 | the input or the input without its last character, the latter exactly when that character is `.` or `,` |
| Utils.TrimWhitespace | html_parsing_tools/src/utils.rs:151-163 | the loop returns `TrimmedWhitespace(s)` |
| Utils.TrimmedWhitespaceText | html_parsing_tools/src/utils.rs:151-163 | the words joined by single spaces keep every non-whitespace character in order; the result is that or that minus one final `.` or `,`; all-whitespace gives `""` |
| Utils.TrimmedWhitespaceKeepsSpace | html_parsing_tools/src/utils.rs:151-163 | `"a ."` gives `"a "`: the result need not be right-trimmed |
| Utils.Cleaned | html_parsing_tools/src/utils.rs:25-26 | after the two `map` steps a sentence is single-spaced |
| Utils.ApplyOne | html_parsing_tools/src/utils.rs:25-27 | one sentence gives at most one output, and that output is clean |
| Utils.AdmittedCount | html_parsing_tools/src/utils.rs:27 | the `count_words(n) > 0` condition of the filter is the same as `n` being non-empty |
| Utils.Apply | html_parsing_tools/src/utils.rs:22-29 | never longer than the input; every element trimmed, single-spaced, non-empty, free of `cookie` (any case) and of `©` |
| Utils.ApplyAppend | html_parsing_tools/src/utils.rs:22-29 | `apply` works element by element in input order: on a concatenation it is the concatenation of the results |
| Utils.ApplyOfClean | html_parsing_tools/src/utils.rs:22-29 | clean input that the stop-word pattern leaves alone passes through unchanged |
| Utils.TextNodeStrings | html_parsing_tools/src/utils.rs:130-136 | every kept string is non-empty, trimmed and not markup-like; never more than given |
| Utils.TextNodeStringsAppend | html_parsing_tools/src/utils.rs:127-136 | the filter works node by node in document order |
| Utils.PlainTextKept | html_parsing_tools/src/utils.rs:130-136 | a text with non-blank trim and no `<` is kept, trimmed |

## Left out

- The DOM side of the library is not part of this model: kuchiki parsing, selectors,
  node detaching, the pyo3 bindings, the rayon parallel map and the e-mail finder. The
  DOM traversal of `utils.rs` is left out too; only the string filter of
  `get_text_nodes` is modelled, over the node texts it is given.
- The regex engine is not modelled. The three patterns of `text_nodes.rs` are
  hand-written scanners. The caller's stop-word regex in `apply` is a parameter, a
  function from string to string.
- The Unicode tables are not written out: General_Category, `[\p{L}\p{N}]`,
  `to_lowercase` and `rust_iso3166::ALL_ALPHA2`. They are parameters, and `Valid`
  states what is known of them. White_Space and Zs are written out.
- `f64` parsing is a predicate on the letter/number run: decimal digits, digits `e`
  digits, and `inf`, `infinity`, `nan`. No floating-point values are modelled.
- Integer widths are not modelled. `i32` and `usize` are unbounded integers, because the
  counters the source keeps are bounded by the input length.
- MinSplit.Sort: `Vec::sort` sorts in place in the source. Here it is a function on
  sequences (an insertion sort), since only the sorted values matter.
- SentenceJoiner.JoinedMeaning, SentenceJoiner.JoinedKeepsText and
  SentenceJoiner.JoinedSingleSpaced require that no line contains a backslash. The
  source's property only needs the text to be free of the marker `[\DOT]`. The stronger
  requirement keeps the marker analysis local.
- Grouper.PartitionQuiet and Grouper.GroupedQuiet state the "no early flush" case with
  `Quiet`: every count of breaks pending since the last surviving token stays below the
  threshold. "Every run of consecutive `\n` tokens is below the threshold" is stated
  differently, because blank tokens between two `\n` tokens do not reset the count.
- Two literal tests depend on table entries that `Valid` does not fix, so they cannot be
  restated: the last case of `regroup_node` (text_nodes.rs:503-515) and the test of
  `group_text_nodes` (:593-651). Both need the category of `á`, which comes before a
  space in their input.
- The other literal tests follow from `Valid`. Of those, the model restates only some as
  lemmas: the `select_min_split` test, the first case of `split_sentence`, the `tel.`,
  `.NET`/`.dk` and empty cases of `join_sentences`, and the single-line and `vinissimus`
  cases of `regroup_node`. The remaining cases are not restated, because the proofs over
  their long literal strings cost too much. These are the other `split_sentence` cases
  (:339-366), the `Vinissimus`, `Polina` and `Transporte` cases of `join_sentences`
  (:374-411), and the two other cases of `regroup_node` (:443-477).
- `separate_line_breakers` copies strings and `text_nodes` owns vectors. Ownership,
  allocation and `String::with_capacity` have no counterpart in the model.
