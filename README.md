# span — a Dafny model

This project models the Rust crate `span`. The crate tracks where things are in a source text.

- A `Span` records an optional absolute pair of offsets and a relative pair of (line, column) locations. When the absolute part is absent the span is "unknown", and `Span::UNKNOWN` is the sentinel of that kind. Spans merge with `add` and `aggregate`, compare with a wildcard equality and print in a compact form and an alternate (`{:#}`) form.
- `Chars` is a character stream. It knows how many characters it has produced and which line and column it has reached. It hands out token handles and closes them into spans.
- `Checkpoint` is a lookahead cursor over a `Chars`. It reads ahead without moving the stream. It then either commits, advancing the stream over what it read, or aborts, leaving the stream alone.

Files:

- `span.dfy` (module `Spans`) models `src/lib.rs` as datatypes and functions, with lemmas about them. The lemmas cover the identity, commutativity, associativity and least-upper-bound properties of `add`; `aggregate` as a right fold that covers its input and does not depend on its order; the wildcard equality; the accessors; and the display texts.
- `chars.dfy` (module `CharStream`) models `src/chars.rs` and `src/chars/checkpoint.rs` as two classes, `Chars` and `Checkpoint`. Their methods change the fields in place. Every method is specified against functions such as `Walk` (the position reached after consuming a text), `TakeWhile` and `HeadMatchesText`, and lemmas are proved about those functions. The two classes share one module because each refers to the other.
- `scenarios.dfy` (module `Scenarios`) writes the documented examples and unit tests of the stream as client methods. They rely only on the contracts of `Chars` and `Checkpoint`.

Modelling choices:

- `usize` is `nat`. `usize::MAX` appears only in the unknown sentinel, as `USIZE_MAX`.
- `Chars` holds the unread input as `remaining: seq<char>`. That is what the lookahead buffer and the boxed character iterator present together. A ghost `consumed` records what was produced, and `Valid()` ties `current` to `Walk(Origin, consumed)`.
- A `Checkpoint` holds a reference to its `Chars` plus the count `peeked`. Rust's `&mut` borrow keeps the stream untouched while a checkpoint lives. Here, `Checkpoint.Next`, `Peek` and `HeadMatches` promise `unchanged(chars)` instead.
- `Span::aggregate` depends on the `debug_assertions` build setting. That setting is the parameter `debugAssertions`. The panic raised by `expect` is the value `Panicked(message)` of type `Outcome`.
- The doc comment on `Chars` (src/chars.rs:20-21) calls the absolute offsets "byte positions". The code (src/chars.rs:172) adds 1 per character, so `loc` counts characters. The model follows the code.
- `head_matches` takes `s.len()` characters. That is the length of `s` in UTF-8 bytes (`Utf8Length`), not its number of characters. The model keeps this. `HeadMatchesNonAscii` proves the consequence: a pattern containing a non-ASCII character matches only when it is the whole rest of the input.

## Model

| member | source | states |
|---|---|---|
| Spans.IsUnknown | src/lib.rs:283-285 | a span is unknown exactly when it has no absolute part; the sentinel is unknown |
| Spans.UnknownSentinel | src/lib.rs:192-195 | `UNKNOWN` is unknown, its relative start and end are both (usize::MAX, usize::MAX) as `RelativeSpan::UNKNOWN` and `LineAndColumn::UNKNOWN` (src/lib.rs:367-370, 396-399) make them, every accessor gives none, and it prints "???" in both modes |
| Spans.IsUnknownCases | src/lib.rs:458-463 | the sentinel is unknown; an all-zero span built from positions is not |
| Spans.LexLeTotalOrder | src/lib.rs:401-409 | the (line, column) tuple order used by min and max is reflexive, total, antisymmetric and transitive |
| Spans.MinLineAndColumn | src/lib.rs:401-404 | the result is one of the two locations and is lexicographically below both |
| Spans.MaxLineAndColumn | src/lib.rs:406-409 | the result is one of the two locations and is lexicographically above both |
| Spans.AddAbsolute | src/lib.rs:341-351 | absent exactly when an operand is absent; otherwise starts at the smaller start and ends at the larger end, each taken from an operand |
| Spans.AddRelative | src/lib.rs:372-377 | starts at the lexicographically smaller start and ends at the larger end, each taken from an operand |
| Spans.CoversTransitive | src/lib.rs:267-278 | containment of spans, which `add` produces, is transitive |
| Spans.Add | src/lib.rs:267-278 | an unknown left operand yields the right; a known left and an unknown right yield the left; the result is unknown only if both are; the result covers both operands |
| Spans.AddUnknownIdentity | src/lib.rs:192-195 | `UNKNOWN` is a left identity and a right identity on known spans; an unknown span plus `UNKNOWN` is `UNKNOWN` |
| Spans.AddKnown | src/lib.rs:274-277 | for two known spans, the merge is the min/max in both coordinate systems |
| Spans.AddExample | src/lib.rs:432-456 | the unit test of `add`: (0:1–2:3, 8..9) plus (4:5–6:7, 10..11) is (0:1–6:7, 8..11) |
| Spans.AddMinimal | src/lib.rs:267-278 | whatever covers both operands also covers their merge, so the merge is the least covering span |
| Spans.AddCommutative | src/lib.rs:267-278 | `add(a, b) == add(b, a)` unless both are unknown |
| Spans.AddAssociative | src/lib.rs:267-278 | `add` is associative for all spans |
| Spans.AddWellFormed | src/lib.rs:267-278 | merging well-formed spans (start not after end, unknown only as the sentinel) gives a well-formed span |
| Spans.FoldAdd | src/lib.rs:259 | the left fold of `add` covers its starting span and every span folded into it |
| Spans.Reduce | src/lib.rs:259 | `reduce` yields nothing exactly on the empty list |
| Spans.Aggregate | src/lib.rs:258-265 | empty list: panics with "Attempted to aggregate an empty list of spans" under debug assertions, `UNKNOWN` otherwise; a non-empty list returns a span; a singleton returns its element |
| Spans.FoldAddIsMergeAll | src/lib.rs:259 | the left fold `reduce` performs equals the right fold `MergeAll` of the same list |
| Spans.AggregateIsMergeAll | src/lib.rs:258-265 | on a non-empty list, both build modes return `MergeAll` of the list |
| Spans.MergeAllCovers | src/lib.rs:197-198 | the merge of a list covers each element |
| Spans.MergeAllMinimal | src/lib.rs:197-198 | any span that covers every element covers the merge |
| Spans.MergeAllUnknown | src/lib.rs:197-198 | the merge is unknown exactly when every element is |
| Spans.MergeAllWellFormed | src/lib.rs:197-198 | merging well-formed spans gives a well-formed span |
| Spans.AggregateCovering | src/lib.rs:197-265 | `aggregate` of a non-empty list covers all elements, is covered by every common cover, is unknown exactly when all elements are, and is well formed when they are |
| Spans.AddCommutativeCanonical | src/lib.rs:267-278 | `add` commutes when every unknown operand is the sentinel |
| Spans.RemoveAt | src/lib.rs:259 | generic list helper for the permutation proof: removing one element shortens the list by one and removes exactly that element from its multiset |
| Spans.RemoveAtCanonical | src/lib.rs:259 | generic list helper for the permutation proof: removing an element keeps every element canonical |
| Spans.MergeAllCons | src/lib.rs:259 | a canonical head merges with the merge of the rest |
| Spans.RemoveAtCons | src/lib.rs:259 | generic list helper for the permutation proof: removing a later element commutes with splitting off the head |
| Spans.AddSwap | src/lib.rs:267-278 | two canonical spans can be merged into a third in either order |
| Spans.MergeAllPullToFront | src/lib.rs:259 | any element of a canonical list can be merged first |
| Spans.RemoveMatching | src/lib.rs:259 | generic list helper for the permutation proof: removing the same element from two permutations leaves permutations |
| Spans.MergeAllPermutation | src/lib.rs:259 | rearranging a canonical list does not change its merge |
| Spans.AggregatePermutation | src/lib.rs:258-265 | `aggregate` gives the same outcome for every ordering of canonical spans |
| Spans.Reversed | src/lib.rs:259 | generic list helper for the permutation proof: the reversed list has the same length and the mirrored elements |
| Spans.ReversedMultiset | src/lib.rs:259 | generic list helper for the permutation proof: reversing keeps the multiset of elements |
| Spans.Known | src/lib.rs:267-273 | the spans that `add` does not skip: a sub-list of the input in which every span is known |
| Spans.KnownMultiset | src/lib.rs:267-273 | filtering keeps each known span as often as it occurs in the input and drops every unknown span |
| Spans.KnownEmpty | src/lib.rs:267-273 | nothing survives the filter exactly when every span is unknown |
| Spans.MergeAllKnown | src/lib.rs:259 | when some span is known, the unknown spans, sentinel or not, do not change the merge |
| Spans.AggregatePermutationEq | src/lib.rs:258-265 | for arbitrary spans, reordering keeps whether `aggregate` returns, the returned spans are equal under the wildcard `==`, and they are identical when some span is known |
| Spans.AggregateReversed | src/lib.rs:258-265 | aggregating canonical spans back to front gives the same outcome |
| Spans.AggregateDocExample | src/lib.rs:203-254 | the documented three-span example aggregates to (1:1–6:6, 1..6) in both build modes |
| Spans.Eq | src/lib.rs:325-331 | an unknown operand makes the spans equal; two known spans are equal exactly when they are identical |
| Spans.EqReflexiveSymmetric | src/lib.rs:325-331 | the equality is reflexive and symmetric, and `UNKNOWN` equals every span on either side |
| Spans.EqNotTransitive | src/lib.rs:107-137 | the documented example: span1 equals `UNKNOWN`, `UNKNOWN` equals span2, but span1 does not equal span2 |
| Spans.StartLine | src/lib.rs:288-291 | absent exactly on unknown spans; otherwise the start line |
| Spans.StartPositionOnStartLine | src/lib.rs:293-297 | absent exactly on unknown spans; otherwise the start column |
| Spans.EndLine | src/lib.rs:299-303 | absent exactly on unknown spans; otherwise the end line |
| Spans.EndPositionOnEndLine | src/lib.rs:305-309 | absent exactly on unknown spans; otherwise the end column |
| Spans.Start | src/lib.rs:311-315 | absent exactly on unknown spans; otherwise the absolute start |
| Spans.Len | src/lib.rs:317-322 | absent exactly on unknown spans; otherwise start plus length is the end, and the length is non-negative on a well-formed span |
| Spans.NatToDecimal | src/lib.rs:158-162 | the decimal text of a number is non-empty, all digits, and has no leading zero except for 0 itself |
| Spans.DecimalRoundTrip | src/lib.rs:158-162 | reading back the decimal text of a number gives the number |
| Spans.Display | src/lib.rs:151-187 | the text is "???" exactly when the span is unknown |
| Spans.DebugText | src/lib.rs:145-149 | `Debug` is "Span: " followed by the alternate display |
| Spans.DisplayModes | src/lib.rs:151-187 | compact mode prints only "line L column C"; the compact text is a prefix of the alternate text; the two differ exactly for known spans wider than one character |
| Spans.DisplayAlternateEnd | src/lib.rs:176-184 | the alternate form adds " to column C", or " to line L column C" when the end line differs from the start line |
| Spans.SmallDecimals | src/lib.rs:158-162 | the decimal texts of 1, 2, 3, 4, 7 and 50 |
| Spans.StartAtOrigin | src/lib.rs:158-162 | a span starting at 1:1 prints "line 1 column 1" first |
| Spans.DisplayEmptyExample | src/lib.rs:29-45 | the documented empty span prints "line 1 column 1" in both modes |
| Spans.DisplayOneCharacterExample | src/lib.rs:47-63 | the documented one-character span prints "line 1 column 1" in both modes |
| Spans.DisplaySingleLineExample | src/lib.rs:65-81 | the documented single-line span prints "line 1 column 1" and "line 1 column 1 to column 50" |
| Spans.DisplayMultiLineExample | src/lib.rs:83-99 | the documented multi-line span prints "line 1 column 1" and "line 1 column 1 to line 2 column 50" |
| Spans.DisplayUnknownExample | src/lib.rs:101-105 | `UNKNOWN` prints "???" in both modes |
| CharStream.Step | src/chars.rs:170-180 | one character advances `loc` by one and moves the position strictly forward |
| CharStream.CharsAfterLastNewline | src/chars.rs:173-178 | counts the characters after the last newline, none of which is a newline, and the character before them is a newline |
| CharStream.Walk | src/chars.rs:170-180 | repeated `next`: `loc` grows by the number of characters consumed and the line never decreases |
| CharStream.WalkSnoc | src/chars.rs:170-180 | consuming one more character is one more step of `next` |
| CharStream.WalkExplicit | src/chars.rs:170-180 | after consuming a text, `loc` grows by its length, the line by its number of newlines, and the column restarts after the last newline |
| CharStream.PositionAfterPrefix | src/chars.rs:51-62 | from the initial position (0, line 1, column 1), consuming P gives (\|P\|, 1 + newlines in P, 1 + characters after P's last newline) |
| CharStream.WalkWithoutNewline | src/chars.rs:176-178 | without a newline the line stays and the column advances by the number of characters |
| CharStream.WalkAppend | src/chars.rs:170-180 | consuming a then b equals consuming a + b |
| CharStream.WalkMonotone | src/chars.rs:170-180 | consuming never moves the position backwards |
| CharStream.WalkPrefixMonotone | src/chars.rs:100-125 | a handle taken earlier is not after the current position |
| CharStream.TokenSpan | src/chars.rs:107-125 | the token span is known; its accessors give the handle's and the current position's loc, line and column; it is well formed exactly when the handle's position is not after the current one |
| CharStream.TakeWhile | src/chars.rs:91-96 | the result is a prefix of the input, every character in it is accepted, and the next character is rejected |
| CharStream.TakeWhileUnique | src/chars.rs:91-96 | a prefix with those three properties is the `TakeWhile` result |
| CharStream.TakeWhileStep | src/chars.rs:91-96 | one accepted character moves from the unread rest to the taken prefix without changing the overall `TakeWhile` |
| CharStream.HeadMatchesText | src/chars/checkpoint.rs:51-52 | comparing `s` with the first `s.len()` characters of the rest; a match means `s` is a prefix of the rest |
| CharStream.Utf8Length | src/chars/checkpoint.rs:51 | the UTF-8 length is between the character count and four times it, and equals the character count exactly for ASCII text |
| CharStream.HeadMatchesAscii | src/chars/checkpoint.rs:50-53 | for an ASCII pattern, `head_matches` means "the pattern is a prefix of the rest" |
| CharStream.HeadMatchesNonAscii | src/chars/checkpoint.rs:50-53 | a pattern with a non-ASCII character matches only when it equals the whole rest |
| CharStream.HeadMatchesNonAsciiExample | src/chars/checkpoint.rs:50-53 | "é" does not match the head of "éa" but does match "é" |
| CharStream.Chars.constructor | src/chars.rs:51-62 | the new stream has the whole text unread and is at loc 0, line 1, column 1 |
| CharStream.Chars.Next | src/chars.rs:170-180 | at the end: none and no change; otherwise the first unread character, which is removed, with loc + 1 and either the next line at column 1 (newline) or column + 1 |
| CharStream.Chars.Peek | src/chars.rs:76-78 | the first unread character, or none at the end, with nothing changed |
| CharStream.Chars.PeekingNext | src/chars.rs:185-197 | consumes and returns the next character only if `accept` takes it; otherwise none and no change |
| CharStream.Chars.PeekWhile | src/chars.rs:91-96 | returns `TakeWhile` of the unread input, after which the stream continues at the first rejected character with the position advanced over what was taken |
| CharStream.Chars.StartToken | src/chars.rs:100-102 | the handle holds the current position |
| CharStream.Chars.EndToken | src/chars.rs:107-125 | the span is `TokenSpan(handle, current)`: known, and well formed exactly when the handle is not after the current position |
| CharStream.Chars.Checkpoint | src/chars.rs:162-164 | a fresh checkpoint on this stream that has read nothing |
| CharStream.Checkpoint.constructor | src/chars/checkpoint.rs:11-13 | a checkpoint on the given stream with nothing read |
| CharStream.Checkpoint.Next | src/chars/checkpoint.rs:81-85 | the character at lookahead depth `peeked`, which then grows by one; past the end, none and `peeked` stays; the stream is unchanged |
| CharStream.Checkpoint.Peek | src/chars/checkpoint.rs:73-75 | the character at lookahead depth `peeked`, with nothing changed |
| CharStream.Checkpoint.HeadMatches | src/chars/checkpoint.rs:50-53 | reads min(`s.len()`, what is left) characters and answers whether they equal `s`; the stream is unchanged |
| CharStream.Checkpoint.Abort | src/chars/checkpoint.rs:15-17 | neither the stream nor the checkpoint changes |
| CharStream.Checkpoint.Commit | src/chars/checkpoint.rs:19-23 | the stream drops exactly the `peeked` characters the checkpoint read, and its position advances over them |
| Scenarios.RenderColumns1To4 | src/chars.rs:39 | a known span from 1:1 to 1:4 prints "line 1 column 1 to column 4" in alternate mode |
| Scenarios.RenderColumns3To7 | src/chars.rs:40 | a known span from 1:3 to 1:7 prints "line 1 column 3 to column 7" in alternate mode |
| Scenarios.RenderTwoLines | src/lib.rs:176-184 | a known span from 1:1 to 2:2 prints "line 1 column 1 to line 2 column 2" in alternate mode |
| Scenarios.TokenExample | src/chars.rs:26-40 | the documented two overlapping tokens over "123456" print "line 1 column 1 to column 4" and "line 1 column 3 to column 7" |
| Scenarios.NewlineExample | src/chars.rs:170-180 | a token over "123\n4" ends on line 2, column 2 |
| Scenarios.PeekExample | src/chars.rs:67-75 | peeking twice gives '1' both times, `next` then gives '1', and the next peeks give '2' |
| Scenarios.OnesPrefix | src/chars.rs:83-90 | the characters '1' at the head of "111222" are "111" |
| Scenarios.PeekWhileExample | src/chars.rs:83-90 | on "111222", `peek_while` gives "111", the rest is "222"; the unit test's span prints "line 1 column 1 to column 4" (src/chars.rs:218-225) |
| Scenarios.AbortAfterThree | src/chars.rs:135-143 | reading three characters ahead and aborting leaves the stream at '1' |
| Scenarios.CommitAfterThree | src/chars.rs:147-152 | reading '2', '3', '4' ahead and committing makes the stream give '5' |
| Scenarios.CommitPastEnd | src/chars.rs:154-160 | past the end the checkpoint gives none, and after committing the stream is empty |
| Scenarios.CheckpointExample | src/chars.rs:130-161 | the documented checkpoint run gives '1' after the abort, '5' after the commit, and none past the end |
| Scenarios.CommitThreeFromStart | src/chars.rs:205-216 | committing three characters read through a checkpoint moves the stream to loc 3, line 1, column 4 |
| Scenarios.CheckpointSpanExample | src/chars.rs:205-216 | the unit test: the committed token prints "line 1 column 1 to column 4" |
| Scenarios.HeadMatchesTooLong | src/chars/checkpoint.rs:36-39 | "1234567" does not match the head of "123456", and afterwards the checkpoint is at the end |
| Scenarios.HeadMatchesMismatch | src/chars/checkpoint.rs:41-44 | "1238" does not match, and the next character is '5' because the compared window was consumed |
| Scenarios.HeadMatchesMatch | src/chars/checkpoint.rs:46-48 | "1234" matches, and the next character is '5' |
| Scenarios.HeadMatchesExample | src/chars/checkpoint.rs:32-49 | the documented run of the three `head_matches` calls |
| Scenarios.Advance | src/chars.rs:170-180 | reading up to k characters keeps the stream valid, extends what was consumed, and consumes k characters or up to the end |
| Scenarios.TokenAnywhere | src/chars.rs:100-125 | a token opened after any number of reads on a fresh stream and closed after any further number is well formed, starts at the offset reached and is as long as what was read in between |
| Scenarios.CheckpointPeekExample | src/chars/checkpoint.rs:61-72 | peek gives '2' twice, then '3' after the next read; after the commit the stream gives '3' |

## Left out

- Serialisation (`Serialize`/`Deserialize` derives) is not part of this model. It is generated code that the crate does not customise.
- The iterator machinery is reduced to a sequence of unread characters. That covers `PeekNth`, the boxed `dyn Iterator` and `owned_chars`. The model does not distinguish buffered characters from ones still in the iterator.
- Borrowing is not modelled as such. That includes the checkpoint's `&mut` borrow and the fact that `commit` and `abort` consume the checkpoint. A checkpoint object in the model is simply not used after `Commit` or `Abort`, and while a checkpoint is in use its stream is changed only by `Commit`.
- Spans.Len: the length is the mathematical difference `end - start`. Rust's `usize` subtraction would panic or wrap when end < start, and the model does not capture that. On well-formed spans this cannot happen.
- Position counters are unbounded. The overflow of `usize` in `loc`, `line` and `col`, and in `column + 1` inside `Display`, is not modelled.
- CharStream.Chars.PeekWhile: the lazy iterator returned by `peek_while` is modelled as drained completely in one call, as both of its uses in the crate do (`collect`). Stopping part way through that iterator is not modelled.
- CharStream.Checkpoint.Commit: `take(peeked)` could stop early if the stream ran out. The model's loop has no such exit, because `peeked` never exceeds the unread length.
- Spans.AddCommutative: commutativity fails when both operands are unknown, because `add` then returns its second operand. The permutation results (`MergeAllPermutation`, `AggregatePermutation`, `AggregateReversed`) therefore require every unknown element to be the sentinel (`Canonical`). Every span the crate itself builds satisfies this. For arbitrary spans, `AggregatePermutationEq` shows that reordering changes the result at most between two unknown spans, which the wildcard `==` equates.
- `Formatter` options other than the alternate flag (width, fill, precision) are ignored, as the crate's `Display` ignores them.
- Characters are Dafny `char` values. Unicode beyond the UTF-8 width of each scalar value is out of scope.
