/**
 * The documented examples and unit tests of the stream and its checkpoint, written
 * as clients that can rely only on the contracts of `Chars` and `Checkpoint`.
 */
module Scenarios {
  import opened Spans
  import opened CharStream

  lemma RenderColumns1To4(s: Span)
    requires !IsUnknown(s) && s.relative == RelativeSpan(LineAndColumn(1, 1), LineAndColumn(1, 4))
    ensures Display(s, true) == "line 1 column 1 to column 4"
  {
    assert "line 1 column 1" + " to column " + "4" == "line 1 column 1 to column 4";
    StartAtOrigin(s);
    SmallDecimals();
    DisplayAlternateEnd(s);
  }

  lemma RenderColumns3To7(s: Span)
    requires !IsUnknown(s) && s.relative == RelativeSpan(LineAndColumn(1, 3), LineAndColumn(1, 7))
    ensures Display(s, true) == "line 1 column 3 to column 7"
  {
    assert "line 1 column " + "3" + " to column " + "7" == "line 1 column 3 to column 7";
    SmallDecimals();
    DisplayAlternateEnd(s);
    assert StartText(s) == "line " + "1" + " column " + "3";
  }

  lemma RenderTwoLines(s: Span)
    requires !IsUnknown(s) && s.relative == RelativeSpan(LineAndColumn(1, 1), LineAndColumn(2, 2))
    ensures Display(s, true) == "line 1 column 1 to line 2 column 2"
  {
    assert "line 1 column 1" + " to line " + "2" + " column " + "2" == "line 1 column 1 to line 2 column 2";
    StartAtOrigin(s);
    SmallDecimals();
    DisplayAlternateEnd(s);
  }

  /** Two overlapping tokens over "123456" (the example on `Chars`). */
  method TokenExample() returns (span1: Span, span2: Span)
    ensures Display(span1, true) == "line 1 column 1 to column 4"
    ensures Display(span2, true) == "line 1 column 3 to column 7"
  {
    var chars := new Chars("123456");
    var start1 := chars.StartToken();
    var c := chars.Next();
    assert c == Some('1');
    c := chars.Next();
    assert c == Some('2');
    var start2 := chars.StartToken();
    c := chars.Next();
    assert c == Some('3');
    span1 := chars.EndToken(start1);
    c := chars.Next();
    assert c == Some('4');
    c := chars.Next();
    assert c == Some('5');
    c := chars.Next();
    assert c == Some('6');
    span2 := chars.EndToken(start2);
    RenderColumns1To4(span1);
    RenderColumns3To7(span2);
  }

  /** A newline moves to the next line and back to column 1. */
  method NewlineExample() returns (span: Span)
    ensures Display(span, true) == "line 1 column 1 to line 2 column 2"
  {
    var chars := new Chars("123\n456");
    var start := chars.StartToken();
    var c := chars.Next();
    assert c == Some('1');
    c := chars.Next();
    assert c == Some('2');
    c := chars.Next();
    assert c == Some('3');
    c := chars.Next();
    assert c == Some('\n');
    c := chars.Next();
    assert c == Some('4');
    span := chars.EndToken(start);
    RenderTwoLines(span);
  }

  /** Peeking twice gives the same character and does not change what `Next` gives. */
  method PeekExample() returns (p1: Option<char>, p2: Option<char>, n: Option<char>, p3: Option<char>, p4: Option<char>)
    ensures p1 == p2 == n == Some('1')
    ensures p3 == p4 == Some('2')
  {
    var chars := new Chars("1234");
    p1 := chars.Peek();
    p2 := chars.Peek();
    n := chars.Next();
    p3 := chars.Peek();
    p4 := chars.Peek();
  }

  lemma OnesPrefix()
    ensures TakeWhile("111222", c => c == '1') == "111"
  {
    assert "111222"[..3] == "111";
    TakeWhileUnique("111222", c => c == '1', "111");
  }

  /** `peek_while` stops at, and does not consume, the first rejected character. */
  method PeekWhileExample() returns (ones: string, rest: string, span: Span)
    ensures ones == "111" && rest == "222"
    ensures Display(span, true) == "line 1 column 1 to column 4"
  {
    var chars := new Chars("111222");
    var start := chars.StartToken();
    OnesPrefix();
    ones := chars.PeekWhile(c => c == '1');
    rest := chars.remaining;
    WalkWithoutNewline(Origin, "111");
    span := chars.EndToken(start);
    RenderColumns1To4(span);
  }

  /** Reading ahead three characters and aborting leaves the stream where it was. */
  method AbortAfterThree(chars: Chars) returns (next: Option<char>)
    requires chars.Valid() && chars.remaining == "123456"
    modifies chars
    ensures chars.Valid() && chars.remaining == "23456"
    ensures next == Some('1')
  {
    var checkpoint := chars.Checkpoint();
    var c := checkpoint.Next();
    assert c == Some('1');
    c := checkpoint.Next();
    assert c == Some('2');
    c := checkpoint.Next();
    assert c == Some('3');
    checkpoint.Abort();
    next := chars.Next();
  }

  /** Reading ahead three characters and committing moves the stream past them. */
  method CommitAfterThree(chars: Chars) returns (next: Option<char>)
    requires chars.Valid() && chars.remaining == "23456"
    modifies chars
    ensures chars.Valid() && chars.remaining == "6"
    ensures next == Some('5')
  {
    var checkpoint := chars.Checkpoint();
    var c := checkpoint.Next();
    assert c == Some('2');
    c := checkpoint.Next();
    assert c == Some('3');
    c := checkpoint.Next();
    assert c == Some('4');
    checkpoint.Commit();
    next := chars.Next();
  }

  /** Reading past the end yields nothing, and committing then consumes only what was there. */
  method CommitPastEnd(chars: Chars) returns (next: Option<char>)
    requires chars.Valid() && chars.remaining == "6"
    modifies chars
    ensures chars.Valid() && chars.remaining == []
    ensures next == None
  {
    var checkpoint := chars.Checkpoint();
    var c := checkpoint.Next();
    assert c == Some('6');
    c := checkpoint.Next();
    assert c == None;
    c := checkpoint.Next();
    assert c == None;
    checkpoint.Commit();
    next := chars.Next();
  }

  /** The example on `Chars::checkpoint`: abort leaves the stream alone, commit advances it. */
  method CheckpointExample() returns (afterAbort: Option<char>, afterCommit: Option<char>, pastEnd: Option<char>)
    ensures afterAbort == Some('1')
    ensures afterCommit == Some('5')
    ensures pastEnd == None
  {
    var chars := new Chars("123456");
    afterAbort := AbortAfterThree(chars);
    afterCommit := CommitAfterThree(chars);
    pastEnd := CommitPastEnd(chars);
  }

  /** Reading three characters through a checkpoint and committing them. */
  method CommitThreeFromStart(chars: Chars)
    requires chars.Valid() && chars.remaining == "123456" && chars.current == Origin
    modifies chars
    ensures chars.Valid() && chars.current == Position(3, 1, 4)
  {
    var checkpoint := chars.Checkpoint();
    var c := checkpoint.Next();
    c := checkpoint.Next();
    c := checkpoint.Next();
    checkpoint.Commit();
    assert "123456"[..3] == "123";
    WalkWithoutNewline(Origin, "123");
  }

  /** Committing a checkpoint moves the position as direct consumption would (the unit test). */
  method CheckpointSpanExample() returns (span: Span)
    ensures Display(span, true) == "line 1 column 1 to column 4"
  {
    var chars := new Chars("123456");
    var start := chars.StartToken();
    CommitThreeFromStart(chars);
    span := chars.EndToken(start);
    RenderColumns1To4(span);
  }

  /** A pattern longer than the input consumes all of it and does not match. */
  method HeadMatchesTooLong(chars: Chars) returns (matched: bool, next: Option<char>)
    requires chars.Valid() && chars.remaining == "123456"
    ensures chars.Valid() && chars.remaining == "123456"
    ensures !matched && next == None
  {
    var checkpoint := chars.Checkpoint();
    assert Utf8Length("1234567") == 7;
    matched := checkpoint.HeadMatches("1234567");
    next := checkpoint.Next();
    checkpoint.Abort();
  }

  /** A mismatch still consumes the compared window. */
  method HeadMatchesMismatch(chars: Chars) returns (matched: bool, next: Option<char>)
    requires chars.Valid() && chars.remaining == "123456"
    ensures chars.Valid() && chars.remaining == "123456"
    ensures !matched && next == Some('5')
  {
    var checkpoint := chars.Checkpoint();
    assert Utf8Length("1238") == 4;
    matched := checkpoint.HeadMatches("1238");
    assert "123456"[..4] == "1234";
    next := checkpoint.Next();
    checkpoint.Abort();
  }

  /** A match consumes exactly the pattern. */
  method HeadMatchesMatch(chars: Chars) returns (matched: bool, next: Option<char>)
    requires chars.Valid() && chars.remaining == "123456"
    ensures chars.Valid() && chars.remaining == "123456"
    ensures matched && next == Some('5')
  {
    var checkpoint := chars.Checkpoint();
    assert Utf8Length("1234") == 4;
    matched := checkpoint.HeadMatches("1234");
    assert "123456"[..4] == "1234";
    next := checkpoint.Next();
  }

  /** The example on `Checkpoint::head_matches`: the compared window is consumed either way. */
  method HeadMatchesExample() returns (m1: bool, n1: Option<char>, m2: bool, n2: Option<char>, m3: bool, n3: Option<char>)
    ensures !m1 && n1 == None
    ensures !m2 && n2 == Some('5')
    ensures m3 && n3 == Some('5')
  {
    var chars := new Chars("123456");
    m1, n1 := HeadMatchesTooLong(chars);
    m2, n2 := HeadMatchesMismatch(chars);
    m3, n3 := HeadMatchesMatch(chars);
  }

  /** The example on `Checkpoint::peek`: a character that was only peeked is not committed. */
  method CheckpointPeekExample() returns (p1: Option<char>, p2: Option<char>, p3: Option<char>, after: Option<char>)
    ensures p1 == p2 == Some('2')
    ensures p3 == Some('3')
    ensures after == Some('3')
  {
    var chars := new Chars("123456");
    var checkpoint := chars.Checkpoint();
    var c := checkpoint.Next();
    assert c == Some('1');
    p1 := checkpoint.Peek();
    p2 := checkpoint.Peek();
    c := checkpoint.Next();
    assert c == Some('2');
    p3 := checkpoint.Peek();
    checkpoint.Commit();
    after := chars.Next();
  }

  /** Reads up to `k` characters, stopping early at the end of the input. */
  method Advance(chars: Chars, k: nat)
    requires chars.Valid()
    modifies chars
    ensures chars.Valid()
    ensures old(chars.consumed) <= chars.consumed
    ensures |chars.consumed| == Min(|old(chars.consumed)| + k, |chars.input|)
  {
    ghost var consumed0 := chars.consumed;
    var i := 0;
    while i < k && chars.remaining != []
      invariant chars.Valid()
      invariant i <= k
      invariant consumed0 <= chars.consumed && |chars.consumed| == |consumed0| + i
      decreases k - i
    {
      var _ := chars.Next();
      i := i + 1;
    }
  }

  /**
   * A token taken anywhere in a fresh stream is well formed, starts at the offset of
   * the characters read before it and spans the characters read while it was open.
   */
  method TokenAnywhere(text: string, before: nat, during: nat) returns (s: Span)
    ensures WellFormed(s)
    ensures Start(s) == Some(Min(before, |text|))
    ensures Len(s) == Some(Min(before + during, |text|) - Min(before, |text|))
  {
    var chars := new Chars(text);
    Advance(chars, before);
    var h := chars.StartToken();
    ghost var earlier := chars.consumed;
    Advance(chars, during);
    WalkPrefixMonotone(earlier, chars.consumed);
    s := chars.EndToken(h);
  }
}
