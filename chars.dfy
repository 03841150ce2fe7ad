/**
 * A character stream that tracks its position (src/chars.rs) and the speculative
 * lookahead cursor over it (src/chars/checkpoint.rs).
 *
 * `Chars` holds the input it has not yet produced and the current position: the
 * number of characters consumed and the 1-based line and column reached.  A
 * `Checkpoint` reads ahead in that input without moving the stream, and either
 * commits the characters it read (advancing the stream over them) or is dropped.
 * Both live in one module because each refers to the other.
 */
module CharStream {
  import opened Spans

  // ---------------------------------------------------------------------------
  // Positions
  // ---------------------------------------------------------------------------

  /** Characters consumed so far (`loc`), and the line and column reached. */
  datatype Position = Position(loc: nat, line: nat, col: nat)

  /** A captured position, later closed into a span. */
  datatype TokenHandle = TokenHandle(position: Position)

  /** Where every stream starts. */
  const Origin := Position(0, 1, 1)

  function LocationOf(p: Position): LineAndColumn {
    LineAndColumn(p.line, p.col)
  }

  /** Not after: in characters consumed and in (line, column) order. */
  predicate PositionLe(p: Position, q: Position) {
    p.loc <= q.loc && LexLe(LocationOf(p), LocationOf(q))
  }

  /** The update that consuming one character makes to the position. */
  function Step(p: Position, c: char): (q: Position)
    ensures q.loc == p.loc + 1
    ensures PositionLe(p, q) && q != p
  {
    if c == '\n' then Position(p.loc + 1, p.line + 1, 1)
    else Position(p.loc + 1, p.line, p.col + 1)
  }

  /** The position reached from `p` by consuming `consumed`, one `Step` per character. */
  function Walk(p: Position, consumed: seq<char>): (r: Position)
    ensures r.loc == p.loc + |consumed|
    ensures r.line >= p.line
    decreases |consumed|
  {
    if consumed == [] then p
    else Step(Walk(p, consumed[..|consumed| - 1]), consumed[|consumed| - 1])
  }

  function NewlineCount(s: seq<char>): nat {
    multiset(s)['\n']
  }

  /** The number of characters after the last newline of `s` (all of them if it has none). */
  function CharsAfterLastNewline(s: seq<char>): (r: nat)
    ensures r <= |s|
    ensures forall i :: |s| - r <= i < |s| ==> s[i] != '\n'
    ensures r < |s| ==> s[|s| - 1 - r] == '\n'
    decreases |s|
  {
    if s == [] || s[|s| - 1] == '\n' then 0 else 1 + CharsAfterLastNewline(s[..|s| - 1])
  }

  lemma {:induction false} WalkExplicit(p: Position, consumed: seq<char>)
    ensures Walk(p, consumed).loc == p.loc + |consumed|
    ensures Walk(p, consumed).line == p.line + NewlineCount(consumed)
    ensures Walk(p, consumed).col == if '\n' in consumed then 1 + CharsAfterLastNewline(consumed)
                                     else p.col + |consumed|
    decreases |consumed|
  {
    if consumed != [] {
      var front, c := consumed[..|consumed| - 1], consumed[|consumed| - 1];
      assert consumed == front + [c];
      assert multiset(consumed) == multiset(front) + multiset{c};
      assert '\n' in consumed <==> '\n' in front || c == '\n';
      WalkExplicit(p, front);
    }
  }

  /**
   * After consuming a prefix P of the input, `loc` is |P|, the line is one more than
   * the number of newlines in P, and the column is one more than the number of
   * characters after the last newline of P.
   */
  lemma PositionAfterPrefix(consumed: seq<char>)
    ensures Walk(Origin, consumed) == Position(|consumed|, 1 + NewlineCount(consumed), 1 + CharsAfterLastNewline(consumed))
  {
    WalkExplicit(Origin, consumed);
  }

  /** Without a newline the line stays and the column advances by one per character. */
  lemma WalkWithoutNewline(p: Position, consumed: seq<char>)
    requires '\n' !in consumed
    ensures Walk(p, consumed) == Position(p.loc + |consumed|, p.line, p.col + |consumed|)
  {
    WalkExplicit(p, consumed);
    assert multiset(consumed)['\n'] == 0;
  }

  /** Consuming one more character is one more `Step`. */
  lemma WalkSnoc(p: Position, s: seq<char>, c: char)
    ensures Walk(p, s + [c]) == Step(Walk(p, s), c)
  {
    assert (s + [c])[..|s|] == s;
  }

  lemma {:induction false} WalkAppend(p: Position, a: seq<char>, b: seq<char>)
    ensures Walk(p, a + b) == Walk(Walk(p, a), b)
    decreases |b|
  {
    if b != [] {
      var front := b[..|b| - 1];
      assert (a + b)[..|a + b| - 1] == a + front;
      assert (a + b)[|a + b| - 1] == b[|b| - 1];
      WalkAppend(p, a, front);
    } else {
      assert a + b == a;
    }
  }

  lemma {:induction false} WalkMonotone(p: Position, consumed: seq<char>)
    ensures PositionLe(p, Walk(p, consumed))
    decreases |consumed|
  {
    if consumed != [] {
      var q := Walk(p, consumed[..|consumed| - 1]);
      WalkMonotone(p, consumed[..|consumed| - 1]);
      var r := Step(q, consumed[|consumed| - 1]);
      LexLeTotalOrder(LocationOf(p), LocationOf(q), LocationOf(r));
    }
  }

  /** A handle captured earlier in the stream's history is not after the current position. */
  lemma WalkPrefixMonotone(earlier: seq<char>, later: seq<char>)
    requires earlier <= later
    ensures PositionLe(Walk(Origin, earlier), Walk(Origin, later))
  {
    assert later == earlier + later[|earlier|..];
    WalkAppend(Origin, earlier, later[|earlier|..]);
    WalkMonotone(Walk(Origin, earlier), later[|earlier|..]);
  }

  /** The span from `start` to `end` in both coordinate systems, as `end_token` builds it. */
  function TokenSpan(start: Position, end: Position): (s: Span)
    ensures !IsUnknown(s)
    ensures Start(s) == Some(start.loc) && Len(s) == Some(end.loc - start.loc)
    ensures StartLine(s) == Some(start.line) && StartPositionOnStartLine(s) == Some(start.col)
    ensures EndLine(s) == Some(end.line) && EndPositionOnEndLine(s) == Some(end.col)
    ensures WellFormed(s) <==> PositionLe(start, end)
  {
    Span(Some(AbsoluteSpan(start.loc, end.loc)), RelativeSpan(LocationOf(start), LocationOf(end)))
  }

  // ---------------------------------------------------------------------------
  // Lookahead helpers
  // ---------------------------------------------------------------------------

  /** The character at lookahead depth `k`, what the lookahead buffer's `peek_nth(k)` gives. */
  function At(s: seq<char>, k: nat): Option<char> {
    if k < |s| then Some(s[k]) else None
  }

  function Min(a: int, b: int): int {
    if a <= b then a else b
  }

  /** The longest prefix of `s` whose characters all satisfy `accept`. */
  function TakeWhile(s: seq<char>, accept: char -> bool): (r: seq<char>)
    ensures |r| <= |s| && r == s[..|r|]
    ensures forall i :: 0 <= i < |r| ==> accept(r[i])
    ensures |r| < |s| ==> !accept(s[|r|])
    decreases |s|
  {
    if s == [] || !accept(s[0]) then [] else [s[0]] + TakeWhile(s[1..], accept)
  }

  /** A prefix whose characters all pass, followed by the end or a rejected one, is the TakeWhile. */
  lemma {:induction false} TakeWhileUnique(s: seq<char>, accept: char -> bool, t: seq<char>)
    requires |t| <= |s| && s[..|t|] == t
    requires forall i :: 0 <= i < |t| ==> accept(t[i])
    requires |t| < |s| ==> !accept(s[|t|])
    ensures TakeWhile(s, accept) == t
    decreases |t|
  {
    if t != [] {
      assert s[0] == t[0] && accept(s[0]);
      assert s[1..][..|t| - 1] == t[1..];
      assert forall i :: 0 <= i < |t| - 1 ==> accept(t[1..][i]) by {
        forall i | 0 <= i < |t| - 1 ensures accept(t[1..][i]) {
          assert t[1..][i] == t[i + 1];
        }
      }
      assert |t| - 1 < |s| - 1 ==> s[1..][|t| - 1] == s[|t|];
      TakeWhileUnique(s[1..], accept, t[1..]);
      assert t == [t[0]] + t[1..];
    }
  }

  /** One accepted character moves from the unread rest to what was taken. */
  lemma TakeWhileStep(input: seq<char>, taken: seq<char>, accept: char -> bool)
    requires |taken| < |input| && accept(input[|taken|])
    requires TakeWhile(input, accept) == taken + TakeWhile(input[|taken|..], accept)
    ensures TakeWhile(input, accept) == (taken + [input[|taken|]]) + TakeWhile(input[|taken| + 1..], accept)
  {
    var rest := input[|taken|..];
    assert rest != [] && rest[0] == input[|taken|];
    assert rest[1..] == input[|taken| + 1..];
    assert TakeWhile(rest, accept) == [rest[0]] + TakeWhile(rest[1..], accept);
    ConcatAssoc(taken, [rest[0]], TakeWhile(rest[1..], accept));
  }

  lemma ConcatAssoc(a: seq<char>, b: seq<char>, c: seq<char>)
    ensures a + (b + c) == (a + b) + c
  {
  }

  // ---------------------------------------------------------------------------
  // UTF-8 length, as Rust's `str::len` counts it
  // ---------------------------------------------------------------------------

  /** Bytes in the UTF-8 encoding of one scalar value. */
  function Utf8Width(c: char): (n: nat)
    ensures 1 <= n <= 4
    ensures n == 1 <==> c as int < 0x80
  {
    if c as int < 0x80 then 1
    else if c as int < 0x800 then 2
    else if c as int < 0x1_0000 then 3
    else 4
  }

  predicate IsAscii(s: string) {
    forall i :: 0 <= i < |s| ==> s[i] as int < 0x80
  }

  /** `str::len`: the length in bytes of the UTF-8 encoding of `s`. */
  function Utf8Length(s: string): (n: nat)
    ensures |s| <= n <= 4 * |s|
    ensures n == |s| <==> IsAscii(s)
    decreases |s|
  {
    if s == [] then 0
    else
      assert IsAscii(s) <==> s[0] as int < 0x80 && IsAscii(s[1..]) by {
        assert forall i :: 1 <= i < |s| ==> s[i] == s[1..][i - 1];
      }
      Utf8Width(s[0]) + Utf8Length(s[1..])
  }

  /**
   * What `head_matches(s)` answers for the unread input `rest`: the first
   * `s.len()` characters (or all of `rest` if it is shorter) equal `s`.
   */
  predicate HeadMatchesText(rest: seq<char>, s: string)
    ensures HeadMatchesText(rest, s) ==> s <= rest
  {
    rest[..Min(Utf8Length(s), |rest|)] == s
  }

  /** For ASCII `s` the answer is "s is a prefix of rest". */
  lemma HeadMatchesAscii(rest: seq<char>, s: string)
    requires IsAscii(s)
    ensures HeadMatchesText(rest, s) <==> |s| <= |rest| && rest[..|s|] == s
  {
  }

  /**
   * Because `s.len()` counts bytes, a string with a non-ASCII character takes more
   * characters than it has, so it matches only when it is the whole rest of the input.
   */
  lemma HeadMatchesNonAscii(rest: seq<char>, s: string)
    requires !IsAscii(s)
    ensures HeadMatchesText(rest, s) <==> rest == s
  {
    var n := Utf8Length(s);
    assert n > |s|;
    if HeadMatchesText(rest, s) {
      assert |rest[..Min(n, |rest|)]| == |s|;
      assert Min(n, |rest|) == |rest|;
    }
  }

  lemma HeadMatchesNonAsciiExample()
    ensures !HeadMatchesText("éa", "é")
    ensures HeadMatchesText("é", "é")
  {
    assert !IsAscii("é") by { assert "é"[0] as int == 0xe9; }
    HeadMatchesNonAscii("éa", "é");
    HeadMatchesNonAscii("é", "é");
  }

  // ---------------------------------------------------------------------------
  // The stream
  // ---------------------------------------------------------------------------

  class Chars {
    /** The input not yet produced; the lookahead buffer reads from its front. */
    var remaining: seq<char>
    var current: Position
    /** The whole input and the part already produced. */
    ghost const input: string
    ghost var consumed: seq<char>

    ghost predicate Valid()
      reads this
    {
      && consumed + remaining == input
      && current == Walk(Origin, consumed)
    }

    /** `Chars::new`. */
    constructor (text: string)
      ensures Valid()
      ensures input == text && remaining == text && consumed == []
      ensures current == Position(0, 1, 1)
    {
      remaining := text;
      current := Origin;
      input := text;
      consumed := [];
    }

    /** `Iterator::next`: produce one character and update the position. */
    method Next() returns (c: Option<char>)
      requires Valid()
      modifies this
      ensures Valid()
      ensures old(remaining) == [] ==>
                c == None && remaining == old(remaining) && current == old(current) && consumed == old(consumed)
      ensures old(remaining) != [] ==>
                && c == Some(old(remaining)[0])
                && remaining == old(remaining)[1..]
                && consumed == old(consumed) + [old(remaining)[0]]
                && current.loc == old(current.loc) + 1
                && (old(remaining)[0] == '\n' ==> current.line == old(current.line) + 1 && current.col == 1)
                && (old(remaining)[0] != '\n' ==> current.line == old(current.line) && current.col == old(current.col) + 1)
    {
      if remaining == [] {
        return None;
      }
      var next := remaining[0];
      remaining := remaining[1..];
      ghost var before := consumed;
      consumed := consumed + [next];
      assert consumed[..|consumed| - 1] == before;
      current := current.(loc := current.loc + 1);
      if next == '\n' {
        current := current.(line := current.line + 1, col := 1);
      } else {
        current := current.(col := current.col + 1);
      }
      c := Some(next);
    }

    /** `Chars::peek`: the next character, without consuming it. */
    method Peek() returns (c: Option<char>)
      ensures c.None? <==> remaining == []
      ensures c.Some? ==> c.value == remaining[0]
    {
      c := At(remaining, 0);
    }

    /** `PeekingNext::peeking_next`: consume the next character only if `accept` takes it. */
    method PeekingNext(accept: char -> bool) returns (c: Option<char>)
      requires Valid()
      modifies this
      ensures Valid()
      ensures old(remaining) != [] && accept(old(remaining)[0]) ==>
                && c == Some(old(remaining)[0])
                && remaining == old(remaining)[1..]
                && consumed == old(consumed) + [old(remaining)[0]]
                && current == Step(old(current), old(remaining)[0])
      ensures old(remaining) == [] || !accept(old(remaining)[0]) ==>
                c == None && remaining == old(remaining) && consumed == old(consumed) && current == old(current)
    {
      var item := Peek();
      if item.None? {
        return None;
      }
      if accept(item.value) {
        var _ := Next();
        c := item;
      } else {
        c := None;
      }
    }

    /**
     * `Chars::peek_while`, drained: the longest prefix accepted by `accept`; the
     * stream then continues at the first rejected character.
     */
    method PeekWhile(accept: char -> bool) returns (taken: seq<char>)
      requires Valid()
      modifies this
      ensures Valid()
      ensures taken == TakeWhile(old(remaining), accept)
      ensures remaining == old(remaining)[|taken|..]
      ensures consumed == old(consumed) + taken
      ensures current == Walk(old(current), taken)
    {
      ghost var rest0, consumed0 := remaining, consumed;
      taken := [];
      while true
        invariant Valid()
        invariant |taken| <= |rest0| && remaining == rest0[|taken|..]
        invariant TakeWhile(rest0, accept) == taken + TakeWhile(remaining, accept)
        invariant consumed == consumed0 + taken
        decreases |remaining|
      {
        ghost var before := taken;
        var c := PeekingNext(accept);
        if c.None? {
          assert TakeWhile(remaining, accept) == [];
          break;
        }
        taken := taken + [c.value];
        TakeWhileStep(rest0, before, accept);
      }
      WalkAppend(Origin, consumed0, taken);
    }

    /** `Chars::start_token`: capture the current position. */
    method StartToken() returns (h: TokenHandle)
      ensures h.position == current
    {
      h := TokenHandle(current);
    }

    /** `Chars::end_token`: the known span from the handle's position to the current one. */
    method EndToken(h: TokenHandle) returns (s: Span)
      ensures s == TokenSpan(h.position, current)
      ensures !IsUnknown(s)
      ensures WellFormed(s) <==> PositionLe(h.position, current)
    {
      s := TokenSpan(h.position, current);
    }

    /** `Chars::checkpoint`. */
    method Checkpoint() returns (cp: Checkpoint)
      requires Valid()
      ensures fresh(cp) && cp.chars == this && cp.peeked == 0 && cp.Valid()
    {
      cp := new Checkpoint(this);
    }
  }

  // ---------------------------------------------------------------------------
  // The lookahead cursor
  // ---------------------------------------------------------------------------

  class Checkpoint {
    /** The stream looked into; it is not used directly while the checkpoint lives. */
    const chars: Chars
    /** How many characters this checkpoint has produced. */
    var peeked: nat

    ghost predicate Valid()
      reads this, chars
    {
      chars.Valid() && peeked <= |chars.remaining|
    }

    /** `Checkpoint::new`: nothing read yet; the stream is not touched. */
    constructor (chars: Chars)
      requires chars.Valid()
      ensures this.chars == chars && peeked == 0 && Valid()
    {
      this.chars := chars;
      peeked := 0;
    }

    /** `Iterator::next`: the character at depth `peeked`; past the end, nothing, and `peeked` stays. */
    method Next() returns (c: Option<char>)
      requires Valid()
      modifies this
      ensures Valid() && unchanged(chars)
      ensures c == At(chars.remaining, old(peeked))
      ensures peeked == if old(peeked) < |chars.remaining| then old(peeked) + 1 else old(peeked)
    {
      var result := At(chars.remaining, peeked);
      if result.None? {
        return None;
      }
      peeked := peeked + 1;
      c := result;
    }

    /** `Checkpoint::peek`: what the next `Next` will produce. */
    method Peek() returns (c: Option<char>)
      ensures c == At(chars.remaining, peeked)
    {
      c := At(chars.remaining, peeked);
    }

    /**
     * `Checkpoint::head_matches`: produce `s.len()` characters (fewer if the input
     * ends first) and compare them with `s`; the characters stay produced either way.
     */
    method HeadMatches(s: string) returns (matched: bool)
      requires Valid()
      modifies this
      ensures Valid() && unchanged(chars)
      ensures peeked == old(peeked) + Min(Utf8Length(s), |chars.remaining| - old(peeked))
      ensures matched == HeadMatchesText(chars.remaining[old(peeked)..], s)
    {
      var n := Utf8Length(s);
      var head: string := [];
      var i := 0;
      while i < n
        invariant Valid() && unchanged(chars)
        invariant i <= n
        invariant peeked == old(peeked) + i
        invariant head == chars.remaining[old(peeked)..peeked]
      {
        var c := Next();
        if c.None? {
          break;
        }
        head := head + [c.value];
        i := i + 1;
      }
      assert chars.remaining[old(peeked)..][..Min(n, |chars.remaining| - old(peeked))] == head;
      matched := s == head;
    }

    /** `Checkpoint::abort`: release the stream with no change. */
    method Abort()
      ensures unchanged(chars) && unchanged(this)
    {
    }

    /**
     * `Checkpoint::commit`: advance the stream once per produced character, so it
     * continues right after the checkpoint's window.
     */
    method Commit()
      requires Valid()
      modifies chars
      ensures chars.Valid()
      ensures chars.remaining == old(chars.remaining)[old(peeked)..]
      ensures chars.consumed == old(chars.consumed) + old(chars.remaining)[..old(peeked)]
      ensures chars.current == Walk(old(chars.current), old(chars.remaining)[..old(peeked)])
    {
      var i := 0;
      while i < peeked
        invariant i <= peeked
        invariant chars.Valid()
        invariant chars.remaining == old(chars.remaining)[i..]
        invariant chars.consumed == old(chars.consumed) + old(chars.remaining)[..i]
        invariant chars.current == Walk(old(chars.current), old(chars.remaining)[..i])
      {
        ghost var done, c := old(chars.remaining)[..i], old(chars.remaining)[i];
        assert chars.remaining[0] == c;
        var _ := chars.Next();
        assert old(chars.remaining)[..i + 1] == done + [c];
        WalkSnoc(old(chars.current), done, c);
        i := i + 1;
      }
    }
  }
}
