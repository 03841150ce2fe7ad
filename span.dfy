/**
 * Spans: regions of one source text (src/lib.rs).
 *
 * A span records an optional absolute [start, end] pair of character offsets and a
 * relative pair of (line, column) locations.  A span whose absolute part is absent is
 * "unknown"; the constant `Unknown` is the designated such span.  Spans merge into
 * the least span covering them, compare with a deliberately non-transitive equality
 * in which an unknown span equals everything, and print in two modes.
 */
module Spans {

  datatype Option<T> = None | Some(value: T)

  /** The largest value of a 64-bit usize; only the unknown sentinel uses it. */
  const USIZE_MAX: nat := 0xFFFF_FFFF_FFFF_FFFF

  datatype LineAndColumn = LineAndColumn(line: nat, column: nat)

  datatype AbsoluteSpan = AbsoluteSpan(start: nat, end: nat)

  datatype RelativeSpan = RelativeSpan(start: LineAndColumn, end: LineAndColumn)

  datatype Span = Span(absolute: Option<AbsoluteSpan>, relative: RelativeSpan)

  const UnknownLineAndColumn := LineAndColumn(USIZE_MAX, USIZE_MAX)

  const UnknownRelative := RelativeSpan(UnknownLineAndColumn, UnknownLineAndColumn)

  /** `Span::UNKNOWN`, the placeholder for a span that is not derived from the text. */
  const Unknown := Span(None, UnknownRelative)

  /** `Span::is_unknown`: no absolute part, which the sentinel in particular lacks. */
  predicate IsUnknown(s: Span)
    ensures IsUnknown(s) <==> s.absolute == None
    ensures s == Unknown ==> IsUnknown(s)
  {
    s.absolute.None?
  }

  /**
   * `Span::UNKNOWN`: unknown, with both (line, column) locations at usize::MAX, no
   * accessor value, printed as `???` in both modes.
   */
  lemma UnknownSentinel()
    ensures IsUnknown(Unknown)
    ensures Unknown.relative.start == Unknown.relative.end == LineAndColumn(USIZE_MAX, USIZE_MAX)
    ensures StartLine(Unknown) == None && StartPositionOnStartLine(Unknown) == None
    ensures EndLine(Unknown) == None && EndPositionOnEndLine(Unknown) == None
    ensures Start(Unknown) == None && Len(Unknown) == None
    ensures Display(Unknown, false) == "???" && Display(Unknown, true) == "???"
  {
  }

  /** The sentinel is unknown; a span built from positions, even all-zero ones, is not. */
  lemma IsUnknownCases()
    ensures IsUnknown(Unknown)
    ensures !IsUnknown(KnownSpan(0, 0, 0, 0, 0, 0))
  {
  }

  // ---------------------------------------------------------------------------
  // Lexicographic order on (line, column) and its min / max
  // ---------------------------------------------------------------------------

  /** The order of Rust's tuple comparison on (line, column). */
  predicate LexLe(a: LineAndColumn, b: LineAndColumn) {
    a.line < b.line || (a.line == b.line && a.column <= b.column)
  }

  lemma LexLeTotalOrder(a: LineAndColumn, b: LineAndColumn, c: LineAndColumn)
    ensures LexLe(a, a)
    ensures LexLe(a, b) || LexLe(b, a)
    ensures LexLe(a, b) && LexLe(b, a) ==> a == b
    ensures LexLe(a, b) && LexLe(b, c) ==> LexLe(a, c)
  {
  }

  /** `LineAndColumn::min`: the lexicographically smaller of the two. */
  function MinLineAndColumn(a: LineAndColumn, b: LineAndColumn): (r: LineAndColumn)
    ensures r == a || r == b
    ensures LexLe(r, a) && LexLe(r, b)
  {
    if LexLe(a, b) then a else b
  }

  /** `LineAndColumn::max`: the lexicographically larger of the two. */
  function MaxLineAndColumn(a: LineAndColumn, b: LineAndColumn): (r: LineAndColumn)
    ensures r == a || r == b
    ensures LexLe(a, r) && LexLe(b, r)
  {
    if LexLe(a, b) then b else a
  }

  // ---------------------------------------------------------------------------
  // Merging
  // ---------------------------------------------------------------------------

  /** `AbsoluteSpan::add`: absent if either operand is, otherwise [min start, max end]. */
  function AddAbsolute(a: Option<AbsoluteSpan>, b: Option<AbsoluteSpan>): (r: Option<AbsoluteSpan>)
    ensures r.Some? <==> a.Some? && b.Some?
    ensures r.Some? ==>
              && r.value.start <= a.value.start && r.value.start <= b.value.start
              && (r.value.start == a.value.start || r.value.start == b.value.start)
              && a.value.end <= r.value.end && b.value.end <= r.value.end
              && (r.value.end == a.value.end || r.value.end == b.value.end)
  {
    match (a, b)
    case (Some(x), Some(y)) =>
      Some(AbsoluteSpan(if x.start <= y.start then x.start else y.start,
                        if x.end <= y.end then y.end else x.end))
    case _ => None
  }

  /** `RelativeSpan::add`: lexicographic min of the starts, max of the ends. */
  function AddRelative(a: RelativeSpan, b: RelativeSpan): (r: RelativeSpan)
    ensures LexLe(r.start, a.start) && LexLe(r.start, b.start)
    ensures r.start == a.start || r.start == b.start
    ensures LexLe(a.end, r.end) && LexLe(b.end, r.end)
    ensures r.end == a.end || r.end == b.end
  {
    RelativeSpan(MinLineAndColumn(a.start, b.start), MaxLineAndColumn(a.end, b.end))
  }

  /**
   * `outer` covers `inner`: an unknown span is covered by everything, a known span
   * only by a known span that contains it in both coordinate systems.
   */
  predicate Covers(outer: Span, inner: Span) {
    IsUnknown(inner) ||
    (&& !IsUnknown(outer)
     && outer.absolute.value.start <= inner.absolute.value.start
     && inner.absolute.value.end <= outer.absolute.value.end
     && LexLe(outer.relative.start, inner.relative.start)
     && LexLe(inner.relative.end, outer.relative.end))
  }

  lemma CoversTransitive(a: Span, b: Span, c: Span)
    requires Covers(a, b) && Covers(b, c)
    ensures Covers(a, c)
  {
  }

  /** `Span::add`: an unknown operand is an identity, otherwise the covering span. */
  function Add(a: Span, b: Span): (r: Span)
    ensures IsUnknown(a) ==> r == b
    ensures !IsUnknown(a) && IsUnknown(b) ==> r == a
    ensures IsUnknown(r) <==> IsUnknown(a) && IsUnknown(b)
    ensures Covers(r, a) && Covers(r, b)
  {
    if IsUnknown(a) then b
    else if IsUnknown(b) then a
    else Span(AddAbsolute(a.absolute, b.absolute), AddRelative(a.relative, b.relative))
  }

  /**
   * `Unknown` is a left identity, and a right identity for every known span; an
   * unknown left operand other than the sentinel is replaced by the sentinel.
   */
  lemma AddUnknownIdentity(s: Span)
    ensures Add(Unknown, s) == s
    ensures !IsUnknown(s) ==> Add(s, Unknown) == s
    ensures IsUnknown(s) ==> Add(s, Unknown) == Unknown
  {
  }

  /** For two known spans the merge is exactly [min, max] in both coordinate systems. */
  lemma AddKnown(a: Span, b: Span)
    requires !IsUnknown(a) && !IsUnknown(b)
    ensures Add(a, b).absolute == Some(AbsoluteSpan(
              if a.absolute.value.start <= b.absolute.value.start then a.absolute.value.start else b.absolute.value.start,
              if a.absolute.value.end <= b.absolute.value.end then b.absolute.value.end else a.absolute.value.end))
    ensures Add(a, b).relative.start == (if LexLe(a.relative.start, b.relative.start) then a.relative.start else b.relative.start)
    ensures Add(a, b).relative.end == (if LexLe(a.relative.end, b.relative.end) then b.relative.end else a.relative.end)
  {
  }

  /** The unit test of `add`: starts from the first span, ends from the second. */
  lemma AddExample()
    ensures Add(KnownSpan(8, 9, 0, 1, 2, 3), KnownSpan(10, 11, 4, 5, 6, 7)) == KnownSpan(8, 11, 0, 1, 6, 7)
  {
  }

  /** The merge is the LEAST covering span: whatever covers both operands covers it. */
  lemma AddMinimal(a: Span, b: Span, c: Span)
    requires Covers(c, a) && Covers(c, b)
    ensures Covers(c, Add(a, b))
  {
  }

  /** Commutative, except that of two unknown spans the second one is returned. */
  lemma AddCommutative(a: Span, b: Span)
    ensures Add(a, b) == Add(b, a) || (IsUnknown(a) && IsUnknown(b))
  {
    if !IsUnknown(a) && !IsUnknown(b) {
      LexLeTotalOrder(a.relative.start, b.relative.start, a.relative.start);
      LexLeTotalOrder(a.relative.end, b.relative.end, a.relative.end);
    }
  }

  lemma AddAssociative(a: Span, b: Span, c: Span)
    ensures Add(Add(a, b), c) == Add(a, Add(b, c))
  {
    if !IsUnknown(a) && !IsUnknown(b) && !IsUnknown(c) {
      var ab, bc := Add(a, b), Add(b, c);
      assert Add(ab, c).absolute == Add(a, bc).absolute;
      LexLeTotalOrder(a.relative.start, b.relative.start, c.relative.start);
      LexLeTotalOrder(b.relative.start, c.relative.start, a.relative.start);
      LexLeTotalOrder(c.relative.start, a.relative.start, b.relative.start);
      LexLeTotalOrder(a.relative.end, b.relative.end, c.relative.end);
      LexLeTotalOrder(b.relative.end, c.relative.end, a.relative.end);
      LexLeTotalOrder(c.relative.end, a.relative.end, b.relative.end);
    }
  }

  /**
   * The invariant of every span this crate builds: an unknown span is the sentinel,
   * a known one has start <= end, absolutely and lexicographically.
   */
  predicate WellFormed(s: Span) {
    if IsUnknown(s) then s == Unknown
    else s.absolute.value.start <= s.absolute.value.end && LexLe(s.relative.start, s.relative.end)
  }

  lemma AddWellFormed(a: Span, b: Span)
    requires WellFormed(a) && WellFormed(b)
    ensures WellFormed(Add(a, b))
  {
    if !IsUnknown(a) && !IsUnknown(b) {
      var r := Add(a, b);
      LexLeTotalOrder(r.relative.start, a.relative.start, a.relative.end);
      LexLeTotalOrder(a.relative.end, a.relative.end, r.relative.end);
      LexLeTotalOrder(r.relative.start, a.relative.end, r.relative.end);
    }
  }

  // ---------------------------------------------------------------------------
  // Aggregation
  // ---------------------------------------------------------------------------

  /** The left fold that `Iterator::reduce(Span::add)` performs after its first element. */
  function FoldAdd(acc: Span, rest: seq<Span>): (r: Span)
    ensures Covers(r, acc)
    ensures forall i :: 0 <= i < |rest| ==> Covers(r, rest[i])
    decreases |rest|
  {
    if rest == [] then acc else FoldAdd(Add(acc, rest[0]), rest[1..])
  }

  /** `spans.iter().copied().reduce(Span::add)`. */
  function Reduce(spans: seq<Span>): (r: Option<Span>)
    ensures r.None? <==> spans == []
  {
    if spans == [] then None else Some(FoldAdd(spans[0], spans[1..]))
  }

  /**
   * Reference definition of merging a list: a right fold of `Add`, the last element
   * standing for itself and the empty list for `Unknown`.
   */
  function MergeAll(spans: seq<Span>): Span
    decreases |spans|
  {
    if spans == [] then Unknown
    else if |spans| == 1 then spans[0]
    else Add(spans[0], MergeAll(spans[1..]))
  }

  const EmptyAggregateMessage := "Attempted to aggregate an empty list of spans"

  /** What `Span::aggregate` does: return a span, or panic with a message. */
  datatype Outcome = Returned(span: Span) | Panicked(message: string)

  /**
   * `Span::aggregate`.  An empty list panics when debug assertions are enabled and
   * yields `Unknown` otherwise.
   */
  function Aggregate(spans: seq<Span>, debugAssertions: bool): (r: Outcome)
    ensures spans == [] && debugAssertions ==> r == Panicked(EmptyAggregateMessage)
    ensures spans == [] && !debugAssertions ==> r == Returned(Unknown)
    ensures spans != [] ==> r.Returned?
    ensures |spans| == 1 ==> r == Returned(spans[0])
  {
    match Reduce(spans)
    case Some(s) => Returned(s)
    case None => if debugAssertions then Panicked(EmptyAggregateMessage) else Returned(Unknown)
  }

  lemma {:induction false} FoldAddIsMergeAll(acc: Span, rest: seq<Span>)
    ensures FoldAdd(acc, rest) == MergeAll([acc] + rest)
    decreases |rest|
  {
    if rest != [] {
      FoldAddIsMergeAll(Add(acc, rest[0]), rest[1..]);
      assert ([acc] + rest)[1..] == rest;
      if |rest| > 1 {
        assert ([Add(acc, rest[0])] + rest[1..])[1..] == rest[1..];
        assert rest[1..] != [];
        AddAssociative(acc, rest[0], MergeAll(rest[1..]));
      }
    }
  }

  /** On a non-empty list, `aggregate` (in either build mode) is the right fold. */
  lemma AggregateIsMergeAll(spans: seq<Span>, debugAssertions: bool)
    requires spans != []
    ensures Aggregate(spans, debugAssertions) == Returned(MergeAll(spans))
  {
    FoldAddIsMergeAll(spans[0], spans[1..]);
    assert [spans[0]] + spans[1..] == spans;
  }

  lemma {:induction false} MergeAllCovers(spans: seq<Span>, i: nat)
    requires i < |spans|
    ensures Covers(MergeAll(spans), spans[i])
    decreases |spans|
  {
    if |spans| > 1 && i > 0 {
      MergeAllCovers(spans[1..], i - 1);
      CoversTransitive(MergeAll(spans), MergeAll(spans[1..]), spans[i]);
    }
  }

  lemma {:induction false} MergeAllMinimal(spans: seq<Span>, c: Span)
    requires forall i :: 0 <= i < |spans| ==> Covers(c, spans[i])
    ensures Covers(c, MergeAll(spans))
    decreases |spans|
  {
    if |spans| > 1 {
      MergeAllMinimal(spans[1..], c);
      AddMinimal(spans[0], MergeAll(spans[1..]), c);
    }
  }

  lemma {:induction false} MergeAllUnknown(spans: seq<Span>)
    ensures IsUnknown(MergeAll(spans)) <==> forall i :: 0 <= i < |spans| ==> IsUnknown(spans[i])
    decreases |spans|
  {
    if |spans| > 1 {
      MergeAllUnknown(spans[1..]);
      assert forall i :: 1 <= i < |spans| ==> spans[i] == spans[1..][i - 1];
    }
  }

  lemma {:induction false} MergeAllWellFormed(spans: seq<Span>)
    requires forall i :: 0 <= i < |spans| ==> WellFormed(spans[i])
    ensures WellFormed(MergeAll(spans))
    decreases |spans|
  {
    if |spans| > 1 {
      MergeAllWellFormed(spans[1..]);
      AddWellFormed(spans[0], MergeAll(spans[1..]));
    }
  }

  /**
   * The result of `aggregate` on a non-empty list covers every element, is covered by
   * every span that covers all elements, is unknown exactly when every element is, and
   * is well formed when the elements are.
   */
  lemma AggregateCovering(spans: seq<Span>, debugAssertions: bool, c: Span)
    requires spans != []
    ensures Aggregate(spans, debugAssertions).Returned?
    ensures forall i :: 0 <= i < |spans| ==> Covers(Aggregate(spans, debugAssertions).span, spans[i])
    ensures (forall i :: 0 <= i < |spans| ==> Covers(c, spans[i])) ==> Covers(c, Aggregate(spans, debugAssertions).span)
    ensures IsUnknown(Aggregate(spans, debugAssertions).span) <==> forall i :: 0 <= i < |spans| ==> IsUnknown(spans[i])
    ensures (forall i :: 0 <= i < |spans| ==> WellFormed(spans[i])) ==> WellFormed(Aggregate(spans, debugAssertions).span)
  {
    AggregateIsMergeAll(spans, debugAssertions);
    forall i | 0 <= i < |spans|
      ensures Covers(MergeAll(spans), spans[i])
    {
      MergeAllCovers(spans, i);
    }
    if forall i :: 0 <= i < |spans| ==> Covers(c, spans[i]) {
      MergeAllMinimal(spans, c);
    }
    MergeAllUnknown(spans);
    if forall i :: 0 <= i < |spans| ==> WellFormed(spans[i]) {
      MergeAllWellFormed(spans);
    }
  }

  /** Spans this crate builds have no unknown span other than the sentinel. */
  predicate Canonical(s: Span) {
    IsUnknown(s) ==> s == Unknown
  }

  lemma AddCommutativeCanonical(a: Span, b: Span)
    requires Canonical(a) && Canonical(b)
    ensures Add(a, b) == Add(b, a)
  {
    AddCommutative(a, b);
  }

  function RemoveAt(s: seq<Span>, k: nat): (r: seq<Span>)
    requires k < |s|
    ensures |r| == |s| - 1
    ensures multiset(r) == multiset(s) - multiset{s[k]}
  {
    assert s == s[..k] + [s[k]] + s[k + 1..];
    s[..k] + s[k + 1..]
  }

  lemma RemoveAtCanonical(s: seq<Span>, k: nat)
    requires k < |s|
    requires forall i :: 0 <= i < |s| ==> Canonical(s[i])
    ensures forall i :: 0 <= i < |RemoveAt(s, k)| ==> Canonical(RemoveAt(s, k)[i])
  {
    var r := RemoveAt(s, k);
    forall i | 0 <= i < |r|
      ensures Canonical(r[i])
    {
      if i < k {
        assert r[i] == s[i];
      } else {
        assert r[i] == s[i + 1];
      }
    }
  }

  /** A canonical head merges into the rest, whatever the rest's length. */
  lemma MergeAllCons(x: Span, t: seq<Span>)
    requires Canonical(x)
    ensures MergeAll([x] + t) == Add(x, MergeAll(t))
  {
    assert ([x] + t)[1..] == t;
  }

  lemma RemoveAtCons(s: seq<Span>, k: nat)
    requires 0 < k < |s|
    ensures RemoveAt(s, k) == [s[0]] + RemoveAt(s[1..], k - 1)
  {
    assert s[..k] == [s[0]] + s[1..][..k - 1];
    assert s[k + 1..] == s[1..][k..];
  }

  /** Two canonical spans can be merged into a third in either order. */
  lemma AddSwap(x: Span, y: Span, m: Span)
    requires Canonical(x) && Canonical(y)
    ensures Add(x, Add(y, m)) == Add(y, Add(x, m))
  {
    AddAssociative(x, y, m);
    AddCommutativeCanonical(x, y);
    AddAssociative(y, x, m);
  }

  /** Any element can be merged first. */
  lemma {:induction false} MergeAllPullToFront(s: seq<Span>, k: nat)
    requires k < |s|
    requires forall i :: 0 <= i < |s| ==> Canonical(s[i])
    ensures MergeAll(s) == Add(s[k], MergeAll(RemoveAt(s, k)))
    decreases k
  {
    assert s == [s[0]] + s[1..];
    MergeAllCons(s[0], s[1..]);
    if k == 0 {
      assert RemoveAt(s, k) == s[1..];
    } else {
      var tail := s[1..];
      assert tail[k - 1] == s[k];
      MergeAllPullToFront(tail, k - 1);
      var rest := RemoveAt(tail, k - 1);
      RemoveAtCons(s, k);
      MergeAllCons(s[0], rest);
      AddSwap(s[0], s[k], MergeAll(rest));
    }
  }

  /** Removing the same element from two permutations of each other leaves permutations. */
  lemma RemoveMatching(xs: seq<Span>, ys: seq<Span>, k: nat)
    requires multiset(xs) == multiset(ys) && ys != [] && k < |xs| && xs[k] == ys[0]
    ensures multiset(RemoveAt(xs, k)) == multiset(ys[1..])
  {
    assert ys == [ys[0]] + ys[1..];
  }

  /** Merging does not depend on the order of the spans. */
  lemma {:induction false} MergeAllPermutation(xs: seq<Span>, ys: seq<Span>)
    requires multiset(xs) == multiset(ys)
    requires forall i :: 0 <= i < |xs| ==> Canonical(xs[i])
    ensures MergeAll(xs) == MergeAll(ys)
    decreases |ys|
  {
    assert |xs| == |multiset(xs)| == |multiset(ys)| == |ys|;
    if ys != [] {
      assert ys[0] in multiset(xs);
      var k :| 0 <= k < |xs| && xs[k] == ys[0];
      MergeAllPullToFront(xs, k);
      var rx := RemoveAt(xs, k);
      RemoveMatching(xs, ys, k);
      RemoveAtCanonical(xs, k);
      MergeAllPermutation(rx, ys[1..]);
      MergeAllCons(ys[0], ys[1..]);
    }
  }

  /**
   * `aggregate` gives the same span for every ordering of canonical spans, so
   * aggregating [a, b, c] and [c, b, a] agree.
   */
  lemma AggregatePermutation(xs: seq<Span>, ys: seq<Span>, debugAssertions: bool)
    requires multiset(xs) == multiset(ys)
    requires forall i :: 0 <= i < |xs| ==> Canonical(xs[i])
    ensures Aggregate(xs, debugAssertions) == Aggregate(ys, debugAssertions)
  {
    if xs != [] {
      assert ys != [] by { assert xs[0] in multiset(ys); }
      AggregateIsMergeAll(xs, debugAssertions);
      AggregateIsMergeAll(ys, debugAssertions);
      MergeAllPermutation(xs, ys);
    } else {
      assert |ys| == |multiset(ys)| == 0;
    }
  }

  /** The spans in the opposite order. */
  function Reversed(s: seq<Span>): (r: seq<Span>)
    ensures |r| == |s|
    ensures forall i :: 0 <= i < |s| ==> r[i] == s[|s| - 1 - i]
    decreases |s|
  {
    if s == [] then [] else Reversed(s[1..]) + [s[0]]
  }

  lemma {:induction false} ReversedMultiset(s: seq<Span>)
    ensures multiset(Reversed(s)) == multiset(s)
    decreases |s|
  {
    if s != [] {
      ReversedMultiset(s[1..]);
      assert s == [s[0]] + s[1..];
    }
  }

  /** In particular, aggregating canonical spans backwards gives the same span. */
  lemma AggregateReversed(spans: seq<Span>, debugAssertions: bool)
    requires forall i :: 0 <= i < |spans| ==> Canonical(spans[i])
    ensures Aggregate(Reversed(spans), debugAssertions) == Aggregate(spans, debugAssertions)
  {
    ReversedMultiset(spans);
    AggregatePermutation(spans, Reversed(spans), debugAssertions);
  }

  /** The known spans of a list, in order: the ones that decide what merging them gives. */
  function Known(s: seq<Span>): (r: seq<Span>)
    ensures |r| <= |s|
    ensures forall i :: 0 <= i < |r| ==> !IsUnknown(r[i])
    decreases |s|
  {
    if s == [] then [] else (if IsUnknown(s[0]) then [] else [s[0]]) + Known(s[1..])
  }

  /** Filtering keeps every known span as often as it occurs and drops every unknown one. */
  lemma {:induction false} KnownMultiset(s: seq<Span>, x: Span)
    ensures multiset(Known(s))[x] == if IsUnknown(x) then 0 else multiset(s)[x]
    decreases |s|
  {
    if s != [] {
      KnownMultiset(s[1..], x);
      assert s == [s[0]] + s[1..];
    }
  }

  /** No known span survives the filter exactly when every span is unknown. */
  lemma {:induction false} KnownEmpty(s: seq<Span>)
    ensures Known(s) == [] <==> forall i :: 0 <= i < |s| ==> IsUnknown(s[i])
    decreases |s|
  {
    if s != [] {
      KnownEmpty(s[1..]);
      assert forall i :: 1 <= i < |s| ==> s[i] == s[1..][i - 1];
    }
  }

  /** Unknown spans, canonical or not, do not change a merge that has a known span in it. */
  lemma {:induction false} MergeAllKnown(s: seq<Span>)
    requires Known(s) != []
    ensures MergeAll(s) == MergeAll(Known(s))
    decreases |s|
  {
    var x, t := s[0], s[1..];
    assert Known(s) == (if IsUnknown(x) then [] else [x]) + Known(t);
    if Known(t) != [] {
      MergeAllKnown(t);
      assert MergeAll(s) == Add(x, MergeAll(t));
      if !IsUnknown(x) {
        assert Known(s) == [x] + Known(t);
        MergeAllCons(x, Known(t));
      } else {
        assert Known(s) == Known(t);
      }
    } else if t != [] {
      KnownEmpty(t);
      MergeAllUnknown(t);
      assert MergeAll(s) == Add(x, MergeAll(t));
    }
  }

  /**
   * For any spans, canonical or not: reordering a list does not change whether
   * `aggregate` returns; the two results are equal under the wildcard `==`, and
   * identical when some span is known.
   */
  lemma AggregatePermutationEq(xs: seq<Span>, ys: seq<Span>, debugAssertions: bool)
    requires multiset(xs) == multiset(ys)
    ensures Aggregate(xs, debugAssertions).Returned? == Aggregate(ys, debugAssertions).Returned?
    ensures Aggregate(xs, debugAssertions).Returned? ==>
              Eq(Aggregate(xs, debugAssertions).span, Aggregate(ys, debugAssertions).span)
    ensures (exists i :: 0 <= i < |xs| && !IsUnknown(xs[i])) ==>
              Aggregate(xs, debugAssertions) == Aggregate(ys, debugAssertions)
  {
    assert |xs| == |multiset(xs)| == |multiset(ys)| == |ys|;
    if xs != [] {
      AggregateIsMergeAll(xs, debugAssertions);
      AggregateIsMergeAll(ys, debugAssertions);
      KnownEmpty(xs);
      if Known(xs) != [] {
        KnownMultiset(ys, Known(xs)[0]);
        KnownMultiset(xs, Known(xs)[0]);
        assert Known(xs)[0] in multiset(Known(xs));
        MergeAllKnown(xs);
        MergeAllKnown(ys);
        forall x
          ensures multiset(Known(xs))[x] == multiset(Known(ys))[x]
        {
          KnownMultiset(xs, x);
          KnownMultiset(ys, x);
        }
        assert multiset(Known(xs)) == multiset(Known(ys));
        MergeAllPermutation(Known(xs), Known(ys));
      } else {
        MergeAllUnknown(xs);
      }
    }
  }

  function KnownSpan(start: nat, end: nat, startLine: nat, startColumn: nat, endLine: nat, endColumn: nat): Span {
    Span(Some(AbsoluteSpan(start, end)),
         RelativeSpan(LineAndColumn(startLine, startColumn), LineAndColumn(endLine, endColumn)))
  }

  /** The documented three-span example of `aggregate`. */
  lemma AggregateDocExample(debugAssertions: bool)
    ensures Aggregate([KnownSpan(1, 2, 1, 1, 2, 2), KnownSpan(3, 4, 3, 3, 4, 4), KnownSpan(5, 6, 5, 5, 6, 6)], debugAssertions)
            == Returned(KnownSpan(1, 6, 1, 1, 6, 6))
  {
  }

  // ---------------------------------------------------------------------------
  // Equality
  // ---------------------------------------------------------------------------

  /**
   * `PartialEq for Span`: an unknown operand equals everything, known spans are
   * equal when both their absolute and relative parts are.
   */
  function Eq(a: Span, b: Span): (r: bool)
    ensures IsUnknown(a) || IsUnknown(b) ==> r
    ensures !IsUnknown(a) && !IsUnknown(b) ==> (r <==> a == b)
  {
    if IsUnknown(a) || IsUnknown(b) then true
    else a.absolute == b.absolute && a.relative == b.relative
  }

  lemma EqReflexiveSymmetric(a: Span, b: Span)
    ensures Eq(a, a)
    ensures Eq(a, b) == Eq(b, a)
    ensures Eq(Unknown, a) && Eq(a, Unknown)
  {
  }

  /** The documented example: the wildcard makes equality non-transitive. */
  lemma EqNotTransitive()
    ensures var span1, span2 := KnownSpan(1, 100, 1, 1, 2, 50), KnownSpan(1, 1, 1, 1, 1, 1);
            Eq(span1, span1) && !Eq(span1, span2) && Eq(span1, Unknown) && Eq(Unknown, span2)
  {
  }

  // ---------------------------------------------------------------------------
  // Accessors
  // ---------------------------------------------------------------------------

  function StartLine(s: Span): (r: Option<nat>)
    ensures r.None? <==> IsUnknown(s)
    ensures r.Some? ==> r.value == s.relative.start.line
  {
    if s.absolute.Some? then Some(s.relative.start.line) else None
  }

  function StartPositionOnStartLine(s: Span): (r: Option<nat>)
    ensures r.None? <==> IsUnknown(s)
    ensures r.Some? ==> r.value == s.relative.start.column
  {
    if s.absolute.Some? then Some(s.relative.start.column) else None
  }

  function EndLine(s: Span): (r: Option<nat>)
    ensures r.None? <==> IsUnknown(s)
    ensures r.Some? ==> r.value == s.relative.end.line
  {
    if s.absolute.Some? then Some(s.relative.end.line) else None
  }

  function EndPositionOnEndLine(s: Span): (r: Option<nat>)
    ensures r.None? <==> IsUnknown(s)
    ensures r.Some? ==> r.value == s.relative.end.column
  {
    if s.absolute.Some? then Some(s.relative.end.column) else None
  }

  function Start(s: Span): (r: Option<nat>)
    ensures r.None? <==> IsUnknown(s)
    ensures r.Some? ==> r.value == s.absolute.value.start
  {
    match s.absolute
    case None => None
    case Some(a) => Some(a.start)
  }

  /** Length in characters; non-negative on a well-formed span. */
  function Len(s: Span): (r: Option<int>)
    ensures r.None? <==> IsUnknown(s)
    ensures r.Some? ==> s.absolute.value.start + r.value == s.absolute.value.end
    ensures r.Some? && WellFormed(s) ==> r.value >= 0
  {
    match s.absolute
    case None => None
    case Some(a) => Some(a.end - a.start)
  }

  // ---------------------------------------------------------------------------
  // Display
  // ---------------------------------------------------------------------------

  function DigitChar(d: nat): (c: char)
    requires d < 10
    ensures '0' <= c <= '9'
    ensures c as int - '0' as int == d
  {
    ('0' as int + d) as char
  }

  predicate IsDecimal(s: string) {
    forall i :: 0 <= i < |s| ==> '0' <= s[i] <= '9'
  }

  /** The decimal text that `usize`'s `Display` writes. */
  function NatToDecimal(n: nat): (r: string)
    ensures |r| >= 1 && IsDecimal(r)
    ensures r[0] == '0' ==> n == 0
    decreases n
  {
    if n < 10 then [DigitChar(n)] else NatToDecimal(n / 10) + [DigitChar(n % 10)]
  }

  /** The value of a string of decimal digits: the inverse of `NatToDecimal`. */
  function DecimalValue(s: string): nat
    requires IsDecimal(s)
    decreases |s|
  {
    if s == [] then 0 else 10 * DecimalValue(s[..|s| - 1]) + (s[|s| - 1] as int - '0' as int)
  }

  lemma {:induction false} DecimalRoundTrip(n: nat)
    ensures DecimalValue(NatToDecimal(n)) == n
    decreases n
  {
    var r := NatToDecimal(n);
    if n >= 10 {
      DecimalRoundTrip(n / 10);
      assert r[..|r| - 1] == NatToDecimal(n / 10);
    }
  }

  /** The location text every known span starts with: `line L column C`. */
  function StartText(s: Span): string {
    "line " + NatToDecimal(s.relative.start.line) + " column " + NatToDecimal(s.relative.start.column)
  }

  /** Empty, or exactly one character wide on one line: only the start is printed. */
  predicate IsAtMostOneCharacter(s: Span) {
    || s.relative.start == s.relative.end
    || (s.relative.start.line == s.relative.end.line && s.relative.start.column + 1 == s.relative.end.column)
  }

  /** `Display for Span`; `alternate` is the `{:#}` flag. */
  function Display(s: Span, alternate: bool): (r: string)
    ensures r == "???" <==> IsUnknown(s)
  {
    if IsUnknown(s) then "???"
    else
      var head := StartText(s);
      assert head[0] == 'l';
      if s.relative.start == s.relative.end then head
      else if s.relative.start.line == s.relative.end.line && s.relative.start.column + 1 == s.relative.end.column then head
      else if !alternate then head
      else
        head + " to"
        + (if s.relative.start.line != s.relative.end.line then " line " + NatToDecimal(s.relative.end.line) else "")
        + " column " + NatToDecimal(s.relative.end.column)
  }

  /** `Debug for Span`: the alternate display after a fixed prefix. */
  function DebugText(s: Span): (r: string)
    ensures |r| > 6 && r[..6] == "Span: " && r[6..] == Display(s, true)
  {
    "Span: " + Display(s, true)
  }

  /**
   * Compact mode prints only the start location; alternate mode extends that text,
   * and adds to it exactly when the span is known and wider than one character.
   */
  lemma DisplayModes(s: Span)
    ensures !IsUnknown(s) ==> Display(s, false) == StartText(s)
    ensures Display(s, false) <= Display(s, true)
    ensures Display(s, false) != Display(s, true) <==> !IsUnknown(s) && !IsAtMostOneCharacter(s)
  {
  }

  /** In alternate mode the end line is printed only when it differs from the start line. */
  lemma DisplayAlternateEnd(s: Span)
    requires !IsUnknown(s) && !IsAtMostOneCharacter(s)
    ensures s.relative.start.line == s.relative.end.line ==>
              Display(s, true) == StartText(s) + " to column " + NatToDecimal(s.relative.end.column)
    ensures s.relative.start.line != s.relative.end.line ==>
              Display(s, true) == StartText(s) + " to line " + NatToDecimal(s.relative.end.line)
                                  + " column " + NatToDecimal(s.relative.end.column)
  {
  }

  /** The decimal texts the examples below use. */
  lemma SmallDecimals()
    ensures NatToDecimal(1) == "1" && NatToDecimal(2) == "2" && NatToDecimal(3) == "3"
    ensures NatToDecimal(4) == "4" && NatToDecimal(7) == "7" && NatToDecimal(50) == "50"
  {
  }

  lemma StartAtOrigin(s: Span)
    requires s.relative.start == LineAndColumn(1, 1)
    ensures StartText(s) == "line 1 column 1"
  {
    SmallDecimals();
  }

  /** Documented example: an empty span prints its start in both modes. */
  lemma DisplayEmptyExample()
    ensures Display(KnownSpan(1, 1, 1, 1, 1, 1), false) == "line 1 column 1"
    ensures Display(KnownSpan(1, 1, 1, 1, 1, 1), true) == "line 1 column 1"
  {
    StartAtOrigin(KnownSpan(1, 1, 1, 1, 1, 1));
  }

  /** Documented example: a one-character span prints its start in both modes. */
  lemma DisplayOneCharacterExample()
    ensures Display(KnownSpan(1, 2, 1, 1, 1, 2), false) == "line 1 column 1"
    ensures Display(KnownSpan(1, 2, 1, 1, 1, 2), true) == "line 1 column 1"
  {
    StartAtOrigin(KnownSpan(1, 2, 1, 1, 1, 2));
  }

  /** Documented example: a wider span on one line. */
  lemma DisplaySingleLineExample()
    ensures Display(KnownSpan(1, 50, 1, 1, 1, 50), false) == "line 1 column 1"
    ensures Display(KnownSpan(1, 50, 1, 1, 1, 50), true) == "line 1 column 1 to column 50"
  {
    assert "line 1 column 1" + " to column " + "50" == "line 1 column 1 to column 50";
    var s := KnownSpan(1, 50, 1, 1, 1, 50);
    StartAtOrigin(s);
    SmallDecimals();
    DisplayModes(s);
    DisplayAlternateEnd(s);
  }

  /** Documented example: a span over two lines. */
  lemma DisplayMultiLineExample()
    ensures Display(KnownSpan(1, 100, 1, 1, 2, 50), false) == "line 1 column 1"
    ensures Display(KnownSpan(1, 100, 1, 1, 2, 50), true) == "line 1 column 1 to line 2 column 50"
  {
    assert "line 1 column 1" + " to line " + "2" + " column " + "50" == "line 1 column 1 to line 2 column 50";
    var s := KnownSpan(1, 100, 1, 1, 2, 50);
    StartAtOrigin(s);
    SmallDecimals();
    DisplayModes(s);
    DisplayAlternateEnd(s);
  }

  /** Documented example: the unknown span prints `???` in both modes. */
  lemma DisplayUnknownExample()
    ensures Display(Unknown, false) == "???" && Display(Unknown, true) == "???"
  {
  }
}
