/**
 * range_t: a span of the usage text, given by a start index and a length.
 * Its value is a Span; the Range class is the mutable struct whose merge
 * grows it in place.
 */
module Ranges {
  import opened CTypes

  /** The (start, length) value a range holds. */
  datatype Span = Span(start: SizeT, length: SizeT)

  /** Index `i` lies in the half-open interval [start, start + length). */
  predicate Contains(s: Span, i: int)
  {
    s.start <= i < s.start + s.length
  }

  /** The text indices a span covers. */
  ghost function Covered(s: Span): iset<int>
  {
    iset i | Contains(s, i)
  }

  /** end() of this span can be computed without overflowing a size_t. */
  predicate EndFits(s: Span)
  {
    s.start + s.length <= SIZE_MAX
  }

  /**
   * What merge asks of its operands: an empty operand is discarded, and two
   * non-empty operands must both have an end that does not overflow.
   */
  predicate Mergeable(a: Span, b: Span)
  {
    a.length == 0 || b.length == 0 || (EndFits(a) && EndFits(b))
  }

  /** `c` contains every index that is in `a` or in `b`. */
  ghost predicate Covers(c: Span, a: Span, b: Span)
  {
    Covered(a) + Covered(b) <= Covered(c)
  }

  /** `c` contains both operands and lies within every span that does. */
  ghost predicate IsSmallestCover(c: Span, a: Span, b: Span)
  {
    Covers(c, a, b) && forall s: Span :: Covers(s, a, b) ==> Covered(c) <= Covered(s)
  }

  /** The value a receiver `a` holds after merging `b` into it. */
  function Merged(a: Span, b: Span): (r: Span)
    requires Mergeable(a, b)
    ensures b.length == 0 ==> r == a
    ensures a.length == 0 && b.length != 0 ==> r == b
    ensures r.length == 0 <==> a.length == 0 && b.length == 0
    ensures EndFits(a) && EndFits(b) ==> EndFits(r)
  {
    if b.length == 0 then a
    else if a.length == 0 then b
    else
      var lo := Min(a.start, b.start);
      var hi := Max(a.start + a.length, b.start + b.length);
      Span(lo, hi - lo)
  }

  /** Two spans covering the same indices have the same length, and are equal when non-empty. */
  lemma {:induction false} CoverDeterminesSpan(c: Span, d: Span)
    ensures Covered(c) == Covered(d) ==> c.length == d.length && (c.length != 0 ==> c == d)
  {
    if c.length != 0 {
      assert c.start in Covered(c);
      assert c.start + c.length - 1 in Covered(c);
    }
    if d.length != 0 {
      assert d.start in Covered(d);
      assert d.start + d.length - 1 in Covered(d);
    }
  }

  /** The merged range is the smallest range containing every index of either operand. */
  lemma {:induction false} MergedIsSmallestCover(a: Span, b: Span)
    requires Mergeable(a, b)
    ensures IsSmallestCover(Merged(a, b), a, b)
  {
    var m := Merged(a, b);
    forall s: Span | Covers(s, a, b)
      ensures Covered(m) <= Covered(s)
    {
      if m.length != 0 {
        // The first and the last index of m belong to an operand, so s holds both.
        var first, last := m.start, m.start + m.length - 1;
        if a.length != 0 && b.length != 0 {
          if a.start <= b.start { assert first in Covered(a); } else { assert first in Covered(b); }
          if a.start + a.length >= b.start + b.length {
            assert last in Covered(a);
          } else {
            assert last in Covered(b);
          }
        } else if a.length != 0 {
          assert first in Covered(a) && last in Covered(a);
        } else {
          assert first in Covered(b) && last in Covered(b);
        }
        assert first in Covered(s) && last in Covered(s);
      }
    }
  }

  /** Conversely, a non-empty smallest cover of the operands is the merged range. */
  lemma {:induction false} SmallestCoverIsMerged(c: Span, a: Span, b: Span)
    requires Mergeable(a, b)
    requires IsSmallestCover(c, a, b)
    requires c.length != 0
    ensures c == Merged(a, b)
  {
    var m := Merged(a, b);
    MergedIsSmallestCover(a, b);
    assert Covered(c) <= Covered(m);
    assert Covered(m) <= Covered(c);
    CoverDeterminesSpan(c, m);
  }

  /** Merging a range into itself leaves it unchanged. */
  lemma MergeSelf(a: Span)
    requires Mergeable(a, a)
    ensures Merged(a, a) == a
  {
  }

  /** Merge is order-independent unless both operands are empty (then the receiver is kept). */
  lemma MergeCommutes(a: Span, b: Span)
    requires Mergeable(a, b)
    requires a.length != 0 || b.length != 0
    ensures Merged(a, b) == Merged(b, a)
  {
  }

  /**
   * Merging two disjoint non-empty ranges yields a range that also spans the
   * gap between them: from the first start to the second end.
   */
  lemma MergeDisjoint(a: Span, b: Span)
    requires a.length != 0 && b.length != 0 && EndFits(a) && EndFits(b)
    requires a.start + a.length <= b.start
    ensures Merged(a, b).start == a.start
    ensures Merged(a, b).length == (b.start - (a.start + a.length)) + a.length + b.length
    ensures Covered(Merged(a, b)) == Covered(a) + Covered(Span(a.start + a.length, b.start - (a.start + a.length))) + Covered(b)
  {
  }

  /** range_t: the mutable struct, with its observers and its in-place merge. */
  class Range {
    var start: SizeT
    var length: SizeT

    /** range_t(): the empty range at 0. */
    constructor ()
      ensures start == 0 && length == 0
      ensures Empty()
    {
      start, length := 0, 0;
    }

    /** range_t(s, l). */
    constructor Init(s: SizeT, l: SizeT)
      ensures start == s && length == l
    {
      start, length := s, l;
    }

    function Value(): Span
      reads this
    {
      Span(start, length)
    }

    ghost function Indices(): iset<int>
      reads this
    {
      Covered(Value())
    }

    /** end(): one past the last covered index; undefined when start + length overflows. */
    function End(): (e: SizeT)
      reads this
      requires EndFits(Value())
      ensures start <= e
      ensures e == start <==> Empty()
      ensures forall i :: i in Indices() <==> start <= i < e
    {
      start + length
    }

    /** empty(): the range covers no index. */
    predicate Empty()
      reads this
      ensures Empty() <==> Indices() == iset{}
    {
      assert length != 0 ==> start in Indices();
      length == 0
    }

    /** operator==: same start and same covered indices. */
    predicate Equals(rhs: Range)
      reads this, rhs
      ensures Equals(rhs) <==> start == rhs.start && Indices() == rhs.Indices()
    {
      CoverDeterminesSpan(Value(), rhs.Value());
      start == rhs.start && length == rhs.length
    }

    /** operator!=: the negation of operator==. */
    predicate NotEquals(rhs: Range)
      reads this, rhs
      ensures NotEquals(rhs) <==> !Equals(rhs)
    {
      start != rhs.start || length != rhs.length
    }

    /**
     * merge(rhs): afterwards the receiver is the smallest range containing
     * every index in either range; empty ranges are discarded.
     */
    method Merge(rhs: Range)
      requires Mergeable(Value(), rhs.Value())
      modifies this
      ensures Value() == Merged(old(Value()), old(rhs.Value()))
      ensures IsSmallestCover(Value(), old(Value()), old(rhs.Value()))
      ensures old(rhs.Empty()) ==> start == old(start) && length == old(length)
      ensures old(Empty()) && !old(rhs.Empty()) ==> start == old(rhs.start) && length == old(rhs.length)
    {
      if rhs.length == 0 {
      } else if length == 0 {
        start, length := rhs.start, rhs.length;
      } else {
        var newEnd := Max(End(), rhs.End());
        var newStart := Min(start, rhs.start);
        start, length := newStart, newEnd - newStart;
      }
      MergedIsSmallestCover(old(Value()), old(rhs.Value()));
    }
  }
}
