/**
 * Source locations of the syntax crate: a span names one source file and a
 * half-open byte range inside it. Nothing in the type forces start <= end;
 * the operations that need it say so.
 */
module SyntaxSpan {

  /** `usize` on a 64-bit target. */
  const USIZE_LIMIT: int := 0x1_0000_0000_0000_0000
  type Usize = n: int | 0 <= n < USIZE_LIMIT

  /** Opaque handle of one source file, an alias of `usize`. */
  type SourceId = Usize

  /** `std::ops::Range<usize>`: `start` inclusive, `end` exclusive. */
  datatype Range = Range(start: Usize, end: Usize)

  datatype Span = Span(src: SourceId, range: Range)

  /** `Spanned<T>` is a plain pair of a value and its span. */
  type Spanned<T> = (T, Span)

  /** `SourceSpan` of the diagnostic renderer: an offset and a length. */
  datatype SourceSpan = SourceSpan(offset: Usize, length: Usize)

  /** Byte offset `i` lies inside the span. */
  predicate Covers(s: Span, i: int) {
    s.range.start <= i < s.range.end
  }

  /** `outer` names the same source and reaches at least as far on both sides as `inner`. */
  predicate Encloses(outer: Span, inner: Span) {
    && outer.src == inner.src
    && outer.range.start <= inner.range.start
    && inner.range.end <= outer.range.end
  }

  /** The set of byte offsets a span covers. */
  function Offsets(s: Span): set<int> {
    // the explicit bounds make the set finite; `Covers` gives the quantifier a trigger
    set i | s.range.start <= i < s.range.end && Covers(s, i)
  }

  /** `Span::default()`: source 0, range `0..0`. */
  function Default(): (s: Span)
    ensures s.src == 0 && Start(s) == 0
    ensures Start(s) <= End(s) && Len(s) == 0 && IsEmpty(s)
    ensures forall i :: !Covers(s, i)
  {
    Span(0, Range(0, 0))
  }

  /** `Span::new` keeps the source and the range exactly as given. */
  function New(src: SourceId, range: Range): (s: Span)
    ensures s.src == src && Start(s) == range.start && End(s) == range.end
  {
    Span(src, range)
  }

  function Start(s: Span): Usize {
    s.range.start
  }

  function End(s: Span): Usize {
    s.range.end
  }

  /**
   * `Span::len`. The `usize` subtraction underflows (a panic in debug
   * builds) unless the span is well-formed.
   */
  function Len(s: Span): (n: Usize)
    requires Start(s) <= End(s)
    ensures Start(s) + n == End(s)
  {
    End(s) - Start(s)
  }

  /** `Span::is_empty`, which is `Range::is_empty`: `!(start < end)`. */
  function IsEmpty(s: Span): (b: bool)
    ensures b <==> End(s) <= Start(s)
  {
    !(s.range.start < s.range.end)
  }

  /**
   * `Span::merge`. A debug assertion demands that both spans come from the
   * same source. The result is the smallest span enclosing both.
   */
  function Merge(a: Span, b: Span): (m: Span)
    requires a.src == b.src
    ensures m.src == a.src
    ensures Encloses(m, a) && Encloses(m, b)
    ensures forall c :: Encloses(c, a) && Encloses(c, b) ==> Encloses(c, m)
  {
    var start := if a.range.start <= b.range.start then a.range.start else b.range.start;
    var end := if a.range.end >= b.range.end then a.range.end else b.range.end;
    Span(a.src, Range(start, end))
  }

  /** `From<Span> for SourceSpan`: offset is the start, length the byte count. */
  function ToSourceSpan(s: Span): (ss: SourceSpan)
    requires Start(s) <= End(s)
    ensures ss.offset == Start(s) && ss.length == Len(s)
    ensures ss.offset + ss.length == End(s)
  {
    SourceSpan(s.range.start, s.range.end - s.range.start)
  }

  /** How a renderer reads a `SourceSpan` back as a byte range. */
  function RangeOf(ss: SourceSpan): Range
    requires ss.offset + ss.length < USIZE_LIMIT
  {
    Range(ss.offset, ss.offset + ss.length)
  }

  /** `SpannedExt::span`: the span half of the pair. */
  function SpanOf<T>(x: Spanned<T>): Span {
    x.1
  }

  // ---------------------------------------------------------------------
  // Laws

  /** `is_empty` holds exactly when no byte offset lies in the span. */
  lemma IsEmptyIffNoOffset(s: Span)
    ensures IsEmpty(s) <==> forall i :: !Covers(s, i)
  {
    if !IsEmpty(s) {
      assert Covers(s, s.range.start);
    }
  }

  /** On a well-formed span, `is_empty` and `len() == 0` agree. */
  lemma IsEmptyIffLenZero(s: Span)
    requires Start(s) <= End(s)
    ensures IsEmpty(s) <==> Len(s) == 0
  {
  }

  /** `len` counts the byte offsets the span covers. */
  lemma {:induction false} LenCountsOffsets(s: Span)
    requires Start(s) <= End(s)
    ensures |Offsets(s)| == Len(s)
    decreases End(s) - Start(s)
  {
    if Start(s) < End(s) {
      var t := Span(s.src, Range(s.range.start, s.range.end - 1));
      LenCountsOffsets(t);
      assert Offsets(s) == Offsets(t) + {s.range.end - 1};
    } else {
      assert Offsets(s) == {};
    }
  }

  /** The default span is empty, as the promise of an empty `0..0` range. */
  lemma DefaultIsEmpty()
    ensures IsEmpty(Default()) && Offsets(Default()) == {}
  {
  }

  lemma MergeCommutative(a: Span, b: Span)
    requires a.src == b.src
    ensures Merge(a, b) == Merge(b, a)
  {
  }

  lemma MergeAssociative(a: Span, b: Span, c: Span)
    requires a.src == b.src == c.src
    ensures Merge(Merge(a, b), c) == Merge(a, Merge(b, c))
  {
  }

  lemma MergeIdempotent(a: Span)
    ensures Merge(a, a) == a
  {
  }

  /** Any span of the source that encloses both inputs and lies inside every such span is their merge. */
  lemma MergeUnique(a: Span, b: Span, m: Span)
    requires a.src == b.src
    requires Encloses(m, a) && Encloses(m, b)
    requires forall c :: Encloses(c, a) && Encloses(c, b) ==> Encloses(c, m)
    ensures m == Merge(a, b)
  {
    assert Encloses(Merge(a, b), m);
  }

  /** The merged span covers every offset either input covers. */
  lemma MergeCoversBoth(a: Span, b: Span, i: int)
    requires a.src == b.src
    requires Covers(a, i) || Covers(b, i)
    ensures Covers(Merge(a, b), i)
  {
  }

  /** Merging two well-formed spans yields a well-formed span. */
  lemma MergeWellFormed(a: Span, b: Span)
    requires a.src == b.src
    requires Start(a) <= End(a) && Start(b) <= End(b)
    ensures Start(Merge(a, b)) <= End(Merge(a, b))
    ensures Len(Merge(a, b)) >= Len(a) && Len(Merge(a, b)) >= Len(b)
  {
  }

  /** A renderer recovers the original span from its `SourceSpan`. */
  lemma SourceSpanRoundTrip(s: Span)
    requires Start(s) <= End(s)
    ensures ToSourceSpan(s).offset + ToSourceSpan(s).length < USIZE_LIMIT
    ensures New(s.src, RangeOf(ToSourceSpan(s))) == s
  {
  }

  /** Every representable `SourceSpan` comes from exactly one well-formed span of a source. */
  lemma SourceSpanSurjective(src: SourceId, ss: SourceSpan)
    requires ss.offset + ss.length < USIZE_LIMIT
    ensures Start(New(src, RangeOf(ss))) <= End(New(src, RangeOf(ss)))
    ensures ToSourceSpan(New(src, RangeOf(ss))) == ss
  {
  }

  /** `SpannedExt::span` returns the span whatever the value is. */
  lemma SpanOfPair<T>(v: T, s: Span)
    ensures SpanOf((v, s)) == s
  {
  }
}
