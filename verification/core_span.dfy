/**
 * Source locations of the core crate: a span is a pair of `u32` offsets
 * with `start <= end`, and `Spanned<T>` pairs a value with its span.
 */
module CoreSpan {

  /** `u32`. */
  const U32_LIMIT: int := 0x1_0000_0000
  type U32 = n: int | 0 <= n < U32_LIMIT

  datatype Span = Span(start: U32, end: U32)

  /** `std::ops::Range<u32>`. */
  datatype Range32 = Range32(start: U32, end: U32)

  datatype Spanned<T> = Spanned(inner: T, span: Span)

  /** The invariant `Span::new` asserts. */
  predicate Valid(s: Span) {
    s.start <= s.end
  }

  /** `outer` reaches at least as far on both sides as `inner`. */
  predicate Contains(outer: Span, inner: Span) {
    outer.start <= inner.start && inner.end <= outer.end
  }

  /** `Span::new`: a debug assertion demands `start <= end`. */
  function New(start: U32, end: U32): (s: Span)
    requires start <= end
    ensures Valid(s)
    ensures s.start == start && s.end == end
  {
    Span(start, end)
  }

  /** `Span::merge`: the smallest span containing both operands. */
  function Merge(a: Span, b: Span): (m: Span)
    ensures Contains(m, a) && Contains(m, b)
    ensures forall c :: Contains(c, a) && Contains(c, b) ==> Contains(c, m)
    ensures Valid(a) || Valid(b) ==> Valid(m)
  {
    var start := if a.start <= b.start then a.start else b.start;
    var end := if a.end >= b.end then a.end else b.end;
    Span(start, end)
  }

  /** `From<Range<u32>> for Span` goes through `Span::new` and inherits its assertion. */
  function FromRange(r: Range32): (s: Span)
    requires r.start <= r.end
    ensures Valid(s) && s.start == r.start && s.end == r.end
  {
    New(r.start, r.end)
  }

  /** `Spanned::map`: transforms the value and keeps the span. */
  function Map<T, U>(x: Spanned<T>, f: T -> U): (y: Spanned<U>)
    ensures y.inner == f(x.inner) && y.span == x.span
  {
    Spanned(f(x.inner), x.span)
  }

  /** `From<(T, Span)> for Spanned<T>`. */
  function FromPair<T>(p: (T, Span)): (x: Spanned<T>)
    ensures x.inner == p.0 && x.span == p.1
  {
    Spanned(p.0, p.1)
  }

  /** `From<(T, Range<u32>)> for Spanned<T>`: the range is converted with `FromRange`. */
  function FromRangePair<T>(p: (T, Range32)): (x: Spanned<T>)
    requires p.1.start <= p.1.end
    ensures x.inner == p.0 && Valid(x.span)
    ensures x.span.start == p.1.start && x.span.end == p.1.end
  {
    Spanned(p.0, FromRange(p.1))
  }

  // ---------------------------------------------------------------------
  // Laws

  /** `Contains` is antisymmetric, so `Merge` is determined by its contract. */
  lemma ContainsAntisymmetric(a: Span, b: Span)
    requires Contains(a, b) && Contains(b, a)
    ensures a == b
  {
  }

  /** Any span containing both operands and lying inside every such span is their merge. */
  lemma MergeUnique(a: Span, b: Span, m: Span)
    requires Contains(m, a) && Contains(m, b)
    requires forall c :: Contains(c, a) && Contains(c, b) ==> Contains(c, m)
    ensures m == Merge(a, b)
  {
    assert Contains(Merge(a, b), m);
  }

  lemma MergeCommutative(a: Span, b: Span)
    ensures Merge(a, b) == Merge(b, a)
  {
  }

  lemma MergeAssociative(a: Span, b: Span, c: Span)
    ensures Merge(Merge(a, b), c) == Merge(a, Merge(b, c))
  {
  }

  lemma MergeIdempotent(a: Span)
    ensures Merge(a, a) == a
  {
  }

  /** Merging with a span already inside leaves a span unchanged. */
  lemma MergeAbsorbs(a: Span, b: Span)
    requires Contains(a, b)
    ensures Merge(a, b) == a
  {
  }

  /** Mapping the identity returns the same value. */
  lemma MapIdentity<T>(x: Spanned<T>)
    ensures Map(x, (v: T) => v) == x
  {
  }

  /** Mapping `f` then `g` is mapping their composition. */
  lemma MapCompose<T, U, V>(x: Spanned<T>, f: T -> U, g: U -> V)
    ensures Map(Map(x, f), g) == Map(x, (v: T) => g(f(v)))
  {
  }

  /** The two tuple conversions agree once the range is turned into a span. */
  lemma FromRangePairViaSpan<T>(v: T, r: Range32)
    requires r.start <= r.end
    ensures FromRangePair((v, r)) == FromPair((v, FromRange(r)))
  {
  }

  /** Converting a pair and then mapping is mapping the value first. */
  lemma MapFromPair<T, U>(v: T, s: Span, f: T -> U)
    ensures Map(FromPair((v, s)), f) == FromPair((f(v), s))
  {
  }
}
