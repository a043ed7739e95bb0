/**
 * The remainder-distributing split of `total` elements into `n` contiguous parts that
 * gelu_custom.cpp uses twice: once to give each core its block of the vector (lines 60-63)
 * and once to cut a block into tiles (lines 21-24, 71-73). The first `total % n` parts
 * hold `total / n + 1` elements, the others `total / n`.
 */
module Partition {
  import opened Arith

  /** Number of elements in part `i`. */
  function PartSize(total: nat, n: nat, i: nat): (size: nat)
    requires n >= 1
  {
    if i < total % n then total / n + 1 else total / n
  }

  /** First element of part `i`. */
  function PartOffset(total: nat, n: nat, i: nat): (offset: nat)
    requires n >= 1
  {
    var base, rem := total / n, total % n;
    if i < rem then i * (base + 1) else rem * (base + 1) + (i - rem) * base
  }

  /** Size of the largest part: one more than the base size when there is a remainder. */
  function MaxPartSize(total: nat, n: nat): (size: nat)
    requires n >= 1
  {
    if total % n > 0 then total / n + 1 else total / n
  }

  /** Sum of the sizes of parts `0 .. k-1`. */
  function SizesBefore(total: nat, n: nat, k: nat): (sum: nat)
    requires n >= 1
  {
    if k == 0 then 0 else SizesBefore(total, n, k - 1) + PartSize(total, n, k - 1)
  }

  /** The indices `lo, lo+1, .., hi-1` in increasing order. */
  function Span(lo: nat, hi: nat): (s: seq<nat>)
    requires lo <= hi
  {
    seq(hi - lo, j requires 0 <= j < hi - lo => lo + j)
  }

  /**
   * Part sizes are balanced: a part is never smaller than a later one and never more than
   * one element larger than any other.
   */
  lemma SizesBalanced(total: nat, n: nat, i: nat, j: nat)
    requires n >= 1 && i <= j < n
    ensures PartSize(total, n, j) <= PartSize(total, n, i) <= PartSize(total, n, j) + 1
    ensures PartSize(total, n, i) == total / n || PartSize(total, n, i) == total / n + 1
  {
  }

  /** Offsets are cumulative: part 0 starts at 0 and part `i + 1` starts where part `i` ends. */
  lemma OffsetStep(total: nat, n: nat, i: nat)
    requires n >= 1
    ensures PartOffset(total, n, 0) == 0
    ensures PartOffset(total, n, i + 1) == PartOffset(total, n, i) + PartSize(total, n, i)
  {
    var base, rem := total / n, total % n;
    if i + 1 < rem {
      assert (i + 1) * (base + 1) == i * (base + 1) + (base + 1);
    } else if i + 1 == rem {
      assert rem * (base + 1) == i * (base + 1) + (base + 1);
    } else {
      assert (i + 1 - rem) * base == (i - rem) * base + base;
    }
  }

  /** The offset of part `k` is the total size of the parts before it. */
  lemma {:induction false} OffsetIsPrefixSum(total: nat, n: nat, k: nat)
    requires n >= 1
    ensures PartOffset(total, n, k) == SizesBefore(total, n, k)
  {
    OffsetStep(total, n, 0);
    if k > 0 {
      OffsetIsPrefixSum(total, n, k - 1);
      OffsetStep(total, n, k - 1);
    }
  }

  /** The `n` parts together hold exactly `total` elements. */
  lemma PartsSumToTotal(total: nat, n: nat)
    requires n >= 1
    ensures SizesBefore(total, n, n) == total
    ensures PartOffset(total, n, n) == total
  {
    var base, rem := total / n, total % n;
    DivMod(total, n);
    assert (n - rem) * base == n * base - rem * base;
    OffsetIsPrefixSum(total, n, n);
  }

  /** Offsets never decrease with the part index. */
  lemma {:induction false} OffsetMonotone(total: nat, n: nat, i: nat, j: nat)
    requires n >= 1 && i <= j
    ensures PartOffset(total, n, i) <= PartOffset(total, n, j)
  {
    if i < j {
      OffsetMonotone(total, n, i, j - 1);
      OffsetStep(total, n, j - 1);
    }
  }

  /** Every part lies inside `[0, total)`. */
  lemma PartWithinTotal(total: nat, n: nat, i: nat)
    requires n >= 1 && i < n
    ensures PartOffset(total, n, i) + PartSize(total, n, i) <= total
  {
    OffsetStep(total, n, i);
    OffsetMonotone(total, n, i + 1, n);
    PartsSumToTotal(total, n);
  }

  /** An earlier part ends at or before the start of a later one: parts never overlap. */
  lemma PartsDisjoint(total: nat, n: nat, i: nat, j: nat)
    requires n >= 1 && i < j
    ensures PartOffset(total, n, i) + PartSize(total, n, i) <= PartOffset(total, n, j)
  {
    OffsetStep(total, n, i);
    OffsetMonotone(total, n, i + 1, j);
  }

  /** `a < m * d` bounds the quotient `a / d` by `m`. */
  lemma QuotientBelow(a: nat, d: nat, m: nat)
    requires d >= 1 && a < m * d
    ensures a / d < m
  {
    DivMod(a, d);
  }

  /**
   * The part that holds element `k`, computed in closed form. It inverts the
   * partition: `k` lies in the returned part.
   */
  function PartOf(total: nat, n: nat, k: nat): (i: nat)
    requires n >= 1 && k < total
    ensures i < n
    ensures PartOffset(total, n, i) <= k < PartOffset(total, n, i) + PartSize(total, n, i)
  {
    var base, rem := total / n, total % n;
    if k < rem * (base + 1) then
      PartOfHead(total, n, k);
      k / (base + 1)
    else
      PartOfTail(total, n, k);
      rem + (k - rem * (base + 1)) / base
  }

  /** `PartOf` on the leading parts, those of size `total / n + 1`. */
  lemma PartOfHead(total: nat, n: nat, k: nat)
    requires n >= 1 && k < total
    requires k < (total % n) * (total / n + 1)
    ensures var i := k / (total / n + 1);
      i < n && PartOffset(total, n, i) <= k < PartOffset(total, n, i) + PartSize(total, n, i)
  {
    var base, rem := total / n, total % n;
    var i := k / (base + 1);
    DivMod(k, base + 1);
    QuotientBelow(k, base + 1, rem);
    assert i < rem;
    assert PartOffset(total, n, i) == i * (base + 1) == (base + 1) * i;
    assert PartSize(total, n, i) == base + 1;
  }

  /** `PartOf` on the trailing parts, those of size `total / n`, which then is at least one. */
  lemma PartOfTail(total: nat, n: nat, k: nat)
    requires n >= 1 && k < total
    requires k >= (total % n) * (total / n + 1)
    ensures total / n >= 1
    ensures var base, rem := total / n, total % n;
      var i := rem + (k - rem * (base + 1)) / base;
      i < n && PartOffset(total, n, i) <= k < PartOffset(total, n, i) + PartSize(total, n, i)
  {
    var base, rem := total / n, total % n;
    DivMod(total, n);
    if base == 0 {
      assert false;
    }
    var k' := k - rem * (base + 1);
    var q := k' / base;
    DivMod(k', base);
    assert k' < (n - rem) * base by {
      assert (n - rem) * base == n * base - rem * base;
    }
    QuotientBelow(k', base, n - rem);
    var i := rem + q;
    assert i - rem == q;
    assert PartOffset(total, n, i) == rem * (base + 1) + q * base;
    assert q * base == base * q;
    assert PartSize(total, n, i) == base;
  }

  /** Element `k` of `[0, total)` lies in exactly one part, the one `PartOf` names. */
  lemma PartOfUnique(total: nat, n: nat, k: nat, i: nat)
    requires n >= 1 && k < total && i < n
    ensures PartOffset(total, n, i) <= k < PartOffset(total, n, i) + PartSize(total, n, i)
            <==> i == PartOf(total, n, k)
  {
    var o := PartOf(total, n, k);
    if i < o {
      PartsDisjoint(total, n, i, o);
    } else if o < i {
      PartsDisjoint(total, n, o, i);
    }
  }

  /**
   * Empty parts are exactly the ones whose index is at least `total`: when there are more
   * parts than elements the trailing parts are legitimately empty, and otherwise none is.
   */
  lemma EmptyPartsAreTheTail(total: nat, n: nat, i: nat)
    requires n >= 1 && i < n
    ensures PartSize(total, n, i) == 0 <==> total <= i
  {
    DivMod(total, n);
    if total < n {
      DivUnique(total, n, 0, total);
    } else {
      if total / n == 0 {
        assert false;
      }
    }
  }

  /** `MaxPartSize` is the size of the largest part, and part 0 attains it. */
  lemma MaxPartSizeIsMax(total: nat, n: nat, i: nat)
    requires n >= 1 && i < n
    ensures PartSize(total, n, i) <= MaxPartSize(total, n)
    ensures PartSize(total, n, 0) == MaxPartSize(total, n)
  {
  }

  /** Adjacent spans concatenate. */
  lemma SpanConcat(a: nat, b: nat, c: nat)
    requires a <= b <= c
    ensures Span(a, b) + Span(b, c) == Span(a, c)
  {
    var s := Span(a, b) + Span(b, c);
    assert |s| == c - a;
    forall j | 0 <= j < c - a
      ensures s[j] == Span(a, c)[j]
    {
      if j < b - a {
        assert s[j] == Span(a, b)[j];
      } else {
        assert s[j] == Span(b, c)[j - (b - a)];
      }
    }
  }

  /** Appending two adjacent spans to a log appends their union. */
  lemma AppendSpans(log: seq<nat>, a: nat, b: nat, c: nat)
    requires a <= b <= c
    ensures log + Span(a, b) + Span(b, c) == log + Span(a, c)
  {
    SpanConcat(a, b, c);
    assert log + Span(a, b) + Span(b, c) == log + (Span(a, b) + Span(b, c));
  }

  /** A span lists each index of `[lo, hi)` exactly once and nothing else. */
  lemma {:induction false} SpanListsEachIndexOnce(lo: nat, hi: nat, k: nat)
    requires lo <= hi
    ensures multiset(Span(lo, hi))[k] == if lo <= k < hi then 1 else 0
  {
    if lo < hi {
      SpanListsEachIndexOnce(lo, hi - 1, k);
      SpanConcat(lo, hi - 1, hi);
      assert Span(hi - 1, hi) == [hi - 1];
      assert multiset(Span(lo, hi)) == multiset(Span(lo, hi - 1)) + multiset([hi - 1]);
    } else {
      assert Span(lo, hi) == [];
    }
  }
}
