/**
 * The paging half of `GetPaginatedAsync`: `Skip((PageNumber - 1) * PageSize).Take(PageSize)`
 * and the page count `(int)Math.Ceiling(TotalRecords / (double)PageSize)`.
 */
module Paging {
  import opened Models
  import opened Seqs

  /** `Math.Ceiling(n / (double)s)` for a count `n` and a non-zero 32-bit `s`: the least `r`
      with `n <= r * s` when `s` is positive, the greatest with `r * s <= n` when negative. For
      32-bit operands the double quotient never rounds onto or past an integer, so this integer
      ceiling is exact. */
  function CeilDiv(n: nat, s: int): (r: int)
    requires s != 0
    ensures s > 0 ==> (r - 1) * s < n <= r * s
    ensures s < 0 ==> r * s <= n < (r - 1) * s
  {
    if s > 0 then
      var r := (n + s - 1) / s;
      assert (r - 1) * s == r * s - s;
      r
    else
      var d := n / -s;
      assert (d + 1) * -s == d * -s + -s;
      -d
  }

  lemma MulAtLeast(a: nat, s: int)
    requires s >= 1
    ensures a * s >= a
  {
    assert a * s == a * (s - 1) + a;
  }

  /** The page count of a count that fits in an `int` is itself an `int`; with a positive page
      size it is at most the count. */
  lemma CeilDivBounds(n: nat, s: int)
    requires s != 0 && n <= MaxInt32
    ensures s > 0 ==> 0 <= CeilDiv(n, s) <= n
    ensures s < 0 ==> -(n as int) <= CeilDiv(n, s) <= 0
    ensures MinInt32 <= CeilDiv(n, s) <= MaxInt32
  {
    if s > 0 {
      var r := (n + s - 1) / s;
      assert r >= 0;
      if r > n {
        MulAtLeast(r - 1, s);
      }
    } else {
      var d := n / -s;
      MulAtLeast(d, -s);
    }
  }

  /** The number of elements LINQ's `Skip(n)` passes over, and `Take(n)` keeps: none for a
      negative count, at most all of them. */
  function Clamp(n: int, len: nat): (r: nat)
    ensures r <= len
    ensures 0 <= n <= len ==> r == n
    ensures n < 0 ==> r == 0
    ensures n > len ==> r == len
  {
    if n < 0 then 0 else if n > len then len else n
  }

  /** LINQ `Skip(n)`: every element after the first `n`; all of them for a count of 0 or
      less, none for a count of at least the length. */
  function Skip<T>(q: seq<T>, n: int): (r: seq<T>)
    ensures n <= 0 ==> r == q
    ensures n >= |q| ==> r == []
    ensures 0 <= n <= |q| ==> |r| == |q| - n && q == q[..n] + r
  {
    var r := q[Clamp(n, |q|)..];
    assert q == q[..Clamp(n, |q|)] + r;
    r
  }

  /** LINQ `Take(n)`: the first `n` elements; none for a count of 0 or less, all of them for a
      count of at least the length. */
  function Take<T>(q: seq<T>, n: int): (r: seq<T>)
    ensures n <= 0 ==> r == []
    ensures n >= |q| ==> r == q
    ensures |r| == Clamp(n, |q|) && r == q[..|r|]
  {
    q[..Clamp(n, |q|)]
  }

  /** What `Take(n)` keeps and `Skip(n)` passes over, put together, is the whole sequence. */
  lemma TakeSkip<T>(q: seq<T>, n: int)
    ensures Take(q, n) + Skip(q, n) == q
  {
    TakeDrop(q, Clamp(n, |q|));
  }

  /** The records of page `p` of size `s`, with the offset `(p - 1) * s` computed without
      overflow. Page `p` holds the records from position `(p - 1) * s` up to `p * s`, fewer on
      the last page, none beyond it; a page number below 1 gives the first page, and a
      negative page size an empty one. */
  function PageSlice<T>(q: seq<T>, p: int, s: int): (r: seq<T>)
    ensures s <= 0 ==> r == []
    ensures 0 < s ==> |r| <= s
    ensures 0 < s && p <= 1 ==> r == q[..Clamp(s, |q|)]
    ensures 0 < s && 1 <= p ==> r == q[Clamp((p - 1) * s, |q|)..Clamp(p * s, |q|)]
  {
    Offset(p, s);
    Take(Skip(q, (p - 1) * s), s)
  }

  /** Page `p` starts where page `p - 1` ends; pages up to the first start at the front. */
  lemma Offset(p: int, s: int)
    ensures (p - 1) * s + s == p * s
    ensures s > 0 && p <= 1 ==> (p - 1) * s <= 0
  {
    if s > 0 && p <= 1 {
      MulAtLeast(1 - p, s);
    }
  }

  /** With `s` records a page, every page before the last is full. */
  lemma PageFull<T>(q: seq<T>, p: int, s: int)
    requires s > 0 && 1 <= p < CeilDiv(|q|, s)
    ensures |PageSlice(q, p, s)| == s
  {
    var r := CeilDiv(|q|, s);
    MulAtLeast(r - 1 - p, s);
    MulAtLeast(p - 1, s);
    assert (r - 1) * s == (r - 1 - p) * s + p * s;
    Offset(p, s);
    var a, b := (p - 1) * s, p * s;
    assert 0 <= a && b < |q|;
    assert PageSlice(q, p, s) == q[a..b];
  }

  /** Every page up to the page count holds at least one record. */
  lemma PageNonEmpty<T>(q: seq<T>, p: int, s: int)
    requires s > 0 && 1 <= p <= CeilDiv(|q|, s)
    ensures PageSlice(q, p, s) != []
  {
    var r := CeilDiv(|q|, s);
    MulAtLeast(r - p, s);
    MulAtLeast(p - 1, s);
    assert (r - 1) * s == (r - p) * s + (p - 1) * s;
    Offset(p, s);
    var a, b := (p - 1) * s, p * s;
    assert 0 <= a < |q| && a < b;
    assert PageSlice(q, p, s) == q[a..Clamp(b, |q|)];
  }

  /** Every page beyond the page count is empty. */
  lemma PageBeyondEnd<T>(q: seq<T>, p: int, s: int)
    requires s > 0 && p > CeilDiv(|q|, s)
    ensures PageSlice(q, p, s) == []
  {
    var r := CeilDiv(|q|, s);
    MulAtLeast(p - 1 - r, s);
    assert (p - 1) * s == (p - 1 - r) * s + r * s;
  }

  /** Pages 1 to `k`, one after the other. */
  function Pages<T>(q: seq<T>, s: int, k: nat): seq<T>
  {
    if k == 0 then [] else Pages(q, s, k - 1) + PageSlice(q, k, s)
  }

  lemma {:induction false} PagesPrefix<T>(q: seq<T>, s: int, k: nat)
    requires s > 0
    ensures Pages(q, s, k) == q[..Clamp(k * s, |q|)]
  {
    if k > 0 {
      PagesPrefix(q, s, k - 1);
      var a, b := Clamp((k - 1) * s, |q|), Clamp(k * s, |q|);
      assert (k - 1) * s + s == k * s;
      SplitAt(q, a, b);
    }
  }

  /** The pages from 1 to the page count, put together, are the whole query: each record is on
      exactly one page, in order. */
  lemma PagesCover<T>(q: seq<T>, s: int)
    requires s > 0
    ensures Pages(q, s, CeilDiv(|q|, s)) == q
  {
    var r := CeilDiv(|q|, s);
    PagesPrefix(q, s, r);
  }

  /** Unchecked 32-bit arithmetic, as C# computes `int` expressions outside a `checked`
      context: the 32-bit value congruent to `x`. */
  function WrapInt32(x: int): (r: Int32)
    ensures (x - r) % 0x1_0000_0000 == 0
    ensures MinInt32 <= x <= MaxInt32 ==> r == x
  {
    var m := x % 0x1_0000_0000;
    if m > MaxInt32 then m - 0x1_0000_0000 else m
  }

  /** The offset as the source computes it: `PageNumber - 1` wraps around in 32 bits, and so
      does its product with `PageSize`. */
  function OffsetAsWritten(p: Int32, s: Int32): Int32
  {
    WrapInt32(WrapInt32(p - 1) * s)
  }

  /** The page as the source computes it, from the wrapped offset: at most `s` records, from
      that offset on, none for a non-positive size. */
  function PageSliceAsWritten<T>(q: seq<T>, p: Int32, s: Int32): (r: seq<T>)
    ensures s <= 0 ==> r == []
    ensures 0 < s ==> |r| <= s
    ensures var a := Clamp(OffsetAsWritten(p, s), |q|);
      0 < s ==> a <= Clamp(a + s, |q|) && r == q[a..Clamp(a + s, |q|)]
  {
    Take(Skip(q, OffsetAsWritten(p, s)), s)
  }

  /** A product of page number less one and page size that fits in an `int` has a first factor
      that fits, unless the page size is 0. */
  lemma FactorFits(a: int, s: int)
    requires MinInt32 <= a * s <= MaxInt32
    ensures MinInt32 <= a || s == 0
  {
    if a < 0 && s > 0 {
      MulAtLeast(-a, s);
      assert -a * s == -(a * s);
    } else if a < 0 && s < 0 {
      MulAtLeast(-a, -s);
      assert -a * -s == a * s;
    }
  }

  /** An offset that fits in an `int` does not wrap. */
  lemma OffsetFits(p: Int32, s: Int32)
    requires MinInt32 <= (p - 1) * s <= MaxInt32
    ensures OffsetAsWritten(p, s) == (p - 1) * s
  {
    FactorFits(p - 1, s);
  }

  /** While the offset fits in an `int`, the page as written is the intended page. */
  lemma AsWrittenAgrees<T>(q: seq<T>, p: Int32, s: Int32)
    requires MinInt32 <= (p - 1) * s <= MaxInt32
    ensures PageSliceAsWritten(q, p, s) == PageSlice(q, p, s)
  {
    OffsetFits(p, s);
  }

  /** Page 2^30 + 1 of size 4 lies far beyond the end of any query whose count fits in an
      `int`, yet its offset 2^32 wraps to 0 and the source returns the first page. */
  lemma OffsetOverflow<T>(q: seq<T>)
    requires 4 <= |q| <= MaxInt32
    ensures PageSlice(q, 0x4000_0001, 4) == []
    ensures PageSliceAsWritten(q, 0x4000_0001, 4) == q[..4]
    ensures 0x4000_0001 > CeilDiv(|q|, 4)
  {
    assert OffsetAsWritten(0x4000_0001, 4) == 0;
    CeilDivBounds(|q|, 4);
  }

  /** Every page number below 1 gives the first page, except `int.MinValue`: with page size 1,
      `PageNumber - 1` wraps to `int.MaxValue` and the source skips every record. */
  lemma NegativePageWraps<T>(q: seq<T>)
    requires 1 <= |q| <= MaxInt32
    ensures PageSlice(q, MinInt32, 1) == q[..1]
    ensures PageSliceAsWritten(q, MinInt32, 1) == []
  {
    assert OffsetAsWritten(MinInt32, 1) == MaxInt32;
  }
}
