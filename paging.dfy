/**
 * The paging envelope of the rate-limited listing: `Skip((pageNumber - 1) * pageSize)`,
 * `Take(pageSize)`, the total count and `Math.Ceiling(total / pageSize)` pages.
 */
module Paging {

  import Sequences

  /** The anonymous result object of the listing. */
  datatype Page<T> = Page(
    totalUsers: int,
    totalPages: int,
    currentPage: int,
    pageSize: int,
    users: seq<T>)

  /** `Math.Ceiling((double)n / d)` for a positive divisor: the smallest `q` with `n <= q * d`. */
  function CeilDiv(n: nat, d: int): (q: nat)
    requires d >= 1
    ensures (q - 1) * d < n <= q * d
  {
    var q := (n + d - 1) / d;
    assert d * q + (n + d - 1) % d == n + d - 1;
    q
  }

  const Int32Min: int := -0x8000_0000
  const Int32Max: int := 0x7fff_ffff

  /** `x` fits in a C# `int`. */
  predicate IsInt32(x: int)
  {
    Int32Min <= x <= Int32Max
  }

  /** Unchecked C# `int` arithmetic: the result taken modulo 2^32 into the `int` range. */
  function WrapInt32(x: int): (r: int)
    ensures IsInt32(r)
    ensures (r - x) % 0x1_0000_0000 == 0
    ensures IsInt32(x) ==> r == x
  {
    (x - Int32Min) % 0x1_0000_0000 + Int32Min
  }

  /**
   * The page `pageNumber` of `all`, `pageSize` elements to a page; the skip
   * count `(pageNumber - 1) * pageSize` is computed in unchecked `int`.
   */
  function Paginate<T>(all: seq<T>, pageNumber: int, pageSize: int): (p: Page<T>)
    requires IsInt32(pageNumber) && IsInt32(pageSize) && pageSize >= 1
    ensures p.totalUsers == |all| && p.currentPage == pageNumber && p.pageSize == pageSize
    ensures (p.totalPages - 1) * pageSize < |all| <= p.totalPages * pageSize
    ensures |p.users| == Min(pageSize, |all| - Sequences.Clamp(SkipCount(pageNumber, pageSize), |all|))
    ensures forall i :: 0 <= i < |p.users| ==>
              p.users[i] == all[Sequences.Clamp(SkipCount(pageNumber, pageSize), |all|) + i]
  {
    var skipped := Sequences.Skip(all, SkipCount(pageNumber, pageSize));
    Page(|all|, CeilDiv(|all|, pageSize), pageNumber, pageSize, Sequences.Take(skipped, pageSize))
  }

  /** `(pageNumber - 1) * pageSize` in unchecked `int`. */
  function SkipCount(pageNumber: int, pageSize: int): int
  {
    WrapInt32(WrapInt32(pageNumber - 1) * pageSize)
  }

  /** Without overflow the skip count is the plain product. */
  lemma SkipCountExact(pageNumber: int, pageSize: int)
    requires IsInt32(pageNumber) && IsInt32(pageNumber - 1) && IsInt32((pageNumber - 1) * pageSize)
    ensures SkipCount(pageNumber, pageSize) == (pageNumber - 1) * pageSize
  {
  }

  function Min(a: int, b: int): int { if a <= b then a else b }

  function Max(a: int, b: int): int { if a >= b then a else b }

  /** For a page number of at least one the skip count is the non-negative product. */
  lemma SkipCountOfPage(pageNumber: int, pageSize: int)
    requires IsInt32(pageNumber) && IsInt32(pageSize) && pageNumber >= 1 && pageSize >= 1
    requires (pageNumber - 1) * pageSize <= Int32Max
    ensures SkipCount(pageNumber, pageSize) == (pageNumber - 1) * pageSize >= 0
  {
    assert (pageNumber - 1) * pageSize >= 0 by {
      assert pageNumber - 1 >= 0;
    }
    SkipCountExact(pageNumber, pageSize);
  }

  /** A skip count of `start >= 0` selects the elements from `start` on, at most `pageSize` of them. */
  lemma PageFrom<T>(all: seq<T>, pageNumber: int, pageSize: int, start: nat)
    requires IsInt32(pageNumber) && IsInt32(pageSize) && pageSize >= 1
    requires SkipCount(pageNumber, pageSize) == start
    ensures var users := Paginate(all, pageNumber, pageSize).users;
            && |users| == Min(pageSize, Max(0, |all| - start))
            && forall i :: 0 <= i < |users| ==> users[i] == all[start + i]
  {
    if start > |all| {
      assert Sequences.Clamp(start, |all|) == |all|;
    }
  }

  /**
   * Page `P >= 1`, when `(P - 1) * S` does not overflow, holds the elements
   * of `all` from index `(P - 1) * S` on, `min(S, max(0, T - (P - 1) * S))`
   * of them.
   */
  lemma PageContents<T>(all: seq<T>, pageNumber: int, pageSize: int)
    requires IsInt32(pageNumber) && IsInt32(pageSize) && pageNumber >= 1 && pageSize >= 1
    requires (pageNumber - 1) * pageSize <= Int32Max
    ensures var users := Paginate(all, pageNumber, pageSize).users;
            var start := (pageNumber - 1) * pageSize;
            && |users| == Min(pageSize, Max(0, |all| - start))
            && forall i :: 0 <= i < |users| ==> 0 <= start + i < |all| && users[i] == all[start + i]
  {
    SkipCountOfPage(pageNumber, pageSize);
    PageFrom(all, pageNumber, pageSize, (pageNumber - 1) * pageSize);
  }

  /** A page number of one or less skips nothing: the first page is returned. */
  lemma PageNumberBelowOneIsFirstPage<T>(all: seq<T>, pageNumber: int, pageSize: int)
    requires IsInt32(pageNumber) && IsInt32(pageSize) && pageNumber <= 1 && pageSize >= 1
    requires (pageNumber - 1) * pageSize >= Int32Min
    ensures Paginate(all, pageNumber, pageSize).users == Paginate(all, 1, pageSize).users
    ensures Paginate(all, pageNumber, pageSize).users == all[..Min(pageSize, |all|)]
  {
    assert (pageNumber - 1) * pageSize <= 0 by {
      assert pageNumber - 1 <= 0;
    }
    SkipCountExact(pageNumber, pageSize);
    SkipCountExact(1, pageSize);
  }

  /**
   * A page number far past the end makes the skip count wrap around: page
   * 2^30 + 1 of size 4 skips 2^32 elements, which wraps to 0, so the first
   * page comes back instead of an empty one.
   */
  lemma SkipCountWraps<T>(all: seq<T>)
    ensures Paginate(all, 0x4000_0001, 4).users == all[..Min(4, |all|)]
  {
    assert SkipCount(0x4000_0001, 4) == WrapInt32(0x1_0000_0000) == 0;
  }
}
