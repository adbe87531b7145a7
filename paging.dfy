/**
 * The page arithmetic of the trip listing: the total number of pages, computed
 * in the source through a `double` and `Math.Ceiling`, is modelled as integer
 * ceiling division; the row offset is computed in 32-bit `int` arithmetic,
 * which C# wraps around on overflow.
 */
module Paging {

  const Int32Min: int := -0x8000_0000
  const Int32Max: int := 0x7FFF_FFFF
  const Modulus: int := 0x1_0000_0000

  predicate IsInt32(x: int) {
    Int32Min <= x <= Int32Max
  }

  /** Two's-complement wrap-around of an unchecked C# `int` operation. */
  function Wrap32(x: int): (r: int)
    ensures IsInt32(r)
  {
    (x - Int32Min) % Modulus + Int32Min
  }

  /** Wrapping leaves 32-bit values alone. */
  lemma Wrap32InRange(x: int)
    requires IsInt32(x)
    ensures Wrap32(x) == x
  {
  }

  /** Wrapping only sees a value modulo 2^32. */
  lemma Wrap32Shift(x: int, k: int)
    ensures Wrap32(x + k * Modulus) == Wrap32(x)
  {
    var a := x - Int32Min;
    assert (a + k * Modulus) % Modulus == a % Modulus by {
      var q := a / Modulus;
      var r := a % Modulus;
      assert a + k * Modulus == (q + k) * Modulus + r;
    }
  }

  /** `offset = (page - 1) * pageSize`, evaluated in unchecked 32-bit arithmetic. */
  function Offset(page: int, pageSize: int): (offset: int)
    requires IsInt32(page) && IsInt32(pageSize)
    ensures IsInt32(offset)
  {
    Wrap32(Wrap32(page - 1) * pageSize)
  }

  /** The offset is the true product `(page - 1) * pageSize` whenever that
      product fits in 32 bits, and is skipped rows = whole pages before `page`. */
  lemma OffsetIsProduct(page: int, pageSize: int)
    requires IsInt32(page) && IsInt32(pageSize)
    requires IsInt32((page - 1) * pageSize)
    ensures Offset(page, pageSize) == (page - 1) * pageSize
  {
    var w := Wrap32(page - 1);
    var k := (page - 1 - Int32Min) / Modulus;
    assert w == page - 1 - k * Modulus;
    assert w * pageSize == (page - 1) * pageSize + (-k * pageSize) * Modulus;
    Wrap32Shift((page - 1) * pageSize, -k * pageSize);
    Wrap32InRange((page - 1) * pageSize);
  }

  /** `(int)Math.Ceiling((double)totalCount / pageSize)` as integer ceiling division. */
  function PageCount(totalCount: nat, pageSize: int): (pages: nat)
    requires pageSize >= 1
    ensures pages * pageSize >= totalCount
    ensures pages > 0 ==> (pages - 1) * pageSize < totalCount
    ensures pages <= totalCount
  {
    var q := (totalCount + pageSize - 1) / pageSize;
    assert q * pageSize + (totalCount + pageSize - 1) % pageSize == totalCount + pageSize - 1;
    q
  }

  /** The page count is the least number of pages that holds every trip. */
  lemma PageCountIsLeast(totalCount: nat, pageSize: int, n: nat)
    requires pageSize >= 1
    requires n * pageSize >= totalCount
    ensures PageCount(totalCount, pageSize) <= n
  {
  }

  /** No trips means no pages; a partial last page still counts as a page. */
  lemma PageCountExamples()
    ensures PageCount(0, 10) == 0
    ensures PageCount(10, 10) == 1
    ensures PageCount(11, 10) == 2
  {
    PageCountIsLeast(0, 10, 0);
    PageCountIsLeast(10, 10, 1);
    PageCountIsLeast(11, 10, 2);
  }
}
