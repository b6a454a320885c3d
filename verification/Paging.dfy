/** Page arithmetic shared by the event feed and the data table. */
module Paging {

  function Smaller(a: int, b: int): int {
    if a <= b then a else b
  }

  /** How many pages a total needs; an empty list still has one. */
  function TotalPages(total: nat, size: int): (pages: int)
    requires size >= 1
    ensures pages >= 1
  {
    var pages := (total + size - 1) / size;
    if pages < 1 then 1 else pages
  }

  lemma OneMore(pages: int, size: int)
    ensures pages * size == (pages - 1) * size + size
  {
  }

  lemma NoMore(n: int, size: int)
    requires n <= 0 && size >= 1
    ensures n * size <= 0
  {
  }

  /** The pages cover the total, and the last of several pages starts inside it. */
  lemma LastPage(total: nat, size: int)
    requires size >= 1
    ensures TotalPages(total, size) * size >= total
    ensures TotalPages(total, size) > 1 ==> 0 <= (TotalPages(total, size) - 1) * size < total
  {
    var quotient := (total + size - 1) / size;
    var remainder := (total + size - 1) % size;
    assert total + size - 1 == quotient * size + remainder;
    OneMore(quotient, size);
    if quotient < 1 {
      assert quotient * size <= 0 by { NoMore(quotient, size); }
    } else {
      NoMore(1 - quotient, size);
    }
  }
}
