/**
 * The page arithmetic of the `Pagination` component: how many pages a result of `total`
 * rows spans, and when Previous and Next are enabled and where they lead.
 */
module Pagination {

  /** `Math.ceil(total / pageSize)` for a whole-number count and a positive page size. */
  function CeilDiv(total: nat, pageSize: nat): (c: nat)
    requires pageSize > 0
    ensures total <= c * pageSize
    ensures c == 0 || (c - 1) * pageSize < total
  {
    var q := total / pageSize;
    if q * pageSize == total then q else q + 1
  }

  /** `Math.max(1, Math.ceil(total / pageSize))`. */
  function TotalPages(total: nat, pageSize: nat): (tp: nat)
    requires pageSize > 0
    ensures tp >= 1
    ensures total == 0 ==> tp == 1
    ensures total > 0 ==> (tp - 1) * pageSize < total <= tp * pageSize
  {
    var c := CeilDiv(total, pageSize);
    if c < 1 then 1 else c
  }

  /** Previous is enabled exactly when `page > 1`. */
  predicate PrevEnabled(page: int) {
    !(page <= 1)
  }

  /** Next is enabled exactly when `page < totalPages`. */
  predicate NextEnabled(page: int, total: nat, pageSize: nat)
    requires pageSize > 0
  {
    !(page >= TotalPages(total, pageSize))
  }

  /** The page Previous requests. */
  function PrevTarget(page: int): int {
    page - 1
  }

  /** The page Next requests. */
  function NextTarget(page: int): int {
    page + 1
  }

  /** An enabled Previous or Next, clicked on an in-range page, lands on an in-range page. */
  lemma StepsStayInRange(page: int, total: nat, pageSize: nat)
    requires pageSize > 0
    requires 1 <= page <= TotalPages(total, pageSize)
    ensures PrevEnabled(page) ==> 1 <= PrevTarget(page) <= TotalPages(total, pageSize)
    ensures NextEnabled(page, total, pageSize) ==> 1 <= NextTarget(page) <= TotalPages(total, pageSize)
    ensures PrevEnabled(page) <==> page != 1
    ensures NextEnabled(page, total, pageSize) <==> page != TotalPages(total, pageSize)
  {
  }

  /** With no rows there is one page, and both buttons are disabled on it. */
  lemma EmptyResultSinglePage(pageSize: nat)
    requires pageSize > 0
    ensures TotalPages(0, pageSize) == 1
    ensures !PrevEnabled(1) && !NextEnabled(1, 0, pageSize)
  {
  }

  /** Row `k` (counting from 0) is on page `k / pageSize + 1`, which is never past the last page. */
  lemma RowPageInRange(k: nat, total: nat, pageSize: nat)
    requires pageSize > 0 && k < total
    ensures 1 <= k / pageSize + 1 <= TotalPages(total, pageSize)
  {
    var tp := TotalPages(total, pageSize);
    var p := k / pageSize;
    assert p * pageSize <= k;
    if p + 1 > tp {
      assert tp * pageSize <= p * pageSize by {
        assert tp <= p;
        MulMonotone(tp, p, pageSize);
      }
    }
  }

  /**
   * The offset `(page - 1) * pageSize` of a page up to the last falls inside a non-empty
   * result, and the offset of any later page lies past its end.
   */
  lemma PageOffsetInRange(page: int, total: nat, pageSize: nat)
    requires pageSize > 0 && page >= 1
    ensures total > 0 && page <= TotalPages(total, pageSize) ==> (page - 1) * pageSize < total
    ensures page > TotalPages(total, pageSize) ==> (page - 1) * pageSize >= total
  {
    var tp := TotalPages(total, pageSize);
    if total > 0 && page <= tp {
      MulMonotone(page - 1, tp - 1, pageSize);
    }
    if page > tp {
      MulMonotone(tp, page - 1, pageSize);
    }
  }

  lemma MulMonotone(a: nat, b: nat, c: nat)
    requires a <= b
    ensures a * c <= b * c
  {
  }
}
