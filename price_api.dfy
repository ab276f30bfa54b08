/**
 * The price controller (src/price/price.controller.ts): `GET /prices` turns
 * its `page` and `limit` query parameters into numbers, falling back to 1
 * and 10, and hands them to the price service's `findAll`.
 */
module PriceApi {
  import opened Wrappers
  import opened Entities
  import opened Repository
  import opened Prices

  /**
   * A query parameter after `Number(...)`: absent, not a number, or an
   * integer (an empty string arrives as `Num(0)`).
   */
  datatype QueryValue = Missing | NaN | Num(value: int)

  /** `Number(x) || fallback`, with an absent parameter taking its declared default first. */
  function NumberOr(q: QueryValue, fallback: int): (r: int)
    ensures q.Num? && q.value != 0 ==> r == q.value
    ensures !(q.Num? && q.value != 0) ==> r == fallback
  {
    match q
    case Num(n) => if n != 0 then n else fallback
    case _ => fallback
  }

  /**
   * `findAll(page, limit)` of the controller: an answer reports the row
   * count and never more rows than the effective limit, which is positive.
   */
  function FindAllEndpoint(ticks: seq<PriceTick>, page: QueryValue, limit: QueryValue): (r: Result<PricePage, QueryError>)
    ensures r.Ok? ==> r.value.total == |ticks|
    ensures r.Ok? ==> NumberOr(limit, 10) > 0 && |r.value.data| <= NumberOr(limit, 10)
  {
    FindAll(ticks, NumberOr(page, 1), NumberOr(limit, 10))
  }

  /** The fallbacks leave neither value zero, so the service always receives a real LIMIT. */
  lemma NumberOrNeverZero(q: QueryValue, fallback: int)
    requires fallback != 0
    ensures NumberOr(q, fallback) != 0
  {
  }

  /**
   * The endpoint answers exactly when the effective page is at least 1, the
   * effective limit positive, and both the offset and the limit fit a
   * `bigint`; a negative page or limit, or a huge one, is refused.
   */
  lemma EndpointOkIff(ticks: seq<PriceTick>, page: QueryValue, limit: QueryValue)
    ensures FindAllEndpoint(ticks, page, limit).Ok? <==>
      && NumberOr(page, 1) >= 1 && 0 < NumberOr(limit, 10) < BigintBound
      && (NumberOr(page, 1) - 1) * NumberOr(limit, 10) < BigintBound
  {
    var p, l := NumberOr(page, 1), NumberOr(limit, 10);
    NumberOrNeverZero(limit, 10);
    if l > 0 {
      SkipSign(p, l);
    }
  }

  /** With a positive limit the offset is non-negative exactly from page 1 on. */
  lemma SkipSign(page: int, limit: int)
    requires limit > 0
    ensures Skip(page, limit) >= 0 <==> page >= 1
  {
    if page >= 1 {
      assert (page - 1) * limit >= 0;
    } else {
      assert (page - 1) * limit <= -limit;
    }
  }

  /** A page of 10^20 asks for an offset beyond a `bigint`, which the database refuses. */
  lemma HugePageRefused(ticks: seq<PriceTick>)
    ensures FindAllEndpoint(ticks, Num(100000000000000000000), Missing) == Err(WindowOutOfRange)
  {
    assert Skip(100000000000000000000, 10) == 999999999999999999990;
  }

  /** A zero, missing or non-numeric page is the first page. */
  lemma ZeroPageIsFirst(ticks: seq<PriceTick>, page: QueryValue, limit: QueryValue)
    requires page == Missing || page == NaN || page == Num(0)
    ensures FindAllEndpoint(ticks, page, limit) == FindAllEndpoint(ticks, Num(1), limit)
  {
  }

  /** Without parameters: the ten newest ticks (fewer if the table is smaller) and the row count. */
  lemma DefaultRequest(ticks: seq<PriceTick>)
    ensures FindAllEndpoint(ticks, Missing, Missing).Ok?
    ensures FindAllEndpoint(ticks, Missing, Missing).value.total == |ticks|
    ensures FindAllEndpoint(ticks, Missing, Missing).value.data
         == OrderByTimestampDesc(ticks)[..Min(10, |ticks|)]
  {
    assert FindAllEndpoint(ticks, Missing, Missing) == FindAll(ticks, 1, 10);
    assert Skip(1, 10) == 0;
    var r := FindAll(ticks, 1, 10);
    var want := OrderByTimestampDesc(ticks)[..Min(10, |ticks|)];
    assert |r.value.data| == |want|;
    assert forall k :: 0 <= k < |want| ==> r.value.data[k] == want[k];
  }
}
