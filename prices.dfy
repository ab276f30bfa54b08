/**
 * The price service (src/price/price.service.ts): the five-minute fetch loop
 * that appends one tick per successfully priced token, the paginated
 * `findAll` query and the hourly `getHourlyPrices` query.
 */
module Prices {
  import opened Wrappers
  import opened Entities
  import opened Repository

  // ---------------------------------------------------------------------------
  // Fetching

  /** A token the service polls: display name, contract address, EVM chain id. */
  datatype Token = Token(name: string, address: string, chain: string)

  /** The fixed token list; the name is what gets stored as `blockchain`. */
  const Tokens: seq<Token> := [
    Token("Ethereum", "0xc02aaa39b223fe8d0a0e5c4f27ead9083c756cc2", "0x1"),
    Token("Polygon", "0x7ceB23fD6bC0adD59E62ac25578270cFf1b9f619", "0x89")
  ]

  /** The `usdPrice` member of the provider's JSON answer, by JavaScript type. */
  datatype JsonValue = JNumber(n: real) | JString(s: string) | JBool(b: bool) | JNull | JUndefined

  /** What the pricing provider did for one token: raised, or answered. */
  datatype PriceResponse = ProviderError | Answer(usdPrice: JsonValue)

  /** Everything the outside world decides for one token in one run. */
  datatype TokenRound = TokenRound(response: PriceResponse, saveSucceeds: bool, at: int)

  /** `fetchPrice`: the price when `usdPrice` is a number; every other answer is an error. */
  function FetchPrice(response: PriceResponse): (r: Option<real>)
    ensures r.Some? <==> response.Answer? && response.usdPrice.JNumber?
    ensures r.Some? ==> r.value == response.usdPrice.n
  {
    match response
    case Answer(JNumber(n)) => Some(n)
    case _ => None
  }

  /** A token yields a tick when both its fetch and its save succeed. */
  predicate Recorded(round: TokenRound) {
    FetchPrice(round.response).Some? && round.saveSucceeds
  }

  /** Number of recorded tokens in a run. */
  function CountRecorded(rounds: seq<TokenRound>): nat {
    if |rounds| == 0 then 0
    else CountRecorded(rounds[..|rounds| - 1]) + (if Recorded(rounds[|rounds| - 1]) then 1 else 0)
  }

  /**
   * The ticks one run appends: for each token in order whose round was
   * recorded, a tick named after the token with the next free id.
   */
  function RunTicks(tokens: seq<Token>, rounds: seq<TokenRound>, firstId: nat): (r: seq<PriceTick>)
    requires |tokens| == |rounds|
  {
    if |rounds| == 0 then []
    else
      var n := |rounds| - 1;
      var earlier := RunTicks(tokens[..n], rounds[..n], firstId);
      if Recorded(rounds[n]) then
        earlier + [PriceTick(firstId + |earlier|, tokens[n].name, FetchPrice(rounds[n].response).value, rounds[n].at)]
      else earlier
  }

  ghost predicate DistinctNames(tokens: seq<Token>) {
    forall i, j :: 0 <= i < j < |tokens| ==> tokens[i].name != tokens[j].name
  }

  /** One run appends one tick per recorded token, with consecutive ids from `firstId`. */
  lemma {:induction false} RunTicksIds(tokens: seq<Token>, rounds: seq<TokenRound>, firstId: nat)
    requires |tokens| == |rounds|
    ensures |RunTicks(tokens, rounds, firstId)| == CountRecorded(rounds)
    ensures forall k :: 0 <= k < |RunTicks(tokens, rounds, firstId)| ==>
      RunTicks(tokens, rounds, firstId)[k].id == firstId + k
    decreases |rounds|
  {
    if |rounds| > 0 {
      var n := |rounds| - 1;
      RunTicksIds(tokens[..n], rounds[..n], firstId);
      var earlier := RunTicks(tokens[..n], rounds[..n], firstId);
      assert forall k :: 0 <= k < |earlier| ==> RunTicks(tokens, rounds, firstId)[k] == earlier[k];
    }
  }

  /** `t` carries the name of one of `tokens`. */
  ghost predicate NamedAfterToken(tokens: seq<Token>, t: PriceTick) {
    exists j :: 0 <= j < |tokens| && t.blockchain == tokens[j].name
  }

  /** Every appended tick is named after one of the tokens. */
  lemma {:induction false} RunTicksNames(tokens: seq<Token>, rounds: seq<TokenRound>, firstId: nat)
    requires |tokens| == |rounds|
    ensures forall k :: 0 <= k < |RunTicks(tokens, rounds, firstId)| ==>
      NamedAfterToken(tokens, RunTicks(tokens, rounds, firstId)[k])
    decreases |rounds|
  {
    if |rounds| > 0 {
      var n := |rounds| - 1;
      RunTicksNames(tokens[..n], rounds[..n], firstId);
      var earlier := RunTicks(tokens[..n], rounds[..n], firstId);
      var r := RunTicks(tokens, rounds, firstId);
      forall k | 0 <= k < |r|
        ensures NamedAfterToken(tokens, r[k])
      {
        if k < |earlier| {
          assert r[k] == earlier[k];
          assert NamedAfterToken(tokens[..n], earlier[k]);
          var j :| 0 <= j < n && earlier[k].blockchain == tokens[..n][j].name;
          assert r[k].blockchain == tokens[j].name;
        } else {
          assert r[k].blockchain == tokens[n].name;
        }
      }
    }
  }

  /** A recorded token's tick sits after the ticks of the recorded tokens before it. */
  lemma {:induction false} RunTicksRecorded(tokens: seq<Token>, rounds: seq<TokenRound>, firstId: nat, j: nat)
    requires |tokens| == |rounds| && j < |rounds| && Recorded(rounds[j])
    ensures CountRecorded(rounds[..j]) < |RunTicks(tokens, rounds, firstId)|
    ensures RunTicks(tokens, rounds, firstId)[CountRecorded(rounds[..j])]
         == PriceTick(firstId + CountRecorded(rounds[..j]), tokens[j].name, FetchPrice(rounds[j].response).value, rounds[j].at)
    decreases |rounds|
  {
    var n := |rounds| - 1;
    var earlier := RunTicks(tokens[..n], rounds[..n], firstId);
    RunTicksIds(tokens[..n], rounds[..n], firstId);
    RunTicksIds(tokens, rounds, firstId);
    if j < n {
      RunTicksRecorded(tokens[..n], rounds[..n], firstId, j);
      assert rounds[..n][..j] == rounds[..j];
      assert RunTicks(tokens, rounds, firstId)[..|earlier|] == earlier;
    } else {
      assert rounds[..j] == rounds[..n];
    }
  }

  /** A token whose fetch or save failed leaves no tick under its name. */
  lemma {:induction false} RunTicksFailed(tokens: seq<Token>, rounds: seq<TokenRound>, firstId: nat, j: nat)
    requires |tokens| == |rounds| && DistinctNames(tokens) && j < |rounds| && !Recorded(rounds[j])
    ensures forall k :: 0 <= k < |RunTicks(tokens, rounds, firstId)| ==>
      RunTicks(tokens, rounds, firstId)[k].blockchain != tokens[j].name
    decreases |rounds|
  {
    var n := |rounds| - 1;
    var earlier := RunTicks(tokens[..n], rounds[..n], firstId);
    var r := RunTicks(tokens, rounds, firstId);
    assert DistinctNames(tokens[..n]);
    if j < n {
      RunTicksFailed(tokens[..n], rounds[..n], firstId, j);
      assert forall k :: 0 <= k < |earlier| ==> r[k] == earlier[k];
    } else {
      RunTicksNames(tokens[..n], rounds[..n], firstId);
      forall k | 0 <= k < |earlier| ensures earlier[k].blockchain != tokens[n].name {
        assert NamedAfterToken(tokens[..n], earlier[k]);
        var i :| 0 <= i < n && earlier[k].blockchain == tokens[..n][i].name;
      }
    }
  }

  /**
   * What one run appends, token by token: a recorded token's tick sits at the
   * position given by the number of recorded tokens before it, carries the
   * token's name, the fetched price and the next id; a token that failed
   * (fetch or save) leaves no tick under its name. Each token's outcome thus
   * depends on its own round only.
   */
  lemma RunTicksPerToken(tokens: seq<Token>, rounds: seq<TokenRound>, firstId: nat)
    requires |tokens| == |rounds| && DistinctNames(tokens)
    ensures |RunTicks(tokens, rounds, firstId)| == CountRecorded(rounds)
    ensures forall k :: 0 <= k < |RunTicks(tokens, rounds, firstId)| ==>
      RunTicks(tokens, rounds, firstId)[k].id == firstId + k
    ensures forall j :: 0 <= j < |rounds| && Recorded(rounds[j]) ==>
      var k := CountRecorded(rounds[..j]);
      && k < |RunTicks(tokens, rounds, firstId)|
      && RunTicks(tokens, rounds, firstId)[k]
         == PriceTick(firstId + k, tokens[j].name, FetchPrice(rounds[j].response).value, rounds[j].at)
    ensures forall j, k :: 0 <= j < |rounds| && !Recorded(rounds[j]) && 0 <= k < |RunTicks(tokens, rounds, firstId)| ==>
      RunTicks(tokens, rounds, firstId)[k].blockchain != tokens[j].name
    ensures forall k :: 0 <= k < |RunTicks(tokens, rounds, firstId)| ==>
      NamedAfterToken(tokens, RunTicks(tokens, rounds, firstId)[k])
  {
    RunTicksIds(tokens, rounds, firstId);
    RunTicksNames(tokens, rounds, firstId);
    forall j | 0 <= j < |rounds| && Recorded(rounds[j])
      ensures var k := CountRecorded(rounds[..j]);
        && k < |RunTicks(tokens, rounds, firstId)|
        && RunTicks(tokens, rounds, firstId)[k]
           == PriceTick(firstId + k, tokens[j].name, FetchPrice(rounds[j].response).value, rounds[j].at)
    {
      RunTicksRecorded(tokens, rounds, firstId, j);
    }
    forall j | 0 <= j < |rounds| && !Recorded(rounds[j])
      ensures forall k :: 0 <= k < |RunTicks(tokens, rounds, firstId)| ==>
        RunTicks(tokens, rounds, firstId)[k].blockchain != tokens[j].name
    {
      RunTicksFailed(tokens, rounds, firstId, j);
    }
  }

  lemma RunTicksStep(rounds: seq<TokenRound>, i: nat, firstId: nat)
    requires |rounds| == |Tokens| && i < |Tokens|
    ensures RunTicks(Tokens[..i + 1], rounds[..i + 1], firstId)
         == var earlier := RunTicks(Tokens[..i], rounds[..i], firstId);
            if Recorded(rounds[i])
            then earlier + [PriceTick(firstId + |earlier|, Tokens[i].name, FetchPrice(rounds[i].response).value, rounds[i].at)]
            else earlier
  {
    assert Tokens[..i + 1][..i] == Tokens[..i] && rounds[..i + 1][..i] == rounds[..i];
  }

  /**
   * The price service's in-memory `price` table with its id generator
   * (`@PrimaryGeneratedColumn`).
   */
  class PriceService {
    var ticks: seq<PriceTick>
    var nextId: nat

    ghost predicate Valid()
      reads this
    {
      TickIdsBelow(ticks, nextId)
    }

    constructor ()
      ensures Valid() && ticks == [] && nextId == 1
    {
      ticks := [];
      nextId := 1;
    }

    /** `savePrice`: inserts one row stamped with the creation time `at`. */
    method SavePrice(blockchain: string, price: real, at: int) returns (saved: PriceTick)
      requires Valid()
      modifies this
      ensures Valid()
      ensures saved == PriceTick(old(nextId), blockchain, price, at)
      ensures ticks == old(ticks) + [saved] && nextId == old(nextId) + 1
    {
      saved := PriceTick(nextId, blockchain, price, at);
      ticks := ticks + [saved];
      nextId := nextId + 1;
    }

    /**
     * `handleCron`: every token in turn; a provider error, a non-numeric
     * `usdPrice` or a failed save is caught and only that token is skipped.
     */
    method HandleCron(rounds: seq<TokenRound>)
      requires Valid() && |rounds| == |Tokens|
      modifies this
      ensures Valid()
      ensures ticks == old(ticks) + RunTicks(Tokens, rounds, old(nextId))
      ensures nextId == old(nextId) + |RunTicks(Tokens, rounds, old(nextId))|
    {
      var i := 0;
      while i < |Tokens|
        invariant 0 <= i <= |Tokens|
        invariant Valid()
        invariant ticks == old(ticks) + RunTicks(Tokens[..i], rounds[..i], old(nextId))
        invariant nextId == old(nextId) + |RunTicks(Tokens[..i], rounds[..i], old(nextId))|
      {
        var token, round := Tokens[i], rounds[i];
        RunTicksStep(rounds, i, old(nextId));
        var price := FetchPrice(round.response);
        if price.Some? && round.saveSucceeds {
          var _ := SavePrice(token.name, price.value, round.at);
        }
        i := i + 1;
      }
      assert Tokens[..i] == Tokens && rounds[..i] == rounds;
    }
  }

  // ---------------------------------------------------------------------------
  // findAll

  datatype PricePage = PricePage(data: seq<PriceTick>, total: nat)

  /**
   * The database refuses a negative OFFSET or LIMIT, and one that does not
   * fit its 64-bit `bigint`.
   */
  datatype QueryError = NegativeWindow | WindowOutOfRange

  /** 2^63: the first value a `bigint` cannot hold. */
  const BigintBound: int := 0x8000_0000_0000_0000

  function Min(a: int, b: int): int { if a <= b then a else b }

  /**
   * `OFFSET skip LIMIT take` over the ordered rows; a zero `take` is no
   * LIMIT at all.
   */
  function Window(ordered: seq<PriceTick>, skip: nat, take: nat): (data: seq<PriceTick>)
    ensures skip + |data| <= |ordered| || data == []
    ensures forall k :: 0 <= k < |data| ==> data[k] == ordered[skip + k]
    ensures take > 0 ==> |data| <= take
    ensures skip + |data| < |ordered| ==> take > 0 && |data| == take
    ensures SortedDesc(ordered) ==> SortedDesc(data)
  {
    var from := Min(skip, |ordered|);
    var to := if take == 0 then |ordered| else Min(skip + take, |ordered|);
    ordered[from..to]
  }

  /** The row offset of a page: `(page - 1) * limit`. */
  function Skip(page: int, limit: int): int {
    (page - 1) * limit
  }

  /**
   * `findAll(page, limit)`: `findAndCount` ordered by timestamp descending with
   * `skip = (page - 1) * limit` and `take = limit`. A zero `take` is omitted
   * from the query (no LIMIT), as the ORM drops falsy take values.
   */
  function FindAll(ticks: seq<PriceTick>, page: int, limit: int): (r: Result<PricePage, QueryError>)
    ensures r.Err? <==> Skip(page, limit) < 0 || limit < 0 || Skip(page, limit) >= BigintBound || limit >= BigintBound
    ensures r.Ok? ==> r.value.total == |ticks|
    ensures r.Ok? ==> SortedDesc(r.value.data)
    ensures r.Ok? ==> Skip(page, limit) + |r.value.data| <= |ticks| || r.value.data == []
    ensures r.Ok? ==> forall k :: 0 <= k < |r.value.data| ==>
      r.value.data[k] == OrderByTimestampDesc(ticks)[Skip(page, limit) + k]
    ensures r.Ok? && limit > 0 ==> |r.value.data| <= limit
    ensures r.Ok? && Skip(page, limit) + |r.value.data| < |ticks| ==> limit > 0 && |r.value.data| == limit
  {
    var skip := Skip(page, limit);
    if skip < 0 || limit < 0 then Err(NegativeWindow)
    else if skip >= BigintBound || limit >= BigintBound then Err(WindowOutOfRange)
    else
      var ordered := OrderByTimestampDesc(ticks);
      var data := Window(ordered, skip, limit);
      Ok(PricePage(data, |ticks|))
  }

  /** An empty table gives an empty page and a zero total, whatever the page. */
  lemma FindAllEmptyTable(page: int, limit: int)
    requires 0 <= Skip(page, limit) < BigintBound && 0 <= limit < BigintBound
    ensures FindAll([], page, limit) == Ok(PricePage([], 0))
  {
  }

  /** Page 2 of 5 holds the sixth to tenth newest ticks (as many as exist). */
  lemma FindAllSecondPageOfFive(ticks: seq<PriceTick>)
    ensures FindAll(ticks, 2, 5).Ok? && FindAll(ticks, 2, 5).value.total == |ticks|
    ensures FindAll(ticks, 2, 5).value.data == OrderByTimestampDesc(ticks)[Min(5, |ticks|)..Min(10, |ticks|)]
  {
    assert Skip(2, 5) == 5;
    var r := FindAll(ticks, 2, 5);
    var want := OrderByTimestampDesc(ticks)[Min(5, |ticks|)..Min(10, |ticks|)];
    assert |r.value.data| == |want|;
    assert forall k :: 0 <= k < |want| ==> r.value.data[k] == want[k];
  }

  /**
   * With a positive limit every tick is on exactly one page: the k-th newest
   * is on page k / limit + 1 at position k % limit.
   */
  lemma FindAllPageOf(ticks: seq<PriceTick>, limit: int, k: nat)
    requires 0 < limit < BigintBound && k < |ticks| && k < BigintBound
    ensures FindAll(ticks, k / limit + 1, limit).Ok?
    ensures k % limit < |FindAll(ticks, k / limit + 1, limit).value.data|
    ensures FindAll(ticks, k / limit + 1, limit).value.data[k % limit] == OrderByTimestampDesc(ticks)[k]
  {
    PageSplit(k, limit);
    FindAllAt(ticks, k / limit + 1, limit, k % limit);
  }

  lemma PageSplit(k: nat, limit: int)
    requires limit > 0
    ensures 0 <= k % limit < limit && 0 <= Skip(k / limit + 1, limit)
    ensures Skip(k / limit + 1, limit) + k % limit == k
  {
    assert k == (k / limit) * limit + k % limit;
  }

  /** A position inside the table and inside the limit is on the page. */
  lemma FindAllAt(ticks: seq<PriceTick>, page: int, limit: int, offset: nat)
    requires 0 < limit < BigintBound && offset < limit && 0 <= Skip(page, limit) < BigintBound
    requires Skip(page, limit) + offset < |ticks|
    ensures FindAll(ticks, page, limit).Ok?
    ensures offset < |FindAll(ticks, page, limit).value.data|
    ensures FindAll(ticks, page, limit).value.data[offset] == OrderByTimestampDesc(ticks)[Skip(page, limit) + offset]
  {
    var skip := Skip(page, limit);
    var r := FindAll(ticks, page, limit);
    assert offset < |r.value.data| by {
      assert skip + |r.value.data| < |ticks| ==> |r.value.data| == limit;
    }
  }

  /** No row occurs twice. */
  predicate NoRepeats(s: seq<PriceTick>) {
    forall i, j :: 0 <= i < j < |s| ==> s[i] != s[j]
  }

  lemma {:induction false} NoRepeatsCountsOne(s: seq<PriceTick>)
    requires NoRepeats(s)
    ensures forall x :: multiset(s)[x] <= 1
  {
    if |s| > 0 {
      NoRepeatsCountsOne(s[1..]);
      assert s == [s[0]] + s[1..];
      assert s[0] !in s[1..];
    }
  }

  lemma CountsOneNoRepeats(s: seq<PriceTick>)
    requires forall x :: multiset(s)[x] <= 1
    ensures NoRepeats(s)
  {
    forall i, j | 0 <= i < j < |s| ensures s[i] != s[j] {
      assert s == s[..j] + s[j..];
      assert s[i] in s[..j] && s[j] in s[j..];
      assert multiset(s)[s[j]] == multiset(s[..j])[s[j]] + multiset(s[j..])[s[j]];
    }
  }

  /** Later pages start at least a whole page further on. */
  lemma SkipGap(p1: int, p2: int, limit: int)
    requires 1 <= p1 < p2 && limit > 0
    ensures 0 <= Skip(p1, limit) && Skip(p1, limit) + limit <= Skip(p2, limit)
  {
    var a, d := p1 - 1, p2 - p1 - 1;
    assert a * limit >= 0 && d * limit >= 0;
    assert (p2 - 1) * limit == a * limit + d * limit + limit;
  }

  /**
   * With the ids a `PriceService` keeps (`Valid`), the rows are pairwise
   * distinct, so paging through a table that does not change shows no row on
   * two different pages.
   */
  lemma PagesDisjoint(ticks: seq<PriceTick>, nextId: nat, p1: int, p2: int, limit: int)
    requires TickIdsBelow(ticks, nextId)
    requires 1 <= p1 < p2 && 0 < limit < BigintBound && Skip(p2, limit) < BigintBound
    ensures FindAll(ticks, p1, limit).Ok? && FindAll(ticks, p2, limit).Ok?
    ensures forall k1, k2 ::
      0 <= k1 < |FindAll(ticks, p1, limit).value.data| && 0 <= k2 < |FindAll(ticks, p2, limit).value.data| ==>
        FindAll(ticks, p1, limit).value.data[k1] != FindAll(ticks, p2, limit).value.data[k2]
  {
    SkipGap(p1, p2, limit);
    var ordered := OrderByTimestampDesc(ticks);
    NoRepeatsCountsOne(ticks);
    CountsOneNoRepeats(ordered);
  }

  // ---------------------------------------------------------------------------
  // getHourlyPrices

  datatype HourlyPrice = HourlyPrice(timestamp: int, price: real)

  const Day: int := 24 * SecondsPerHour

  /** `price.timestamp >= twentyFourHoursAgo`. */
  predicate InLastDay(t: PriceTick, now: int) {
    t.timestamp >= now - Day
  }

  /** The rows the `where` clause keeps, in table order. */
  function LastDay(ticks: seq<PriceTick>, now: int): (r: seq<PriceTick>)
    ensures forall t :: t in r <==> t in ticks && InLastDay(t, now)
  {
    if |ticks| == 0 then []
    else
      assert forall t :: t in ticks <==> t == ticks[0] || t in ticks[1..];
      (if InLastDay(ticks[0], now) then [ticks[0]] else []) + LastDay(ticks[1..], now)
  }

  /** The entry DISTINCT ON keeps for a row: the start of its hour and its price. */
  function HourEntry(t: PriceTick): HourlyPrice {
    HourlyPrice(HourBucket(t.timestamp), t.price)
  }

  /** Row `k` of a latest-first sequence is the first row of its hour. */
  predicate IsHourHead(s: seq<PriceTick>, k: int)
    requires 0 <= k < |s|
  {
    k == 0 || HourBucket(s[k - 1].timestamp) != HourBucket(s[k].timestamp)
  }

  /**
   * `DISTINCT ON (hour)` over rows already ordered latest first: the first row
   * of each hour, reported at the start of that hour.
   */
  function DistinctOnHour(s: seq<PriceTick>): seq<HourlyPrice>
    decreases |s|
  {
    if |s| == 0 then []
    else
      var later := DistinctOnHour(s[1..]);
      if |later| > 0 && later[0].timestamp == HourBucket(s[0].timestamp) then [HourEntry(s[0])] + later[1..]
      else [HourEntry(s[0])] + later
  }

  /** DISTINCT ON always keeps the first row. */
  lemma DistinctOnHourHead(s: seq<PriceTick>)
    requires |s| > 0
    ensures |DistinctOnHour(s)| > 0 && DistinctOnHour(s)[0] == HourEntry(s[0])
  {
  }

  /** `e` is the entry of the first row of some hour of `s`. */
  ghost predicate FromHourHead(s: seq<PriceTick>, e: HourlyPrice) {
    exists k :: 0 <= k < |s| && IsHourHead(s, k) && e == HourEntry(s[k])
  }

  /** DISTINCT ON's entries are at or below the hour of the first row. */
  lemma {:induction false} DistinctOnHourBelowFirst(s: seq<PriceTick>)
    requires SortedDesc(s) && |s| > 0
    ensures forall i :: 0 <= i < |DistinctOnHour(s)| ==> DistinctOnHour(s)[i].timestamp <= HourBucket(s[0].timestamp)
    decreases |s|
  {
    var tl := s[1..];
    if |tl| > 0 {
      DistinctOnHourBelowFirst(tl);
      HourBucketMonotone(tl[0].timestamp, s[0].timestamp);
    }
  }

  /** Over a latest-first sequence, DISTINCT ON yields strictly descending hour starts. */
  lemma {:induction false} DistinctOnHourDescending(s: seq<PriceTick>)
    requires SortedDesc(s)
    ensures forall i, j :: 0 <= i < j < |DistinctOnHour(s)| ==>
      DistinctOnHour(s)[i].timestamp > DistinctOnHour(s)[j].timestamp
    decreases |s|
  {
    if |s| > 1 {
      var tl := s[1..];
      var later := DistinctOnHour(tl);
      DistinctOnHourDescending(tl);
      DistinctOnHourHead(tl);
      DistinctOnHourBelowFirst(tl);
      HourBucketMonotone(tl[0].timestamp, s[0].timestamp);
    }
  }

  /** An entry from the first row of an hour of the tail stays one of the whole sequence, unless it is the tail's first row's hour and that hour continues from the head. */
  lemma FromHourHeadTail(s: seq<PriceTick>, e: HourlyPrice)
    requires |s| > 1 && FromHourHead(s[1..], e)
    requires e.timestamp != HourBucket(s[1].timestamp) || HourBucket(s[0].timestamp) != HourBucket(s[1].timestamp)
    ensures FromHourHead(s, e)
  {
    var tl := s[1..];
    var k :| 0 <= k < |tl| && IsHourHead(tl, k) && e == HourEntry(tl[k]);
    assert s[k + 1] == tl[k];
    if k > 0 {
      assert s[k] == tl[k - 1];
    }
    assert IsHourHead(s, k + 1);
  }

  /** Entries from the tail's hour heads, from position `drop` on, are hour heads of the whole sequence. */
  lemma FromHeadsOfTail(s: seq<PriceTick>, later: seq<HourlyPrice>, drop: nat)
    requires |s| > 1
    requires forall i :: 0 <= i < |later| ==> FromHourHead(s[1..], later[i])
    requires forall i :: drop <= i < |later| ==>
      later[i].timestamp != HourBucket(s[1].timestamp) || HourBucket(s[0].timestamp) != HourBucket(s[1].timestamp)
    ensures forall i :: drop <= i < |later| ==> FromHourHead(s, later[i])
  {
    forall i | drop <= i < |later| ensures FromHourHead(s, later[i]) {
      FromHourHeadTail(s, later[i]);
    }
  }

  /** Every entry of DISTINCT ON is the entry of the first row of some hour. */
  lemma {:induction false} DistinctOnHourFromHeads(s: seq<PriceTick>)
    requires SortedDesc(s)
    ensures forall i :: 0 <= i < |DistinctOnHour(s)| ==> FromHourHead(s, DistinctOnHour(s)[i])
    decreases |s|
  {
    if |s| > 0 {
      var r := DistinctOnHour(s);
      assert IsHourHead(s, 0);
      assert FromHourHead(s, HourEntry(s[0]));
      if |s| > 1 {
        var tl := s[1..];
        var later := DistinctOnHour(tl);
        DistinctOnHourFromHeads(tl);
        DistinctOnHourHead(tl);
        if later[0].timestamp == HourBucket(s[0].timestamp) {
          DistinctOnHourDescending(tl);
          assert r == [HourEntry(s[0])] + later[1..];
          FromHeadsOfTail(s, later, 1);
        } else {
          assert r == [HourEntry(s[0])] + later;
          FromHeadsOfTail(s, later, 0);
        }
      }
    }
  }

  /**
   * Over a latest-first sequence, DISTINCT ON yields strictly descending hour
   * starts, and every entry is the entry of the first row of some hour.
   */
  lemma DistinctOnHourCorrect(s: seq<PriceTick>)
    requires SortedDesc(s)
    ensures forall i, j :: 0 <= i < j < |DistinctOnHour(s)| ==>
      DistinctOnHour(s)[i].timestamp > DistinctOnHour(s)[j].timestamp
    ensures forall i :: 0 <= i < |DistinctOnHour(s)| ==> FromHourHead(s, DistinctOnHour(s)[i])
  {
    DistinctOnHourDescending(s);
    DistinctOnHourFromHeads(s);
  }

  /** Some entry of `r` is stamped with `hour`. */
  ghost predicate HourReported(r: seq<HourlyPrice>, hour: int) {
    exists i :: 0 <= i < |r| && r[i].timestamp == hour
  }

  /** DISTINCT ON reports the hour of every row. */
  lemma {:induction false} DistinctOnHourCovers(s: seq<PriceTick>)
    ensures forall t :: t in s ==> HourReported(DistinctOnHour(s), HourBucket(t.timestamp))
    decreases |s|
  {
    if |s| > 0 {
      var tl := s[1..];
      var later := DistinctOnHour(tl);
      var r := DistinctOnHour(s);
      var b := HourBucket(s[0].timestamp);
      DistinctOnHourCovers(tl);
      DistinctOnHourHead(s);
      forall t | t in s ensures HourReported(r, HourBucket(t.timestamp)) {
        if t == s[0] {
          assert r[0].timestamp == HourBucket(t.timestamp);
        } else {
          assert t in tl;
          assert HourReported(later, HourBucket(t.timestamp));
          var i :| 0 <= i < |later| && later[i].timestamp == HourBucket(t.timestamp);
          if |later| > 0 && later[0].timestamp == b {
            if i == 0 {
              assert r[0].timestamp == HourBucket(t.timestamp);
            } else {
              assert r[i] == later[i];
            }
          } else {
            assert r[i + 1] == later[i];
          }
        }
      }
    }
  }

  /** The first row of an hour in a latest-first sequence is a latest row of that hour. */
  lemma HourHeadIsLatest(s: seq<PriceTick>, k: nat, m: nat)
    requires SortedDesc(s) && k < |s| && m < |s| && IsHourHead(s, k)
    requires HourBucket(s[m].timestamp) == HourBucket(s[k].timestamp)
    ensures s[m].timestamp <= s[k].timestamp
  {
    if m < k {
      HourBucketMonotone(s[k].timestamp, s[k - 1].timestamp);
      HourBucketMonotone(s[k - 1].timestamp, s[m].timestamp);
      assert false;
    }
  }

  /** `t` is a latest row of its hour among the rows of the last 24 hours. */
  ghost predicate LatestOfHourInLastDay(ticks: seq<PriceTick>, now: int, t: PriceTick) {
    forall u :: u in ticks && InLastDay(u, now) && HourBucket(u.timestamp) == HourBucket(t.timestamp) ==>
      u.timestamp <= t.timestamp
  }

  /**
   * `getHourlyPrices(now)`: the rows of the last 24 hours (all chains), ordered
   * by hour and then timestamp, latest first, with one row kept per hour.
   */
  function HourlyPrices(ticks: seq<PriceTick>, now: int): (r: seq<HourlyPrice>)
    ensures |r| == 0 <==> forall t :: t in ticks ==> !InLastDay(t, now)
  {
    var ordered := OrderByTimestampDesc(LastDay(ticks, now));
    if |ordered| > 0 then
      DistinctOnHourHead(ordered);
      assert ordered[0] in ordered;
      DistinctOnHour(ordered)
    else
      DistinctOnHour(ordered)
  }

  /** Each hour appears at most once, newest hour first, stamped at the start of the hour. */
  lemma HourlyPricesDescending(ticks: seq<PriceTick>, now: int)
    ensures forall i, j :: 0 <= i < j < |HourlyPrices(ticks, now)| ==>
      HourlyPrices(ticks, now)[i].timestamp > HourlyPrices(ticks, now)[j].timestamp
    ensures forall i :: 0 <= i < |HourlyPrices(ticks, now)| ==>
      HourlyPrices(ticks, now)[i].timestamp % SecondsPerHour == 0
  {
    var ordered := OrderByTimestampDesc(LastDay(ticks, now));
    var r := DistinctOnHour(ordered);
    DistinctOnHourCorrect(ordered);
    forall i | 0 <= i < |r| ensures r[i].timestamp % SecondsPerHour == 0 {
      assert FromHourHead(ordered, r[i]);
      var k :| 0 <= k < |ordered| && IsHourHead(ordered, k) && r[i] == HourEntry(ordered[k]);
    }
  }

  /** `e` is the entry of a row of the last 24 hours that is latest in its hour. */
  ghost predicate FromLatestRow(ticks: seq<PriceTick>, now: int, e: HourlyPrice) {
    exists t :: t in ticks && InLastDay(t, now) && LatestOfHourInLastDay(ticks, now, t) && e == HourEntry(t)
  }

  /**
   * Every entry comes from a row of the last 24 hours that is latest in its
   * hour among those rows: the entry carries that row's price and the start of
   * its hour.
   */
  lemma HourlyPricesFromLatestRows(ticks: seq<PriceTick>, now: int)
    ensures forall i :: 0 <= i < |HourlyPrices(ticks, now)| ==> FromLatestRow(ticks, now, HourlyPrices(ticks, now)[i])
  {
    var window := LastDay(ticks, now);
    var ordered := OrderByTimestampDesc(window);
    var r := DistinctOnHour(ordered);
    DistinctOnHourCorrect(ordered);
    forall i | 0 <= i < |r| ensures FromLatestRow(ticks, now, r[i]) {
      assert FromHourHead(ordered, r[i]);
      var k :| 0 <= k < |ordered| && IsHourHead(ordered, k) && r[i] == HourEntry(ordered[k]);
      var t := ordered[k];
      assert t in ordered;
      assert t in window;
      forall u | u in ticks && InLastDay(u, now) && HourBucket(u.timestamp) == HourBucket(t.timestamp)
        ensures u.timestamp <= t.timestamp
      {
        assert u in window;
        assert u in ordered;
        var m :| 0 <= m < |ordered| && ordered[m] == u;
        HourHeadIsLatest(ordered, k, m);
      }
    }
  }

  /** Every hour of the last 24 hours that holds a row is reported. */
  lemma HourlyPricesCoverEveryHour(ticks: seq<PriceTick>, now: int)
    ensures forall t :: t in ticks && InLastDay(t, now) ==> HourReported(HourlyPrices(ticks, now), HourBucket(t.timestamp))
  {
    var window := LastDay(ticks, now);
    var ordered := OrderByTimestampDesc(window);
    DistinctOnHourCovers(ordered);
    forall t | t in ticks && InLastDay(t, now) ensures HourReported(DistinctOnHour(ordered), HourBucket(t.timestamp)) {
      assert t in window;
      assert t in ordered;
    }
  }

  /** A strictly descending run of hour starts within [lo, hi] has at most (hi - lo) / 1h + 1 entries. */
  lemma {:induction false} DescendingHoursFit(r: seq<HourlyPrice>, lo: int, hi: int)
    requires lo <= hi
    requires forall i, j :: 0 <= i < j < |r| ==> r[i].timestamp > r[j].timestamp
    requires forall i :: 0 <= i < |r| ==> r[i].timestamp % SecondsPerHour == 0 && lo <= r[i].timestamp <= hi
    ensures |r| * SecondsPerHour <= hi - lo + SecondsPerHour
  {
    if |r| > 1 {
      HourStartsApart(r[1].timestamp, r[0].timestamp);
      DescendingHoursFit(r[1..], lo, r[0].timestamp - SecondsPerHour);
      assert |r| * SecondsPerHour == |r[1..]| * SecondsPerHour + SecondsPerHour;
    }
  }

  /** When no row is in the future, the hourly query returns at most 25 entries. */
  lemma HourlyPricesAtMost25(ticks: seq<PriceTick>, now: int)
    requires forall t :: t in ticks ==> t.timestamp <= now
    ensures |HourlyPrices(ticks, now)| <= 25
  {
    var r := HourlyPrices(ticks, now);
    var lo, hi := HourBucket(now - Day), HourBucket(now);
    HourBucketShift(now, 24);
    HourlyPricesDescending(ticks, now);
    HourlyPricesFromLatestRows(ticks, now);
    forall i | 0 <= i < |r| ensures lo <= r[i].timestamp <= hi {
      assert FromLatestRow(ticks, now, r[i]);
      var t :| t in ticks && InLastDay(t, now) && LatestOfHourInLastDay(ticks, now, t) && r[i] == HourEntry(t);
      HourBucketMonotone(now - Day, t.timestamp);
      HourBucketMonotone(t.timestamp, now);
    }
    DescendingHoursFit(r, lo, hi);
  }
}
