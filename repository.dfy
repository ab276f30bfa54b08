/**
 * In-memory stand-ins for the TypeORM queries the services issue against the
 * `price` table: `findOne` with a `where` on blockchain (and optionally
 * `timestamp <= bound`) ordered by timestamp descending, `ORDER BY timestamp
 * DESC`, and `DATE_TRUNC('hour', ...)`.
 */
module Repository {
  import opened Wrappers
  import opened Entities

  /** The `where` of a `findOne`: `blockchain = chain` and, when given, `timestamp <= bound`. */
  datatype TickQuery = TickQuery(blockchain: string, notAfter: Option<int>)

  predicate Matches(t: PriceTick, q: TickQuery) {
    && t.blockchain == q.blockchain
    && (q.notAfter.Some? ==> t.timestamp <= q.notAfter.value)
  }

  /**
   * `findOne({ where: q, order: { timestamp: 'DESC' } })`: a matching row with the
   * greatest timestamp, or none when no row matches. Among rows sharing that
   * timestamp the earliest one in the table is returned.
   */
  function FindOne(ticks: seq<PriceTick>, q: TickQuery): (r: Option<PriceTick>)
    ensures r.None? <==> forall t :: t in ticks ==> !Matches(t, q)
    ensures r.Some? ==> r.value in ticks && Matches(r.value, q)
    ensures r.Some? ==> forall t :: t in ticks && Matches(t, q) ==> t.timestamp <= r.value.timestamp
    decreases |ticks|
  {
    if |ticks| == 0 then None
    else
      var rest := FindOne(ticks[1..], q);
      assert forall t :: t in ticks <==> t == ticks[0] || t in ticks[1..];
      if !Matches(ticks[0], q) then rest
      else if rest.None? || ticks[0].timestamp >= rest.value.timestamp then Some(ticks[0])
      else rest
  }

  /** Latest first: timestamps never increase along the sequence. */
  predicate SortedDesc(s: seq<PriceTick>) {
    forall i, j :: 0 <= i < j < |s| ==> s[i].timestamp >= s[j].timestamp
  }

  /** Prepending a row no older than the current first keeps the order. */
  lemma PrependSorted(x: PriceTick, s: seq<PriceTick>)
    requires SortedDesc(s) && (|s| > 0 ==> x.timestamp >= s[0].timestamp)
    ensures SortedDesc([x] + s)
  {
  }

  /** Inserts `t` in front of the first row that is not newer than it. */
  function Insert(t: PriceTick, s: seq<PriceTick>): (r: seq<PriceTick>)
    requires SortedDesc(s)
    ensures SortedDesc(r)
    ensures multiset(r) == multiset(s) + multiset{t}
    ensures r[0] == t || (|s| > 0 && r[0] == s[0])
  {
    if |s| == 0 then [t]
    else if t.timestamp >= s[0].timestamp then PrependSorted(t, s); [t] + s
    else
      var rest := Insert(t, s[1..]);
      PrependSorted(s[0], rest);
      assert multiset(s) == multiset{s[0]} + multiset(s[1..]) by {
        assert s == [s[0]] + s[1..];
      }
      [s[0]] + rest
  }

  /** `ORDER BY timestamp DESC`; rows with equal timestamps keep their table order. */
  function OrderByTimestampDesc(s: seq<PriceTick>): (r: seq<PriceTick>)
    ensures SortedDesc(r)
    ensures multiset(r) == multiset(s)
    ensures |r| == |s|
    ensures forall x :: x in r <==> x in s
  {
    if |s| == 0 then []
    else
      var rest := OrderByTimestampDesc(s[1..]);
      var r := Insert(s[0], rest);
      assert multiset(s) == multiset(s[1..]) + multiset{s[0]} by {
        assert s == [s[0]] + s[1..];
      }
      assert |r| == |multiset(r)|;
      assert forall x :: x in r <==> x in multiset(r);
      r
  }

  const SecondsPerHour: int := 3600

  /** `DATE_TRUNC('hour', t)`: the start of the hour holding `t`. */
  function HourBucket(t: int): (b: int)
    ensures b % SecondsPerHour == 0
    ensures b <= t < b + SecondsPerHour
  {
    t - t % SecondsPerHour
  }

  /** Two hour starts that differ are at least an hour apart. */
  lemma HourStartsApart(a: int, b: int)
    requires a % SecondsPerHour == 0 && b % SecondsPerHour == 0 && a < b
    ensures a + SecondsPerHour <= b
  {
    var qa, qb := a / SecondsPerHour, b / SecondsPerHour;
    assert a == SecondsPerHour * qa;
    assert b == SecondsPerHour * qb;
    assert qa < qb;
  }

  /** Truncation to the hour preserves order. */
  lemma HourBucketMonotone(t1: int, t2: int)
    requires t1 <= t2
    ensures HourBucket(t1) <= HourBucket(t2)
  {
    if HourBucket(t1) > HourBucket(t2) {
      HourStartsApart(HourBucket(t2), HourBucket(t1));
    }
  }

  /** Shifting a time by whole hours shifts its bucket by the same amount. */
  lemma HourBucketShift(t: int, hours: int)
    ensures HourBucket(t - hours * SecondsPerHour) == HourBucket(t) - hours * SecondsPerHour
  {
    var u := t - hours * SecondsPerHour;
    assert u % SecondsPerHour == t % SecondsPerHour by {
      assert t == SecondsPerHour * (t / SecondsPerHour) + t % SecondsPerHour;
      assert u == SecondsPerHour * (t / SecondsPerHour - hours) + t % SecondsPerHour;
      assert 0 <= t % SecondsPerHour < SecondsPerHour;
    }
  }
}
