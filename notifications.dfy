/**
 * The spike evaluator (src/notifications/notifications.service.ts): every
 * five minutes, for each chain, compare the latest tick with the latest tick
 * at least an hour older and email the configured recipient when the
 * percentage increase exceeds the configured threshold.
 */
module Notifications {
  import opened Wrappers
  import opened Entities
  import opened Repository

  /**
   * A JavaScript number as far as this computation needs one: prices are
   * exact reals, and division by a zero old price yields an infinity or NaN.
   */
  datatype JsNumber = Finite(r: real) | PosInf | NegInf | NaN

  /** JavaScript `a > b`: false whenever either side is NaN. */
  predicate GreaterThan(a: JsNumber, b: JsNumber) {
    match (a, b)
    case (NaN, _) => false
    case (_, NaN) => false
    case (Finite(x), Finite(y)) => x > y
    case (Finite(_), NegInf) => true
    case (PosInf, NegInf) => true
    case (PosInf, Finite(_)) => true
    case (_, _) => false
  }

  /** `((newPrice - oldPrice) / oldPrice) * 100` in JavaScript arithmetic. */
  function IncreasePercent(oldPrice: real, newPrice: real): (r: JsNumber)
    ensures oldPrice != 0.0 ==> r == Finite((newPrice - oldPrice) / oldPrice * 100.0)
    ensures oldPrice == 0.0 ==> (r == PosInf <==> newPrice > 0.0)
    ensures oldPrice == 0.0 ==> (r == NegInf <==> newPrice < 0.0)
    ensures oldPrice == 0.0 ==> (r == NaN <==> newPrice == 0.0)
  {
    if oldPrice != 0.0 then Finite((newPrice - oldPrice) / oldPrice * 100.0)
    else if newPrice > 0.0 then PosInf
    else if newPrice < 0.0 then NegInf
    else NaN
  }

  /**
   * The two configuration values as the constructor reads them. For the
   * threshold, None is an unset or empty `PRICE_INCREASE_THRESHOLD` (the
   * `|| '3'` default applies) and Some(n) is what `parseFloat` made of it.
   */
  datatype Config = Config(recipientEmail: Option<string>, priceIncreaseThreshold: Option<JsNumber>)

  /** The service's two read-only fields. */
  datatype NotificationService = NotificationService(recipientEmail: string, priceIncreaseThreshold: JsNumber)

  datatype ConfigError = RecipientRequired

  const DefaultThreshold: JsNumber := Finite(3.0)

  /**
   * The constructor: a missing or empty recipient is an error; an unset or
   * empty threshold means 3.
   */
  function Construct(config: Config): (r: Result<NotificationService, ConfigError>)
    ensures r.Ok? <==> config.recipientEmail.Some? && config.recipientEmail.value != ""
    ensures r.Ok? ==> r.value.recipientEmail == config.recipientEmail.value
    ensures r.Ok? && config.priceIncreaseThreshold.None? ==> r.value.priceIncreaseThreshold == Finite(3.0)
    ensures r.Ok? && config.priceIncreaseThreshold.Some? ==>
      r.value.priceIncreaseThreshold == config.priceIncreaseThreshold.value
  {
    match config.recipientEmail
    case None => Err(RecipientRequired)
    case Some(to) =>
      if to == "" then Err(RecipientRequired)
      else
        var threshold := match config.priceIncreaseThreshold
          case None => DefaultThreshold
          case Some(n) => n;
        Ok(NotificationService(to, threshold))
  }

  /** `sendPriceIncreaseEmail(chain, newPrice, oldPrice, increase)`, as an event. */
  datatype SpikeEmail = SpikeEmail(to: string, chain: string, newPrice: real, oldPrice: real, increase: JsNumber)

  /** The chains the evaluator looks at. */
  const Chains: seq<string> := ["ethereum", "polygon"]

  /** One hour before `t`, as `setHours(getHours() - 1)` computes it away from clock changes. */
  function OneHourBefore(t: int): int {
    t - SecondsPerHour
  }

  /** The latest tick of `chain`. */
  function LatestOf(prices: seq<PriceTick>, chain: string): Option<PriceTick> {
    FindOne(prices, TickQuery(chain, None))
  }

  /** The latest tick of `chain` at or before `bound`. */
  function LatestUpTo(prices: seq<PriceTick>, chain: string, bound: int): Option<PriceTick> {
    FindOne(prices, TickQuery(chain, Some(bound)))
  }

  /**
   * One chain's turn of `checkPriceIncrease`, when its queries do not throw.
   * An email goes to the recipient, names the chain, reports an increase
   * above the threshold and quotes the chain's latest price.
   */
  function SpikeCheck(svc: NotificationService, prices: seq<PriceTick>, chain: string): (r: Option<SpikeEmail>)
    ensures r.Some? ==> r.value.to == svc.recipientEmail && r.value.chain == chain
    ensures r.Some? ==> GreaterThan(r.value.increase, svc.priceIncreaseThreshold)
    ensures r.Some? ==> LatestOf(prices, chain).Some? && r.value.newPrice == LatestOf(prices, chain).value.price
  {
    match LatestOf(prices, chain)
    case None => None
    case Some(latest) =>
      match LatestUpTo(prices, chain, OneHourBefore(latest.timestamp))
      case None => None
      case Some(prior) =>
        var increase := IncreasePercent(prior.price, latest.price);
        if GreaterThan(increase, svc.priceIncreaseThreshold)
        then Some(SpikeEmail(svc.recipientEmail, chain, latest.price, prior.price, increase))
        else None
  }

  /**
   * The emails of one run over the chains `cs`; a chain in `failing` is one
   * whose repository query throws, which is logged and skipped.
   */
  function SpikeRunOver(svc: NotificationService, prices: seq<PriceTick>, failing: set<string>, cs: seq<string>): seq<SpikeEmail> {
    if |cs| == 0 then []
    else
      var earlier := SpikeRunOver(svc, prices, failing, cs[..|cs| - 1]);
      var c := cs[|cs| - 1];
      if c in failing then earlier
      else match SpikeCheck(svc, prices, c)
        case None => earlier
        case Some(e) => earlier + [e]
  }

  function SpikeRun(svc: NotificationService, prices: seq<PriceTick>, failing: set<string>): seq<SpikeEmail> {
    SpikeRunOver(svc, prices, failing, Chains)
  }

  /** `checkPriceIncrease`: the emails it sends, in order. */
  method CheckPriceIncrease(svc: NotificationService, prices: seq<PriceTick>, failing: set<string>) returns (sent: seq<SpikeEmail>)
    ensures sent == SpikeRun(svc, prices, failing)
  {
    sent := [];
    var i := 0;
    while i < |Chains|
      invariant 0 <= i <= |Chains|
      invariant sent == SpikeRunOver(svc, prices, failing, Chains[..i])
    {
      var chain := Chains[i];
      SpikeRunStep(svc, prices, failing, i);
      if chain !in failing {
        var latest := LatestOf(prices, chain);
        if latest.Some? {
          var prior := LatestUpTo(prices, chain, OneHourBefore(latest.value.timestamp));
          if prior.Some? {
            var oldPrice := prior.value.price;
            var newPrice := latest.value.price;
            var increase := IncreasePercent(oldPrice, newPrice);
            if GreaterThan(increase, svc.priceIncreaseThreshold) {
              sent := sent + [SpikeEmail(svc.recipientEmail, chain, newPrice, oldPrice, increase)];
            }
          }
        }
      }
      i := i + 1;
    }
    assert Chains[..i] == Chains;
  }

  /** The emails one chain adds to a run. */
  function ChainSpike(svc: NotificationService, prices: seq<PriceTick>, failing: set<string>, chain: string): seq<SpikeEmail> {
    if chain in failing then []
    else match SpikeCheck(svc, prices, chain)
      case None => []
      case Some(e) => [e]
  }

  lemma SpikeRunStep(svc: NotificationService, prices: seq<PriceTick>, failing: set<string>, i: nat)
    requires i < |Chains|
    ensures SpikeRunOver(svc, prices, failing, Chains[..i + 1])
         == SpikeRunOver(svc, prices, failing, Chains[..i]) + ChainSpike(svc, prices, failing, Chains[i])
  {
    assert Chains[..i + 1][..i] == Chains[..i];
  }

  // ---------------------------------------------------------------------------
  // One chain

  /**
   * An email for `chain` compares the chain's latest tick with a tick of the
   * same chain at least an hour older that is the latest such, and goes to
   * the configured recipient.
   */
  lemma SpikeCheckSound(svc: NotificationService, prices: seq<PriceTick>, chain: string)
    requires SpikeCheck(svc, prices, chain).Some?
    ensures SpikeCheck(svc, prices, chain).value.to == svc.recipientEmail
    ensures SpikeCheck(svc, prices, chain).value.chain == chain
    ensures GreaterThan(SpikeCheck(svc, prices, chain).value.increase, svc.priceIncreaseThreshold)
    ensures SpikeWitnessed(prices, chain, SpikeCheck(svc, prices, chain).value)
  {
    var latest := LatestOf(prices, chain).value;
    var prior := LatestUpTo(prices, chain, OneHourBefore(latest.timestamp)).value;
    assert SpikeWitnessedBy(prices, chain, SpikeCheck(svc, prices, chain).value, latest, prior);
  }

  /** `latest` and `prior` are the two ticks the email `e` reports on. */
  ghost predicate SpikeWitnessedBy(prices: seq<PriceTick>, chain: string, e: SpikeEmail, latest: PriceTick, prior: PriceTick) {
    && latest in prices && prior in prices
    && latest.blockchain == chain && prior.blockchain == chain
    && (forall t :: t in prices && t.blockchain == chain ==> t.timestamp <= latest.timestamp)
    && prior.timestamp + SecondsPerHour <= latest.timestamp
    && (forall t :: t in prices && t.blockchain == chain && t.timestamp + SecondsPerHour <= latest.timestamp ==>
          t.timestamp <= prior.timestamp)
    && e.newPrice == latest.price && e.oldPrice == prior.price
    && e.increase == IncreasePercent(prior.price, latest.price)
  }

  ghost predicate SpikeWitnessed(prices: seq<PriceTick>, chain: string, e: SpikeEmail) {
    exists latest, prior :: SpikeWitnessedBy(prices, chain, e, latest, prior)
  }

  /**
   * And conversely: whenever the chain has a latest tick and one at least an
   * hour older, there is an email exactly when the increase between them
   * exceeds the threshold.
   */
  lemma SpikeCheckComplete(svc: NotificationService, prices: seq<PriceTick>, chain: string, latest: PriceTick, prior: PriceTick)
    requires LatestOf(prices, chain) == Some(latest)
    requires LatestUpTo(prices, chain, latest.timestamp - SecondsPerHour) == Some(prior)
    ensures SpikeCheck(svc, prices, chain).Some? <==>
      GreaterThan(IncreasePercent(prior.price, latest.price), svc.priceIncreaseThreshold)
  {
  }

  /** A chain with no tick at least an hour before its latest one is never reported. */
  lemma NoHistoryNoEmail(svc: NotificationService, prices: seq<PriceTick>, chain: string)
    requires forall a, b :: a in prices && b in prices && a.blockchain == chain && b.blockchain == chain ==>
      a.timestamp + SecondsPerHour > b.timestamp
    ensures SpikeCheck(svc, prices, chain).None?
  {
    match LatestOf(prices, chain)
    case None =>
    case Some(latest) =>
      match LatestUpTo(prices, chain, OneHourBefore(latest.timestamp))
      case None =>
      case Some(prior) =>
        assert false;
  }

  /**
   * The rule in plain arithmetic: for a positive old price and a finite
   * threshold `th`, an email goes out exactly when `newPrice * 100 > oldPrice * (100 + th)`.
   */
  lemma ExceedsThresholdIff(oldPrice: real, newPrice: real, th: real)
    requires oldPrice > 0.0
    ensures GreaterThan(IncreasePercent(oldPrice, newPrice), Finite(th)) <==> newPrice * 100.0 > oldPrice * (100.0 + th)
  {
    var q := (newPrice - oldPrice) / oldPrice;
    assert q * oldPrice == newPrice - oldPrice;
    if q * 100.0 > th {
      assert q * 100.0 * oldPrice > th * oldPrice;
    } else {
      assert q * 100.0 * oldPrice <= th * oldPrice;
    }
  }

  /** A NaN or +Infinity threshold (`parseFloat` of "abc" or "Infinity") never fires. */
  lemma UnreachableThresholds(oldPrice: real, newPrice: real, th: JsNumber)
    requires th == NaN || th == PosInf
    ensures !GreaterThan(IncreasePercent(oldPrice, newPrice), th)
  {
  }

  /** A zero old price: any positive new price fires under a finite threshold; zero never fires. */
  lemma FromZeroPrice(newPrice: real, th: real)
    ensures newPrice > 0.0 ==> GreaterThan(IncreasePercent(0.0, newPrice), Finite(th))
    ensures newPrice <= 0.0 ==> !GreaterThan(IncreasePercent(0.0, newPrice), Finite(th))
  {
  }

  /** 1000 to 1050 is a 5% increase: reported under the default threshold, not under 6. */
  lemma FivePercentExample()
    ensures IncreasePercent(1000.0, 1050.0) == Finite(5.0)
    ensures GreaterThan(IncreasePercent(1000.0, 1050.0), DefaultThreshold)
    ensures !GreaterThan(IncreasePercent(1000.0, 1050.0), Finite(6.0))
  {
  }

  // ---------------------------------------------------------------------------
  // One run

  /**
   * A run sends exactly, in chain order, the email of each looked-up chain
   * whose queries did not throw and whose check fired: each to the
   * recipient, at most one per chain.
   */
  lemma {:induction false} SpikeRunOverExactly(svc: NotificationService, prices: seq<PriceTick>, failing: set<string>, cs: seq<string>)
    requires forall a, b :: 0 <= a < b < |cs| ==> cs[a] != cs[b]
    ensures forall e :: e in SpikeRunOver(svc, prices, failing, cs) ==>
      e.chain in cs && e.chain !in failing && SpikeCheck(svc, prices, e.chain) == Some(e)
    ensures forall c :: c in cs && c !in failing && SpikeCheck(svc, prices, c).Some? ==>
      SpikeCheck(svc, prices, c).value in SpikeRunOver(svc, prices, failing, cs)
    ensures forall i, j :: 0 <= i < j < |SpikeRunOver(svc, prices, failing, cs)| ==>
      SpikeRunOver(svc, prices, failing, cs)[i].chain != SpikeRunOver(svc, prices, failing, cs)[j].chain
    ensures |SpikeRunOver(svc, prices, failing, cs)| <= |cs|
  {
    if |cs| > 0 {
      var n := |cs| - 1;
      SpikeRunOverExactly(svc, prices, failing, cs[..n]);
      assert forall c :: c in cs <==> c in cs[..n] || c == cs[n];
      assert cs[n] !in cs[..n];
      match SpikeCheck(svc, prices, cs[n])
      case None =>
      case Some(e) =>
        var earlier := SpikeRunOver(svc, prices, failing, cs[..n]);
        if cs[n] !in failing {
          assert e.chain == cs[n];
          assert forall x :: x in earlier ==> x.chain != cs[n];
          assert forall x :: x in earlier + [e] <==> x in earlier || x == e;
        }
    }
  }

  lemma SpikeRunExactly(svc: NotificationService, prices: seq<PriceTick>, failing: set<string>)
    ensures forall e :: e in SpikeRun(svc, prices, failing) ==>
      e.chain in Chains && e.chain !in failing && SpikeCheck(svc, prices, e.chain) == Some(e) && e.to == svc.recipientEmail
    ensures forall c :: c in Chains && c !in failing && SpikeCheck(svc, prices, c).Some? ==>
      SpikeCheck(svc, prices, c).value in SpikeRun(svc, prices, failing)
    ensures forall i, j :: 0 <= i < j < |SpikeRun(svc, prices, failing)| ==>
      SpikeRun(svc, prices, failing)[i].chain != SpikeRun(svc, prices, failing)[j].chain
  {
    SpikeRunOverExactly(svc, prices, failing, Chains);
    forall e | e in SpikeRun(svc, prices, failing) ensures e.to == svc.recipientEmail {
      SpikeCheckSound(svc, prices, e.chain);
    }
  }

  /**
   * Error isolation: a chain whose queries throw only loses its own email;
   * every other chain's email is sent as in a run without errors.
   */
  lemma ErrorIsolation(svc: NotificationService, prices: seq<PriceTick>, failing: set<string>)
    ensures forall e :: e in SpikeRun(svc, prices, failing) ==> e in SpikeRun(svc, prices, {})
    ensures forall e :: e in SpikeRun(svc, prices, {}) && e.chain !in failing ==> e in SpikeRun(svc, prices, failing)
  {
    SpikeRunExactly(svc, prices, failing);
    SpikeRunExactly(svc, prices, {});
  }
}
