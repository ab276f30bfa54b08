/**
 * The alert service (src/alerts/alert.service.ts): creating alerts and the
 * five-minute threshold evaluator that notifies each untriggered alert whose
 * target is at or below the chain's latest price, then marks it triggered.
 * Mail delivery is an outside decision passed in as `mailer`; its outcome is
 * logged and changes nothing else.
 */
module Alerts {
  import opened Wrappers
  import opened Entities
  import opened Repository

  /** The chains the evaluator looks up, spelled as in the evaluator. */
  const Chains: seq<string> := ["ethereum", "polygon"]

  /** `findOne({ where: { blockchain: chain }, order: { timestamp: 'DESC' } })`. */
  function LatestQuery(chain: string): TickQuery {
    TickQuery(chain, None)
  }

  /** The alert query's `where`: this chain, `targetPrice <= price`, not triggered. */
  predicate Selects(a: Alert, chain: string, price: real) {
    a.chain == chain && a.targetPrice <= price && !a.triggered
  }

  /** Positions of the rows the alert query returns, in table order. */
  function SelectAlerts(alerts: seq<Alert>, chain: string, price: real): (r: seq<nat>)
    ensures forall k :: 0 <= k < |r| ==> r[k] < |alerts| && Selects(alerts[r[k]], chain, price)
    ensures forall i :: 0 <= i < |alerts| && Selects(alerts[i], chain, price) ==> i in r
    ensures forall k1, k2 :: 0 <= k1 < k2 < |r| ==> r[k1] < r[k2]
  {
    if |alerts| == 0 then []
    else
      var n := |alerts| - 1;
      var earlier := SelectAlerts(alerts[..n], chain, price);
      if Selects(alerts[n], chain, price) then earlier + [n] else earlier
  }

  /** One notification attempt: who is written to about which alert and price. */
  datatype AlertEmail = AlertEmail(alertId: nat, to: string, chain: string, targetPrice: real, currentPrice: real)

  /** An attempt together with what the mail transport did with it. */
  datatype MailAttempt = MailAttempt(email: AlertEmail, delivered: bool)

  /**
   * `sendAlertEmail(alert, currentPrice)`, as an event: it is addressed to the
   * alert's email, names the alert's chain and target, and quotes the price.
   */
  function EmailOf(a: Alert, currentPrice: real): (e: AlertEmail)
    ensures e.alertId == a.id && e.to == a.email
    ensures e.chain == a.chain && e.targetPrice == a.targetPrice && e.currentPrice == currentPrice
  {
    AlertEmail(a.id, a.email, a.chain, a.targetPrice, currentPrice)
  }

  /** The emails for the rows at positions `idx`, in that order. */
  function EmailsFor(alerts: seq<Alert>, idx: seq<nat>, price: real): seq<AlertEmail>
    requires forall k :: 0 <= k < |idx| ==> idx[k] < |alerts|
  {
    if |idx| == 0 then []
    else EmailsFor(alerts, idx[..|idx| - 1], price) + [EmailOf(alerts[idx[|idx| - 1]], price)]
  }

  /** The emails one chain's turn of the loop sends. */
  function ChainEmails(alerts: seq<Alert>, prices: seq<PriceTick>, chain: string): seq<AlertEmail> {
    match FindOne(prices, LatestQuery(chain))
    case None => []
    case Some(latest) => EmailsFor(alerts, SelectAlerts(alerts, chain, latest.price), latest.price)
  }

  /** The emails for the chains `cs`, taken in order. */
  function RunEmails(alerts: seq<Alert>, prices: seq<PriceTick>, cs: seq<string>): seq<AlertEmail> {
    if |cs| == 0 then []
    else RunEmails(alerts, prices, cs[..|cs| - 1]) + ChainEmails(alerts, prices, cs[|cs| - 1])
  }

  /** All emails of one run of `handleCron`. */
  function Notifications(alerts: seq<Alert>, prices: seq<PriceTick>): seq<AlertEmail> {
    RunEmails(alerts, prices, Chains)
  }

  /** The alert is untriggered and its chain's latest price is at or above its target. */
  predicate DueNow(a: Alert, prices: seq<PriceTick>) {
    match FindOne(prices, LatestQuery(a.chain))
    case None => false
    case Some(latest) => !a.triggered && a.targetPrice <= latest.price
  }

  /** The alert is due and its chain is one the evaluator looks at. */
  predicate Fires(a: Alert, prices: seq<PriceTick>) {
    a.chain in Chains && DueNow(a, prices)
  }

  /**
   * The alert table after one run: the table keeps its size, and an alert is
   * triggered afterwards exactly when it was before or it fires now.
   */
  function Evaluate(alerts: seq<Alert>, prices: seq<PriceTick>): (r: seq<Alert>)
    ensures |r| == |alerts|
    ensures forall j :: 0 <= j < |alerts| ==> r[j].triggered == (alerts[j].triggered || Fires(alerts[j], prices))
  {
    seq(|alerts|, i requires 0 <= i < |alerts| =>
      if Fires(alerts[i], prices) then alerts[i].(triggered := true) else alerts[i])
  }

  /** `log` holds one attempt per email, in order, with the transport's outcome. */
  ghost predicate Attempted(log: seq<MailAttempt>, emails: seq<AlertEmail>, mailer: AlertEmail -> bool) {
    |log| == |emails| && forall k :: 0 <= k < |log| ==> log[k] == MailAttempt(emails[k], mailer(emails[k]))
  }

  /** Rows that agree on everything the query for `chain` looks at give the same selection. */
  lemma {:induction false} SelectAlertsAgree(a: seq<Alert>, b: seq<Alert>, chain: string, price: real)
    requires |a| == |b|
    requires forall j :: 0 <= j < |a| ==> a[j].chain == b[j].chain
    requires forall j :: 0 <= j < |a| && b[j].chain == chain ==> a[j] == b[j]
    ensures SelectAlerts(a, chain, price) == SelectAlerts(b, chain, price)
  {
    if |a| > 0 {
      var n := |a| - 1;
      SelectAlertsAgree(a[..n], b[..n], chain, price);
    }
  }

  /** Why `alertRepository.save` rejected a new alert. */
  datatype SaveError = TargetOutOfRange | RepositoryFailed

  /** A decimal(18,8) column holds at most 10 digits before the point. */
  const ColumnBound: real := 10000000000.0

  /** The value fits the `targetPrice` column. */
  predicate FitsColumn(x: real) {
    -ColumnBound < x < ColumnBound
  }

  /**
   * The alert service over its in-memory `alert` table and the id generator
   * (`@PrimaryGeneratedColumn`).
   */
  class AlertService {
    var alerts: seq<Alert>
    var nextId: nat

    ghost predicate Valid()
      reads this
    {
      AlertIdsBelow(alerts, nextId)
    }

    constructor ()
      ensures Valid() && alerts == [] && nextId == 1
    {
      alerts := [];
      nextId := 1;
    }

    /**
     * `createAlert`: stores exactly the given fields, untriggered, stamped
     * `createdAt = now`. The save rejects a target the decimal(18,8) column
     * cannot hold, and any other repository failure (`saveSucceeds` false);
     * a rejected save stores nothing.
     */
    method CreateAlert(chain: string, targetPrice: real, email: string, now: int, saveSucceeds: bool)
      returns (r: Result<Alert, SaveError>)
      requires Valid()
      modifies this
      ensures Valid()
      ensures r.Ok? <==> FitsColumn(targetPrice) && saveSucceeds
      ensures !FitsColumn(targetPrice) ==> r == Err(TargetOutOfRange)
      ensures FitsColumn(targetPrice) && !saveSucceeds ==> r == Err(RepositoryFailed)
      ensures r.Ok? ==> r.value == Alert(old(nextId), chain, targetPrice, email, now, false)
      ensures r.Ok? ==> alerts == old(alerts) + [r.value] && nextId == old(nextId) + 1
      ensures r.Err? ==> alerts == old(alerts) && nextId == old(nextId)
      ensures saveSucceeds ==>
        State(alerts, nextId) == Step(State(old(alerts), old(nextId)), Create(chain, targetPrice, email, now))
    {
      if !FitsColumn(targetPrice) {
        r := Err(TargetOutOfRange);
      } else if !saveSucceeds {
        r := Err(RepositoryFailed);
      } else {
        var created := Alert(nextId, chain, targetPrice, email, now, false);
        alerts := alerts + [created];
        nextId := nextId + 1;
        r := Ok(created);
      }
    }

    /**
     * The inner loop of `handleCron`: for each selected row in turn, email it
     * and mark it triggered, whatever the transport did with the email.
     */
    method NotifySelected(selected: seq<nat>, price: real, mailer: AlertEmail -> bool) returns (attempts: seq<MailAttempt>)
      requires Valid()
      requires forall k :: 0 <= k < |selected| ==> selected[k] < |alerts|
      modifies this
      ensures Valid() && nextId == old(nextId)
      ensures alerts == MarkAll(old(alerts), selected)
      ensures Attempted(attempts, EmailsFor(old(alerts), selected, price), mailer)
    {
      attempts := [];
      var k := 0;
      while k < |selected|
        invariant 0 <= k <= |selected|
        invariant nextId == old(nextId)
        invariant alerts == MarkAll(old(alerts), selected[..k])
        invariant Attempted(attempts, EmailsFor(old(alerts), selected[..k], price), mailer)
      {
        var i := selected[k];
        MarkAllAt(old(alerts), selected[..k], i);
        var email := EmailOf(alerts[i], price);
        assert email == EmailOf(old(alerts)[i], price);
        var delivered := mailer(email);
        attempts := attempts + [MailAttempt(email, delivered)];
        alerts := alerts[i := alerts[i].(triggered := true)];
        assert selected[..k + 1][..k] == selected[..k];
        k := k + 1;
      }
      assert selected[..k] == selected;
      FlagsOnlyKeepIds(old(alerts), alerts, nextId);
    }

    /**
     * One chain's turn of `handleCron`: its latest tick, then, if there is
     * one, the selected alerts emailed and marked.
     */
    method NotifyChain(chain: string, prices: seq<PriceTick>, mailer: AlertEmail -> bool) returns (attempts: seq<MailAttempt>)
      requires Valid()
      modifies this
      ensures Valid() && nextId == old(nextId)
      ensures alerts == ChainStepped(old(alerts), prices, chain)
      ensures Attempted(attempts, ChainEmails(old(alerts), prices, chain), mailer)
    {
      attempts := [];
      var latest := FindOne(prices, LatestQuery(chain));
      if latest.Some? {
        var selected := SelectAlerts(alerts, chain, latest.value.price);
        attempts := NotifySelected(selected, latest.value.price, mailer);
      }
    }

    /**
     * `handleCron`: for each chain, the latest tick; if there is one, each
     * selected alert is emailed and then marked triggered, whatever the
     * transport did with the email. Since a valid table has unique ids,
     * each firing alert is emailed exactly once and no other alert is.
     */
    method HandleCron(prices: seq<PriceTick>, mailer: AlertEmail -> bool) returns (log: seq<MailAttempt>)
      requires Valid()
      modifies this
      ensures Valid() && nextId == old(nextId)
      ensures alerts == Evaluate(old(alerts), prices)
      ensures Attempted(log, Notifications(old(alerts), prices), mailer)
      ensures State(alerts, nextId) == Step(State(old(alerts), old(nextId)), Run(prices))
      ensures Attempted(log, Sent(State(old(alerts), old(nextId)), Run(prices)), mailer)
      ensures forall j :: 0 <= j < |old(alerts)| ==>
        CountFor(Notifications(old(alerts), prices), old(alerts)[j].id) == if Fires(old(alerts)[j], prices) then 1 else 0
    {
      ghost var before := alerts;
      log := [];
      var ci := 0;
      while ci < |Chains|
        invariant 0 <= ci <= |Chains|
        invariant Valid() && nextId == old(nextId)
        invariant alerts == Marked(before, prices, Chains[..ci])
        invariant Attempted(log, RunEmails(before, prices, Chains[..ci]), mailer)
      {
        var chain := Chains[ci];
        ghost var done := Chains[..ci];
        ChainsPrefix(ci);
        RunEmailsStep(before, prices, done, chain);
        ChainStep(before, prices, done, chain);
        var attempts := NotifyChain(chain, prices, mailer);
        AttemptedConcat(log, RunEmails(before, prices, done), attempts, ChainEmails(before, prices, chain), mailer);
        log := log + attempts;
        ci := ci + 1;
      }
      assert Chains[..ci] == Chains;
      MarkedAllChains(before, prices);
      IncreasingIdsAreUnique(before, nextId);
      forall j | 0 <= j < |before|
        ensures CountFor(Notifications(before, prices), before[j].id) == if Fires(before[j], prices) then 1 else 0
      {
        ExactlyOneAttemptPerFiringAlert(before, prices, j);
      }
    }
  }

  /** The chains before position `i` do not include the chain at `i`. */
  lemma ChainsPrefix(i: nat)
    requires i < |Chains|
    ensures Chains[..i + 1] == Chains[..i] + [Chains[i]]
    ensures Chains[i] !in Chains[..i]
  {
  }

  /** The table after one chain's turn. */
  ghost function ChainStepped(alerts: seq<Alert>, prices: seq<PriceTick>, chain: string): seq<Alert> {
    match FindOne(prices, LatestQuery(chain))
    case None => alerts
    case Some(latest) => MarkAll(alerts, SelectAlerts(alerts, chain, latest.price))
  }

  /** One chain's turn over the partly processed table completes that chain, and emails as over the original. */
  lemma ChainStep(before: seq<Alert>, prices: seq<PriceTick>, done: seq<string>, chain: string)
    requires chain in Chains && chain !in done
    ensures ChainStepped(Marked(before, prices, done), prices, chain) == Marked(before, prices, done + [chain])
    ensures ChainEmails(Marked(before, prices, done), prices, chain) == ChainEmails(before, prices, chain)
  {
    match FindOne(prices, LatestQuery(chain))
    case None =>
      MarkedNoTick(before, prices, done, chain);
    case Some(latest) =>
      MarkedSelectsAsBefore(before, prices, done, chain, latest.price);
      MarkedChainStep(before, prices, done, chain);
      EmailsForIgnoresFlags(Marked(before, prices, done), before, SelectAlerts(before, chain, latest.price), latest.price);
  }

  /** The table once the chains `done` have been processed: their firing alerts marked. */
  ghost function Marked(before: seq<Alert>, prices: seq<PriceTick>, done: seq<string>): (r: seq<Alert>)
    ensures |r| == |before|
    ensures forall j :: 0 <= j < |r| ==> r[j].(triggered := before[j].triggered) == before[j]
  {
    seq(|before|, j requires 0 <= j < |before| =>
      if before[j].chain in done && Fires(before[j], prices) then before[j].(triggered := true) else before[j])
  }

  /** `a` with the rows at positions `idx` marked triggered, one after the other. */
  ghost function MarkAll(a: seq<Alert>, idx: seq<nat>): (r: seq<Alert>)
    requires forall k :: 0 <= k < |idx| ==> idx[k] < |a|
    ensures |r| == |a|
    ensures forall j :: 0 <= j < |r| ==> r[j].(triggered := a[j].triggered) == a[j]
  {
    if |idx| == 0 then a
    else
      var m := MarkAll(a, idx[..|idx| - 1]);
      var i := idx[|idx| - 1];
      m[i := m[i].(triggered := true)]
  }

  lemma {:induction false} MarkAllAt(a: seq<Alert>, idx: seq<nat>, j: nat)
    requires forall k :: 0 <= k < |idx| ==> idx[k] < |a|
    requires j < |a|
    ensures MarkAll(a, idx)[j] == if j in idx then a[j].(triggered := true) else a[j]
  {
    if |idx| > 0 {
      var n := |idx| - 1;
      MarkAllAt(a, idx[..n], j);
      assert forall x :: x in idx <==> x in idx[..n] || x == idx[n];
    }
  }

  /** Changing only `triggered` flags keeps the id invariant. */
  lemma FlagsOnlyKeepIds(a: seq<Alert>, b: seq<Alert>, nextId: nat)
    requires AlertIdsBelow(a, nextId) && |a| == |b|
    requires forall j :: 0 <= j < |b| ==> b[j].(triggered := a[j].triggered) == a[j]
    ensures AlertIdsBelow(b, nextId)
  {
    assert forall j :: 0 <= j < |b| ==> b[j].id == a[j].id;
  }

  lemma AttemptedConcat(log: seq<MailAttempt>, e1: seq<AlertEmail>, more: seq<MailAttempt>, e2: seq<AlertEmail>, mailer: AlertEmail -> bool)
    requires Attempted(log, e1, mailer) && Attempted(more, e2, mailer)
    ensures Attempted(log + more, e1 + e2, mailer)
  {
  }

  /** Emails do not quote the `triggered` flag. */
  lemma {:induction false} EmailsForIgnoresFlags(a: seq<Alert>, b: seq<Alert>, idx: seq<nat>, price: real)
    requires |a| == |b|
    requires forall j :: 0 <= j < |a| ==> a[j].(triggered := b[j].triggered) == b[j]
    requires forall k :: 0 <= k < |idx| ==> idx[k] < |a|
    ensures EmailsFor(a, idx, price) == EmailsFor(b, idx, price)
  {
    if |idx| > 0 {
      EmailsForIgnoresFlags(a, b, idx[..|idx| - 1], price);
      var i := idx[|idx| - 1];
      assert a[i].(triggered := b[i].triggered) == b[i];
    }
  }

  lemma MarkedNoTick(before: seq<Alert>, prices: seq<PriceTick>, done: seq<string>, chain: string)
    requires FindOne(prices, LatestQuery(chain)).None?
    ensures Marked(before, prices, done + [chain]) == Marked(before, prices, done)
  {
    var lhs := Marked(before, prices, done + [chain]);
    forall j | 0 <= j < |before| ensures lhs[j] == Marked(before, prices, done)[j] {
      assert before[j].chain in done + [chain] <==> before[j].chain in done || before[j].chain == chain;
    }
  }

  /** With every chain processed, the table is `Evaluate`'s. */
  lemma MarkedAllChains(before: seq<Alert>, prices: seq<PriceTick>)
    ensures Marked(before, prices, Chains) == Evaluate(before, prices)
  {
    forall j | 0 <= j < |before|
      ensures Marked(before, prices, Chains)[j] == Evaluate(before, prices)[j]
    {
      assert Fires(before[j], prices) ==> before[j].chain in Chains;
    }
  }

  lemma RunEmailsStep(alerts: seq<Alert>, prices: seq<PriceTick>, cs: seq<string>, c: string)
    ensures RunEmails(alerts, prices, cs + [c]) == RunEmails(alerts, prices, cs) + ChainEmails(alerts, prices, c)
  {
    assert (cs + [c])[..|cs|] == cs;
  }

  /** Marking other chains' alerts leaves the query for `chain` returning the same rows. */
  lemma MarkedSelectsAsBefore(before: seq<Alert>, prices: seq<PriceTick>, done: seq<string>, chain: string, price: real)
    requires chain !in done
    ensures SelectAlerts(Marked(before, prices, done), chain, price) == SelectAlerts(before, chain, price)
  {
    SelectAlertsAgree(Marked(before, prices, done), before, chain, price);
  }

  /** Marking the rows the query for `chain` returns completes that chain's step. */
  lemma MarkedChainStep(before: seq<Alert>, prices: seq<PriceTick>, done: seq<string>, chain: string)
    requires chain in Chains
    requires FindOne(prices, LatestQuery(chain)).Some?
    ensures MarkAll(Marked(before, prices, done), SelectAlerts(before, chain, FindOne(prices, LatestQuery(chain)).value.price))
         == Marked(before, prices, done + [chain])
  {
    var price := FindOne(prices, LatestQuery(chain)).value.price;
    var sel := SelectAlerts(before, chain, price);
    var lhs := MarkAll(Marked(before, prices, done), sel);
    var rhs := Marked(before, prices, done + [chain]);
    forall j | 0 <= j < |before| ensures lhs[j] == rhs[j] {
      MarkAllAt(Marked(before, prices, done), sel, j);
      assert before[j].chain in done + [chain] <==> before[j].chain in done || before[j].chain == chain;
    }
  }

  // ---------------------------------------------------------------------------
  // What one run does

  /** The query selection and the per-alert rule agree: an alert fires exactly when the query for its chain returns it. */
  lemma FiresIffSelected(alerts: seq<Alert>, prices: seq<PriceTick>, j: nat)
    requires j < |alerts|
    ensures Fires(alerts[j], prices) <==>
      && alerts[j].chain in Chains
      && FindOne(prices, LatestQuery(alerts[j].chain)).Some?
      && j in SelectAlerts(alerts, alerts[j].chain, FindOne(prices, LatestQuery(alerts[j].chain)).value.price)
  {
    var latest := FindOne(prices, LatestQuery(alerts[j].chain));
    if latest.Some? {
      var sel := SelectAlerts(alerts, alerts[j].chain, latest.value.price);
      if j in sel {
        var k :| 0 <= k < |sel| && sel[k] == j;
      }
    }
  }

  /**
   * The selection is `targetPrice <= latest price`: at a latest price of 3000
   * an alert targeting 2000 fires and one targeting 3500 does not.
   */
  lemma TargetAtOrBelowPriceFires()
    ensures Fires(Alert(1, "ethereum", 2000.0, "user@example.com", 0, false), [PriceTick(1, "ethereum", 3000.0, 0)])
    ensures !Fires(Alert(2, "ethereum", 3500.0, "user@example.com", 0, false), [PriceTick(1, "ethereum", 3000.0, 0)])
    ensures !Fires(Alert(3, "ethereum", 2000.0, "user@example.com", 0, true), [PriceTick(1, "ethereum", 3000.0, 0)])
  {
  }

  lemma NoMembersEmpty(s: seq<AlertEmail>)
    ensures (forall e :: e !in s) ==> s == []
  {
    if |s| > 0 {
      assert s[0] in s;
    }
  }

  /** Nothing but the `triggered` flag of the firing alerts changes in a run. */
  lemma EvaluateChangesOnlyFiring(alerts: seq<Alert>, prices: seq<PriceTick>)
    ensures forall j :: 0 <= j < |alerts| ==>
      Evaluate(alerts, prices)[j].(triggered := alerts[j].triggered) == alerts[j]
    ensures forall j :: 0 <= j < |alerts| && !Fires(alerts[j], prices) ==> Evaluate(alerts, prices)[j] == alerts[j]
  {
  }

  /**
   * A second run over the same prices finds nothing to do: it changes no
   * alert and sends no email.
   */
  lemma SecondRunQuiet(alerts: seq<Alert>, prices: seq<PriceTick>)
    ensures Evaluate(Evaluate(alerts, prices), prices) == Evaluate(alerts, prices)
    ensures Notifications(Evaluate(alerts, prices), prices) == []
  {
    var next := Evaluate(alerts, prices);
    EvaluateChangesOnlyFiring(alerts, prices);
    assert forall j :: 0 <= j < |next| ==> !Fires(next[j], prices);
    var sent := Notifications(next, prices);
    NotificationsOnlyForFiring(next, prices);
    assert forall e :: !EmailForFiring(next, prices, e);
    NoMembersEmpty(sent);
  }

  /** `e` is the email of a firing alert, quoting its chain's latest price. */
  ghost predicate EmailForFiring(alerts: seq<Alert>, prices: seq<PriceTick>, e: AlertEmail) {
    exists j :: 0 <= j < |alerts| && Fires(alerts[j], prices)
      && e == EmailOf(alerts[j], FindOne(prices, LatestQuery(alerts[j].chain)).value.price)
  }

  lemma {:induction false} EmailsForFiring(alerts: seq<Alert>, idx: seq<nat>, chain: string, price: real, prices: seq<PriceTick>)
    requires chain in Chains && FindOne(prices, LatestQuery(chain)).Some?
    requires price == FindOne(prices, LatestQuery(chain)).value.price
    requires forall k :: 0 <= k < |idx| ==> idx[k] < |alerts| && Selects(alerts[idx[k]], chain, price)
    ensures forall e :: e in EmailsFor(alerts, idx, price) ==> EmailForFiring(alerts, prices, e)
  {
    if |idx| > 0 {
      var n := |idx| - 1;
      EmailsForFiring(alerts, idx[..n], chain, price, prices);
      var j := idx[n];
      assert Fires(alerts[j], prices);
      assert EmailForFiring(alerts, prices, EmailOf(alerts[j], price));
    }
  }

  lemma {:induction false} RunEmailsForFiring(alerts: seq<Alert>, prices: seq<PriceTick>, cs: seq<string>)
    requires forall c :: c in cs ==> c in Chains
    ensures forall e :: e in RunEmails(alerts, prices, cs) ==> EmailForFiring(alerts, prices, e)
  {
    if |cs| > 0 {
      var n := |cs| - 1;
      RunEmailsForFiring(alerts, prices, cs[..n]);
      var c := cs[n];
      match FindOne(prices, LatestQuery(c))
      case None =>
      case Some(latest) =>
        EmailsForFiring(alerts, SelectAlerts(alerts, c, latest.price), c, latest.price, prices);
    }
  }

  /**
   * Every email of a run is about a firing alert: untriggered, on a looked-up
   * chain, target at or below the latest price; it goes to that alert's
   * address and quotes that latest price.
   */
  lemma NotificationsOnlyForFiring(alerts: seq<Alert>, prices: seq<PriceTick>)
    ensures forall e :: e in Notifications(alerts, prices) ==> EmailForFiring(alerts, prices, e)
  {
    RunEmailsForFiring(alerts, prices, Chains);
  }

  /** If a chain has no tick, its alerts are left alone and none of its alerts is emailed. */
  lemma NoTickNoChange(alerts: seq<Alert>, prices: seq<PriceTick>, chain: string)
    requires FindOne(prices, LatestQuery(chain)).None?
    ensures forall j :: 0 <= j < |alerts| && alerts[j].chain == chain ==> Evaluate(alerts, prices)[j] == alerts[j]
    ensures forall e :: e in Notifications(alerts, prices) ==> e.chain != chain
  {
    NotificationsOnlyForFiring(alerts, prices);
    forall e | e in Notifications(alerts, prices) ensures e.chain != chain {
      assert EmailForFiring(alerts, prices, e);
      var j :| 0 <= j < |alerts| && Fires(alerts[j], prices)
        && e == EmailOf(alerts[j], FindOne(prices, LatestQuery(alerts[j].chain)).value.price);
    }
  }

  // ---------------------------------------------------------------------------
  // Counting emails per alert

  /** How many emails of `emails` are about alert `id`. */
  function CountFor(emails: seq<AlertEmail>, id: nat): nat {
    if |emails| == 0 then 0
    else CountFor(emails[..|emails| - 1], id) + (if emails[|emails| - 1].alertId == id then 1 else 0)
  }

  lemma {:induction false} CountForAppend(a: seq<AlertEmail>, b: seq<AlertEmail>, id: nat)
    ensures CountFor(a + b, id) == CountFor(a, id) + CountFor(b, id)
  {
    if |b| > 0 {
      var n := |b| - 1;
      assert (a + b)[..|a + b| - 1] == a + b[..n];
      assert (a + b)[|a + b| - 1] == b[n];
      CountForAppend(a, b[..n], id);
    } else {
      assert a + b == a;
    }
  }

  lemma {:induction false} CountEmailsFor(alerts: seq<Alert>, idx: seq<nat>, price: real, j: nat)
    requires UniqueAlertIds(alerts) && j < |alerts|
    requires forall k :: 0 <= k < |idx| ==> idx[k] < |alerts|
    requires forall k1, k2 :: 0 <= k1 < k2 < |idx| ==> idx[k1] < idx[k2]
    ensures CountFor(EmailsFor(alerts, idx, price), alerts[j].id) == if j in idx then 1 else 0
  {
    if |idx| > 0 {
      var n := |idx| - 1;
      CountEmailsFor(alerts, idx[..n], price, j);
      assert forall x :: x in idx <==> x in idx[..n] || x == idx[n];
      if j == idx[n] {
        assert j !in idx[..n];
      }
      assert EmailsFor(alerts, idx, price)[..|EmailsFor(alerts, idx, price)| - 1] == EmailsFor(alerts, idx[..n], price);
    }
  }

  lemma CountChainEmails(alerts: seq<Alert>, prices: seq<PriceTick>, chain: string, j: nat)
    requires UniqueAlertIds(alerts) && j < |alerts|
    ensures CountFor(ChainEmails(alerts, prices, chain), alerts[j].id)
      == if alerts[j].chain == chain && DueNow(alerts[j], prices) then 1 else 0
  {
    match FindOne(prices, LatestQuery(chain))
    case None =>
    case Some(latest) =>
      CountEmailsFor(alerts, SelectAlerts(alerts, chain, latest.price), latest.price, j);
  }

  lemma {:induction false} CountRunEmails(alerts: seq<Alert>, prices: seq<PriceTick>, cs: seq<string>, j: nat)
    requires UniqueAlertIds(alerts) && j < |alerts|
    requires forall a, b :: 0 <= a < b < |cs| ==> cs[a] != cs[b]
    ensures CountFor(RunEmails(alerts, prices, cs), alerts[j].id)
      == if alerts[j].chain in cs && DueNow(alerts[j], prices) then 1 else 0
  {
    if |cs| > 0 {
      var n := |cs| - 1;
      CountRunEmails(alerts, prices, cs[..n], j);
      CountChainEmails(alerts, prices, cs[n], j);
      CountForAppend(RunEmails(alerts, prices, cs[..n]), ChainEmails(alerts, prices, cs[n]), alerts[j].id);
      assert forall c :: c in cs <==> c in cs[..n] || c == cs[n];
      assert cs[n] !in cs[..n];
    }
  }

  /** With unique ids, one run makes exactly one attempt for each firing alert and none for any other. */
  lemma ExactlyOneAttemptPerFiringAlert(alerts: seq<Alert>, prices: seq<PriceTick>, j: nat)
    requires UniqueAlertIds(alerts) && j < |alerts|
    ensures CountFor(Notifications(alerts, prices), alerts[j].id) == if Fires(alerts[j], prices) then 1 else 0
  {
    CountRunEmails(alerts, prices, Chains, j);
  }

  // ---------------------------------------------------------------------------
  // Across runs

  /** What happens to the alert table over time: a `createAlert` call, or a run of the evaluator. */
  datatype Event =
    | Create(chain: string, targetPrice: real, email: string, at: int)
    | Run(prices: seq<PriceTick>)

  /** The alert table and the id counter, as `AlertService` holds them. */
  datatype State = State(alerts: seq<Alert>, nextId: nat)

  /**
   * The state after one event. A create stores the alert as `CreateAlert`
   * does when the repository accepts the row; a create the repository
   * refuses for another reason leaves nothing behind and is not an event.
   */
  function Step(st: State, ev: Event): State {
    match ev
    case Create(chain, targetPrice, email, at) =>
      if FitsColumn(targetPrice)
      then State(st.alerts + [Alert(st.nextId, chain, targetPrice, email, at, false)], st.nextId + 1)
      else st
    case Run(prices) => State(Evaluate(st.alerts, prices), st.nextId)
  }

  /** The emails one event sends. */
  function Sent(st: State, ev: Event): seq<AlertEmail> {
    match ev
    case Create(_, _, _, _) => []
    case Run(prices) => Notifications(st.alerts, prices)
  }

  /** The emails sent over the events `events`, in order. */
  function History(st: State, events: seq<Event>): seq<AlertEmail>
    decreases |events|
  {
    if |events| == 0 then []
    else Sent(st, events[0]) + History(Step(st, events[0]), events[1..])
  }

  /** An email list that never names `id` counts zero for it. */
  lemma {:induction false} CountForAbsent(emails: seq<AlertEmail>, id: nat)
    requires forall e :: e in emails ==> e.alertId != id
    ensures CountFor(emails, id) == 0
  {
    if |emails| > 0 {
      CountForAbsent(emails[..|emails| - 1], id);
      assert emails[|emails| - 1] in emails;
    }
  }

  /** A run emails no id that is not in the table. */
  lemma RunSkipsAbsentIds(alerts: seq<Alert>, prices: seq<PriceTick>, id: nat)
    requires forall j :: 0 <= j < |alerts| ==> alerts[j].id != id
    ensures CountFor(Notifications(alerts, prices), id) == 0
  {
    NotificationsOnlyForFiring(alerts, prices);
    forall e | e in Notifications(alerts, prices) ensures e.alertId != id {
      assert EmailForFiring(alerts, prices, e);
    }
    CountForAbsent(Notifications(alerts, prices), id);
  }

  /** Every event keeps the id invariant and every existing row's id; only a run changes a row, and only its flag. */
  lemma StepKeepsIds(st: State, ev: Event)
    requires AlertIdsBelow(st.alerts, st.nextId)
    ensures AlertIdsBelow(Step(st, ev).alerts, Step(st, ev).nextId)
    ensures |st.alerts| <= |Step(st, ev).alerts|
    ensures forall j :: 0 <= j < |st.alerts| ==> Step(st, ev).alerts[j].id == st.alerts[j].id
  {
    match ev
    case Create(chain, targetPrice, email, at) =>
    case Run(prices) =>
      EvaluateChangesOnlyFiring(st.alerts, prices);
      FlagsOnlyKeepIds(st.alerts, Evaluate(st.alerts, prices), st.nextId);
  }

  /** One event neither emails a triggered alert nor clears its flag. */
  lemma TriggeredStep(st: State, ev: Event, j: nat)
    requires AlertIdsBelow(st.alerts, st.nextId) && j < |st.alerts| && st.alerts[j].triggered
    ensures CountFor(Sent(st, ev), st.alerts[j].id) == 0
    ensures j < |Step(st, ev).alerts| && Step(st, ev).alerts[j] == st.alerts[j]
  {
    match ev
    case Create(chain, targetPrice, email, at) =>
    case Run(prices) =>
      EvaluateChangesOnlyFiring(st.alerts, prices);
      IncreasingIdsAreUnique(st.alerts, st.nextId);
      ExactlyOneAttemptPerFiringAlert(st.alerts, prices, j);
  }

  /** An alert that is already triggered is never emailed again, whatever alerts are created meanwhile. */
  lemma {:induction false} TriggeredStaysQuiet(st: State, events: seq<Event>, j: nat)
    requires AlertIdsBelow(st.alerts, st.nextId) && j < |st.alerts| && st.alerts[j].triggered
    ensures CountFor(History(st, events), st.alerts[j].id) == 0
    decreases |events|
  {
    if |events| > 0 {
      var next := Step(st, events[0]);
      TriggeredStep(st, events[0], j);
      StepKeepsIds(st, events[0]);
      TriggeredStaysQuiet(next, events[1..], j);
      CountForAppend(Sent(st, events[0]), History(next, events[1..]), st.alerts[j].id);
    }
  }

  /**
   * One event emails `id` at most once, and if it does, the alert with that
   * id is triggered afterwards.
   */
  lemma SentOnceStep(st: State, ev: Event, id: nat)
    requires AlertIdsBelow(st.alerts, st.nextId)
    ensures CountFor(Sent(st, ev), id) <= 1
    ensures CountFor(Sent(st, ev), id) == 1 ==>
      exists j :: 0 <= j < |Step(st, ev).alerts| && Step(st, ev).alerts[j].id == id && Step(st, ev).alerts[j].triggered
  {
    match ev
    case Create(chain, targetPrice, email, at) =>
    case Run(prices) =>
      if j :| 0 <= j < |st.alerts| && st.alerts[j].id == id {
        EvaluateChangesOnlyFiring(st.alerts, prices);
        IncreasingIdsAreUnique(st.alerts, st.nextId);
        ExactlyOneAttemptPerFiringAlert(st.alerts, prices, j);
        assert Step(st, ev).alerts[j].id == id;
      } else {
        RunSkipsAbsentIds(st.alerts, prices, id);
      }
  }

  /**
   * At most once: over any sequence of alert creations and runs, with the
   * price moving in any way in between, no alert id is emailed twice.
   */
  lemma {:induction false} AtMostOnce(st: State, events: seq<Event>, id: nat)
    requires AlertIdsBelow(st.alerts, st.nextId)
    ensures CountFor(History(st, events), id) <= 1
    decreases |events|
  {
    if |events| > 0 {
      var next := Step(st, events[0]);
      SentOnceStep(st, events[0], id);
      StepKeepsIds(st, events[0]);
      AtMostOnce(next, events[1..], id);
      CountForAppend(Sent(st, events[0]), History(next, events[1..]), id);
      if CountFor(Sent(st, events[0]), id) == 1 {
        var j :| 0 <= j < |next.alerts| && next.alerts[j].id == id && next.alerts[j].triggered;
        TriggeredStaysQuiet(next, events[1..], j);
      }
    }
  }
}
