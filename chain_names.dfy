/**
 * How the parts fit together as written: the fetch loop stores each tick
 * under its token's display name ("Ethereum", "Polygon"), while both
 * evaluators query the lower-case chain names ("ethereum", "polygon"). The
 * queries are case-sensitive, so over a table filled by the fetch loop the
 * evaluators find no latest tick and never act.
 */
module ChainNames {
  import opened Wrappers
  import opened Entities
  import opened Repository
  import Prices
  import Alerts
  import Notifications

  /** Every tick carries one of the fetch loop's token names. */
  ghost predicate StoredUnderTokenNames(ticks: seq<PriceTick>) {
    forall k :: 0 <= k < |ticks| ==> ticks[k].blockchain == "Ethereum" || ticks[k].blockchain == "Polygon"
  }

  /** Ticks appended by the fetch loop carry token names. */
  lemma FetchLoopStoresTokenNames(rounds: seq<Prices.TokenRound>, firstId: nat)
    requires |rounds| == |Prices.Tokens|
    ensures StoredUnderTokenNames(Prices.RunTicks(Prices.Tokens, rounds, firstId))
  {
    assert Prices.DistinctNames(Prices.Tokens) by {
      assert "Ethereum"[0] != "Polygon"[0];
    }
    Prices.RunTicksPerToken(Prices.Tokens, rounds, firstId);
  }

  /**
   * A table that starts empty, as `PriceService`'s constructor leaves it, and
   * grows only by fetch runs (`PriceService.HandleCron` appends `RunTicks`)
   * keeps carrying token names only.
   */
  lemma FetchedTableKeepsTokenNames(ticks: seq<PriceTick>, rounds: seq<Prices.TokenRound>, firstId: nat)
    requires StoredUnderTokenNames(ticks) && |rounds| == |Prices.Tokens|
    ensures StoredUnderTokenNames(ticks + Prices.RunTicks(Prices.Tokens, rounds, firstId))
  {
    FetchLoopStoresTokenNames(rounds, firstId);
  }

  /** No evaluator chain name is a token name. */
  lemma NoLowerCaseMatch(ticks: seq<PriceTick>, chain: string, bound: Option<int>)
    requires StoredUnderTokenNames(ticks)
    requires chain == "ethereum" || chain == "polygon"
    ensures FindOne(ticks, TickQuery(chain, bound)).None?
  {
    assert "Ethereum"[0] != "ethereum"[0] && "Polygon"[0] != "polygon"[0];
    assert "Ethereum"[0] != "polygon"[0] && "Polygon"[0] != "ethereum"[0];
    forall t | t in ticks ensures !Matches(t, TickQuery(chain, bound)) {
      var k :| 0 <= k < |ticks| && ticks[k] == t;
    }
  }

  /**
   * Over such a table the threshold evaluator changes no alert and sends
   * nothing, and the spike evaluator sends nothing.
   */
  lemma EvaluatorsNeverAct(ticks: seq<PriceTick>, alerts: seq<Alert>, svc: Notifications.NotificationService, failing: set<string>)
    requires StoredUnderTokenNames(ticks)
    ensures Alerts.Evaluate(alerts, ticks) == alerts
    ensures Alerts.Notifications(alerts, ticks) == []
    ensures Notifications.SpikeRun(svc, ticks, failing) == []
  {
    NoLowerCaseMatch(ticks, "ethereum", None);
    NoLowerCaseMatch(ticks, "polygon", None);
    forall j | 0 <= j < |alerts| ensures !Alerts.Fires(alerts[j], ticks) {
      if alerts[j].chain in Alerts.Chains {
        NoLowerCaseMatch(ticks, alerts[j].chain, None);
      }
    }
    assert Alerts.Evaluate(alerts, ticks) == alerts;
    Alerts.RunEmailsStep(alerts, ticks, [], "ethereum");
    Alerts.RunEmailsStep(alerts, ticks, ["ethereum"], "polygon");
    assert [] + ["ethereum"] == ["ethereum"] && ["ethereum"] + ["polygon"] == Alerts.Chains;
    Notifications.SpikeRunExactly(svc, ticks, failing);
    if |Notifications.SpikeRun(svc, ticks, failing)| > 0 {
      var e := Notifications.SpikeRun(svc, ticks, failing)[0];
      NoLowerCaseMatch(ticks, e.chain, None);
      assert false;
    }
  }
}
