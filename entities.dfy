/** Optional values and results with an error case, used across the model. */
module Wrappers {
  datatype Option<+T> = None | Some(value: T)

  datatype Result<+T, +E> = Ok(value: T) | Err(error: E)
}

/**
 * The two persisted entities: a price tick (src/price/price.entity.ts) and a
 * user alert (src/alerts/alert.entity.ts). Timestamps are whole seconds since
 * the epoch; prices are exact reals standing for the decimal(18,8) columns.
 */
module Entities {

  /** One row of the `price` table. */
  datatype PriceTick = PriceTick(id: nat, blockchain: string, price: real, timestamp: int)

  /** One row of the `alert` table; `triggered` defaults to false. */
  datatype Alert = Alert(
    id: nat,
    chain: string,
    targetPrice: real,
    email: string,
    createdAt: int,
    triggered: bool)

  /** Primary keys generated in insertion order: strictly increasing and below `nextId`. */
  ghost predicate AlertIdsBelow(alerts: seq<Alert>, nextId: nat) {
    && (forall i, j :: 0 <= i < j < |alerts| ==> alerts[i].id < alerts[j].id)
    && (forall i :: 0 <= i < |alerts| ==> alerts[i].id < nextId)
  }

  ghost predicate TickIdsBelow(ticks: seq<PriceTick>, nextId: nat) {
    && (forall i, j :: 0 <= i < j < |ticks| ==> ticks[i].id < ticks[j].id)
    && (forall i :: 0 <= i < |ticks| ==> ticks[i].id < nextId)
  }

  /** No two alert rows share an id. */
  ghost predicate UniqueAlertIds(alerts: seq<Alert>) {
    forall i, j :: 0 <= i < |alerts| && 0 <= j < |alerts| && alerts[i].id == alerts[j].id ==> i == j
  }

  lemma IncreasingIdsAreUnique(alerts: seq<Alert>, nextId: nat)
    requires AlertIdsBelow(alerts, nextId)
    ensures UniqueAlertIds(alerts)
  {
  }
}
