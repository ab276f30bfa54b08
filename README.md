# Blockchain price tracker — a Dafny model

This project models the core of a NestJS service. The service polls a pricing
provider for the USD price of two tokens (Ethereum and Polygon) every five
minutes and stores each price as a row of a `price` table. It serves the table
through a paginated endpoint and an hourly endpoint. Two timers evaluate the
stored prices:

- the **threshold evaluator** emails each user alert whose target price has
  been reached, then marks it triggered;
- the **spike evaluator** emails a configured recipient when a chain's latest
  price is more than a configured percentage above its price an hour earlier.

The model has these parts:

- `Entities` (`entities.dfy`): the two table rows, a price tick and an alert.
- `Repository` (`repository.dfy`): the database queries the services issue.
  - `FindOne` is "latest matching row".
  - `OrderByTimestampDesc` is a stable sort, latest first.
  - `HourBucket` is `DATE_TRUNC('hour', ...)`.
- `Prices` (`prices.dfy`): the price service.
  - `PriceService` is a class holding the table as a `seq` field and the id
    counter.
  - Its `HandleCron` fetch loop, `findAll` pagination and the hourly query.
- `Alerts` (`alerts.dfy`): the threshold evaluator.
  - `AlertService` is a class owning the alert table.
  - `HandleCron` is its nested loop, proved equal to the specification
    functions `Evaluate` and `Notifications`.
  - Lemmas about those functions: exactly one email per firing alert, a
    second run over the same prices does nothing, and at most one email per
    alert over any interleaving of alert creations and runs whose saves
    succeed. When the save after an email fails, the source emails that alert
    again on the next run.
- `Notifications` (`notifications.dfy`): the spike evaluator.
  - The constructor's configuration rules.
  - The percentage computation in JavaScript number semantics, including
    division by a zero old price.
  - The per-chain loop, with error isolation between chains.
- `PriceApi` (`price_api.dfy`): the controller's `Number(x) || default`
  handling of `page` and `limit`.
- `ChainNames` (`chain_names.dfy`): what the parts do together, as written.
  - The fetch loop stores ticks under the token names `"Ethereum"` and
    `"Polygon"`.
  - Both evaluators query `"ethereum"` and `"polygon"`, and string equality is
    case-sensitive.
  - So over a table filled by the fetch loop, neither evaluator ever changes
    an alert or sends an email.

Outside effects are inputs:

- For each token in a fetch run, a `TokenRound` gives:
  - the provider's answer;
  - whether the insert succeeds;
  - the row's creation time.
- `mailer` says whether the transport accepted an alert email. It is only
  logged, because an alert is marked triggered either way.
- `failing` is the set of chains whose queries throw during a spike run.
- `now` is the clock of the hourly query.

Timestamps are whole seconds. Prices are exact reals.

Two points of the code as written are worth spelling out:

- An alert fires when its **target is at or below** the latest price, as the
  query `LessThanOrEqual(latestPrice.price)` at `src/alerts/alert.service.ts:47`
  selects and the comment at line 43 says. So an alert fires once the price has
  risen to or past its target. At a price of 3000, a target of 2000 fires and
  a target of 3500 does not (`Alerts.TargetAtOrBelowPriceFires`).
- The hourly endpoint takes no `chain` parameter. It reports the rows of all
  chains together, one per hour.

## Model

| member | source | states |
|---|---|---|
| Entities.IncreasingIdsAreUnique | src/alerts/alert.entity.ts:6-8 | ids generated in increasing order are unique |
| Repository.FindOne | src/alerts/alert.service.ts:37-40 | the result is None exactly when no row matches; otherwise it is a matching row of the table whose timestamp is the greatest among matching rows |
| Repository.OrderByTimestampDesc | src/price/price.service.ts:112-115 | the result is latest first and is a permutation of the table (same multiset, same length, same members) |
| Repository.HourBucket | src/price/price.service.ts:136 | the bucket is a whole hour and contains the timestamp |
| Prices.FetchPrice | src/price/price.service.ts:56-73 | a price is returned exactly when the provider answered and `usdPrice` is a JavaScript number, and it is that number; a provider error or any other type is an error |
| Prices.PriceService.SavePrice | src/price/price.service.ts:81-87 | appends exactly one row with the given chain and price, the next id and the creation time; the id invariant is kept |
| Prices.PriceService.HandleCron | src/price/price.service.ts:92-105 | the table grows by exactly `RunTicks` of the run (one row per token whose fetch and save both succeed, in token order, consecutive ids) and the id invariant is kept |
| Prices.RunTicksPerToken | src/price/price.service.ts:96-104 | one tick per recorded token, at the position given by the recorded tokens before it, carrying the token's name, fetched price and the next id; a token that failed leaves no tick under its name; every tick is named after a token |
| Prices.FindAll | src/price/price.service.ts:111-124 | an error exactly when the offset `(page-1)*limit` or the limit is negative, or either is 2^63 or more and so does not fit the database's `bigint`; otherwise the total is the row count, the page is latest first, its k-th row is the `(skip+k)`-th newest row, and for a positive limit it holds at most `limit` rows, fewer only at the end of the table; a zero limit makes the offset zero and is sent without LIMIT, so the page is the whole table |
| Prices.FindAllEmptyTable | src/price/price.service.ts:111-124 | an empty table gives an empty page and a zero total for every page and limit the database accepts (offset and limit from 0 to below 2^63), a zero limit included |
| Prices.FindAllSecondPageOfFive | src/price/price.service.ts:116-117 | page 2 with limit 5 is the sixth to tenth newest rows |
| Prices.FindAllPageOf | src/price/price.service.ts:116-117 | with a positive limit, the k-th newest row is at position k mod limit of page k / limit + 1 (for k and limit below 2^63) |
| Prices.PagesDisjoint | src/price/price.service.ts:111-117 | with a positive limit and the ids a price service keeps, two different pages from 1 on of the same table that the database accepts share no row |
| Prices.LastDay | src/price/price.service.ts:130-139 | keeps exactly the rows with `timestamp >= now - 24h` |
| Prices.HourlyPrices | src/price/price.service.ts:129-150 | the hourly result is empty exactly when no row lies in the last 24 hours |
| Prices.DistinctOnHourCorrect | src/price/price.service.ts:140-142 | over latest-first rows, DISTINCT ON (hour) yields strictly descending hours, each the entry of the first row of its hour |
| Prices.DistinctOnHourCovers | src/price/price.service.ts:140-142 | DISTINCT ON (hour) reports the hour of every row |
| Prices.HourlyPricesDescending | src/price/price.service.ts:133-149 | each hour appears at most once, newest first, stamped at the start of the hour |
| Prices.HourlyPricesFromLatestRows | src/price/price.service.ts:133-149 | every entry carries the price of a row of the last 24 hours that is latest within its hour |
| Prices.HourlyPricesCoverEveryHour | src/price/price.service.ts:133-149 | every hour of the last 24 hours that holds a row is reported |
| Prices.HourlyPricesAtMost25 | src/price/price.service.ts:129-150 | with no row in the future there are at most 25 entries |
| Alerts.AlertService.CreateAlert | src/alerts/alert.service.ts:22-25 | the save succeeds exactly when the target fits the decimal(18,8) column (`src/alerts/alert.entity.ts:15`) and the repository accepts the row; then one untriggered alert with exactly the given chain, target and email, the next id and the creation time is appended; a rejected save stores nothing and consumes no id; the id invariant is kept; when the repository accepts, the new state is `Step` of a `Create` event |
| Alerts.SelectAlerts | src/alerts/alert.service.ts:44-50 | returns, in table order and without repetition, exactly the positions of the alerts on the chain, untriggered, whose target is at or below the price |
| Alerts.EmailOf | src/alerts/alert.service.ts:65-71 | the email is addressed to the alert's address and names its chain and target with the current price; it also records which alert it is about, a tag the model uses to count emails per alert and that is not part of the message |
| Alerts.AlertService.NotifySelected | src/alerts/alert.service.ts:52-59 | each selected alert is emailed in order with the current price and then marked triggered, whatever the transport did; the id invariant is kept |
| Alerts.AlertService.NotifyChain | src/alerts/alert.service.ts:37-60 | with no latest tick nothing changes and nothing is sent; otherwise the selection is emailed and marked; the id invariant is kept |
| Alerts.AlertService.HandleCron | src/alerts/alert.service.ts:30-62 | the table becomes `Evaluate` of the old table and the attempts are `Notifications` of the old table, one per email with the transport's outcome; ids are untouched, so the run is `Step` and `Sent` of a `Run` event; on a valid service each firing alert is emailed exactly once and no other alert is |
| Alerts.Evaluate | src/alerts/alert.service.ts:36-61 | the table after a run keeps its size, and an alert is triggered afterwards exactly when it was before or it fires now |
| Alerts.FiresIffSelected | src/alerts/alert.service.ts:42-50 | the per-alert rule `Fires` holds exactly when the query for the alert's chain selects it |
| Alerts.TargetAtOrBelowPriceFires | src/alerts/alert.service.ts:47-48 | at price 3000 a target of 2000 fires; a target of 3500, or an alert already triggered, does not |
| Alerts.EvaluateChangesOnlyFiring | src/alerts/alert.service.ts:56-58 | a run changes no field but `triggered`, and leaves every alert that does not fire unchanged |
| Alerts.NotificationsOnlyForFiring | src/alerts/alert.service.ts:52-54 | every email is for a firing alert, to its address, quoting its chain's latest price |
| Alerts.NoTickNoChange | src/alerts/alert.service.ts:42 | a chain with no tick leaves its alerts unchanged and gets no email |
| Alerts.ExactlyOneAttemptPerFiringAlert | src/alerts/alert.service.ts:36-61 | with unique ids a run emails each firing alert exactly once and no other alert |
| Alerts.SecondRunQuiet | src/alerts/alert.service.ts:44-58 | a second run over the same prices changes no alert and sends no email |
| Alerts.TriggeredStaysQuiet | src/alerts/alert.service.ts:44-50 | an alert that is triggered is never emailed again, whatever alerts are created or runs happen afterwards |
| Alerts.AtMostOnce | src/alerts/alert.service.ts:22-58 | starting from a valid table, over any sequence of alert creations and evaluator runs whose queries and saves succeed, with any prices, no alert id is emailed more than once |
| Notifications.Construct | src/notifications/notifications.service.ts:21-28 | construction fails exactly when the recipient is missing or empty; an unset or empty threshold becomes 3, any other is kept |
| Notifications.IncreasePercent | src/notifications/notifications.service.ts:75 | with a nonzero old price the increase is the exact percentage; with a zero old price it is +Infinity, -Infinity or NaN as the new price is positive, negative or zero |
| Notifications.CheckPriceIncrease | src/notifications/notifications.service.ts:35-87 | the emails sent are `SpikeRun` of the prices and the failing chains |
| Notifications.SpikeCheck | src/notifications/notifications.service.ts:43-82 | an email for a chain goes to the recipient, names the chain, reports an increase above the threshold and quotes the chain's latest price |
| Notifications.SpikeCheckSound | src/notifications/notifications.service.ts:43-82 | an email goes to the recipient, names its chain, exceeds the threshold, and quotes the chain's latest tick and the latest tick at least an hour before it |
| Notifications.SpikeCheckComplete | src/notifications/notifications.service.ts:71-82 | given both ticks, an email is sent exactly when their increase exceeds the threshold |
| Notifications.NoHistoryNoEmail | src/notifications/notifications.service.ts:58-69 | a chain with no two ticks an hour apart is never reported |
| Notifications.ExceedsThresholdIff | src/notifications/notifications.service.ts:75-80 | for a positive old price and a finite threshold, an email is sent exactly when `new*100 > old*(100+threshold)` |
| Notifications.UnreachableThresholds | src/notifications/notifications.service.ts:26-28 | a NaN or +Infinity threshold never fires |
| Notifications.FromZeroPrice | src/notifications/notifications.service.ts:75-80 | from a zero old price any positive new price fires under a finite threshold, and zero or less never does |
| Notifications.FivePercentExample | src/notifications/notifications.service.ts:75-80 | 1000 to 1050 is exactly 5%, reported under the default threshold and not under 6 |
| Notifications.SpikeRunExactly | src/notifications/notifications.service.ts:38-86 | a run sends exactly the emails of the chains whose queries did not throw and whose check fired, all to the recipient, at most one per chain |
| Notifications.ErrorIsolation | src/notifications/notifications.service.ts:41-85 | a chain whose queries throw loses only its own email; every other chain's email is as in a run without errors |
| PriceApi.NumberOr | src/price/price.controller.ts:20-21 | a nonzero number is kept; missing, NaN and zero give the fallback |
| PriceApi.NumberOrNeverZero | src/price/price.controller.ts:20-21 | with a nonzero fallback the value passed on is never zero |
| PriceApi.FindAllEndpoint | src/price/price.controller.ts:16-24 | an answer reports the row count and holds at most the effective limit of rows, and that limit is positive |
| PriceApi.EndpointOkIff | src/price/price.controller.ts:16-24 | the endpoint answers exactly when the effective page is at least 1, the effective limit positive, and both the offset and the limit below 2^63 |
| PriceApi.HugePageRefused | src/price/price.controller.ts:20-23 | a page of 10^20 passes the `|| 1` default but its offset does not fit a `bigint`, so the request is refused |
| PriceApi.ZeroPageIsFirst | src/price/price.controller.ts:17-20 | a missing, non-numeric or zero page is page 1 |
| PriceApi.DefaultRequest | src/price/price.controller.ts:16-23 | without parameters: the ten newest rows (fewer if the table is smaller) and the row count |
| ChainNames.FetchLoopStoresTokenNames | src/price/price.service.ts:96-99 | every tick the fetch loop stores is named "Ethereum" or "Polygon" |
| ChainNames.FetchedTableKeepsTokenNames | src/price/price.service.ts:92-105 | a table that starts empty and grows only by fetch runs carries token names only |
| ChainNames.NoLowerCaseMatch | src/alerts/alert.service.ts:35-40 | over such ticks no query for "ethereum" or "polygon" finds a row |
| ChainNames.EvaluatorsNeverAct | src/notifications/notifications.service.ts:38-69 | over such ticks the threshold evaluator changes no alert and sends nothing, and the spike evaluator sends nothing |

## Left out

- The pricing provider (Moralis SDK start-up, API key, `getTokenPrice` call): its answer per token is an input, a `TokenRound`.
- Clocks: the creation time of a row (`@CreateDateColumn`) and the current time of the hourly query are inputs.
- Mail transport and message text: subjects, bodies and `toFixed(2)` formatting are not modelled; an email is the record of who is written to about what.
- Logging, the cron schedule itself, and overlapping or concurrent runs of the timers.
- IEEE-754 floating point: prices and percentages are exact reals; decimal(18,8) rounding and `parseFloat` of stored decimals are not modelled.
- `parseFloat` of the `PRICE_INCREASE_THRESHOLD` text: the model takes its result, an arbitrary number, NaN or an infinity, as the configured value.
- Local-time arithmetic: `setHours(getHours() - 1)` and `setHours(getHours() - 24)` are taken as exactly 3600 s and 86400 s; shifts across a daylight-saving change are not modelled.
- Repository errors in the threshold evaluator: it has no `try`, so a failing query or save aborts the rest of the run; the model assumes its queries and saves succeed.
- Alerts.AtMostOnce: holds only for runs whose saves succeed. The source sends the email (`src/alerts/alert.service.ts:54`) before it saves the flag (line 58); when that save fails the run aborts, the alert stays untriggered, and the next run emails it again.
- Alerts.AlertService.CreateAlert: the overflow test is `|targetPrice| < 10^10` on the exact value; the column rounds to 8 decimals first, so a value within 5e-9 below 10^10 that rounds up to 10^10 is accepted by the model but refused by the database. Stored targets are not rounded. The create-alert DTO validation in front of it is not modelled.
- A failed insert, in the fetch loop or in `createAlert`, is modelled as no row and no consumed id; a database sequence may consume an id anyway.
- Alerts.History: a `createAlert` that the repository refuses for a reason other than the column overflow leaves nothing behind, so such a call is not an event of the history.
- Ties on timestamp: the database leaves the order of equal timestamps open; the model returns the earliest table row (`Repository.FindOne`) and keeps table order (`Repository.OrderByTimestampDesc`), so statements that depend on a tie hold for that choice only.
- Order of selected alerts: the alert query (`src/alerts/alert.service.ts:44-50`) has no `order`, so the database decides the order in which one chain's selected alerts are emailed; `Alerts.SelectAlerts` fixes table order, and `Alerts.AlertService.HandleCron` ties the attempt log to that order. The statements about which alerts are emailed and how often do not depend on it.
- Fractional and infinite `page`/`limit` values: `PriceApi.QueryValue` carries integers only.
- PriceApi.EndpointOkIff: JavaScript computes `Number(page)`, `Number(limit)` and `(page - 1) * limit` in doubles, which round above 2^53; the model computes them exactly, so for values above 2^53 that still lie below the `bigint` bound the page it returns may differ from the one the database is asked for, and near 2^63 the rounded offset may fall on the other side of the bound.
- The alert controller, the create-alert DTO validation, the app controller and the module wiring.
- The hourly endpoint returns the service's result unchanged, so it is `Prices.HourlyPrices`; the conversion of each row to a `Date` and a `parseFloat` price is not modelled.
- Prices.FindAll: a zero limit (no LIMIT) is modelled, but the controller never passes one (`PriceApi.NumberOrNeverZero`). The offset is computed exactly: offsets and limits of 2^63 or more are refused as the database refuses them, but JavaScript's rounding of the offset above 2^53 is not modelled.
