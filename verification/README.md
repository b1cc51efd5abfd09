# PortfolioManager, modelled in Dafny

`PortfolioManager` handles buy, sell and valuation requests. It works between an
in-memory stock portfolio and an external stock-exchange client. This project
models that class as pure functions over a portfolio `map<Stock, nat>`, where a
stock absent from the map is owned zero times. The exchange is an oracle whose
replies are passed in as values.

Every trade returns an `Outcome`, which holds three things:

- the Java return value, or the exception the call throws;
- the portfolio the call leaves behind;
- the requests the call sent to the exchange, in order.

So "the portfolio is unchanged" and "the exchange was not called" are claims
about the result.

Files:

- `wrappers.dfy`: `Option`, which models a Java reference that may be null, and
  `Result`, which models a call that returns or throws.
- `stocks.dfy`: `Stock`, a type whose values are only compared for equality, plus the two exceptions the class throws or catches.
- `portfolio.dfy`: the `Portfolio` ledger operations the manager relies on. The
  Java `Portfolio` class is not part of this model. `Quantity`,
  `ContainsStock`, `AddStocks` and `RemoveStocks` are written as the simplest
  ledger with the behaviour the manager assumes. `containsStock(s, q)` means at
  least `q` shares are owned. `addStocks` raises the holding. `removeStocks`
  lowers it, or throws `InsufficientStockException` when too few are owned.
- `exchange.dfy`: the `StockExchangeClient` as three total reply functions,
  plus the `ExchangeCall` log entries.
- `portfolio_manager.dfy`: the constructor, `getMarketValue` with
  `calculateStockValue`, `buy` and `sell`, and lemmas that relate trades to
  market value.

Market value has a reference definition, `ValueOf`. It is a ghost recursive sum
of `price × quantity` over the map's keys, and it takes an arbitrary key first.
`ValueOfAny` proves that the sum does not depend on which key goes first.
`getMarketValue` streams the map's entry set, whose order Java leaves
unspecified. `EntrySet` models that stream as a listing of the holdings in an
order the model leaves open. `GetMarketValue` folds over that listing from
zero, and `SumEntriesIsValueOf` proves that any such listing gives `ValueOf`.

`sell` removes the shares before it calls the exchange. It does not put the
shares back when the exchange sale fails, and the model keeps that.

## Model

| member | source | states |
|---|---|---|
| PortfolioManager.New | src/com/amazon/ata/mocking/PortfolioManager.java:20-26 | construction succeeds exactly when neither the portfolio nor the client is null, and keeps both; otherwise it throws IllegalArgumentException with the source's message |
| PortfolioManager.ValueOfNonNegative | src/com/amazon/ata/mocking/PortfolioManager.java:32-35 | the market value is never negative when no held stock has a negative price |
| PortfolioManager.ValueOfAny | src/com/amazon/ata/mocking/PortfolioManager.java:33-35 | the summed market value does not depend on the order in which the holdings are visited: any held stock can be added first |
| PortfolioManager.EntrySet | src/com/amazon/ata/mocking/PortfolioManager.java:33 | the entry-set stream visits every holding exactly once, with its stock and its quantity |
| PortfolioManager.SumEntriesIsValueOf | src/com/amazon/ata/mocking/PortfolioManager.java:33-35 | reducing price × quantity over any listing of the entry set, starting from zero, gives the market value of the whole portfolio |
| PortfolioManager.StockValue | src/com/amazon/ata/mocking/PortfolioManager.java:44-47 | the value of a holding at the exchange's current price: zero shares are worth nothing, one share is worth exactly the price, and non-negative prices give non-negative values |
| PortfolioManager.GetMarketValue | src/com/amazon/ata/mocking/PortfolioManager.java:32-47 | the returned value is the sum over all holdings of getPrice(stock) × quantity, so it is zero, with no exchange call, for an empty portfolio; the exchange is asked for the price of each held stock exactly once and for nothing else; the portfolio is not changed |
| PortfolioManager.Buy | src/com/amazon/ata/mocking/PortfolioManager.java:55-65 | quantity ≤ 0 throws IllegalArgumentException with no exchange call and no change; otherwise exactly one submitBuy is sent and its reply is returned; a null reply leaves the portfolio unchanged; a cost raises the stock's holding by exactly quantity; no other stock's holding moves |
| PortfolioManager.Sell | src/com/amazon/ata/mocking/PortfolioManager.java:74-89 | quantity ≤ 0 throws IllegalArgumentException with no exchange call and no change; too few shares returns zero with no exchange call and no change; otherwise exactly one submitSell is sent, its proceeds are returned, and the holding drops by exactly quantity whatever the proceeds, so the InsufficientStockException fallback never fires and the holding never goes negative; no other stock's holding moves |
| Portfolio.ContainsStock | src/com/amazon/ata/mocking/PortfolioManager.java:79 | assumed ledger behaviour: any quantity of zero or less is contained, and a positive quantity is contained only if the stock is in the portfolio |
| Portfolio.AddStocks | src/com/amazon/ata/mocking/PortfolioManager.java:62 | assumed ledger behaviour: the stock's holding grows by exactly the quantity, and every other holding stays the same |
| Portfolio.RemoveStocks | src/com/amazon/ata/mocking/PortfolioManager.java:84-87 | assumed ledger behaviour: throws InsufficientStockException exactly when containsStock is false; otherwise lowers the stock's holding by exactly the quantity and leaves every other holding alone |
| PortfolioManager.ValueOfAddStocks | src/com/amazon/ata/mocking/PortfolioManager.java:62 | adding q shares of a stock raises the market value by exactly price × q |
| PortfolioManager.ValueOfRemoveStocks | src/com/amazon/ata/mocking/PortfolioManager.java:84 | removing q owned shares of a stock lowers the market value by exactly price × q |
| PortfolioManager.BuyChangesValueByCost | src/com/amazon/ata/mocking/PortfolioManager.java:60-64 | at unchanged prices, a filled buy raises market value by exactly price × quantity, and a buy the exchange refuses leaves it unchanged |
| PortfolioManager.SellUndoesBuy | src/com/amazon/ata/mocking/PortfolioManager.java:55-89 | selling the shares that a filled buy just added goes ahead, returns the exchange's proceeds, and restores every holding to its value before the buy |
| PortfolioManager.SellChangesValueBySharesSold | src/com/amazon/ata/mocking/PortfolioManager.java:79-88 | at unchanged prices, a sale that goes ahead lowers market value by exactly price × quantity whatever the exchange paid, and a refused sale leaves it unchanged |

## Left out

- The `StockExchangeClient` implementation (network, price feed) is not part of this model. Its replies are total functions supplied by the caller. An exchange that throws, such as an unavailable service whose exception Java would propagate, is not modelled.
- `getPrice` returning null is not modelled. Its reply is always an amount. In Java a null price makes `price.multiply` throw a NullPointerException out of `getMarketValue`.
- `submitSell` returning null is not modelled. Its reply is always an amount, and `sell` returns that amount unchanged.
- The `Portfolio` class is not part of this model. Its add, remove and contains behaviour is assumed as stated above, not verified against its code. `removeStocks` is assumed to keep a stock's entry when the holding reaches zero. This choice shows only in `GetMarketValue`'s calls: a stock sold down to zero is still asked for its price.
- `BigDecimal` scale and rounding are not modelled. Money is an exact integer count of the smallest currency unit. Multiplying by an integer quantity is exact in both.
- Portfolio.AddStocks: Java `int` overflow of a holding is not modelled. Quantities are unbounded naturals, and the trade quantity is an unbounded `int`.
- `getStocks()` returning a snapshot of the map is modelled by passing the map itself, because Dafny maps are immutable values.
- Concurrency is not modelled. The class has no locking, and every operation here runs as one uninterrupted step.
