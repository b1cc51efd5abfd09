/** The holdings ledger that `PortfolioManager` drives. Its Java class is not
    part of this model: the definitions below are the behaviour the manager
    relies on, written as the simplest ledger that has it. */
module Portfolio {
  import opened Wrappers
  import opened Stocks

  /** Shares owned per stock; a stock absent from the map is owned 0 times. */
  type Holdings = map<Stock, nat>

  /** The number of shares of `s` owned. */
  function Quantity(h: Holdings, s: Stock): (n: nat)
    ensures n > 0 ==> s in h
  {
    if s in h then h[s] else 0
  }

  /** `containsStock(stock, quantity)`: at least `q` shares of `s` are owned. */
  function ContainsStock(h: Holdings, s: Stock, q: int): (b: bool)
    ensures q <= 0 ==> b
    ensures b && q > 0 ==> s in h
  {
    Quantity(h, s) >= q
  }

  /** `addStocks(stock, quantity)`: the holding of `s` grows by `q`, no other
      holding moves. */
  function AddStocks(h: Holdings, s: Stock, q: nat): (r: Holdings)
    ensures Quantity(r, s) == Quantity(h, s) + q
    ensures forall t :: t != s ==> Quantity(r, t) == Quantity(h, t)
    ensures r.Keys == h.Keys + {s}
  {
    h[s := Quantity(h, s) + q]
  }

  /** `removeStocks(stock, quantity)`: throws `InsufficientStockException`
      exactly when fewer than `q` shares are owned, and otherwise lowers the
      holding of `s` by `q` and moves no other holding. */
  function RemoveStocks(h: Holdings, s: Stock, q: nat): (r: Result<Holdings, Exception>)
    ensures r.Failure? <==> !ContainsStock(h, s, q)
    ensures r.Failure? ==> r.error == InsufficientStock
    ensures r.Success? ==> Quantity(r.value, s) + q == Quantity(h, s)
    ensures r.Success? ==> forall t :: t != s ==> Quantity(r.value, t) == Quantity(h, t)
  {
    if Quantity(h, s) < q then Failure(InsufficientStock)
    else Success(h[s := Quantity(h, s) - q])
  }
}
