/** Buy, sell and valuation requests coordinated between a portfolio and the
    stock exchange. Every operation returns the portfolio it leaves behind and
    the requests it sent to the exchange, so that "unchanged" and "no exchange
    call" are statements about its result. */
module PortfolioManager {
  import opened Wrappers
  import opened Stocks
  import opened Portfolio
  import opened Exchange

  const NullArgumentMessage := "Portfolio and StockExchangeClient cannot be null"
  const QuantityMessage := "Quantity must be greater than zero"

  datatype Manager = Manager(portfolio: Holdings, client: StockExchangeClient)

  /** What a trade request leaves behind: its return value or exception, the
      portfolio afterwards, and the exchange requests it made. */
  datatype Outcome<T> = Outcome(
    result: Result<T, Exception>,
    portfolio: Holdings,
    calls: seq<ExchangeCall>)

  /** The constructor: either collaborator being null is an illegal argument. */
  function New(portfolio: Option<Holdings>, client: Option<StockExchangeClient>): (r: Result<Manager, Exception>)
    ensures r.Success? <==> portfolio.Some? && client.Some?
    ensures r.Success? ==> r.value.portfolio == portfolio.value && r.value.client == client.value
    ensures r.Failure? ==> r.error == IllegalArgument(NullArgumentMessage)
  {
    match (portfolio, client)
    case (Some(p), Some(c)) => Success(Manager(p, c))
    case _ => Failure(IllegalArgument(NullArgumentMessage))
  }

  // ---------------------------------------------------------------------------
  // Valuation

  /** Some stock held in a non-empty portfolio. */
  ghost function Pick(h: Holdings): (s: Stock)
    requires h != map[]
    ensures s in h
  {
    var s :| s in h; s
  }

  /** The market value of `h` at prices `price`: the sum over every holding of
      its price times its quantity. The empty portfolio is worth zero. */
  ghost function ValueOf(h: Holdings, price: Stock -> int): (v: int)
    decreases |h|
  {
    if h == map[] then 0
    else
      var s := Pick(h);
      assert |h - {s}| < |h| by { assert (h - {s}).Keys == h.Keys - {s}; }
      price(s) * h[s] + ValueOf(h - {s}, price)
  }

  /** A portfolio in which no held stock has a negative price is not worth
      less than zero. */
  lemma {:induction false} ValueOfNonNegative(h: Holdings, price: Stock -> int)
    requires forall s :: s in h ==> price(s) >= 0
    ensures ValueOf(h, price) >= 0
    decreases |h|
  {
    if h != map[] {
      var s := Pick(h);
      assert (h - {s}).Keys == h.Keys - {s};
      ValueOfNonNegative(h - {s}, price);
      assert price(s) * h[s] >= 0;
    }
  }

  /** The sum does not depend on which holding is added up first: any held
      stock can be split off. */
  lemma {:induction false} ValueOfAny(h: Holdings, price: Stock -> int, s: Stock)
    requires s in h
    ensures ValueOf(h, price) == price(s) * h[s] + ValueOf(h - {s}, price)
    decreases |h|
  {
    var t := Pick(h);
    if t != s {
      assert (h - {t}).Keys == h.Keys - {t};
      assert (h - {s}).Keys == h.Keys - {s};
      ValueOfAny(h - {t}, price, s);
      ValueOfAny(h - {s}, price, t);
      assert h - {t} - {s} == h - {s} - {t};
    }
  }

  /** `entries` lists every holding of `h` exactly once, in some order: the
      entry set of the portfolio's map as a stream visits it. */
  ghost predicate IsEntryOrder(h: Holdings, entries: seq<(Stock, nat)>)
  {
    && (forall i :: 0 <= i < |entries| ==> entries[i].0 in h && h[entries[i].0] == entries[i].1)
    && (forall i, j :: 0 <= i < j < |entries| ==> entries[i].0 != entries[j].0)
    && (forall s :: s in h ==> (s, h[s]) in entries)
  }

  /** `getStocks().entrySet().stream()`: the holdings in an order the model
      leaves open. */
  method EntrySet(h: Holdings) returns (entries: seq<(Stock, nat)>)
    ensures IsEntryOrder(h, entries)
  {
    var rest := h.Keys;
    entries := [];
    while rest != {}
      invariant rest <= h.Keys
      invariant forall i :: 0 <= i < |entries| ==>
        entries[i].0 in h && entries[i].0 !in rest && h[entries[i].0] == entries[i].1
      invariant forall i, j :: 0 <= i < j < |entries| ==> entries[i].0 != entries[j].0
      invariant forall s :: s in h && s !in rest ==> (s, h[s]) in entries
      decreases rest
    {
      var s :| s in rest;
      entries := entries + [(s, h[s])];
      rest := rest - {s};
    }
  }

  /** The `reduce(ZERO, add)` of the entries' values, added up from the
      front. */
  function SumEntries(entries: seq<(Stock, nat)>, price: Stock -> int): (v: int)
  {
    if entries == [] then 0
    else
      var last := entries[|entries| - 1];
      SumEntries(entries[..|entries| - 1], price) + price(last.0) * last.1
  }

  /** Dropping the last entry of a listing lists the rest of the holdings. */
  lemma EntryOrderDropLast(h: Holdings, entries: seq<(Stock, nat)>)
    requires IsEntryOrder(h, entries) && entries != []
    ensures IsEntryOrder(h - {entries[|entries| - 1].0}, entries[..|entries| - 1])
  {
  }

  /** An empty listing lists an empty portfolio. */
  lemma EntryOrderEmpty(h: Holdings)
    requires IsEntryOrder(h, [])
    ensures h == map[]
  {
  }

  /** Folding over any listing of the entry set gives the market value. */
  lemma {:induction false} SumEntriesIsValueOf(h: Holdings, price: Stock -> int, entries: seq<(Stock, nat)>)
    requires IsEntryOrder(h, entries)
    ensures SumEntries(entries, price) == ValueOf(h, price)
    decreases |entries|
  {
    if entries == [] {
      EntryOrderEmpty(h);
    } else {
      var last := entries[|entries| - 1];
      EntryOrderDropLast(h, entries);
      SumEntriesIsValueOf(h - {last.0}, price, entries[..|entries| - 1]);
      ValueOfAny(h, price, last.0);
    }
  }

  /** `calculateStockValue`: the value of `quantity` shares of `stock` at the
      exchange's current price. No shares are worth nothing; shares of a stock
      with a non-negative price are worth a non-negative amount, and one share
      is worth exactly the price. */
  function StockValue(client: StockExchangeClient, stock: Stock, quantity: int): (v: int)
    ensures quantity == 0 ==> v == 0
    ensures client.getPrice(stock) >= 0 && quantity >= 0 ==> v >= 0
    ensures quantity == 1 ==> v == client.getPrice(stock)
  {
    client.getPrice(stock) * quantity
  }

  /** `getMarketValue`: folds the value of every holding into a sum starting
      from zero, asking the exchange for each held stock's price exactly once.
      The portfolio is not changed (nothing is returned for it). */
  method GetMarketValue(m: Manager) returns (value: int, calls: seq<ExchangeCall>)
    ensures value == ValueOf(m.portfolio, m.client.getPrice)
    ensures m.portfolio == map[] ==> value == 0 && calls == []
    ensures forall i :: 0 <= i < |calls| ==> calls[i].GetPrice? && calls[i].stock in m.portfolio
    ensures forall i, j :: 0 <= i < j < |calls| ==> calls[i].stock != calls[j].stock
    ensures forall s :: s in m.portfolio ==> GetPrice(s) in calls
  {
    var price := m.client.getPrice;
    var entries := EntrySet(m.portfolio);
    value := 0;
    calls := [];
    var i := 0;
    while i < |entries|
      invariant i <= |entries|
      invariant value == SumEntries(entries[..i], price)
      invariant |calls| == i
      invariant forall k :: 0 <= k < i ==> calls[k] == GetPrice(entries[k].0)
    {
      assert entries[..i + 1][..i] == entries[..i];
      value := value + StockValue(m.client, entries[i].0, entries[i].1);
      calls := calls + [GetPrice(entries[i].0)];
      i := i + 1;
    }
    assert entries[..i] == entries;
    SumEntriesIsValueOf(m.portfolio, price, entries);
    forall s | s in m.portfolio ensures GetPrice(s) in calls {
      var k :| 0 <= k < |entries| && entries[k] == (s, m.portfolio[s]);
      assert calls[k] == GetPrice(s);
    }
  }

  // ---------------------------------------------------------------------------
  // Trading

  /** `buy`: a non-positive quantity is an illegal argument, raised before the
      exchange is asked. Otherwise the exchange's reply is returned as is, and
      the shares are added only when the exchange reported a cost. */
  function Buy(m: Manager, stock: Stock, quantity: int): (r: Outcome<Option<int>>)
    ensures quantity <= 0 ==>
      r.result == Failure(IllegalArgument(QuantityMessage)) && r.portfolio == m.portfolio && r.calls == []
    ensures quantity > 0 ==>
      r.calls == [SubmitBuy(stock, quantity)] && r.result == Success(m.client.submitBuy(stock, quantity))
    ensures r.result.Success? && r.result.value.None? ==> r.portfolio == m.portfolio
    ensures r.result.Success? && r.result.value.Some? ==>
      Quantity(r.portfolio, stock) == Quantity(m.portfolio, stock) + quantity
    ensures forall t :: t != stock ==> Quantity(r.portfolio, t) == Quantity(m.portfolio, t)
  {
    if quantity <= 0 then
      Outcome(Failure(IllegalArgument(QuantityMessage)), m.portfolio, [])
    else
      var cost := m.client.submitBuy(stock, quantity);
      var after := if cost.Some? then AddStocks(m.portfolio, stock, quantity) else m.portfolio;
      Outcome(Success(cost), after, [SubmitBuy(stock, quantity)])
  }

  /** `sell`: a non-positive quantity is an illegal argument. A holding smaller
      than `quantity` yields zero without asking the exchange. Otherwise the
      shares are removed first and the exchange's proceeds are returned; the
      removal is kept whatever the exchange replies. A removal that throws
      `InsufficientStockException` also yields zero. */
  function Sell(m: Manager, stock: Stock, quantity: int): (r: Outcome<int>)
    ensures quantity <= 0 ==>
      r.result == Failure(IllegalArgument(QuantityMessage)) && r.portfolio == m.portfolio && r.calls == []
    ensures quantity > 0 && Quantity(m.portfolio, stock) < quantity ==>
      r.result == Success(0) && r.portfolio == m.portfolio && r.calls == []
    ensures quantity > 0 && Quantity(m.portfolio, stock) >= quantity ==>
      && r.result == Success(m.client.submitSell(stock, quantity))
      && r.calls == [SubmitSell(stock, quantity)]
      && Quantity(r.portfolio, stock) == Quantity(m.portfolio, stock) - quantity
    ensures forall t :: t != stock ==> Quantity(r.portfolio, t) == Quantity(m.portfolio, t)
  {
    if quantity <= 0 then
      Outcome(Failure(IllegalArgument(QuantityMessage)), m.portfolio, [])
    else if !ContainsStock(m.portfolio, stock, quantity) then
      Outcome(Success(0), m.portfolio, [])
    else
      match RemoveStocks(m.portfolio, stock, quantity)
      case Failure(_) => Outcome(Success(0), m.portfolio, [])
      case Success(after) => Outcome(Success(m.client.submitSell(stock, quantity)), after, [SubmitSell(stock, quantity)])
  }

  // ---------------------------------------------------------------------------
  // Valuation across trades

  /** Multiplication distributes over addition. */
  lemma Distribute(p: int, a: int, b: int)
    ensures p * (a + b) == p * a + p * b
  {
  }

  /** Any stock's share of the value can be split off, held or not. */
  lemma ValueOfSplit(h: Holdings, price: Stock -> int, s: Stock)
    ensures ValueOf(h, price) == price(s) * Quantity(h, s) + ValueOf(h - {s}, price)
  {
    if s in h {
      ValueOfAny(h, price, s);
    } else {
      assert h - {s} == h;
    }
  }

  /** Setting the holding of `s` to `n` replaces its share of the value. */
  lemma ValueOfUpdate(h: Holdings, price: Stock -> int, s: Stock, n: nat)
    ensures ValueOf(h[s := n], price) == price(s) * n + ValueOf(h - {s}, price)
  {
    ValueOfAny(h[s := n], price, s);
    assert h[s := n] - {s} == h - {s};
  }

  /** Adding `q` shares of `s` adds their value to the portfolio's. */
  lemma ValueOfAddStocks(h: Holdings, price: Stock -> int, s: Stock, q: nat)
    ensures ValueOf(AddStocks(h, s, q), price) == ValueOf(h, price) + price(s) * q
  {
    var n := Quantity(h, s);
    assert AddStocks(h, s, q) == h[s := n + q];
    ValueOfUpdate(h, price, s, n + q);
    ValueOfSplit(h, price, s);
    Distribute(price(s), n, q);
  }

  /** Removing `q` owned shares of `s` takes their value off the portfolio's. */
  lemma ValueOfRemoveStocks(h: Holdings, price: Stock -> int, s: Stock, q: nat)
    requires ContainsStock(h, s, q)
    ensures ValueOf(RemoveStocks(h, s, q).value, price) == ValueOf(h, price) - price(s) * q
  {
    var n := Quantity(h, s);
    assert RemoveStocks(h, s, q).value == h[s := n - q];
    ValueOfUpdate(h, price, s, n - q);
    ValueOfSplit(h, price, s);
    Distribute(price(s), n - q, q);
  }

  /** A filled purchase raises the market value by exactly the purchased
      shares' value at the same prices; a failed one leaves it as it was. */
  lemma BuyChangesValueByCost(m: Manager, stock: Stock, quantity: int)
    requires quantity > 0
    ensures var r := Buy(m, stock, quantity);
      ValueOf(r.portfolio, m.client.getPrice) ==
        ValueOf(m.portfolio, m.client.getPrice)
        + (if r.result.value.Some? then m.client.getPrice(stock) * quantity else 0)
  {
    if m.client.submitBuy(stock, quantity).Some? {
      ValueOfAddStocks(m.portfolio, m.client.getPrice, stock, quantity);
    }
  }

  /** A sale that goes ahead lowers the market value by exactly the sold
      shares' value at the same prices, whatever the exchange paid for them;
      a refused sale leaves it as it was. */
  lemma SellChangesValueBySharesSold(m: Manager, stock: Stock, quantity: int)
    requires quantity > 0
    ensures var r := Sell(m, stock, quantity);
      ValueOf(r.portfolio, m.client.getPrice) ==
        ValueOf(m.portfolio, m.client.getPrice)
        - (if ContainsStock(m.portfolio, stock, quantity) then m.client.getPrice(stock) * quantity else 0)
  {
    if ContainsStock(m.portfolio, stock, quantity) {
      ValueOfRemoveStocks(m.portfolio, m.client.getPrice, stock, quantity);
    }
  }

  /** Selling the shares a filled purchase just added goes ahead, sends one
      sell order, and gives back the holdings as they were before the
      purchase. */
  lemma SellUndoesBuy(m: Manager, stock: Stock, quantity: int)
    requires quantity > 0 && m.client.submitBuy(stock, quantity).Some?
    ensures var bought := Buy(m, stock, quantity).portfolio;
      var r := Sell(Manager(bought, m.client), stock, quantity);
      && r.result == Success(m.client.submitSell(stock, quantity))
      && r.calls == [SubmitSell(stock, quantity)]
      && forall t :: Quantity(r.portfolio, t) == Quantity(m.portfolio, t)
  {
  }
}
