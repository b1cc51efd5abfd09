/** The stock exchange client, seen only through its replies. Its network
    implementation is not part of this model: each reply is a total function
    of the request, supplied by the caller of the model. */
module Exchange {
  import opened Wrappers
  import opened Stocks

  /** Replies of `getPrice`, `submitBuy` (null when the purchase failed) and
      `submitSell`. Money is an exact integer amount of the smallest unit. */
  datatype StockExchangeClient = StockExchangeClient(
    getPrice: Stock -> int,
    submitBuy: (Stock, int) -> Option<int>,
    submitSell: (Stock, int) -> int)

  /** One request sent to the exchange, in the order it was sent. */
  datatype ExchangeCall =
    | GetPrice(stock: Stock)
    | SubmitBuy(stock: Stock, quantity: int)
    | SubmitSell(stock: Stock, quantity: int)
}
