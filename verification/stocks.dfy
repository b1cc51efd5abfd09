/** The value types of the stock package that the portfolio code works with. */
module Stocks {

  /** A tradable instrument. Its class is not part of this model; the
      portfolio code only compares stocks for equality. */
  type Stock(==, !new)

  /** The exceptions the portfolio code throws or catches. */
  datatype Exception =
    | IllegalArgument(message: string)  // java.lang.IllegalArgumentException
    | InsufficientStock                 // com.amazon.stock.InsufficientStockException
}
