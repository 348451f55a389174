/** Result codes and small records shared by the order book modules. */
module BookTypes {
  import opened Types

  datatype MutationResult =
    | Applied
    | InvalidLocate
    | BookNotPrepared
    | InvalidSide
    | InvalidQuantity
    | PriceOutOfRange
    | OrderNotFound
    | DuplicateOrderRef
    | LocateMismatch
    | QuantityExceeded
    | PricePageCapacityExceeded
    | OrderTableCapacityExceeded
    | QuantityOverflow
    | QuantityUnderflow
    | OrderCountOverflow
    | InvalidPricePage
    | MissingPriceLevel
    | StaleReservation
    | InvariantViolation
    | BookInvalid

  datatype LookupPath = NoPath | Direct | FallbackPrimary | FallbackSecondary | Miss

  /** NoSide stands for the value 0 that a malformed side decodes to. */
  datatype OrderSide = Buy | Sell | NoSide

  const INVALID_HANDLE: u32 := 0

  /** The resident record of one order; `active` and `seen` are its two flag bits. */
  datatype OrderState = OrderState(
    qty: u32,
    pageHandle: u32,
    levelIndex: u16,
    locate: u16,
    side: OrderSide,
    active: bool,
    seen: bool,
    pageIndex: u16)

  const BLANK_STATE: OrderState := OrderState(0, 0, 0, 0, NoSide, false, false, 0)
}
