/**
 * The records the ranking pass works on: catalog entries (the `mapping`
 * resource), price entries (one value of the hourly price snapshot), and the
 * candidate record the pass derives for every joined item.
 */
module Market {
  import opened Optional

  /** Number of rows one table page shows. */
  const PageLimit: nat := 50

  /** Budget used while no budget has been read (`userCashStack` is still null): the largest 32-bit signed integer. */
  const UnlimitedCash: nat := 2147483647

  /** One catalog record; only the fields the ranking pass reads. */
  datatype CatalogEntry = CatalogEntry(id: nat, name: string)

  /** Average prices of one item; `None` is a JSON null (no trade in the window). */
  datatype PriceEntry = PriceEntry(avgLowPrice: Option<nat>, avgHighPrice: Option<nat>)

  /** The price snapshot, keyed by item id. */
  type PriceSnapshot = map<nat, PriceEntry>

  /** Result of `Math.floor(cash / low)`: dividing by a zero or null low price gives Infinity or NaN. */
  datatype Quantity = Units(n: nat) | Infinity | NaN

  /** A joined item with its two derived values. */
  datatype Candidate = Candidate(item: CatalogEntry, price: PriceEntry, margin: int, maxQuantity: Quantity)
  {
    function Id(): nat { item.id }
  }

  /** JavaScript numeric conversion of a price: null becomes 0. */
  function ToNumber(p: Option<nat>): (v: nat)
    ensures p.Some? ==> v == p.value
    ensures p.None? ==> v == 0
  {
    match p
    case Some(x) => x
    case None => 0
  }

  /** JavaScript truthiness of a price: null and 0 are falsy. */
  predicate Truthy(p: Option<nat>)
  {
    ToNumber(p) != 0
  }

  /**
   * The budget the pass uses: the value read from the page, or UnlimitedCash
   * while none has been read. An empty field reads as 0, not as null.
   */
  function CashStack(userCash: Option<nat>): (cash: nat)
    ensures userCash.None? ==> cash == UnlimitedCash
    ensures userCash.Some? ==> cash == userCash.value
  {
    match userCash
    case Some(v) => v
    case None => UnlimitedCash
  }

  /** `Math.floor(cash / low)` on non-negative integers. */
  function MaxQuantity(cash: nat, low: nat): (q: Quantity)
    ensures low > 0 ==> q.Units? && q.n * low <= cash < (q.n + 1) * low
    ensures low == 0 && cash > 0 ==> q == Infinity
    ensures low == 0 && cash == 0 ==> q == NaN
  {
    if low == 0 then (if cash == 0 then NaN else Infinity)
    else Units(cash / low)
  }

  /** Joins one catalog entry with its price entry and derives margin and maximum quantity. */
  function Derive(item: CatalogEntry, price: PriceEntry, cash: nat): (c: Candidate)
    ensures c.item == item && c.price == price
    ensures c.margin == ToNumber(price.avgHighPrice) - ToNumber(price.avgLowPrice)
    ensures Truthy(price.avgLowPrice) ==>
              var low := price.avgLowPrice.value;
              c.maxQuantity.Units? && c.maxQuantity.n * low <= cash < (c.maxQuantity.n + 1) * low
  {
    var low := ToNumber(price.avgLowPrice);
    Candidate(item, price, ToNumber(price.avgHighPrice) - low, MaxQuantity(cash, low))
  }
}
