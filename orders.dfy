/** The entities the order list works on: products, customers, orders and
    their line items, with the customer and the products already attached to
    each order as the list query's joins deliver them. */
module Orders {
  import opened Wrappers

  /** The five fulfillment states an order can be in. */
  datatype FulfillmentStatus = Pending | Fulfilled | Cancelled | Shipped | Returned

  /** The name of a status as it travels on the wire and is stored. */
  function StatusName(s: FulfillmentStatus): string
  {
    match s
    case Pending => "PENDING"
    case Fulfilled => "FULFILLED"
    case Cancelled => "CANCELLED"
    case Shipped => "SHIPPED"
    case Returned => "RETURNED"
  }

  /** Reads a status back from its name; any other string names no status. */
  function ParseStatus(name: string): (r: Option<FulfillmentStatus>)
    ensures r.Some? ==> StatusName(r.value) == name
    ensures r.None? <==> forall s: FulfillmentStatus :: StatusName(s) != name
  {
    if name == "PENDING" then Some(Pending)
    else if name == "FULFILLED" then Some(Fulfilled)
    else if name == "CANCELLED" then Some(Cancelled)
    else if name == "SHIPPED" then Some(Shipped)
    else if name == "RETURNED" then Some(Returned)
    else None
  }

  /** Every status is read back from its own name, so names are distinct. */
  lemma ParseStatusName(s: FulfillmentStatus)
    ensures ParseStatus(StatusName(s)) == Some(s)
  {
  }

  datatype Product = Product(id: int, name: string, price: real)

  datatype Customer = Customer(id: int, name: string, address: string)

  datatype OrderLineItem = OrderLineItem(id: int, product: Product, quantity: int)

  datatype Order = Order(
    id: int,
    customer: Customer,
    fulfillmentStatus: FulfillmentStatus,
    orderLineItems: seq<OrderLineItem>)
}
