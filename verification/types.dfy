/**
 Data model of the cart subsystem of an e-commerce backend: catalog products,
 cart line items, purchase tickets, the values a JSON request body may carry,
 and the errors the cart handlers report.

 Identifiers are opaque strings. Prices are whole currency units (for example
 cents) instead of JavaScript floating-point numbers.
 */
module CartTypes {

  type ProductId = string
  type CartId = string
  /** Users are identified by e-mail address; product owners are stored the same way. */
  type UserId = string

  /** A catalog entry: who sells it, its unit price and the units in stock. */
  datatype Product = Product(owner: UserId, price: int, stock: int)

  type Catalog = map<ProductId, Product>

  /** One `{product, quantity}` entry of a cart. Nothing in the handlers keeps
      the quantity positive, so it is an `int`. */
  datatype LineItem = LineItem(product: ProductId, quantity: int)

  /** One entry of a ticket: the product, its price at purchase time and the quantity bought. */
  datatype TicketLine = TicketLine(product: ProductId, price: int, quantity: int)

  /** The purchase record written by checkout. */
  datatype Ticket = Ticket(code: string, products: seq<TicketLine>, amount: int, purchaser: UserId)

  /** The failures the handlers answer with: one constructor per message
      template. A constructor carries the id or field name its message is
      about; the cart id that the not-in-cart and unknown-product messages
      also quote is not carried.
      `UnknownProduct` is replace-all's answer for an entry whose product is
      not in the catalog; `CannotPurchase` is checkout's answer for a cart line
      whose product is not in the catalog. */
  datatype Error =
    | CartNotFound(cart: CartId)
    | ProductNotFound(product: ProductId)
    | OwnProduct
    | NotInCart(product: ProductId)
    | FieldMissing(field: string)
    | NotANumber
    | ZeroQuantity
    | EntryIncomplete
    | UnknownProduct(product: ProductId)
    | CannotPurchase(product: ProductId)

  datatype ErrorClass = NotFound | Validation | Forbidden

  /** The classification of each failure: the 404 answers are `NotFound`, the
      owner check is `Forbidden`, every other 400 answer is `Validation`. */
  function Classify(e: Error): ErrorClass {
    match e
    case CartNotFound(_) => NotFound
    case ProductNotFound(_) => NotFound
    case OwnProduct => Forbidden
    case _ => Validation
  }

  datatype Option<T> = None | Some(value: T)

  datatype Result<T> = Ok(value: T) | Err(error: Error)

  /** A value found in a JSON request body. A property the body does not have
      reads as `Undefined`; JSON has no way to give a property that value. */
  datatype JsValue = Undefined | Null | Bool(b: bool) | Num(n: int) | Str(s: string) | Obj

  /** JavaScript truthiness: `undefined`, `null`, `false`, `0` and `""` are falsy. */
  predicate Truthy(v: JsValue) {
    match v
    case Undefined => false
    case Null => false
    case Bool(b) => b
    case Num(n) => n != 0
    case Str(s) => s != ""
    case Obj => true
  }

  /** The products referenced by a sequence of line items. */
  function Products(items: seq<LineItem>): set<ProductId> {
    set x | x in items :: x.product
  }

  /** The total quantity of `pid` over all entries that reference it. */
  function QtyOf(items: seq<LineItem>, pid: ProductId): int {
    if |items| == 0 then 0
    else (if items[0].product == pid then items[0].quantity else 0) + QtyOf(items[1..], pid)
  }

  ghost predicate StockNonNegative(c: Catalog) {
    forall p :: p in c ==> c[p].stock >= 0
  }
}
