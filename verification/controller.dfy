/**
 The cart handlers over an in-memory store: the cart documents, the product
 catalog and the tickets written so far. Each handler looks the cart up first
 (a missing cart is reported and nothing is written), then the product where
 it names one, runs the line-item logic and writes the cart back on success.
 Checkout additionally writes each stock debit as it goes, and appends the
 ticket at the end.
 */
module CartController {
  import opened CartTypes
  import opened Sequences
  import opened LineItems
  import opened CheckoutEngine

  datatype Store = Store(carts: map<CartId, seq<LineItem>>, catalog: Catalog, tickets: seq<Ticket>)

  /** A handler's answer and the store after it. */
  datatype Reply<T> = Reply(result: Result<T>, store: Store)

  /** Writes the new entries of cart `cid` when the line-item logic succeeded. */
  function Commit(s: Store, cid: CartId, r: Result<seq<LineItem>>): Reply<seq<LineItem>> {
    match r
    case Err(e) => Reply(Err(e), s)
    case Ok(items) => Reply(Ok(items), s.(carts := s.carts[cid := items]))
  }

  /** Add one unit of product `pid` to cart `cid` on behalf of `actor`. */
  function AddProductToCart(s: Store, cid: CartId, pid: ProductId, actor: UserId): (r: Reply<seq<LineItem>>)
    ensures cid !in s.carts ==> r.result == Err(CartNotFound(cid))
    ensures cid in s.carts && pid !in s.catalog ==> r.result == Err(ProductNotFound(pid))
    ensures cid in s.carts && pid in s.catalog && s.catalog[pid].owner == actor ==> r.result == Err(OwnProduct)
    ensures r.result.Ok? <==> cid in s.carts && pid in s.catalog && s.catalog[pid].owner != actor
    ensures r.result.Err? ==> r.store == s
    ensures r.result.Ok? ==> r.store == s.(carts := s.carts[cid := r.result.value])
    ensures r.result.Ok? ==> QtyOf(r.result.value, pid) == QtyOf(s.carts[cid], pid) + 1
    ensures r.result.Ok? ==> forall q :: q != pid ==> QtyOf(r.result.value, q) == QtyOf(s.carts[cid], q)
    ensures r.result.Ok? && pid !in Products(s.carts[cid]) ==> r.result.value == s.carts[cid] + [LineItem(pid, 1)]
    ensures r.result.Ok? && pid in Products(s.carts[cid]) ==>
              var items := s.carts[cid];
              var k := FindIndex(items, pid);
              && |r.result.value| == |items|
              && (forall j :: 0 <= j < |items| && j != k ==> r.result.value[j] == items[j])
              && r.result.value[k] == LineItem(pid, items[k].quantity + 1)
  {
    if cid !in s.carts then Reply(Err(CartNotFound(cid)), s)
    else if pid !in s.catalog then Reply(Err(ProductNotFound(pid)), s)
    else
      var items := s.carts[cid];
      var r := AddOrIncrement(items, pid, s.catalog[pid], actor);
      assert r.Ok? ==> QtyOf(r.value, pid) == QtyOf(items, pid) + 1
                       && forall q :: q != pid ==> QtyOf(r.value, q) == QtyOf(items, q) by {
        if r.Ok? {
          forall q ensures QtyOf(r.value, q) == QtyOf(items, q) + (if q == pid then 1 else 0) {
            AddOrIncrementCounts(items, pid, s.catalog[pid], actor, q);
          }
        }
      }
      Commit(s, cid, r)
  }

  /** Remove every entry for product `pid` from cart `cid`. The product must
      still be in the catalog, even though only the cart is changed. */
  function DeleteProductFromCart(s: Store, cid: CartId, pid: ProductId): (r: Reply<seq<LineItem>>)
    ensures cid !in s.carts ==> r.result == Err(CartNotFound(cid))
    ensures cid in s.carts && pid !in s.catalog ==> r.result == Err(ProductNotFound(pid))
    ensures cid in s.carts && pid in s.catalog && pid !in Products(s.carts[cid]) ==> r.result == Err(NotInCart(pid))
    ensures r.result.Ok? <==> cid in s.carts && pid in s.catalog && pid in Products(s.carts[cid])
    ensures r.result.Err? ==> r.store == s
    ensures r.result.Ok? ==> r.store == s.(carts := s.carts[cid := r.result.value])
    ensures r.result.Ok? ==> forall x :: x in r.result.value <==> x in s.carts[cid] && x.product != pid
    ensures r.result.Ok? ==> IsSubseq(r.result.value, s.carts[cid])
    ensures r.result.Ok? ==>
              forall y :: multiset(r.result.value)[y] == if y.product == pid then 0 else multiset(s.carts[cid])[y]
  {
    if cid !in s.carts then Reply(Err(CartNotFound(cid)), s)
    else if pid !in s.catalog then Reply(Err(ProductNotFound(pid)), s)
    else Commit(s, cid, Remove(s.carts[cid], pid))
  }

  /** Replace the entries of cart `cid` by the submitted `products` list. */
  function UpdateCart(s: Store, cid: CartId, products: Option<seq<Candidate>>): (r: Reply<seq<LineItem>>)
    ensures cid !in s.carts ==> r.result == Err(CartNotFound(cid))
    ensures cid in s.carts && products.None? ==> r.result == Err(FieldMissing("products"))
    ensures r.result.Ok? <==> cid in s.carts && products.Some?
                              && forall i :: 0 <= i < |products.value| ==> EntryError(products.value[i], s.catalog).None?
    ensures cid in s.carts && products.Some? && r.result.Err? ==>
              exists i :: 0 <= i < |products.value| && EntryError(products.value[i], s.catalog) == Some(r.result.error)
                          && forall j :: 0 <= j < i ==> EntryError(products.value[j], s.catalog).None?
    ensures r.result.Err? ==> r.store == s
    ensures r.result.Ok? ==> r.store == s.(carts := s.carts[cid := r.result.value])
    ensures r.result.Ok? ==>
              && |r.result.value| == |products.value|
              && forall i :: 0 <= i < |products.value| ==>
                   r.result.value[i] == LineItem(products.value[i].product.value, products.value[i].quantity.n)
  {
    if cid !in s.carts then Reply(Err(CartNotFound(cid)), s)
    else Commit(s, cid, ReplaceAll(products, s.catalog))
  }

  /** Set the quantity of the first entry for `pid` in cart `cid`. */
  function UpdateProductQty(s: Store, cid: CartId, pid: ProductId, quantity: JsValue): (r: Reply<seq<LineItem>>)
    ensures cid !in s.carts ==> r.result == Err(CartNotFound(cid))
    ensures cid in s.carts && pid !in s.catalog ==> r.result == Err(ProductNotFound(pid))
    ensures r.result.Ok? <==> cid in s.carts && pid in s.catalog && quantity.Num? && quantity.n != 0
                              && pid in Products(s.carts[cid])
    ensures cid in s.carts && pid in s.catalog && !(quantity.Num? && quantity.n != 0) ==>
              r.result.Err? && Classify(r.result.error) == Validation
    ensures cid in s.carts && pid in s.catalog && CheckQuantity(quantity).Err? ==>
              r.result == Err(CheckQuantity(quantity).error)
    ensures cid in s.carts && pid in s.catalog && CheckQuantity(quantity).Ok? && pid !in Products(s.carts[cid]) ==>
              r.result == Err(NotInCart(pid))
    ensures r.result.Err? ==> r.store == s
    ensures r.result.Ok? ==> r.store == s.(carts := s.carts[cid := r.result.value])
    ensures r.result.Ok? ==>
              && |r.result.value| == |s.carts[cid]|
              && forall j :: 0 <= j < |s.carts[cid]| ==>
                   r.result.value[j] == if j == FindIndex(s.carts[cid], pid) then LineItem(pid, quantity.n) else s.carts[cid][j]
  {
    if cid !in s.carts then Reply(Err(CartNotFound(cid)), s)
    else if pid !in s.catalog then Reply(Err(ProductNotFound(pid)), s)
    else Commit(s, cid, SetQuantity(s.carts[cid], pid, quantity))
  }

  /** Empty cart `cid`. */
  function ClearCart(s: Store, cid: CartId): (r: Reply<seq<LineItem>>)
    ensures r.result.Err? <==> cid !in s.carts
    ensures r.result.Err? ==> r.result.error == CartNotFound(cid) && r.store == s
    ensures r.result.Ok? ==> r.store == s.(carts := s.carts[cid := []]) && r.result.value == []
  {
    if cid !in s.carts then Reply(Err(CartNotFound(cid)), s)
    else Commit(s, cid, Ok([]))
  }

  /** Clearing a cart twice leaves the store as clearing it once does. */
  lemma ClearTwice(s: Store, cid: CartId)
    ensures ClearCart(ClearCart(s, cid).store, cid) == ClearCart(s, cid)
  {
  }

  /** Check out cart `cid` for `purchaser`; `code` stands for the freshly
      generated ticket code. */
  function Purchase(s: Store, cid: CartId, code: string, purchaser: UserId): (r: Reply<Ticket>)
    ensures cid !in s.carts ==> r == Reply(Err(CartNotFound(cid)), s)
    ensures r.result.Err? ==> r.store.carts == s.carts && r.store.tickets == s.tickets
    ensures r.result.Ok? <==> cid in s.carts && forall i :: 0 <= i < |s.carts[cid]| ==> s.carts[cid][i].product in s.catalog
    ensures r.result.Err? && cid in s.carts ==>
              var items := s.carts[cid];
              var i := FirstMissing(items, s.catalog.Keys);
              && 0 <= i
              && items[i].product !in s.catalog
              && (forall j :: 0 <= j < i ==> items[j].product in s.catalog)
              && r.result.error == CannotPurchase(items[i].product)
              && Checkout(items[..i], s.catalog).Done?
              && r.store.catalog == Checkout(items[..i], s.catalog).final.catalog
    ensures r.store.catalog.Keys == s.catalog.Keys
    ensures r.result.Ok? ==>
              var t := r.result.value;
              && t.code == code && t.purchaser == purchaser
              && t.amount == Amount(t.products)
              && Checkout(s.carts[cid], s.catalog).Done? && t.products == Checkout(s.carts[cid], s.catalog).final.lines
              && r.store.tickets == s.tickets + [t]
              && r.store.carts == s.carts[cid := Without(s.carts[cid], TicketIds(t.products))]
              && IsSubseq(Bought(t.products), s.carts[cid])
              && (forall i :: 0 <= i < |t.products| ==> t.products[i].product in s.catalog && t.products[i].price == s.catalog[t.products[i].product].price)
              && (forall p :: p in s.catalog ==>
                    r.store.catalog[p] == s.catalog[p].(stock := s.catalog[p].stock - Debited(t.products, p)))
              && WithinStock(s.catalog, t.products)
              && (forall x :: x in r.store.carts[cid] ==>
                    x.product in s.catalog && x.quantity > s.catalog[x.product].stock
                    && r.store.catalog[x.product] == s.catalog[x.product])
    ensures StockNonNegative(s.catalog) ==> StockNonNegative(r.store.catalog)
  {
    if cid !in s.carts then Reply(Err(CartNotFound(cid)), s)
    else
      var items := s.carts[cid];
      CheckoutAbortsIff(items, s.catalog);
      match Checkout(items, s.catalog)
      case Aborted(pid, at) =>
        var i := FirstMissing(items, s.catalog.Keys);
        CheckoutAborted(items, s.catalog, i);
        CheckoutDone(items[..i], s.catalog);
        Reply(Err(CannotPurchase(pid)), s.(catalog := at.catalog))
      case Done(f) =>
        CheckoutDone(items, s.catalog);
        CheckoutSelects(items, s.catalog);
        var t := Ticket(code, f.lines, f.amount, purchaser);
        Reply(Ok(t), s.(carts := s.carts[cid := f.residual], catalog := f.catalog, tickets := s.tickets + [t]))
  }

  /** When line `i` of the cart is the first whose product is missing, the
      purchase fails naming it and keeps the debits of the lines before it,
      exactly as a purchase of just those lines would make them: each stock
      drops by the quantities of the lines bought among them; those lines come
      from that part of the cart, in cart order, each fitting the stock left
      when it was reached; and every line there whose product was bought by no
      line exceeded its stock. */
  lemma PurchaseAbortKeepsDebits(s: Store, cid: CartId, code: string, purchaser: UserId, i: nat)
    requires cid in s.carts && i < |s.carts[cid]| && s.carts[cid][i].product !in s.catalog
    requires forall j :: 0 <= j < i ==> s.carts[cid][j].product in s.catalog
    ensures Purchase(s, cid, code, purchaser).result == Err(CannotPurchase(s.carts[cid][i].product))
    ensures var items := s.carts[cid];
      && Checkout(items[..i], s.catalog).Done?
      && var debited := Checkout(items[..i], s.catalog).final.lines;
         && IsSubseq(Bought(debited), items[..i])
         && WithinStock(s.catalog, debited)
         && (forall x :: x in items[..i] && x.product !in TicketIds(debited) ==> x.quantity > s.catalog[x.product].stock)
         && forall p :: p in s.catalog ==>
              Purchase(s, cid, code, purchaser).store.catalog[p]
              == s.catalog[p].(stock := s.catalog[p].stock - Debited(debited, p))
  {
    var items := s.carts[cid];
    assert FirstMissing(items, s.catalog.Keys) == i;
    CheckoutAborted(items, s.catalog, i);
    CheckoutDone(items[..i], s.catalog);
    CheckoutSelects(items[..i], s.catalog);
    var f := Checkout(items[..i], s.catalog).final;
    forall x | x in items[..i] && x.product !in TicketIds(f.lines)
      ensures x.quantity > s.catalog[x.product].stock
    {
      assert x in f.residual;
    }
  }
}
