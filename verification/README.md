# Cart handlers and checkout of an e-commerce backend, in Dafny

This project models the cart controller of an Express/Mongoose e-commerce API
(`src/controllers/cart.controller.js`): the pure logic under its request
handlers, over an in-memory store instead of the database.

- **Line items** (module `LineItems`, file `line_items.dfy`). A cart is a sequence of
  `{product, quantity}` entries. The operations are:
  - add-one-unit with the "you cannot buy your own products" check;
  - remove every entry for a product;
  - set the quantity of the first entry for a product;
  - replace all entries with a validated list.
- **Checkout** (module `CheckoutEngine`, file `checkout.dfy`). A left-to-right fold over
  the cart's original entries. It threads the residual cart, the ticket lines,
  the running amount and the catalog. Each entry reads the catalog as already
  debited by earlier entries. The fold stops on a product missing from the
  catalog; the stock debits made before that point remain. An entry whose
  quantity is at most the current stock is bought: its stock is debited, every
  entry for that product leaves the residual cart, the amount grows by price times
  quantity, and a ticket line is appended. Other entries are skipped.
  `CheckoutLoop` is the handler's index loop, proved equal to the fold.
- **Handlers** (module `CartController`, file `controller.dfy`). These work over a store
  of carts, catalog and tickets. They look up the cart (404 when it is missing),
  then the product where the route names one. They then run the line-item logic
  and write the cart back. Checkout also writes the stock debits and appends the
  ticket.
- **Data** (module `CartTypes`, file `types.dfy`) and order-preserving subsequences
  (module `Sequences`, file `sequences.dfy`).

The handlers answer with one `Error` constructor per message template, classified
as `NotFound` (the 404 answers), `Forbidden` (the owner check) or `Validation`
(every other 400 answer). JSON request values are a small `JsValue` datatype,
so the handlers' truthiness and `typeof … === 'number'` checks can be stated
exactly. A property the body lacks reads as `Undefined`.

## Model

| member | source | states |
|---|---|---|
| `LineItems.FindIndex` | src/controllers/cart.controller.js:61 | -1 exactly when no entry has the product; otherwise a position holding the product with no earlier entry holding it |
| `LineItems.Without` | src/controllers/cart.controller.js:207 | the result holds exactly the entries whose product is outside the filtered ids, and is a subsequence of the input (order kept) |
| `LineItems.WithoutCounts` | src/controllers/cart.controller.js:207 | filtering keeps each kept entry as many times as the input holds it (duplicates survive) and drops every copy of the others |
| `LineItems.AddOrIncrement` | src/controllers/cart.controller.js:57-66 | fails with the own-product error exactly when the owner is the acting user; otherwise appends `{pid, 1}` when the cart lacks the product, or bumps only the first entry for it by one, every other entry unchanged |
| `LineItems.AddOrIncrementCounts` | src/controllers/cart.controller.js:61-66 | a successful add raises the cart's total quantity of the product by exactly one, leaves every other product's total alone, and adds the product to the set referenced |
| `LineItems.AddThenRemove` | src/controllers/cart.controller.js:61-66 | adding a product the cart lacked and then removing it gives back the original cart |
| `LineItems.Remove` | src/controllers/cart.controller.js:86-91 | fails with not-in-cart exactly when no entry has the product; otherwise keeps exactly the entries of other products, with their multiplicity and in order, and the product is no longer referenced |
| `LineItems.RemoveTwice` | src/controllers/cart.controller.js:86-90 | after a successful remove a second remove fails, and the totals of all other products are unchanged |
| `LineItems.CheckQuantity` | src/controllers/cart.controller.js:149-157 | accepts exactly the nonzero numbers; every falsy value (missing, null, false, empty string, zero) is a missing-field error, every other non-number a not-a-number error |
| `LineItems.SetQuantity` | src/controllers/cart.controller.js:149-163 | succeeds exactly for a nonzero number and a product the cart holds; the quantity error comes before the not-in-cart error; on success only the first entry for the product changes, to the new quantity |
| `LineItems.SetQuantityFacts` | src/controllers/cart.controller.js:158-162 | setting twice equals setting once; the referenced products are unchanged; the product's total moves only by the change of its first entry; other products' totals are unchanged |
| `LineItems.EntryError` | src/controllers/cart.controller.js:112-124 | an entry passes exactly when it has a product, a nonzero number quantity, and a product in the catalog (negative quantities pass); a missing property is the incomplete-entry error whatever else is wrong, then a present non-number (null included) is not-a-number, then a zero is the zero-quantity error, then an absent product is the unknown-product error naming it |
| `LineItems.FirstEntryError` | src/controllers/cart.controller.js:111-125 | no error exactly when every entry passes; otherwise the reported error is the error of an entry all of whose predecessors pass |
| `LineItems.ReplaceAll` | src/controllers/cart.controller.js:108-127 | a missing list is a missing-field error; success exactly when every entry passes, and the cart becomes the submitted list verbatim (same length, same products and quantities, no merging); a failure reports the first failing entry |
| `LineItems.ReplaceAllResubmit` | src/controllers/cart.controller.js:108-127 | submitting the cart that a successful replace-all produced, as a new request, yields that same cart again |
| `CheckoutEngine.Buy` | src/controllers/cart.controller.js:202-211 | buying a line appends a ticket line at the current catalog price, raises the amount by price times quantity, lowers only that product's stock, by the quantity, and takes every entry for the product out of the residual cart |
| `CheckoutEngine.Step` | src/controllers/cart.controller.js:202-212 | one visited line changes the catalog's products not at all and adds at most one ticket line, after the existing ones |
| `CheckoutEngine.Run` | src/controllers/cart.controller.js:197-213 | the fold keeps the catalog's products, only appends ticket lines, at most one per visited line, and aborts only on a product missing from the catalog |
| `CheckoutEngine.FirstMissing` | src/controllers/cart.controller.js:197-201 | the position of the first line whose product is not in the catalog, or -1 exactly when every line's product is |
| `CheckoutEngine.RunStopsAtFirstMissing` | src/controllers/cart.controller.js:197-201 | the fold completes when no product is missing; otherwise it stops at the first missing one, with exactly the accumulators of the completed fold over the lines before it |
| `CheckoutEngine.Checkout` | src/controllers/cart.controller.js:194-213 | checkout keeps the catalog's products, writes at most one ticket line per cart line, and aborts only on a product missing from the catalog |
| `CheckoutEngine.CheckoutAbortsIff` | src/controllers/cart.controller.js:197-200 | checkout aborts exactly when some cart line's product is missing from the catalog, and it names the first such line's product |
| `CheckoutEngine.RunIgnoresResidual` | src/controllers/cart.controller.js:197-207 | the residual cart is only written, never consulted: folds differing only in it agree on outcome, ticket lines, amount and catalog |
| `CheckoutEngine.CheckoutDone` | src/controllers/cart.controller.js:194-215 | a completed checkout: the amount is the sum of price times quantity over the ticket lines; the residual is the cart without every entry of a bought product; each product's stock drops by exactly its ticket quantities, with nothing else changed; non-negative stock stays non-negative; ticket lines are cart lines in cart order, carrying the catalog price |
| `CheckoutEngine.CheckoutSelects` | src/controllers/cart.controller.js:202-212 | every ticket line's quantity was at most its product's starting stock less what earlier ticket lines took; every line left in the cart exceeded its product's stock, which is untouched |
| `CheckoutEngine.RunAppend` | src/controllers/cart.controller.js:197-213 | folding over two runs of lines one after the other is folding over the first, then over the second from where the first ended |
| `CheckoutEngine.CheckoutSnoc` | src/controllers/cart.controller.js:198-212 | the buy-or-skip rule line by line: one more line adds a ticket line for it at the catalog price exactly when its quantity is at most the stock its product has left after the earlier ticket lines, and nothing otherwise |
| `CheckoutEngine.CheckoutAborted` | src/controllers/cart.controller.js:197-205 | when line i is the first with a missing product, checkout aborts naming it and leaves the catalog, ticket lines and amount of a completed checkout of just the lines before it: the earlier debits are neither rolled back nor added to |
| `CheckoutEngine.CheckoutBuysNothingIff` | src/controllers/cart.controller.js:194-202 | checkout ends with an unchanged cart, an empty ticket, amount 0 and an unchanged catalog exactly when every line's product exists and its quantity exceeds that product's stock |
| `CheckoutEngine.EmptyTicketChangesNothing` | src/controllers/cart.controller.js:194-196 | a completed checkout with no ticket lines leaves residual, amount and catalog at their starting values |
| `CheckoutEngine.LineAccounted` | src/controllers/cart.controller.js:207 | every cart line either remains in the residual or its product is on the ticket |
| `CheckoutEngine.SingleLineBought` | src/controllers/cart.controller.js:202-211 | a one-line cart within stock empties, its stock drops by the quantity, and the ticket has the one line at the catalog price |
| `CheckoutEngine.PartialPurchase` | src/controllers/cart.controller.js:202-212 | of two lines for different products, one beyond its stock and one within, only the second is bought and only the first remains in the cart |
| `CheckoutEngine.DuplicateLineDropped` | src/controllers/cart.controller.js:198-207 | a second line for an already bought product that exceeds the remaining stock is not bought, yet it is gone from the residual cart |
| `CheckoutEngine.DuplicateLinesBothBought` | src/controllers/cart.controller.js:198-211 | two lines for one product that both fit the stock as debited so far are both bought, and the stock drops by both quantities |
| `CheckoutEngine.CheckoutLoop` | src/controllers/cart.controller.js:194-213 | the index loop with its early return on a missing product computes exactly the fold |
| `CartController.AddProductToCart` | src/controllers/cart.controller.js:43-72 | a missing cart, then a missing product, then the owner check are reported in that order and write nothing; on success only that cart is written: `{pid, 1}` appended when the cart lacks the product, otherwise the first entry for it bumped by one in place with every other entry unchanged; the product's total rises by one and other totals stay |
| `CartController.DeleteProductFromCart` | src/controllers/cart.controller.js:74-97 | a missing cart, a product missing from the catalog, and a product the cart lacks are errors that write nothing; success writes only that cart, keeping exactly the other products' entries, with their multiplicity, in order |
| `CartController.UpdateCart` | src/controllers/cart.controller.js:99-133 | a missing cart or a missing list are errors; a rejected list answers the error of its first failing entry, every earlier entry passing; success exactly when every entry passes, writing only that cart, which becomes the submitted list verbatim |
| `CartController.UpdateProductQty` | src/controllers/cart.controller.js:135-170 | success exactly when the cart and product exist, the quantity is a nonzero number and the cart holds the product; a bad quantity answers exactly the quantity check's error (missing field for falsy values, not-a-number otherwise), before a product the cart lacks answers not-in-cart; success writes only that cart and changes only the first entry for the product |
| `CartController.ClearCart` | src/controllers/cart.controller.js:172-185 | fails with cart-not-found exactly when the cart is missing, writing nothing; otherwise that cart becomes empty and nothing else changes |
| `CartController.ClearTwice` | src/controllers/cart.controller.js:179 | clearing a cart twice leaves the same store and answer as clearing it once |
| `CartController.Purchase` | src/controllers/cart.controller.js:187-227 | a missing cart writes nothing; a missing product leaves carts and tickets untouched, names the first line whose product is absent, and leaves the catalog exactly as a purchase of the lines before it would; success appends one ticket (given code and purchaser, its lines exactly those of the checkout fold, amount = sum of its lines) and writes the residual cart; stocks drop by exactly the ticket quantities; every ticket line fitted the stock left when reached and every line left in the cart exceeded its untouched stock; catalog keys are kept and stock stays non-negative |
| `CartController.PurchaseAbortKeepsDebits` | src/controllers/cart.controller.js:197-205 | when line i is the first with a missing product, the purchase fails naming it, and each stock has dropped by the quantities of the lines bought before it: those lines come from that part of the cart, in order, each fitted its remaining stock, and every line there whose product nobody bought exceeded its stock |

## Left out

- HTTP plumbing: the status codes and JSON response bodies become `Result`/`Error` values. The 500 answer on an unexpected store exception has no counterpart.
- Persistence (`findById`, `findByIdAndUpdate`, `create`, `populate`, `lean`, `ProductService`): carts, catalog and tickets are in-memory maps and sequences. The stock write of checkout is a map update of that product's stock.
- `getProductsFromCart`, `getProductsFromCartController` and `createCartController` (lines 7-41): a fetch and an insert with no logic.
- The ticket code from `shortid.generate()` is a parameter of `Purchase`. Ticket codes being distinct cannot be stated without the generator. The ticket's creation time is also left out.
- The session: the acting user's e-mail is a parameter.
- `async`/`await` interleaving: the model is sequential. Two concurrent checkouts, and a cart replaced while a checkout runs, are not modelled.
- Numbers: prices and quantities are integers (for example cents), not JavaScript doubles. `NaN`, fractional values and infinities are not modelled.
- Replace-all inputs other than an array of objects: a non-array truthy `products`, and product references that are not ids (which make the database cast fail), are not modelled.

## Behaviour of the code

- A product missing at checkout is a 400 answer (line 200), so `CannotPurchase` is classified as a validation error, not as not-found.
- The own-product check answers 400 (line 58); `OwnProduct` is nevertheless classified `Forbidden`, since it is a refusal and not a malformed request.
- Checkout writes each stock debit as it goes (line 205) and returns on a missing product (line 200) without undoing them (`CheckoutAborted`).
- The residual cart is filtered by product id (line 207), so a later line skipped for lack of stock still leaves the cart when an earlier line for its product was bought (`DuplicateLineDropped`).
- Set-quantity and replace-all accept negative quantities. Set-quantity reports a zero quantity as a missing field, since `0` is falsy (line 149); its zero check (line 155) is never reached.
- Removing an entry, and setting its quantity, both fail with product-not-found when the product has left the catalog, even if the cart holds it (lines 82-85, 143-146).
