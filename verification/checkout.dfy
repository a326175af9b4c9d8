/**
 Checkout: a left-to-right fold over the cart's original line items that
 threads the residual cart, the ticket lines, the running amount and the
 catalog. Each line looks its product up in the catalog as it stands at that
 point, so a later line for the same product sees the stock already debited.
 A missing product aborts the fold; the debits made before it stay in the
 catalog. A line whose quantity is at most the product's stock is bought: the
 stock is debited, every cart entry for the product leaves the residual, the
 amount grows by price times quantity and a ticket line is appended. Any
 other line is skipped.
 */
module CheckoutEngine {
  import opened CartTypes
  import opened Sequences
  import opened LineItems

  /** The accumulators of the fold. */
  datatype State = State(residual: seq<LineItem>, lines: seq<TicketLine>, amount: int, catalog: Catalog)

  /** `Done` carries the final accumulators. `Aborted` names the product that
      was missing and carries the accumulators at that point; of those, only the
      catalog had been written. */
  datatype Outcome = Done(final: State) | Aborted(missing: ProductId, at: State)

  /** Before the first line: the residual is the whole cart, nothing is bought. */
  function Start(items: seq<LineItem>, catalog: Catalog): State {
    State(items, [], 0, catalog)
  }

  /** The sum of price times quantity over the ticket lines. */
  function Amount(lines: seq<TicketLine>): int {
    if |lines| == 0 then 0
    else Amount(lines[..|lines| - 1]) + lines[|lines| - 1].price * lines[|lines| - 1].quantity
  }

  /** The sum of the quantities of `pid` over the ticket lines. */
  function Debited(lines: seq<TicketLine>, pid: ProductId): int {
    if |lines| == 0 then 0
    else Debited(lines[..|lines| - 1], pid) + (if lines[|lines| - 1].product == pid then lines[|lines| - 1].quantity else 0)
  }

  /** The products named on the ticket lines. */
  function TicketIds(lines: seq<TicketLine>): set<ProductId> {
    set t | t in lines :: t.product
  }

  /** The cart lines the ticket lines were made from. */
  function Bought(lines: seq<TicketLine>): seq<LineItem> {
    seq(|lines|, i requires 0 <= i < |lines| => LineItem(lines[i].product, lines[i].quantity))
  }

  /** Buying one line whose product is in the catalog: a ticket line at the
      current catalog price is appended, the amount grows by price times
      quantity, only that product's stock drops, by the quantity, and every
      entry for the product leaves the residual cart. */
  function Buy(st: State, item: LineItem): (r: State)
    requires item.product in st.catalog
    ensures r.catalog.Keys == st.catalog.Keys
    ensures r.lines == st.lines + [TicketLine(item.product, st.catalog[item.product].price, item.quantity)]
    ensures r.amount == st.amount + st.catalog[item.product].price * item.quantity
    ensures r.catalog[item.product] == st.catalog[item.product].(stock := st.catalog[item.product].stock - item.quantity)
    ensures forall p :: p in st.catalog && p != item.product ==> r.catalog[p] == st.catalog[p]
    ensures forall x :: x in r.residual <==> x in st.residual && x.product != item.product
  {
    var p := st.catalog[item.product];
    State(Without(st.residual, {item.product}),
          st.lines + [TicketLine(item.product, p.price, item.quantity)],
          st.amount + p.price * item.quantity,
          st.catalog[item.product := p.(stock := p.stock - item.quantity)])
  }

  /** One line of the fold, its product being in the catalog: bought when its
      quantity is at most the stock as it stands now, skipped otherwise. */
  function Step(st: State, item: LineItem): (r: State)
    requires item.product in st.catalog
    ensures r.catalog.Keys == st.catalog.Keys
    ensures st.lines <= r.lines && |r.lines| <= |st.lines| + 1
  {
    if item.quantity <= st.catalog[item.product].stock then Buy(st, item) else st
  }

  /** The accumulators an outcome carries. */
  function Reached(o: Outcome): State {
    match o
    case Done(f) => f
    case Aborted(_, a) => a
  }

  /** The fold over the lines not yet visited. It keeps the catalog's products,
      only ever appends ticket lines, at most one per visited line, and aborts
      only on a product missing from the catalog. */
  function Run(rest: seq<LineItem>, st: State): (r: Outcome)
    ensures Reached(r).catalog.Keys == st.catalog.Keys
    ensures st.lines <= Reached(r).lines && |Reached(r).lines| <= |st.lines| + |rest|
    ensures r.Aborted? ==> r.missing !in st.catalog
    decreases |rest|
  {
    if |rest| == 0 then Done(st)
    else
      var item := rest[0];
      if item.product !in st.catalog then Aborted(item.product, st)
      else Run(rest[1..], Step(st, item))
  }

  /** The position of the first line whose product is not among `keys`, or -1
      when every line's product is. */
  function FirstMissing(items: seq<LineItem>, keys: set<ProductId>): (r: int)
    ensures -1 <= r < |items|
    ensures r == -1 <==> forall j :: 0 <= j < |items| ==> items[j].product in keys
    ensures 0 <= r ==> items[r].product !in keys && forall j :: 0 <= j < r ==> items[j].product in keys
  {
    if |items| == 0 then -1
    else if items[0].product !in keys then 0
    else
      var k := FirstMissing(items[1..], keys);
      assert forall j :: 1 <= j < |items| ==> items[j] == items[1..][j - 1];
      if k == -1 then -1 else k + 1
  }

  /** The fold stops exactly at the first line whose product is missing, with
      the accumulators of the fold over the lines before it. */
  lemma {:induction false} RunStopsAtFirstMissing(rest: seq<LineItem>, st: State)
    ensures var i := FirstMissing(rest, st.catalog.Keys);
      && (i == -1 ==> Run(rest, st).Done?)
      && (0 <= i ==> Run(rest[..i], st).Done? && Run(rest, st) == Aborted(rest[i].product, Run(rest[..i], st).final))
    decreases |rest|
  {
    if |rest| > 0 {
      var item := rest[0];
      if item.product in st.catalog {
        var next := Step(st, item);
        RunStopsAtFirstMissing(rest[1..], next);
        var i := FirstMissing(rest, st.catalog.Keys);
        if 0 <= i {
          assert rest[..i][0] == item;
          assert rest[..i][1..] == rest[1..][..i - 1];
          assert rest[1..][i - 1] == rest[i];
        }
      } else {
        assert rest[..0] == [];
      }
    }
  }

  /** Checkout of the cart `items` against `catalog`: it keeps the catalog's
      products, writes at most one ticket line per cart line, and aborts only
      on a product missing from the catalog. */
  function Checkout(items: seq<LineItem>, catalog: Catalog): (r: Outcome)
    ensures Reached(r).catalog.Keys == catalog.Keys
    ensures |Reached(r).lines| <= |items|
    ensures r.Aborted? ==> r.missing !in catalog
  {
    Run(items, Start(items, catalog))
  }

  /** Checkout aborts exactly when a cart line references a product missing from
      the catalog, naming the first such product. */
  lemma CheckoutAbortsIff(items: seq<LineItem>, catalog: Catalog)
    ensures Checkout(items, catalog).Aborted? <==> exists i :: 0 <= i < |items| && items[i].product !in catalog
    ensures Checkout(items, catalog).Aborted? ==>
              exists i :: 0 <= i < |items| && items[i].product == Checkout(items, catalog).missing
                          && items[i].product !in catalog
                          && forall j :: 0 <= j < i ==> items[j].product in catalog
  {
    RunStopsAtFirstMissing(items, Start(items, catalog));
    var i := FirstMissing(items, catalog.Keys);
    if 0 <= i {
      assert items[i].product == Checkout(items, catalog).missing;
    }
  }

  /** An outcome with its residual cart blanked out. */
  function Forget(o: Outcome): Outcome {
    match o
    case Done(f) => Done(f.(residual := []))
    case Aborted(p, a) => Aborted(p, a.(residual := []))
  }

  lemma StepIgnoresResidual(st: State, item: LineItem, residual: seq<LineItem>)
    requires item.product in st.catalog
    ensures Step(st.(residual := residual), item) == Step(st, item).(residual := Step(st.(residual := residual), item).residual)
  {
    var b := Buy(st, item);
    var b' := Buy(st.(residual := residual), item);
    assert b'.lines == b.lines && b'.amount == b.amount && b'.catalog == b.catalog;
    assert b' == b.(residual := b'.residual);
    if item.quantity <= st.catalog[item.product].stock {
      assert Step(st.(residual := residual), item) == b';
    } else {
      assert Step(st.(residual := residual), item) == st.(residual := residual);
    }
  }

  /** The residual cart never steers the fold: two runs differing only in it
      agree on everything else. */
  lemma {:induction false} RunIgnoresResidual(rest: seq<LineItem>, st: State, residual: seq<LineItem>)
    ensures Forget(Run(rest, st)) == Forget(Run(rest, st.(residual := residual)))
    decreases |rest|
  {
    if |rest| > 0 && rest[0].product in st.catalog {
      var other := Step(st.(residual := residual), rest[0]);
      StepIgnoresResidual(st, rest[0], residual);
      RunIgnoresResidual(rest[1..], Step(st, rest[0]), other.residual);
    }
  }

  /** When line `i` is the first whose product is missing, checkout aborts on
      it as the checkout of the lines before it would have ended: the catalog
      keeps exactly the debits of that shorter checkout, nothing is rolled
      back, and nothing more is debited. */
  lemma CheckoutAborted(items: seq<LineItem>, catalog: Catalog, i: nat)
    requires i < |items| && items[i].product !in catalog
    requires forall j :: 0 <= j < i ==> items[j].product in catalog
    ensures Checkout(items[..i], catalog).Done?
    ensures var a := Checkout(items, catalog);
      var f := Checkout(items[..i], catalog).final;
      && a.Aborted? && a.missing == items[i].product
      && a.at.catalog == f.catalog && a.at.lines == f.lines && a.at.amount == f.amount
  {
    RunStopsAtFirstMissing(items, Start(items, catalog));
    assert FirstMissing(items, catalog.Keys) == i;
    assert Start(items, catalog) == Start(items[..i], catalog).(residual := items);
    RunIgnoresResidual(items[..i], Start(items[..i], catalog), items);
  }

  // ---------------------------------------------------------------------------
  // The invariant of the fold

  /** What holds of the accumulators after visiting the lines `done` of the cart
      `items`, when the fold started from `catalog0`. */
  ghost predicate Consistent(items: seq<LineItem>, done: seq<LineItem>, catalog0: Catalog, st: State) {
    && st.residual == Without(items, TicketIds(st.lines))
    && st.amount == Amount(st.lines)
    && st.catalog.Keys == catalog0.Keys
    && (forall p :: p in catalog0 ==> st.catalog[p] == catalog0[p].(stock := catalog0[p].stock - Debited(st.lines, p)))
    && (StockNonNegative(catalog0) ==> StockNonNegative(st.catalog))
    && (forall i :: 0 <= i < |st.lines| ==>
          st.lines[i].product in catalog0 && st.lines[i].price == catalog0[st.lines[i].product].price)
    && IsSubseq(Bought(st.lines), done)
  }

  lemma StartConsistent(items: seq<LineItem>, catalog: Catalog)
    ensures Consistent(items, [], catalog, Start(items, catalog))
  {
    assert TicketIds([]) == {};
    WithoutAbsent(items, {});
    forall p | p in catalog ensures catalog[p] == catalog[p].(stock := catalog[p].stock - Debited([], p)) {
    }
  }

  lemma BuyLines(st: State, item: LineItem)
    requires item.product in st.catalog
    ensures var lines' := Buy(st, item).lines;
      && Amount(lines') == Amount(st.lines) + st.catalog[item.product].price * item.quantity
      && TicketIds(lines') == TicketIds(st.lines) + {item.product}
      && Bought(lines') == Bought(st.lines) + [item]
      && forall q :: Debited(lines', q) == Debited(st.lines, q) + (if q == item.product then item.quantity else 0)
  {
  }

  lemma BuyCatalog(catalog0: Catalog, st: State, item: LineItem)
    requires st.catalog.Keys == catalog0.Keys
    requires forall p :: p in catalog0 ==> st.catalog[p] == catalog0[p].(stock := catalog0[p].stock - Debited(st.lines, p))
    requires StockNonNegative(catalog0) ==> StockNonNegative(st.catalog)
    requires item.product in st.catalog && item.quantity <= st.catalog[item.product].stock
    ensures var st' := Buy(st, item);
      && st'.catalog.Keys == catalog0.Keys
      && (forall p :: p in catalog0 ==> st'.catalog[p] == catalog0[p].(stock := catalog0[p].stock - Debited(st'.lines, p)))
      && (StockNonNegative(catalog0) ==> StockNonNegative(st'.catalog))
  {
  }

  lemma BuyPrices(catalog0: Catalog, st: State, item: LineItem)
    requires st.catalog.Keys == catalog0.Keys
    requires forall p :: p in catalog0 ==> st.catalog[p].price == catalog0[p].price
    requires forall i :: 0 <= i < |st.lines| ==>
               st.lines[i].product in catalog0 && st.lines[i].price == catalog0[st.lines[i].product].price
    requires item.product in st.catalog
    ensures var lines' := Buy(st, item).lines;
      forall i :: 0 <= i < |lines'| ==> lines'[i].product in catalog0 && lines'[i].price == catalog0[lines'[i].product].price
  {
  }

  /** Buying a line whose quantity is within stock keeps the invariant. */
  lemma BuyKeeps(items: seq<LineItem>, done: seq<LineItem>, catalog0: Catalog, st: State, item: LineItem)
    requires Consistent(items, done, catalog0, st)
    requires item.product in st.catalog && item.quantity <= st.catalog[item.product].stock
    ensures Consistent(items, done + [item], catalog0, Buy(st, item))
  {
    BuyLines(st, item);
    WithoutTwice(items, TicketIds(st.lines), {item.product});
    SubseqSnoc(Bought(st.lines), done, item);
    BuyCatalog(catalog0, st, item);
    BuyPrices(catalog0, st, item);
  }

  /** One step of the fold keeps the invariant, whether it buys or skips. */
  lemma StepKeeps(items: seq<LineItem>, done: seq<LineItem>, catalog0: Catalog, st: State, item: LineItem)
    requires Consistent(items, done, catalog0, st)
    requires item.product in st.catalog
    ensures Consistent(items, done + [item], catalog0, Step(st, item))
  {
    if item.quantity <= st.catalog[item.product].stock {
      BuyKeeps(items, done, catalog0, st, item);
    } else {
      SubseqExtend(Bought(st.lines), done, item);
    }
  }

  /** The fold keeps the invariant over the lines it visits when it finishes. */
  lemma {:induction false} RunKeeps(items: seq<LineItem>, done: seq<LineItem>, rest: seq<LineItem>, catalog0: Catalog, st: State)
    requires Consistent(items, done, catalog0, st)
    ensures Run(rest, st).Done? ==> Consistent(items, done + rest, catalog0, Run(rest, st).final)
    decreases |rest|
  {
    if |rest| == 0 {
      assert done + rest == done;
    } else if rest[0].product in st.catalog {
      var item := rest[0];
      assert done + [item] + rest[1..] == done + rest;
      StepKeeps(items, done, catalog0, st, item);
      RunKeeps(items, done + [item], rest[1..], catalog0, Step(st, item));
    }
  }

  // ---------------------------------------------------------------------------
  // Which lines are bought

  /** Every ticket line fitted the stock left when it was reached: its product's
      starting stock less what the earlier ticket lines took of it. */
  ghost predicate WithinStock(catalog0: Catalog, lines: seq<TicketLine>) {
    forall k :: 0 <= k < |lines| ==>
      lines[k].product in catalog0 && lines[k].quantity <= catalog0[lines[k].product].stock - Debited(lines[..k], lines[k].product)
  }

  /** Every visited line whose product is on no ticket line exceeded that
      product's stock, which was then untouched. */
  ghost predicate BeyondStock(done: seq<LineItem>, catalog0: Catalog, lines: seq<TicketLine>) {
    forall x :: x in done && x.product !in TicketIds(lines) ==>
      x.product in catalog0 && x.quantity > catalog0[x.product].stock
  }

  /** A product on no ticket line has had nothing debited. */
  lemma {:induction false} DebitedAbsent(lines: seq<TicketLine>, pid: ProductId)
    requires pid !in TicketIds(lines)
    ensures Debited(lines, pid) == 0
    decreases |lines|
  {
    if |lines| > 0 {
      var init := lines[..|lines| - 1];
      assert lines[|lines| - 1] in lines;
      assert pid !in TicketIds(init) by {
        forall t | t in init ensures t.product != pid {
          assert t in lines;
        }
      }
      DebitedAbsent(init, pid);
    }
  }

  /** One step keeps both halves of the buy-or-skip rule. */
  lemma StepSelects(done: seq<LineItem>, catalog0: Catalog, st: State, item: LineItem)
    requires st.catalog.Keys == catalog0.Keys
    requires forall p :: p in catalog0 ==> st.catalog[p].stock == catalog0[p].stock - Debited(st.lines, p)
    requires WithinStock(catalog0, st.lines) && BeyondStock(done, catalog0, st.lines)
    requires item.product in st.catalog
    ensures WithinStock(catalog0, Step(st, item).lines) && BeyondStock(done + [item], catalog0, Step(st, item).lines)
  {
    var pid := item.product;
    if item.quantity <= st.catalog[pid].stock {
      var lines' := Step(st, item).lines;
      BuyLines(st, item);
      forall k | 0 <= k < |lines'|
        ensures lines'[k].product in catalog0
                && lines'[k].quantity <= catalog0[lines'[k].product].stock - Debited(lines'[..k], lines'[k].product)
      {
        if k < |st.lines| {
          assert lines'[..k] == st.lines[..k];
        } else {
          assert lines'[..k] == st.lines;
        }
      }
    } else if pid !in TicketIds(st.lines) {
      DebitedAbsent(st.lines, pid);
    }
  }

  /** The fold keeps both halves of the buy-or-skip rule to its end. */
  lemma {:induction false} RunSelects(items: seq<LineItem>, done: seq<LineItem>, rest: seq<LineItem>, catalog0: Catalog, st: State)
    requires Consistent(items, done, catalog0, st)
    requires WithinStock(catalog0, st.lines) && BeyondStock(done, catalog0, st.lines)
    ensures Run(rest, st).Done? ==>
              WithinStock(catalog0, Run(rest, st).final.lines) && BeyondStock(done + rest, catalog0, Run(rest, st).final.lines)
    decreases |rest|
  {
    if |rest| == 0 {
      assert done + rest == done;
    } else if rest[0].product in st.catalog {
      var item := rest[0];
      assert done + [item] + rest[1..] == done + rest;
      StepSelects(done, catalog0, st, item);
      StepKeeps(items, done, catalog0, st, item);
      RunSelects(items, done + [item], rest[1..], catalog0, Step(st, item));
    }
  }

  // ---------------------------------------------------------------------------
  // What checkout promises

  /** A checkout that completes: the amount is the sum of price times quantity
      over the ticket lines; the residual is the cart without every entry of a
      bought product, in cart order; each product's stock has dropped by exactly
      the quantities on its ticket lines and nothing else about the catalog has
      changed; stock that was non-negative stays non-negative; the ticket lines
      are cart lines, in cart order, priced as in the catalog. */
  lemma CheckoutDone(items: seq<LineItem>, catalog: Catalog)
    requires Checkout(items, catalog).Done?
    ensures var f := Checkout(items, catalog).final;
      && f.amount == Amount(f.lines)
      && f.residual == Without(items, TicketIds(f.lines))
      && f.catalog.Keys == catalog.Keys
      && (forall p :: p in catalog ==> f.catalog[p] == catalog[p].(stock := catalog[p].stock - Debited(f.lines, p)))
      && (StockNonNegative(catalog) ==> StockNonNegative(f.catalog))
      && (forall i :: 0 <= i < |f.lines| ==>
            f.lines[i].product in catalog && f.lines[i].price == catalog[f.lines[i].product].price)
      && IsSubseq(Bought(f.lines), items)
  {
    StartConsistent(items, catalog);
    assert [] + items == items;
    RunKeeps(items, [], items, catalog, Start(items, catalog));
  }

  /** The buy-or-skip rule of a completed checkout, in both directions: every
      ticket line's quantity fitted the stock its product had left when the
      line was reached, and every line still in the cart has a product in the
      catalog whose stock it exceeded (that stock being untouched). */
  lemma CheckoutSelects(items: seq<LineItem>, catalog: Catalog)
    requires Checkout(items, catalog).Done?
    ensures var f := Checkout(items, catalog).final;
      && WithinStock(catalog, f.lines)
      && (forall x :: x in f.residual ==>
            x.product in catalog && x.quantity > catalog[x.product].stock && f.catalog[x.product] == catalog[x.product])
  {
    StartConsistent(items, catalog);
    assert [] + items == items;
    assert BeyondStock([], catalog, []);
    RunKeeps(items, [], items, catalog, Start(items, catalog));
    RunSelects(items, [], items, catalog, Start(items, catalog));
    var f := Checkout(items, catalog).final;
    forall x | x in f.residual
      ensures x.product in catalog && x.quantity > catalog[x.product].stock && f.catalog[x.product] == catalog[x.product]
    {
      DebitedAbsent(f.lines, x.product);
    }
  }

  /** Folding over `a + b` folds over `a`, then over `b` from where `a` ended. */
  lemma {:induction false} RunAppend(a: seq<LineItem>, b: seq<LineItem>, st: State)
    requires Run(a, st).Done?
    ensures Run(a + b, st) == Run(b, Run(a, st).final)
    decreases |a|
  {
    if |a| == 0 {
      assert a + b == b;
    } else {
      assert (a + b)[0] == a[0] && (a + b)[1..] == a[1..] + b;
      RunAppend(a[1..], b, Step(st, a[0]));
    }
  }

  /** The buy-or-skip rule, line by line: checking out one more line appends a
      ticket line for it, at the catalog price, exactly when its quantity is at
      most its product's stock less what the ticket lines before it took, and
      appends nothing otherwise. A later duplicate of a bought product thus
      sees the stock already debited. */
  lemma CheckoutSnoc(items: seq<LineItem>, catalog: Catalog, i: nat)
    requires i < |items|
    requires forall j :: 0 <= j <= i ==> items[j].product in catalog
    ensures Checkout(items[..i], catalog).Done? && Checkout(items[..i + 1], catalog).Done?
    ensures var pre := Checkout(items[..i], catalog).final.lines;
      var x := items[i];
      Checkout(items[..i + 1], catalog).final.lines
      == pre + (if x.quantity <= catalog[x.product].stock - Debited(pre, x.product)
                then [TicketLine(x.product, catalog[x.product].price, x.quantity)] else [])
  {
    var st := Start(items[..i], catalog);
    var x := items[i];
    RunStopsAtFirstMissing(items[..i], st);
    assert FirstMissing(items[..i], catalog.Keys) == -1;
    CheckoutDone(items[..i], catalog);
    RunAppend(items[..i], [x], st);
    assert items[..i + 1] == items[..i] + [x];
    var f := Run(items[..i], st).final;
    assert [x][1..] == [];
    assert Run([x], f) == Done(Step(f, x));
    assert Start(items[..i + 1], catalog) == st.(residual := items[..i + 1]);
    RunIgnoresResidual(items[..i + 1], st, items[..i + 1]);
  }

  /** The fold leaves the accumulators untouched exactly when every remaining
      line's product exists and its quantity exceeds that product's stock. */
  lemma {:induction false} RunBuysNothingIff(rest: seq<LineItem>, st: State)
    ensures Run(rest, st) == Done(st) <==>
              forall i :: 0 <= i < |rest| ==>
                rest[i].product in st.catalog && rest[i].quantity > st.catalog[rest[i].product].stock
    decreases |rest|
  {
    if |rest| > 0 {
      var item := rest[0];
      assert forall i :: 1 <= i < |rest| ==> rest[i] == rest[1..][i - 1];
      if item.product in st.catalog {
        if item.quantity <= st.catalog[item.product].stock {
          assert |Reached(Run(rest, st)).lines| > |st.lines|;
        } else {
          RunBuysNothingIff(rest[1..], st);
        }
      }
    }
  }

  /** When no line can be bought the ticket is empty, the amount is 0, the cart
      is left as it was and the catalog is unchanged; and conversely, a checkout
      that ends in exactly that state found no line it could buy. */
  lemma CheckoutBuysNothingIff(items: seq<LineItem>, catalog: Catalog)
    ensures Checkout(items, catalog) == Done(State(items, [], 0, catalog)) <==>
              forall i :: 0 <= i < |items| ==>
                items[i].product in catalog && items[i].quantity > catalog[items[i].product].stock
  {
    RunBuysNothingIff(items, Start(items, catalog));
  }

  /** An empty ticket means nothing at all changed. */
  lemma EmptyTicketChangesNothing(items: seq<LineItem>, catalog: Catalog)
    requires Checkout(items, catalog).Done?
    requires Checkout(items, catalog).final.lines == []
    ensures Checkout(items, catalog) == Done(Start(items, catalog))
  {
    CheckoutDone(items, catalog);
    var f := Checkout(items, catalog).final;
    assert TicketIds([]) == {};
    WithoutAbsent(items, {});
    assert f.catalog == catalog;
  }

  /** Every cart line is either still in the residual or its product is on the
      ticket. A line can thus leave the cart without being bought: when an
      earlier line for the same product was bought and this one then exceeded
      the remaining stock. */
  lemma LineAccounted(items: seq<LineItem>, catalog: Catalog, x: LineItem)
    requires Checkout(items, catalog).Done?
    requires x in items
    ensures x in Checkout(items, catalog).final.residual || x.product in TicketIds(Checkout(items, catalog).final.lines)
  {
    CheckoutDone(items, catalog);
  }

  /** A one-line cart whose quantity is within stock is bought outright: the
      cart empties, the stock drops by the quantity, the ticket has one line. */
  lemma SingleLineBought(item: LineItem, catalog: Catalog)
    requires item.product in catalog && item.quantity <= catalog[item.product].stock
    ensures var p := catalog[item.product];
      Checkout([item], catalog)
      == Done(State([], [TicketLine(item.product, p.price, item.quantity)], p.price * item.quantity,
                    catalog[item.product := p.(stock := p.stock - item.quantity)]))
  {
    var st := Start([item], catalog);
    assert [item][1..] == [];
    assert Run([item], st) == Run([], Buy(st, item)) == Done(Buy(st, item));
    assert Without([item], {item.product}) == [];
    assert [] + [TicketLine(item.product, catalog[item.product].price, item.quantity)]
        == [TicketLine(item.product, catalog[item.product].price, item.quantity)];
  }

  /** Two lines for different products, the first beyond its stock and the
      second within: only the second is bought and only the first stays. */
  lemma PartialPurchase(a: LineItem, b: LineItem, catalog: Catalog)
    requires a.product != b.product
    requires a.product in catalog && a.quantity > catalog[a.product].stock
    requires b.product in catalog && b.quantity <= catalog[b.product].stock
    ensures var p := catalog[b.product];
      Checkout([a, b], catalog)
      == Done(State([a], [TicketLine(b.product, p.price, b.quantity)], p.price * b.quantity,
                    catalog[b.product := p.(stock := p.stock - b.quantity)]))
  {
    var st := Start([a, b], catalog);
    assert [a, b][1..] == [b];
    assert [b][1..] == [];
    assert Run([a, b], st) == Run([b], st) == Run([], Buy(st, b)) == Done(Buy(st, b));
    assert Without([b], {b.product}) == [];
    assert Without([a, b], {b.product}) == [a] + Without([b], {b.product}) == [a];
    assert [] + [TicketLine(b.product, catalog[b.product].price, b.quantity)]
        == [TicketLine(b.product, catalog[b.product].price, b.quantity)];
  }

  /** Two lines for the same product where the first fits the stock and the
      second no longer fits what is left: the first is bought, and the second
      leaves the cart too, although nothing of it was bought. */
  lemma DuplicateLineDropped(a1: LineItem, a2: LineItem, catalog: Catalog)
    requires a1.product == a2.product && a1.product in catalog
    requires a1.quantity <= catalog[a1.product].stock
    requires a2.quantity > catalog[a1.product].stock - a1.quantity
    ensures Checkout([a1, a2], catalog).Done?
    ensures Checkout([a1, a2], catalog).final.residual == []
    ensures Checkout([a1, a2], catalog).final.lines == [TicketLine(a1.product, catalog[a1.product].price, a1.quantity)]
  {
    var st := Start([a1, a2], catalog);
    var b := Buy(st, a1);
    assert [a1, a2][1..] == [a2];
    assert [a2][1..] == [];
    assert b.catalog[a1.product].stock == catalog[a1.product].stock - a1.quantity;
    assert Run([a1, a2], st) == Run([a2], b) == Run([], b) == Done(b);
    assert Without([a2], {a1.product}) == [];
    assert Without([a1, a2], {a1.product}) == Without([a2], {a1.product}) == [];
    assert [] + [TicketLine(a1.product, catalog[a1.product].price, a1.quantity)]
        == [TicketLine(a1.product, catalog[a1.product].price, a1.quantity)];
  }

  /** Two lines for the same product that both fit, the second fitting what
      the first left: both are bought, at the catalog price, and the stock
      drops by both quantities. */
  lemma DuplicateLinesBothBought(a1: LineItem, a2: LineItem, catalog: Catalog)
    requires a1.product == a2.product && a1.product in catalog
    requires a1.quantity <= catalog[a1.product].stock
    requires a2.quantity <= catalog[a1.product].stock - a1.quantity
    ensures Checkout([a1, a2], catalog).Done?
    ensures var p := catalog[a1.product];
      && Checkout([a1, a2], catalog).final.lines
         == [TicketLine(a1.product, p.price, a1.quantity), TicketLine(a2.product, p.price, a2.quantity)]
      && Checkout([a1, a2], catalog).final.catalog[a1.product].stock == p.stock - a1.quantity - a2.quantity
  {
    var st := Start([a1, a2], catalog);
    var b1 := Buy(st, a1);
    assert [a1, a2][1..] == [a2];
    assert [a2][1..] == [];
    assert b1.catalog[a1.product].stock == catalog[a1.product].stock - a1.quantity;
    assert Run([a1, a2], st) == Run([a2], b1) == Run([], Buy(b1, a2)) == Done(Buy(b1, a2));
  }

  // ---------------------------------------------------------------------------
  // The loop as the handler writes it

  /** The index loop of the purchase handler, returning early on a missing
      product; it computes exactly the fold. */
  method CheckoutLoop(items: seq<LineItem>, catalog: Catalog) returns (out: Outcome)
    ensures out == Checkout(items, catalog)
  {
    var residual := items;
    var lines: seq<TicketLine> := [];
    var amount := 0;
    var stock := catalog;
    var index := 0;
    while index < |items|
      invariant 0 <= index <= |items|
      invariant Run(items[index..], State(residual, lines, amount, stock)) == Checkout(items, catalog)
    {
      var item := items[index];
      assert items[index..][1..] == items[index + 1..];
      ghost var before := State(residual, lines, amount, stock);
      if item.product !in stock {
        return Aborted(item.product, State(residual, lines, amount, stock));
      }
      var p := stock[item.product];
      if item.quantity <= p.stock {
        stock := stock[item.product := p.(stock := p.stock - item.quantity)];
        residual := Without(residual, {item.product});
        amount := amount + p.price * item.quantity;
        lines := lines + [TicketLine(item.product, p.price, item.quantity)];
      }
      assert State(residual, lines, amount, stock) == Step(before, item);
      index := index + 1;
    }
    out := Done(State(residual, lines, amount, stock));
  }
}
