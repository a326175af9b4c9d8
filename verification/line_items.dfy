/**
 The pure line-item logic of the cart handlers: add-or-increment, remove,
 set-quantity and replace-all, each a transformation of a cart's
 sequence of line items that either yields the new sequence or an error.
 Looking the cart and the product up, and writing the result back, is the
 handlers' business (module CartController).
 */
module LineItems {
  import opened CartTypes
  import opened Sequences

  /** The position of the first entry for `pid`, or -1 when there is none
      (JavaScript's `findIndex`). */
  function FindIndex(items: seq<LineItem>, pid: ProductId): (r: int)
    ensures -1 <= r < |items|
    ensures r == -1 <==> pid !in Products(items)
    ensures 0 <= r ==> items[r].product == pid
    ensures forall j :: 0 <= j < r ==> items[j].product != pid
  {
    if |items| == 0 then -1
    else if items[0].product == pid then 0
    else
      var k := FindIndex(items[1..], pid);
      assert items == [items[0]] + items[1..];
      assert Products(items) == {items[0].product} + Products(items[1..]);
      if k == -1 then -1
      else k + 1
  }

  /** The entries whose product is not in `ids`, in their original order (the
      `filter` on product id used by remove and by checkout). */
  function Without(items: seq<LineItem>, ids: set<ProductId>): (r: seq<LineItem>)
    ensures |r| <= |items|
    ensures forall x :: x in r <==> x in items && x.product !in ids
    ensures IsSubseq(r, items)
  {
    if |items| == 0 then []
    else
      var rest := Without(items[1..], ids);
      assert forall x :: x in items <==> x == items[0] || x in items[1..];
      if items[0].product in ids then
        assert |rest| > 0 ==> rest[0] in rest;
        rest
      else
        assert ([items[0]] + rest)[1..] == rest;
        [items[0]] + rest
  }

  /** Filtering keeps every entry it keeps as often as the input holds it:
      duplicate entries survive. */
  lemma {:induction false} WithoutCounts(items: seq<LineItem>, ids: set<ProductId>)
    ensures forall y :: multiset(Without(items, ids))[y] == if y.product in ids then 0 else multiset(items)[y]
  {
    if |items| > 0 {
      WithoutCounts(items[1..], ids);
      assert items == [items[0]] + items[1..];
      if items[0].product !in ids {
        assert Without(items, ids) == [items[0]] + Without(items[1..], ids);
      }
    }
  }

  /** Filtering is applied entry by entry, so it distributes over concatenation. */
  lemma {:induction false} WithoutAppend(a: seq<LineItem>, b: seq<LineItem>, ids: set<ProductId>)
    ensures Without(a + b, ids) == Without(a, ids) + Without(b, ids)
    decreases |a|
  {
    if |a| == 0 {
      assert a + b == b;
    } else {
      assert (a + b)[0] == a[0] && (a + b)[1..] == a[1..] + b;
      WithoutAppend(a[1..], b, ids);
    }
  }

  /** Filtering by `A` and then by `B` is filtering by `A + B`. */
  lemma {:induction false} WithoutTwice(items: seq<LineItem>, A: set<ProductId>, B: set<ProductId>)
    ensures Without(Without(items, A), B) == Without(items, A + B)
    decreases |items|
  {
    if |items| > 0 {
      WithoutTwice(items[1..], A, B);
      if items[0].product !in A {
        assert ([items[0]] + Without(items[1..], A))[1..] == Without(items[1..], A);
      }
    }
  }

  /** Filtering out ids the cart does not reference changes nothing. */
  lemma {:induction false} WithoutAbsent(items: seq<LineItem>, ids: set<ProductId>)
    requires Products(items) !! ids
    ensures Without(items, ids) == items
    decreases |items|
  {
    if |items| > 0 {
      assert items[0] in items;
      assert Products(items[1..]) <= Products(items) by {
        forall p | p in Products(items[1..]) ensures p in Products(items) {
          var x :| x in items[1..] && x.product == p;
          assert x in items;
        }
      }
      WithoutAbsent(items[1..], ids);
      assert [items[0]] + items[1..] == items;
    }
  }

  /** The quantities of an entry replaced at position `k` are the only ones that move. */
  lemma {:induction false} QtyOfUpdate(items: seq<LineItem>, k: nat, x: LineItem, pid: ProductId)
    requires k < |items|
    ensures QtyOf(items[k := x], pid)
         == QtyOf(items, pid)
          - (if items[k].product == pid then items[k].quantity else 0)
          + (if x.product == pid then x.quantity else 0)
    decreases |items|
  {
    if k > 0 {
      assert items[k := x][1..] == items[1..][k - 1 := x];
      QtyOfUpdate(items[1..], k - 1, x, pid);
    } else {
      assert items[k := x][1..] == items[1..];
    }
  }

  lemma {:induction false} QtyOfAppend(a: seq<LineItem>, b: seq<LineItem>, pid: ProductId)
    ensures QtyOf(a + b, pid) == QtyOf(a, pid) + QtyOf(b, pid)
    decreases |a|
  {
    if |a| == 0 {
      assert a + b == b;
    } else {
      assert (a + b)[0] == a[0] && (a + b)[1..] == a[1..] + b;
      QtyOfAppend(a[1..], b, pid);
    }
  }

  // ---------------------------------------------------------------------------
  // Add to cart

  /** Adds one unit of `pid` (whose catalog record is `product`) for the user
      `actor`: a user may not buy their own product; otherwise the first entry
      for `pid` gains one unit, or an entry of one unit is appended. */
  function AddOrIncrement(items: seq<LineItem>, pid: ProductId, product: Product, actor: UserId): (r: Result<seq<LineItem>>)
    ensures r.Err? <==> product.owner == actor
    ensures r.Err? ==> r.error == OwnProduct
    ensures r.Ok? && pid !in Products(items) ==> r.value == items + [LineItem(pid, 1)]
    ensures r.Ok? && pid in Products(items) ==>
              |r.value| == |items|
              && (forall j :: 0 <= j < |items| && j != FindIndex(items, pid) ==> r.value[j] == items[j])
              && r.value[FindIndex(items, pid)] == LineItem(pid, items[FindIndex(items, pid)].quantity + 1)
  {
    if product.owner == actor then Err(OwnProduct)
    else
      var k := FindIndex(items, pid);
      if k > -1 then Ok(items[k := LineItem(pid, items[k].quantity + 1)])
      else Ok(items + [LineItem(pid, 1)])
  }

  /** A successful add raises the quantity held of `pid` by exactly one,
      leaves every other product's quantity alone, and makes `pid` referenced. */
  lemma AddOrIncrementCounts(items: seq<LineItem>, pid: ProductId, product: Product, actor: UserId, other: ProductId)
    requires product.owner != actor
    ensures AddOrIncrement(items, pid, product, actor).Ok?
    ensures QtyOf(AddOrIncrement(items, pid, product, actor).value, pid) == QtyOf(items, pid) + 1
    ensures other != pid ==> QtyOf(AddOrIncrement(items, pid, product, actor).value, other) == QtyOf(items, other)
    ensures Products(AddOrIncrement(items, pid, product, actor).value) == Products(items) + {pid}
  {
    var r := AddOrIncrement(items, pid, product, actor).value;
    var k := FindIndex(items, pid);
    if k > -1 {
      QtyOfUpdate(items, k, LineItem(pid, items[k].quantity + 1), pid);
      QtyOfUpdate(items, k, LineItem(pid, items[k].quantity + 1), other);
      assert forall x :: x in r ==> x in items || x == r[k];
      assert forall x :: x in items ==> x in r || x == items[k];
      assert items[k] in items && r[k] in r;
    } else {
      QtyOfAppend(items, [LineItem(pid, 1)], pid);
      QtyOfAppend(items, [LineItem(pid, 1)], other);
      assert r[|items|] in r;
    }
  }

  /** Adding a product the cart did not hold and then removing it gives back the cart. */
  lemma AddThenRemove(items: seq<LineItem>, pid: ProductId, product: Product, actor: UserId)
    requires product.owner != actor
    requires pid !in Products(items)
    ensures Remove(AddOrIncrement(items, pid, product, actor).value, pid) == Ok(items)
  {
    var r := items + [LineItem(pid, 1)];
    assert r[|items|] in r;
    WithoutAppend(items, [LineItem(pid, 1)], {pid});
    assert [LineItem(pid, 1)][1..] == [];
    assert Without([LineItem(pid, 1)], {pid}) == [];
    assert items + [] == items;
    WithoutAbsent(items, {pid});
  }

  // ---------------------------------------------------------------------------
  // Remove from cart

  /** Removes every entry for `pid`; fails when the cart holds none. */
  function Remove(items: seq<LineItem>, pid: ProductId): (r: Result<seq<LineItem>>)
    ensures r.Err? <==> pid !in Products(items)
    ensures r.Err? ==> r.error == NotInCart(pid)
    ensures r.Ok? ==> forall x :: x in r.value <==> x in items && x.product != pid
    ensures r.Ok? ==> Products(r.value) == Products(items) - {pid}
    ensures r.Ok? ==> IsSubseq(r.value, items)
    ensures r.Ok? ==> forall y :: multiset(r.value)[y] == if y.product == pid then 0 else multiset(items)[y]
  {
    if FindIndex(items, pid) == -1 then Err(NotInCart(pid))
    else
      var rest := Without(items, {pid});
      WithoutCounts(items, {pid});
      assert forall p :: p in Products(rest) <==> p in Products(items) && p != pid by {
        forall p ensures p in Products(rest) <==> p in Products(items) && p != pid {
          if p in Products(items) && p != pid {
            var x :| x in items && x.product == p;
            assert x in rest;
          }
        }
      }
      Ok(rest)
  }

  /** After a successful remove the product is gone, so a second remove fails,
      and the quantities of the other products are what they were. */
  lemma RemoveTwice(items: seq<LineItem>, pid: ProductId, other: ProductId)
    requires Remove(items, pid).Ok?
    ensures Remove(Remove(items, pid).value, pid) == Err(NotInCart(pid))
    ensures other != pid ==> QtyOf(Remove(items, pid).value, other) == QtyOf(items, other)
  {
    if other != pid {
      WithoutKeepsOtherQty(items, {pid}, other);
    }
  }

  lemma {:induction false} WithoutKeepsOtherQty(items: seq<LineItem>, ids: set<ProductId>, other: ProductId)
    requires other !in ids
    ensures QtyOf(Without(items, ids), other) == QtyOf(items, other)
    decreases |items|
  {
    if |items| > 0 {
      WithoutKeepsOtherQty(items[1..], ids, other);
      if items[0].product !in ids {
        assert ([items[0]] + Without(items[1..], ids))[1..] == Without(items[1..], ids);
      }
    }
  }

  // ---------------------------------------------------------------------------
  // Set the quantity of one entry

  /** The checks on the `quantity` of a request body, in the handler's order:
      falsy, then not a number, then zero. Since `0` is falsy, a zero quantity
      is reported as a missing field. */
  function CheckQuantity(q: JsValue): (r: Result<int>)
    ensures r.Ok? <==> q.Num? && q.n != 0
    ensures r.Ok? ==> r.value == q.n
    ensures q == Num(0) ==> r == Err(FieldMissing("quantity"))
    ensures !Truthy(q) ==> r == Err(FieldMissing("quantity"))
    ensures Truthy(q) && !q.Num? ==> r == Err(NotANumber)
  {
    if !Truthy(q) then Err(FieldMissing("quantity"))
    else if !q.Num? then Err(NotANumber)
    else if q.n == 0 then Err(ZeroQuantity)
    else Ok(q.n)
  }

  /** Sets the quantity of the first entry for `pid`; any other entry, later
      duplicates of `pid` included, keeps its quantity. */
  function SetQuantity(items: seq<LineItem>, pid: ProductId, q: JsValue): (r: Result<seq<LineItem>>)
    ensures r.Ok? <==> q.Num? && q.n != 0 && pid in Products(items)
    ensures CheckQuantity(q).Err? ==> r == Err(CheckQuantity(q).error)
    ensures CheckQuantity(q).Ok? && pid !in Products(items) ==> r == Err(NotInCart(pid))
    ensures r.Ok? ==>
              |r.value| == |items|
              && (forall j :: 0 <= j < |items| && j != FindIndex(items, pid) ==> r.value[j] == items[j])
              && r.value[FindIndex(items, pid)] == LineItem(pid, q.n)
  {
    match CheckQuantity(q)
    case Err(e) => Err(e)
    case Ok(n) =>
      var k := FindIndex(items, pid);
      if k == -1 then Err(NotInCart(pid))
      else Ok(items[k := items[k].(quantity := n)])
  }

  /** Setting a quantity twice is setting it once; the set of referenced
      products is unchanged; the total of `pid` moves by the change of its
      first entry only. */
  lemma SetQuantityFacts(items: seq<LineItem>, pid: ProductId, q: JsValue, other: ProductId)
    requires SetQuantity(items, pid, q).Ok?
    ensures SetQuantity(SetQuantity(items, pid, q).value, pid, q) == SetQuantity(items, pid, q)
    ensures Products(SetQuantity(items, pid, q).value) == Products(items)
    ensures QtyOf(SetQuantity(items, pid, q).value, pid)
         == QtyOf(items, pid) - items[FindIndex(items, pid)].quantity + q.n
    ensures other != pid ==> QtyOf(SetQuantity(items, pid, q).value, other) == QtyOf(items, other)
  {
    var k := FindIndex(items, pid);
    var r := SetQuantity(items, pid, q).value;
    assert forall x :: x in r ==> x in items || x == r[k];
    assert forall x :: x in items ==> x in r || x == items[k];
    assert items[k] in items && r[k] in r;
    assert Products(r) == Products(items);
    assert FindIndex(r, pid) == k;
    assert r[k := r[k].(quantity := q.n)] == r;
    QtyOfUpdate(items, k, LineItem(pid, q.n), pid);
    QtyOfUpdate(items, k, LineItem(pid, q.n), other);
  }

  // ---------------------------------------------------------------------------
  // Replace all entries

  /** One entry of the `products` array of a replace-all request; a `None`
      product is an entry without a `product` property. */
  datatype Candidate = Candidate(product: Option<ProductId>, quantity: JsValue)

  /** The checks the replace-all handler makes on one entry, in its order:
      both properties present, quantity a number, quantity not zero, product
      in the catalog. `None` means the entry passes. */
  function EntryError(c: Candidate, catalog: Catalog): (r: Option<Error>)
    ensures r.None? <==> c.product.Some? && c.quantity.Num? && c.quantity.n != 0 && c.product.value in catalog
    ensures c.product.None? || c.quantity.Undefined? ==> r == Some(EntryIncomplete)
    ensures c.product.Some? && !c.quantity.Undefined? && !c.quantity.Num? ==> r == Some(NotANumber)
    ensures c.product.Some? && c.quantity == Num(0) ==> r == Some(ZeroQuantity)
    ensures c.product.Some? && c.quantity.Num? && c.quantity.n != 0 ==>
              (r == Some(UnknownProduct(c.product.value)) <==> c.product.value !in catalog)
  {
    if c.product.None? || c.quantity.Undefined? then Some(EntryIncomplete)
    else if !c.quantity.Num? then Some(NotANumber)
    else if c.quantity.n == 0 then Some(ZeroQuantity)
    else if c.product.value !in catalog then Some(UnknownProduct(c.product.value))
    else None
  }

  /** The error of the first entry that fails, if any. */
  function FirstEntryError(cs: seq<Candidate>, catalog: Catalog): (r: Option<Error>)
    ensures r.None? <==> forall i :: 0 <= i < |cs| ==> EntryError(cs[i], catalog).None?
    ensures r.Some? ==> exists i :: 0 <= i < |cs| && EntryError(cs[i], catalog) == r
                          && forall j :: 0 <= j < i ==> EntryError(cs[j], catalog).None?
    decreases |cs|
  {
    if |cs| == 0 then None
    else if EntryError(cs[0], catalog).Some? then EntryError(cs[0], catalog)
    else
      var r := FirstEntryError(cs[1..], catalog);
      assert forall i :: 1 <= i < |cs| ==> cs[i] == cs[1..][i - 1];
      r
  }

  /** Replaces the cart's entries by the submitted list, verbatim: no merging of
      duplicates, negative quantities kept. The list itself must be present and
      every entry must pass `EntryError`; the first failing entry is reported. */
  function ReplaceAll(products: Option<seq<Candidate>>, catalog: Catalog): (r: Result<seq<LineItem>>)
    ensures products.None? ==> r == Err(FieldMissing("products"))
    ensures r.Ok? <==> products.Some? && forall i :: 0 <= i < |products.value| ==> EntryError(products.value[i], catalog).None?
    ensures r.Ok? ==> |r.value| == |products.value|
                      && forall i :: 0 <= i < |r.value| ==>
                           r.value[i] == LineItem(products.value[i].product.value, products.value[i].quantity.n)
    ensures r.Err? && products.Some? ==>
              exists i :: 0 <= i < |products.value| && EntryError(products.value[i], catalog) == Some(r.error)
                          && forall j :: 0 <= j < i ==> EntryError(products.value[j], catalog).None?
  {
    if products.None? then Err(FieldMissing("products"))
    else
      var cs := products.value;
      match FirstEntryError(cs, catalog)
      case Some(e) => Err(e)
      case None =>
        Ok(seq(|cs|, i requires 0 <= i < |cs| => LineItem(cs[i].product.value, cs[i].quantity.n)))
  }

  /** A cart read back as a replace-all request. */
  function AsCandidates(items: seq<LineItem>): seq<Candidate> {
    seq(|items|, i requires 0 <= i < |items| => Candidate(Some(items[i].product), Num(items[i].quantity)))
  }

  /** Submitting the cart a successful replace-all produced gives that cart again. */
  lemma ReplaceAllResubmit(products: Option<seq<Candidate>>, catalog: Catalog)
    requires ReplaceAll(products, catalog).Ok?
    ensures ReplaceAll(Some(AsCandidates(ReplaceAll(products, catalog).value)), catalog) == ReplaceAll(products, catalog)
  {
    var items := ReplaceAll(products, catalog).value;
    var cs := AsCandidates(items);
    forall i | 0 <= i < |cs| ensures EntryError(cs[i], catalog).None? {
      assert EntryError(products.value[i], catalog).None?;
    }
    var r := ReplaceAll(Some(cs), catalog);
    assert r.Ok? && |r.value| == |items|;
    assert forall i :: 0 <= i < |items| ==> r.value[i] == items[i];
    assert r.value == items;
  }
}
