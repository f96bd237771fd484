/**
 * The client's cart context: the cart rows the server last returned for the
 * signed-in user, the badge count and the subtotal derived from them, and the
 * state changes of signing in or out, adding an item, changing a quantity,
 * removing an item and emptying the cart. Server calls are atomic here: their
 * outcome (success or failure, and the rows `getCart` returns) is a parameter.
 */
module CartContext {
  import opened Wrappers
  import opened Schema

  /** The product summary the server joins onto a cart row; prices in cents. */
  datatype ProductInfo = ProductInfo(id: int, name: string, price: int, salePrice: Option<int>)

  /** A cart row as the client holds it; `product` is absent when the server found none. */
  datatype CartLine = CartLine(id: int, userId: int, productId: int, quantity: int, product: Option<ProductInfo>)

  /** `cartCount`: the quantities summed, left to right. */
  function CartCount(items: seq<CartLine>): int
  {
    if items == [] then 0 else CartCount(items[..|items| - 1]) + items[|items| - 1].quantity
  }

  /** What one row adds to the subtotal: nothing without a product, else `(salePrice || price) * quantity`. */
  function LineTotal(item: CartLine): int
  {
    match item.product
    case None => 0
    case Some(p) => ChargedPrice(p.salePrice, p.price) * item.quantity
  }

  /** `cartTotal`: the line totals summed, left to right. */
  function CartTotal(items: seq<CartLine>): int
  {
    if items == [] then 0 else CartTotal(items[..|items| - 1]) + LineTotal(items[|items| - 1])
  }

  /** The count of two carts laid end to end is the sum of their counts. */
  lemma {:induction false} CountAppend(a: seq<CartLine>, b: seq<CartLine>)
    ensures CartCount(a + b) == CartCount(a) + CartCount(b)
    decreases |b|
  {
    if b == [] {
      assert a + b == a;
    } else {
      var init := b[..|b| - 1];
      assert (a + b)[..|a + b| - 1] == a + init;
      CountAppend(a, init);
    }
  }

  /** The subtotal of two carts laid end to end is the sum of their subtotals. */
  lemma {:induction false} TotalAppend(a: seq<CartLine>, b: seq<CartLine>)
    ensures CartTotal(a + b) == CartTotal(a) + CartTotal(b)
    decreases |b|
  {
    if b == [] {
      assert a + b == a;
    } else {
      var init := b[..|b| - 1];
      assert (a + b)[..|a + b| - 1] == a + init;
      TotalAppend(a, init);
    }
  }

  /** A row without a product still counts its quantity but adds nothing to the subtotal. */
  lemma RowWithoutProduct(a: seq<CartLine>, x: CartLine, b: seq<CartLine>)
    requires x.product.None?
    ensures CartCount(a + [x] + b) == CartCount(a + b) + x.quantity
    ensures CartTotal(a + [x] + b) == CartTotal(a + b)
  {
    CountAppend(a + [x], b);
    CountAppend(a, b);
    TotalAppend(a + [x], b);
    TotalAppend(a, b);
    assert (a + [x])[..|a + [x]| - 1] == a;
  }

  /**
   * A sale price that is absent or 0 falls back to the list price, otherwise
   * the sale price is what each unit costs.
   */
  lemma LineTotalPrice(item: CartLine)
    requires item.product.Some?
    ensures var p := item.product.value;
      LineTotal(item) == (if p.salePrice.None? || p.salePrice.value == 0 then p.price else p.salePrice.value) * item.quantity
  {
  }

  /** With non-negative quantities the count is non-negative, and with non-negative prices too, so is the subtotal. */
  lemma {:induction false} NonNegative(items: seq<CartLine>)
    requires forall x | x in items :: x.quantity >= 0
    requires forall x | x in items && x.product.Some? ::
      x.product.value.price >= 0 && (x.product.value.salePrice.Some? ==> x.product.value.salePrice.value >= 0)
    ensures CartCount(items) >= 0
    ensures CartTotal(items) >= 0
    decreases |items|
  {
    if items != [] {
      var init := items[..|items| - 1];
      assert forall x | x in init :: x in items;
      NonNegative(init);
      assert items[|items| - 1] in items;
    }
  }

  /** The cart as the provider holds it: who is signed in, the rows, and whether a request is in flight. */
  class CartState {
    var user: Option<int>
    var cartItems: seq<CartLine>
    var isLoading: bool

    /** Mounted for `user`: no rows and nothing loading. */
    constructor (user: Option<int>)
      ensures this.user == user && cartItems == [] && !isLoading
    {
      this.user := user;
      cartItems := [];
      isLoading := false;
    }

    /**
     * refreshCart: with no user, nothing; otherwise the rows `getCart` returned,
     * or the old rows when it failed (`fetched` is None), and loading ends.
     */
    method RefreshCart(fetched: Option<seq<CartLine>>)
      modifies this`cartItems, this`isLoading
      ensures user.None? ==> cartItems == old(cartItems) && isLoading == old(isLoading)
      ensures user.Some? ==> cartItems == (if fetched.Some? then fetched.value else old(cartItems)) && !isLoading
    {
      if user.None? {
        return;
      }
      isLoading := true;
      if fetched.Some? {
        cartItems := fetched.value;
      }
      isLoading := false;
    }

    /** The effect on a change of user: a signed-in user's rows are fetched, signing out empties the cart. */
    method UserChanged(newUser: Option<int>, fetched: Option<seq<CartLine>>)
      modifies this
      ensures user == newUser
      ensures newUser.None? ==> cartItems == [] && isLoading == old(isLoading)
      ensures newUser.Some? ==> cartItems == (if fetched.Some? then fetched.value else old(cartItems)) && !isLoading
    {
      user := newUser;
      if newUser.None? {
        cartItems := [];
      } else {
        RefreshCart(fetched);
      }
    }

    /**
     * addItem: with no user, only a toast; otherwise the server call and, when
     * it succeeds (`added`), a refresh with the rows `fetched`.
     */
    method AddItem(productId: int, quantity: int, added: bool, fetched: Option<seq<CartLine>>)
      modifies this`cartItems, this`isLoading
      ensures user.None? ==> cartItems == old(cartItems) && isLoading == old(isLoading)
      ensures user.Some? ==> !isLoading
      ensures user.Some? ==> cartItems == (if added && fetched.Some? then fetched.value else old(cartItems))
    {
      if user.None? {
        return;
      }
      isLoading := true;
      if added {
        RefreshCart(fetched);
      }
      isLoading := false;
    }

    /** updateQuantity: the server call, then on success a refresh (itself a no-op with no user). */
    method UpdateQuantity(itemId: int, quantity: int, updated: bool, fetched: Option<seq<CartLine>>)
      modifies this`cartItems, this`isLoading
      ensures !isLoading
      ensures cartItems == (if updated && user.Some? && fetched.Some? then fetched.value else old(cartItems))
    {
      isLoading := true;
      if updated {
        RefreshCart(fetched);
      }
      isLoading := false;
    }

    /** removeItem: the server call, then on success a refresh (itself a no-op with no user). */
    method RemoveItem(itemId: int, removed: bool, fetched: Option<seq<CartLine>>)
      modifies this`cartItems, this`isLoading
      ensures !isLoading
      ensures cartItems == (if removed && user.Some? && fetched.Some? then fetched.value else old(cartItems))
    {
      isLoading := true;
      if removed {
        RefreshCart(fetched);
      }
      isLoading := false;
    }

    /** clearAllItems: with no user, nothing; otherwise, when the server call succeeds, no rows at all. */
    method ClearAllItems(cleared: bool)
      modifies this`cartItems, this`isLoading
      ensures user.None? ==> cartItems == old(cartItems) && isLoading == old(isLoading)
      ensures user.Some? ==> !isLoading && cartItems == (if cleared then [] else old(cartItems))
      ensures user.Some? && cleared ==> CartCount(cartItems) == 0 && CartTotal(cartItems) == 0
    {
      if user.None? {
        return;
      }
      isLoading := true;
      if cleared {
        cartItems := [];
      }
      isLoading := false;
    }
  }
}
