/**
 * The product page: the quantity stepper beside "add to cart", the star row
 * drawn for a rating (hundredths of a star), the related products and the
 * choice between the sale price and the list price.
 */
module ProductDetail {
  import opened Wrappers
  import opened Seqs
  import opened Schema
  import Storage

  // ---------------------------------------------------------------- quantity

  /** The quantity to add to the cart, kept between 1 and 10 by its two buttons. */
  class QuantityStepper {
    var quantity: int

    ghost predicate Valid()
      reads this
    {
      1 <= quantity <= 10
    }

    constructor ()
      ensures Valid() && quantity == 1
    {
      quantity := 1;
    }

    /** decreaseQuantity: one less, except at 1. */
    method Decrease()
      requires Valid()
      modifies this
      ensures Valid()
      ensures quantity == if old(quantity) > 1 then old(quantity) - 1 else old(quantity)
    {
      if quantity > 1 {
        quantity := quantity - 1;
      }
    }

    /** increaseQuantity: one more, except at 10. */
    method Increase()
      requires Valid()
      modifies this
      ensures Valid()
      ensures quantity == if old(quantity) < 10 then old(quantity) + 1 else old(quantity)
    {
      if quantity < 10 {
        quantity := quantity + 1;
      }
    }
  }

  // ---------------------------------------------------------------- stars

  datatype Star = Full | Half | Empty

  /** `Math.floor(rating / 100)`. */
  function FullStars(rating: int): int
  {
    rating / 100
  }

  /**
   * `(rating / 100) % 1 >= 0.5`: JavaScript's `%` keeps the sign of the
   * dividend, so a negative rating never has a half star.
   */
  predicate HasHalfStar(rating: int)
  {
    rating >= 0 && rating % 100 >= 50
  }

  /** `5 - fullStars - (hasHalfStar ? 1 : 0)`. */
  function EmptyStars(rating: int): int
  {
    5 - FullStars(rating) - (if HasHalfStar(rating) then 1 else 0)
  }

  function Repeat(s: Star, n: int): (r: seq<Star>)
    ensures |r| == if n < 0 then 0 else n
    ensures forall k :: 0 <= k < |r| ==> r[k] == s
  {
    if n <= 0 then [] else Repeat(s, n - 1) + [s]
  }

  /** The row `renderStars` draws: the full stars, a half star if any, then the empty ones; a negative count draws none. */
  function StarRow(rating: int): seq<Star>
  {
    Repeat(Full, FullStars(rating)) + (if HasHalfStar(rating) then [Half] else []) + Repeat(Empty, EmptyStars(rating))
  }

  /** renderStars: two counting loops around the optional half star. */
  method RenderStars(rating: int) returns (stars: seq<Star>)
    ensures stars == StarRow(rating)
  {
    stars := [];
    var fullStars := FullStars(rating);
    var hasHalfStar := HasHalfStar(rating);
    var i := 0;
    while i < fullStars
      invariant fullStars < 0 ==> i == 0
      invariant fullStars >= 0 ==> 0 <= i <= fullStars
      invariant stars == Repeat(Full, i)
    {
      stars := stars + [Full];
      i := i + 1;
    }
    if hasHalfStar {
      stars := stars + [Half];
    }
    ghost var front := stars;
    assert front == Repeat(Full, fullStars) + (if hasHalfStar then [Half] else []);
    var emptyStars := 5 - fullStars - (if hasHalfStar then 1 else 0);
    i := 0;
    while i < emptyStars
      invariant emptyStars < 0 ==> i == 0
      invariant emptyStars >= 0 ==> 0 <= i <= emptyStars
      invariant stars == front + Repeat(Empty, i)
    {
      stars := stars + [Empty];
      i := i + 1;
    }
  }

  function Count(row: seq<Star>, s: Star): (n: nat)
    ensures n <= |row|
  {
    if row == [] then 0 else Count(row[..|row| - 1], s) + (if row[|row| - 1] == s then 1 else 0)
  }

  lemma {:induction false} CountAppend(a: seq<Star>, b: seq<Star>, s: Star)
    ensures Count(a + b, s) == Count(a, s) + Count(b, s)
    decreases |b|
  {
    if b == [] {
      assert a + b == a;
    } else {
      assert (a + b)[..|a + b| - 1] == a + b[..|b| - 1];
      CountAppend(a, b[..|b| - 1], s);
    }
  }

  lemma {:induction false} CountRepeat(t: Star, n: nat, s: Star)
    ensures Count(Repeat(t, n), s) == if t == s then n else 0
    decreases n
  {
    if n > 0 {
      CountRepeat(t, n - 1, s);
      assert Repeat(t, n)[..n - 1] == Repeat(t, n - 1);
    }
  }

  /**
   * For a rating between 0 and 500 the row has exactly five stars: `rating / 100`
   * full ones, a half one exactly when the remainder is at least 50, and the
   * rest empty.
   */
  lemma FiveStars(rating: int)
    requires 0 <= rating <= 500
    ensures |StarRow(rating)| == 5
    ensures Count(StarRow(rating), Full) == rating / 100
    ensures Count(StarRow(rating), Half) == (if rating % 100 >= 50 then 1 else 0)
    ensures Count(StarRow(rating), Empty) == 5 - rating / 100 - (if rating % 100 >= 50 then 1 else 0)
  {
    var full, half, empty := Repeat(Full, FullStars(rating)), (if HasHalfStar(rating) then [Half] else []), Repeat(Empty, EmptyStars(rating));
    assert StarRow(rating) == full + half + empty;
    forall s: Star ensures Count(StarRow(rating), s) == Count(full, s) + Count(half, s) + Count(empty, s) {
      CountAppend(full + half, empty, s);
      CountAppend(full, half, s);
    }
    forall s: Star ensures Count(half, s) == if HasHalfStar(rating) && s == Half then 1 else 0 {
      if HasHalfStar(rating) {
        assert half[..0] == [];
      }
    }
    forall s: Star ensures Count(full, s) == (if s == Full then FullStars(rating) else 0) && Count(empty, s) == (if s == Empty then EmptyStars(rating) else 0) {
      CountRepeat(Full, FullStars(rating), s);
      CountRepeat(Empty, EmptyStars(rating), s);
    }
  }

  /** The stars drawn round the rating down to the nearest half star: never above it, and less than half a star below. */
  lemma StarsRoundDown(rating: int)
    requires 0 <= rating <= 500
    ensures var drawn := 100 * Count(StarRow(rating), Full) + 50 * Count(StarRow(rating), Half);
      drawn <= rating < drawn + 50
  {
    FiveStars(rating);
  }

  // ---------------------------------------------------------------- related products

  function OtherThan(productId: int): Product -> bool
  {
    (p: Product) => p.id != productId
  }

  /** A candidate related product: another product, of the same category when the category id is non-zero. */
  function Related(current: Product, productId: int): Product -> bool
  {
    (p: Product) => p.id != productId && (Given(Some(current.categoryId)) ==> p.categoryId == current.categoryId)
  }

  /**
   * The related products: nothing until the product is loaded; then the store's
   * products of its category (a category id of 0 selects all), without the
   * product itself, the first four.
   */
  function RelatedProducts(store: Storage.MemStorage, product: Option<Product>, productId: int): (r: seq<Product>)
    reads store
    ensures product.None? ==> r == []
    ensures |r| <= 4
    ensures IsSubseq(r, store.products)
    ensures forall p | p in r :: p.id != productId
    ensures product.Some? && Given(Some(product.value.categoryId)) ==>
      forall p | p in r :: p.categoryId == product.value.categoryId
    ensures product.Some? ==> forall p |
      && p in store.products
      && p.id != productId
      && (Given(Some(product.value.categoryId)) ==> p.categoryId == product.value.categoryId)
      :: p in r || |r| == 4
    ensures product.Some? ==>
      var candidates := Filter(store.products, Related(product.value, productId));
      r == candidates[..if |candidates| <= 4 then |candidates| else 4]
  {
    match product
    case None => []
    case Some(current) =>
      var inCategory := store.GetProducts(Some(current.categoryId), None);
      var others := Filter(inCategory, OtherThan(productId));
      CandidatesInStoreOrder(store, current, productId);
      var r := others[..if |others| <= 4 then |others| else 4];
      SubseqTrans(others, inCategory, store.products);
      PrefixIsSubseq(others, |r|);
      SubseqTrans(r, others, store.products);
      r
  }

  /** The candidates, filtered in two passes, are the store's related products in store order. */
  lemma CandidatesInStoreOrder(store: Storage.MemStorage, current: Product, productId: int)
    ensures Filter(store.GetProducts(Some(current.categoryId), None), OtherThan(productId))
         == Filter(store.products, Related(current, productId))
  {
    if Given(Some(current.categoryId)) {
      FilterFilter(store.products, Storage.InCategory(current.categoryId), OtherThan(productId), Related(current, productId));
    } else {
      FilterExt(store.products, OtherThan(productId), Related(current, productId));
    }
  }

  lemma {:induction false} PrefixIsSubseq<T>(s: seq<T>, n: nat)
    requires n <= |s|
    ensures IsSubseq(s[..n], s)
    decreases n
  {
    if n > 0 {
      assert s[..n][1..] == s[1..][..n - 1];
      PrefixIsSubseq(s[1..], n - 1);
    } else {
      assert s[..n] == [];
    }
  }

  // ---------------------------------------------------------------- price display

  /** `isOnSale && salePrice`: the sale price is shown only for a product on sale with a non-zero sale price. */
  predicate ShowsSalePrice(p: Product)
  {
    p.isOnSale && Given(p.salePrice)
  }

  /** The price printed in bold: the sale price when it is shown, else the list price. */
  function DisplayedPrice(p: Product): (r: int)
    ensures r == p.price || (p.salePrice.Some? && r == p.salePrice.value)
  {
    if ShowsSalePrice(p) then p.salePrice.value else p.price
  }

  /**
   * The price shown agrees with the price the cart charges except for a product
   * with a non-zero sale price that is not flagged on sale: the page then shows
   * the list price while the cart charges the sale price.
   */
  lemma DisplayedVersusCharged(p: Product)
    ensures DisplayedPrice(p) == ChargedPrice(p.salePrice, p.price) <==>
      (p.isOnSale || !Given(p.salePrice) || p.salePrice.value == p.price)
  {
  }
}
