/**
 * The catalogue page: the products fetched for the current search or for the
 * chosen category and vehicle model, the client-side price, stock and sale
 * filters, and the five sort orders.
 */
module ProductsPage {
  import opened Wrappers
  import opened Seqs
  import opened Schema
  import opened Sorting
  import Storage

  // ---------------------------------------------------------------- search

  /** `toLowerCase` on one character, for the ASCII letters only. */
  function LowerChar(c: char): (r: char)
    ensures 'A' <= c <= 'Z' ==> r as int == c as int + 32
    ensures !('A' <= c <= 'Z') ==> r == c
    ensures !('A' <= r <= 'Z')
  {
    if 'A' <= c <= 'Z' then (c as int + 32) as char else c
  }

  /** `toLowerCase` on a string, character by character. */
  function Lower(s: string): (r: string)
    ensures |r| == |s|
    ensures forall i :: 0 <= i < |s| ==> r[i] == LowerChar(s[i])
  {
    if s == [] then [] else [LowerChar(s[0])] + Lower(s[1..])
  }

  /** Lowering twice is lowering once. */
  lemma LowerIdempotent(s: string)
    ensures Lower(Lower(s)) == Lower(s)
  {
    assert forall i :: 0 <= i < |s| ==> Lower(Lower(s))[i] == Lower(s)[i];
  }

  /** `needle` occurs in `hay` starting at position `i`. */
  predicate OccursAt(hay: string, needle: string, i: nat)
  {
    i + |needle| <= |hay| && hay[i..i + |needle|] == needle
  }

  /** `hay.includes(needle)`: the needle occurs at some position; the empty needle occurs everywhere. */
  function Includes(hay: string, needle: string): (r: bool)
    ensures r <==> exists i: nat :: OccursAt(hay, needle, i)
    decreases |hay|
  {
    if |needle| > |hay| then false
    else if hay[..|needle|] == needle then
      assert OccursAt(hay, needle, 0);
      true
    else
      IncludesShift(hay, needle);
      Includes(hay[1..], needle)
  }

  /** When the needle is not at the front, its occurrences in `hay` are those in `hay[1..]`, one position later. */
  lemma IncludesShift(hay: string, needle: string)
    requires |needle| <= |hay| && hay[..|needle|] != needle
    ensures (exists i: nat :: OccursAt(hay, needle, i)) <==> (exists i: nat :: OccursAt(hay[1..], needle, i))
  {
    if i: nat :| OccursAt(hay, needle, i) {
      assert i != 0;
      assert hay[1..][i - 1..i - 1 + |needle|] == hay[i..i + |needle|];
      assert OccursAt(hay[1..], needle, i - 1);
    }
    if i: nat :| OccursAt(hay[1..], needle, i) {
      assert hay[i + 1..i + 1 + |needle|] == hay[1..][i..i + |needle|];
      assert OccursAt(hay, needle, i + 1);
    }
  }

  /** A product matches a search when its name or its description includes the query, ignoring ASCII case. */
  predicate MatchesSearch(p: Product, query: string)
  {
    Includes(Lower(p.name), Lower(query)) || Includes(Lower(p.description), Lower(query))
  }

  /** The match ignores the case of the query. */
  lemma MatchIgnoresQueryCase(p: Product, query: string)
    ensures MatchesSearch(p, query) == MatchesSearch(p, Lower(query))
  {
    LowerIdempotent(query);
  }

  function Searched(query: string): Product -> bool
  {
    (p: Product) => MatchesSearch(p, query)
  }

  /**
   * The page's `queryFn`: with a non-empty search, every product whose name or
   * description includes it; otherwise the store's products for the chosen
   * category and model (an unset choice, or 0, filters nothing).
   */
  function FetchProducts(store: Storage.MemStorage, query: string, category: Option<int>, model: Option<int>): (r: seq<Product>)
    reads store
    ensures IsSubseq(r, store.products)
    ensures query != [] ==> forall p :: p in r <==> p in store.products && MatchesSearch(p, query)
    ensures query == [] ==> forall p :: p in r <==>
      && p in store.products
      && (Given(category) ==> p.categoryId == category.value)
      && (Given(model) ==> Lists(p.compatibleVehicles, model.value))
  {
    if query != [] then
      var all := store.GetProducts(None, None);
      SubseqTrans(Filter(all, Searched(query)), all, store.products);
      Filter(all, Searched(query))
    else store.GetProducts(category, model)
  }

  /** With a search under way, the category and the model are ignored. */
  lemma SearchIgnoresSelection(store: Storage.MemStorage, query: string, c1: Option<int>, m1: Option<int>, c2: Option<int>, m2: Option<int>)
    requires query != []
    ensures FetchProducts(store, query, c1, m1) == FetchProducts(store, query, c2, m2)
  {
  }

  // ---------------------------------------------------------------- filters

  /**
   * `filteredProducts`' predicate: the charged price within `[lo * 100, hi * 100]`
   * cents, in stock when only stocked items are wanted, on sale when only sales are.
   */
  predicate PassesFilters(p: Product, lo: int, hi: int, inStockOnly: bool, saleOnly: bool)
  {
    var price := ChargedPrice(p.salePrice, p.price);
    && lo * 100 <= price <= hi * 100
    && (inStockOnly ==> p.inStock > 0)
    && (saleOnly ==> p.isOnSale)
  }

  function Passes(lo: int, hi: int, inStockOnly: bool, saleOnly: bool): Product -> bool
  {
    (p: Product) => PassesFilters(p, lo, hi, inStockOnly, saleOnly)
  }

  /** The products that pass the filters, in the fetched order. */
  function FilterProducts(products: seq<Product>, lo: int, hi: int, inStockOnly: bool, saleOnly: bool): (r: seq<Product>)
    ensures IsSubseq(r, products)
    ensures forall p :: p in r <==>
      && p in products
      && lo * 100 <= ChargedPrice(p.salePrice, p.price) <= hi * 100
      && (inStockOnly ==> p.inStock > 0)
      && (saleOnly ==> p.isOnSale)
  {
    Filter(products, Passes(lo, hi, inStockOnly, saleOnly))
  }

  /** Filtering an already filtered list changes nothing. */
  lemma FilterProductsIdempotent(products: seq<Product>, lo: int, hi: int, inStockOnly: bool, saleOnly: bool)
    ensures FilterProducts(FilterProducts(products, lo, hi, inStockOnly, saleOnly), lo, hi, inStockOnly, saleOnly)
         == FilterProducts(products, lo, hi, inStockOnly, saleOnly)
  {
    var p := Passes(lo, hi, inStockOnly, saleOnly);
    FilterFilter(products, p, p, p);
  }

  /** Turning on the stock or the sale filter, or narrowing the price range, only removes products. */
  lemma NarrowerFiltersKeepFewer(products: seq<Product>, lo: int, hi: int, lo': int, hi': int,
                                 inStockOnly: bool, inStockOnly': bool, saleOnly: bool, saleOnly': bool)
    requires lo <= lo' && hi' <= hi
    requires inStockOnly ==> inStockOnly'
    requires saleOnly ==> saleOnly'
    ensures IsSubseq(FilterProducts(products, lo', hi', inStockOnly', saleOnly'), FilterProducts(products, lo, hi, inStockOnly, saleOnly))
  {
    var wide, narrow := Passes(lo, hi, inStockOnly, saleOnly), Passes(lo', hi', inStockOnly', saleOnly');
    FilterFilter(products, wide, narrow, narrow);
  }

  // ---------------------------------------------------------------- sorting

  datatype SortMode = PriceLow | PriceHigh | Rating | Newest | Relevance

  /**
   * Each comparator of the page has the form `key(b) - key(a)`: "price-low"
   * negates the charged price, "price-high" uses it, "rating" the rating,
   * "newest" the id, and relevance compares every pair equal.
   */
  function SortKey(mode: SortMode): Product -> int
  {
    match mode
    case PriceLow => (p: Product) => -ChargedPrice(p.salePrice, p.price)
    case PriceHigh => (p: Product) => ChargedPrice(p.salePrice, p.price)
    case Rating => (p: Product) => p.rating
    case Newest => (p: Product) => p.id
    case Relevance => (p: Product) => 0
  }

  /** `sortedProducts`: a sorted copy of the filtered list, in the order the mode asks for. */
  function SortProducts(products: seq<Product>, mode: SortMode): (r: seq<Product>)
    ensures multiset(r) == multiset(products)
    ensures mode == PriceLow ==> forall i, j :: 0 <= i < j < |r| ==>
      ChargedPrice(r[i].salePrice, r[i].price) <= ChargedPrice(r[j].salePrice, r[j].price)
    ensures mode == PriceHigh ==> forall i, j :: 0 <= i < j < |r| ==>
      ChargedPrice(r[i].salePrice, r[i].price) >= ChargedPrice(r[j].salePrice, r[j].price)
    ensures mode == Rating ==> forall i, j :: 0 <= i < j < |r| ==> r[i].rating >= r[j].rating
    ensures mode == Newest ==> forall i, j :: 0 <= i < j < |r| ==> r[i].id >= r[j].id
    ensures mode == Relevance ==> r == products
  {
    var r := SortByKeyDesc(products, SortKey(mode));
    if mode == Relevance then
      SortConstantKey(products, SortKey(mode), 0);
      r
    else
      assert forall i, j :: 0 <= i < j < |r| ==> SortKey(mode)(r[i]) >= SortKey(mode)(r[j]);
      r
  }

  /** Sorting keeps the filtered products and nothing else: the same members, as often as before. */
  lemma SortKeepsMembers(products: seq<Product>, mode: SortMode)
    ensures |SortProducts(products, mode)| == |products|
    ensures forall p :: p in SortProducts(products, mode) <==> p in products
  {
    SortMembers(products, SortKey(mode));
  }

  /** The product grid: fetched, filtered and sorted. Every product shown passes the filters and is in the store. */
  function ShownProducts(store: Storage.MemStorage, query: string, category: Option<int>, model: Option<int>,
                         lo: int, hi: int, inStockOnly: bool, saleOnly: bool, mode: SortMode): (r: seq<Product>)
    reads store
    ensures forall p | p in r :: p in store.products && PassesFilters(p, lo, hi, inStockOnly, saleOnly)
    ensures query != [] ==> forall p | p in r :: MatchesSearch(p, query)
  {
    var filtered := FilterProducts(FetchProducts(store, query, category, model), lo, hi, inStockOnly, saleOnly);
    SortKeepsMembers(filtered, mode);
    SortProducts(filtered, mode)
  }
}
