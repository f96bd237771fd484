# VehiclePartnerPro in Dafny

VehiclePartnerPro is an auto-parts shop: a catalogue of products, vehicle
makes, models and engines, maintenance schedules, orders and a cart. This
project models the shop's domain rules and proves properties about them:

- **The in-memory store** (`Storage.MemStorage`). It keeps one table per entity with one
  id counter each. It covers:
  - creating rows under fresh ids;
  - the read-side filters (models of a make, engines of a model, products by
    category and compatible vehicle, maintenance items that apply to a vehicle,
    a user's orders newest first);
  - order status updates;
  - the cart operations: merging a product already in the cart, deleting a row
    whose quantity drops to 0 or below, clearing one user's cart.

  A JavaScript `Map` is modelled as the sequence of its rows in insertion order
  (module `Table`). `set` on a known id replaces the row in place; on a new id it
  appends.
- **The client helpers**:
  - the bucketing of maintenance items into the 5,000…60,000 checkpoints, and the
    schedule table built from those buckets (rows deduplicated in order of first
    appearance, one check mark per cell);
  - `truncateText`, `getYearRange` and the zero guard of `getDiscountPercentage`.
- **The client state**:
  - the cart context (item count, subtotal, and the state changes of the cart
    operations);
  - the cascading vehicle selector (year → make → model → engine);
  - the catalogue page (search, price/stock/sale filters, five sort orders);
  - the product page (quantity stepper kept in 1..10, star row of a rating,
    related products, sale-price display);
  - the translation lookup `t`.

Prices are integer cents and ratings are integers 0..500 (hundredths of a star).
JavaScript truthiness is written out where it matters:
- an absent or zero filter argument filters nothing (`Schema.Given`);
- a sale price of 0 falls back to the list price (`Schema.ChargedPrice`).

The clock (`new Date()`) is a parameter of the methods that stamp a row. The
outcomes of the client's server calls (success, and the rows fetched
afterwards) are parameters of the client-state methods.

Modules: `Wrappers`, `Seqs` (filter, subsequence), `Sorting` (the stable sort
`Array.prototype.sort` performs with a `key(b) - key(a)` comparator), `Table`,
`Schema`, `Storage`, `Utils`, `MaintenanceTable`, `CartContext`,
`VehicleSelector`, `ProductsPage`, `ProductDetail`, `Translations`.

## Model

| member | source | states |
|---|---|---|
| Storage.MemStorage.constructor | server/storage.ts:116-140 | every table starts empty and every id counter at 1; the store invariant holds (ids ascend in issue order and lie below their counter; one cart row per user and product) |
| Storage.MemStorage.CreateVehicleModel | server/storage.ts:381-386 | the model is stored under the current counter value, appended after the existing rows, and the counter increments |
| Storage.MemStorage.CreateVehicleEngine | server/storage.ts:401-406 | the engine is stored under the current counter value, appended, and the counter increments |
| Storage.MemStorage.CreateProduct | server/storage.ts:438-443 | the product is stored under the current counter value, appended, and the counter increments |
| Storage.MemStorage.CreateUserVehicle | server/storage.ts:465-470 | the vehicle is stored under the current counter value, appended, and the counter increments |
| Storage.MemStorage.CreateMaintenanceItem | server/storage.ts:507-512 | the item is stored under the current counter value, appended, and the counter increments |
| Storage.MemStorage.CreateOrder | server/storage.ts:525-531 | the order gets the current counter value as id and the clock reading as date, is appended, and the counter increments |
| Storage.MemStorage.GetVehicleModels | server/storage.ts:369-375 | exactly the models of the given make (every model when the make id is absent or 0), in insertion order |
| Storage.MemStorage.GetVehicleEngines | server/storage.ts:389-395 | exactly the engines of the given model (every engine when the id is absent or 0), in insertion order |
| Storage.MemStorage.GetProducts | server/storage.ts:409-424 | exactly the products that pass the category filter and the compatibility filter, each applied only when its argument is non-zero; a product without a compatibility list fails the second; insertion order kept |
| Storage.MemStorage.ResolvedModel | server/storage.ts:494-500 | the vehicle's model id when the vehicle and its model are both stored; nothing when either is unknown |
| Storage.MemStorage.GetMaintenanceSchedule | server/storage.ts:494-505 | [] for an unknown vehicle or model; otherwise exactly the items whose applicable-vehicle list holds the model id, in insertion order, whatever their intervals |
| Storage.MemStorage.GetOrders | server/storage.ts:515-519 | exactly the user's orders, as a permutation of them, sorted newest first |
| Storage.MemStorage.UpdateOrderStatus | server/storage.ts:533-540 | an unknown id answers nothing and changes nothing; otherwise only that order's status changes, in place, and the updated order is answered |
| Storage.MemStorage.GetCartItems | server/storage.ts:557-561 | exactly the user's cart rows, in insertion order |
| Storage.MemStorage.GetCartItem | server/storage.ts:563-567 | a cart row with that user and product when there is one, otherwise proof that none exists |
| Storage.MemStorage.UpdateCartItemQuantity | server/storage.ts:584-596 | unknown id: nothing answered, nothing changed; quantity ≤ 0: the row is deleted (others kept, in order) and a copy with quantity 0 is answered; quantity > 0: only that row's quantity changes, in place |
| Storage.MemStorage.CreateCartItem | server/storage.ts:569-582 | a pair already in the cart keeps one row: its quantity becomes the sum (or the row is deleted when the sum is ≤ 0) and no id is consumed; otherwise a new row is appended under the counter value, which increments |
| Storage.MemStorage.DeleteCartItem | server/storage.ts:598-600 | answers whether the id was stored; afterwards exactly the rows with another id remain, in order |
| Storage.MemStorage.ClearCart | server/storage.ts:602-606 | answers true; afterwards exactly the rows of other users remain, in their order, and the store invariant holds |
| Storage.CartDelete | server/storage.ts:588-591 | deleting a cart row keeps the store invariant and leaves exactly the rows with another id, in order |
| Storage.CartSetQuantity | server/storage.ts:593-594 | setting one row's quantity keeps the store invariant and changes no other row |
| Storage.AppendPairsUnique | server/storage.ts:571-581 | a new row for a pair not yet in the cart keeps one row per pair |
| Storage.DeleteEachMembers | server/storage.ts:604 | deleting a list of ids one after the other keeps exactly the rows whose id is not in the list, in order |
| Storage.UserIds | server/storage.ts:603-604 | a stored row's id is among the ids of the user's rows exactly when the row belongs to that user |
| Table.Get | server/storage.ts:564-566 | `map.get`: nothing exactly when no row has the id; otherwise a stored row with that id |
| Table.SetStores | server/storage.ts:580 | after `map.set` the new row is stored and every other row was stored before |
| Table.GetStored | server/storage.ts:585 | with issued ids, looking up a stored row's id finds that row |
| Table.KeyUnique | server/storage.ts:577-580 | ids issued by a counter are never shared by two different rows |
| Table.AppendFresh | server/storage.ts:577-580 | appending a row under the counter value and incrementing the counter keeps the ids ascending and below the counter |
| Table.SetFresh | server/storage.ts:580 | `map.set` under a never-issued id appends the row at the end |
| Table.SetExisting | server/storage.ts:594 | `map.set` under a stored id replaces that row where it stands |
| Table.DeleteMembers | server/storage.ts:599 | `map.delete` keeps the order of the other rows and removes exactly the row with that id |
| Utils.MapMaintenanceItemsToSchedule | export-project/client/src/lib/utils.ts:43-80 | the schedule has exactly the five keys '5000'…'60000' in order, each list being the checkpoint's bucket; an empty input gives five empty lists |
| Utils.BucketIsFilter | export-project/client/src/lib/utils.ts:52-77 | each checkpoint lists, in input order, the names of exactly the items whose interval is at most the checkpoint |
| Utils.PlacedIff | export-project/client/src/lib/utils.ts:52-77 | an item lands in checkpoint C exactly when its interval is ≤ C |
| Utils.BucketInInputOrder | export-project/client/src/lib/utils.ts:52-77 | every bucket lists names in input order |
| Utils.BucketsNested | export-project/client/src/lib/utils.ts:56-77 | a smaller checkpoint's list is a subsequence of a larger checkpoint's list |
| Utils.BeyondLastCheckpointDropped | export-project/client/src/lib/utils.ts:74-76 | items with an interval above 60000 reach no bucket: removing them changes no checkpoint's list |
| Utils.Names | export-project/client/src/lib/utils.ts:55-76 | the names pushed are the items' names, one per item, in order |
| Utils.TruncateText | export-project/client/src/lib/utils.ts:26-29 | text that fits is returned unchanged; otherwise its first maxLength characters (none when negative) followed by "..." |
| Utils.GetYearRange | export-project/client/src/lib/utils.ts:31-37 | the years endYear, endYear-1, …, startYear, strictly descending, one per year; empty when endYear < startYear |
| Utils.DiscountPercentage | export-project/client/src/lib/utils.ts:16-19 | 0 when either price is 0; otherwise the percentage computation |
| MaintenanceTable.RemoveComma | client/src/components/MaintenanceSchedule.tsx:39 | `replace(",", "")`: the text without its first comma, unchanged when it has none |
| MaintenanceTable.RemoveFirstComma | client/src/components/MaintenanceSchedule.tsx:39 | the comma removed is the first one |
| MaintenanceTable.LabelMatchesKey | client/src/components/MaintenanceSchedule.tsx:12 | each column label without its comma is the schedule key of the same checkpoint |
| MaintenanceTable.KeysDistinct | export-project/client/src/lib/utils.ts:44-50 | the five schedule keys differ from one another |
| MaintenanceTable.Lookup | client/src/components/MaintenanceSchedule.tsx:39 | `schedule[key]`: nothing exactly when no property has the key; otherwise a list stored under it |
| MaintenanceTable.LookupFirst | client/src/components/MaintenanceSchedule.tsx:39 | the lookup reads the first property with the key |
| MaintenanceTable.FlattenMembers | client/src/components/MaintenanceSchedule.tsx:16-18 | the names visited are exactly those of some property's list |
| MaintenanceTable.DedupSpec | client/src/components/MaintenanceSchedule.tsx:15-18 | the Set keeps each name once and keeps every name; every prefix of the input deduplicates to a prefix of the rows, so each row's name is met in the input before any occurrence of a later row's name (order of first appearance) |
| MaintenanceTable.DedupPrefixes | client/src/components/MaintenanceSchedule.tsx:15-18 | adding names to the Set never reorders what it already holds: a prefix of the input gives a prefix of the rows |
| MaintenanceTable.AllItems | client/src/components/MaintenanceSchedule.tsx:15-18 | no duplicates, exactly the names of some list, and in the order in which the names are first met when the lists are scanned in property order |
| MaintenanceTable.MissingKeyUnchecked | client/src/components/MaintenanceSchedule.tsx:39-43 | a column whose key the schedule lacks shows "-" in every row |
| MaintenanceTable.ColumnReadsBucket | client/src/components/MaintenanceSchedule.tsx:12-39 | on a bucketed schedule, the j-th column reads the j-th checkpoint's list |
| MaintenanceTable.InBucketIff | export-project/client/src/lib/utils.ts:52-77 | a name is in checkpoint C's list exactly when some item of that name has an interval ≤ C |
| MaintenanceTable.CellOfBucketedSchedule | client/src/components/MaintenanceSchedule.tsx:39 | on a bucketed schedule, the cell (name, j-th label) is checked exactly when an item of that name is due by the j-th checkpoint |
| CartContext.CountAppend | client/src/context/CartContext.tsx:42 | the count of two carts laid end to end is the sum of their counts (a fold over quantities) |
| CartContext.TotalAppend | client/src/context/CartContext.tsx:43-47 | the subtotal of two carts laid end to end is the sum of their subtotals; appending a row adds exactly its line total |
| CartContext.RowWithoutProduct | client/src/context/CartContext.tsx:42-45 | a row without a product adds its quantity to the count and nothing to the subtotal |
| CartContext.LineTotalPrice | client/src/context/CartContext.tsx:45-46 | a line costs (sale price, or the list price when the sale price is absent or 0) × quantity |
| CartContext.NonNegative | client/src/context/CartContext.tsx:42-47 | non-negative quantities and prices give a non-negative count and subtotal |
| CartContext.CartState.constructor | client/src/context/CartContext.tsx:36-37 | the cart starts with no rows and nothing loading |
| CartContext.CartState.RefreshCart | client/src/context/CartContext.tsx:58-74 | no user: nothing changes; otherwise the fetched rows (the old ones when the call fails) and loading ends |
| CartContext.CartState.UserChanged | client/src/context/CartContext.tsx:50-56 | signing out empties the cart; signing in loads the user's rows |
| CartContext.CartState.AddItem | client/src/context/CartContext.tsx:76-109 | no user: the rows stay as they were; otherwise a successful add reloads the rows, and loading ends |
| CartContext.CartState.UpdateQuantity | client/src/context/CartContext.tsx:111-125 | a successful update reloads the rows; a failure keeps them; loading ends |
| CartContext.CartState.RemoveItem | client/src/context/CartContext.tsx:127-146 | a successful removal reloads the rows; a failure keeps them; loading ends |
| CartContext.CartState.ClearAllItems | client/src/context/CartContext.tsx:148-169 | no user: nothing changes; a successful clear leaves no rows, so count and subtotal are 0 |
| VehicleSelector.FilteredModels | client/src/components/VehicleSelector.tsx:46-48 | [] with no make; otherwise exactly the models of that make, in fetched order |
| VehicleSelector.FilteredEngines | client/src/components/VehicleSelector.tsx:50-52 | [] with no model; otherwise exactly the engines of that model, in fetched order |
| VehicleSelector.Selector.constructor | client/src/components/VehicleSelector.tsx:25-28 | nothing is selected |
| VehicleSelector.Selector.SelectYear | client/src/components/VehicleSelector.tsx:81 | the year box is always enabled and the cascade invariant (engine ⇒ model ⇒ make ⇒ year) is kept |
| VehicleSelector.Selector.SelectMake | client/src/components/VehicleSelector.tsx:55-58 | disabled without a year; a different make clears model and engine; the invariant is kept |
| VehicleSelector.Selector.SelectModel | client/src/components/VehicleSelector.tsx:60-62 | disabled without a make or while models load; a different model clears the engine and keeps year and make |
| VehicleSelector.Selector.SelectEngine | client/src/components/VehicleSelector.tsx:135-136 | disabled without a model or while engines load |
| VehicleSelector.Selector.FindParts | client/src/components/VehicleSelector.tsx:64-73 | the callback fires exactly when it exists and year, make and model are chosen, with the engine possibly unchosen |
| VehicleSelector.Selector.FindPartsNeedsModel | client/src/components/VehicleSelector.tsx:64-73 | under the cascade invariant the search fires exactly when there is a callback and a model |
| ProductsPage.LowerChar | client/src/pages/Products.tsx:38-40 | ASCII upper-case letters become lower case; every other character is kept |
| ProductsPage.Lower | client/src/pages/Products.tsx:38-40 | lowering works character by character and keeps the length |
| ProductsPage.LowerIdempotent | client/src/pages/Products.tsx:38-40 | lowering twice is lowering once |
| ProductsPage.Includes | client/src/pages/Products.tsx:38-40 | `includes` holds exactly when the needle occurs at some position |
| ProductsPage.IncludesShift | client/src/pages/Products.tsx:38-40 | when the needle is not at the front, its occurrences are those in the rest |
| ProductsPage.MatchIgnoresQueryCase | client/src/pages/Products.tsx:38-40 | the search ignores the case of the query |
| ProductsPage.FetchProducts | client/src/pages/Products.tsx:35-48 | with a search, exactly the stored products whose name or description includes it; otherwise exactly the products for the chosen category and model |
| ProductsPage.SearchIgnoresSelection | client/src/pages/Products.tsx:36-42 | with a search, the category and model choices do not matter |
| ProductsPage.FilterProducts | client/src/pages/Products.tsx:57-76 | a product survives exactly when its charged price is within [lo×100, hi×100], it is in stock when stock is required, and on sale when sales are required; fetched order kept |
| ProductsPage.FilterProductsIdempotent | client/src/pages/Products.tsx:57-76 | filtering twice is filtering once |
| ProductsPage.NarrowerFiltersKeepFewer | client/src/pages/Products.tsx:57-76 | narrower filters select a subsequence of what wider ones select |
| ProductsPage.SortProducts | client/src/pages/Products.tsx:79-92 | a permutation of the filtered list: price-low by ascending charged price, price-high descending, rating and newest descending, relevance the filtered order itself |
| ProductsPage.SortKeepsMembers | client/src/pages/Products.tsx:79 | the sorted copy has the same length and the same products |
| ProductsPage.ShownProducts | client/src/pages/Products.tsx:35-92 | every product shown is stored, passes the filters, and matches the search when there is one |
| Sorting.SortByKeyDesc | client/src/pages/Products.tsx:79-92 | the sort is a permutation ordered by non-increasing key |
| Sorting.SortConstantKey | client/src/pages/Products.tsx:89-90 | a comparator that always answers 0 keeps the input order |
| Sorting.SortMembers | server/storage.ts:516-518 | sorting keeps exactly the elements it was given |
| ProductDetail.QuantityStepper.constructor | client/src/pages/ProductDetail.tsx:28 | the quantity starts at 1 |
| ProductDetail.QuantityStepper.Decrease | client/src/pages/ProductDetail.tsx:54-58 | one less, except at 1; the quantity stays within 1..10 |
| ProductDetail.QuantityStepper.Increase | client/src/pages/ProductDetail.tsx:60-64 | one more, except at 10; the quantity stays within 1..10 |
| ProductDetail.RenderStars | client/src/pages/ProductDetail.tsx:67-90 | the row drawn is the full stars, the optional half star, then the empty stars (none for a negative count) |
| ProductDetail.FiveStars | client/src/pages/ProductDetail.tsx:68-87 | for a rating 0..500: five stars, rating div 100 of them full, a half star exactly when rating mod 100 ≥ 50, the rest empty |
| ProductDetail.StarsRoundDown | client/src/pages/ProductDetail.tsx:68-71 | the stars drawn round the rating down to a half star: never above it, less than half a star below |
| ProductDetail.Repeat | client/src/pages/ProductDetail.tsx:74-76 | a counting loop pushes n copies, or none when n is negative |
| ProductDetail.CountRepeat | client/src/pages/ProductDetail.tsx:74-87 | n copies of a star hold n of that kind and none of another |
| ProductDetail.RelatedProducts | client/src/pages/ProductDetail.tsx:39-48 | nothing before the product loads; then the first four (or fewer) of the store's products, in store order, that are not the product itself and share its category (any category when its id is 0) |
| ProductDetail.CandidatesInStoreOrder | client/src/pages/ProductDetail.tsx:43-44 | filtering the category's products by id gives the store's related products in store order |
| ProductDetail.DisplayedPrice | client/src/pages/ProductDetail.tsx:135-186 | the price shown is the list price or the sale price |
| ProductDetail.DisplayedVersusCharged | client/src/pages/ProductDetail.tsx:135 | the shown price equals what the cart charges exactly when the product is on sale, or has no non-zero sale price, or the sale price equals the list price |
| Translations.Field | client/src/lib/translations.ts:553 | "en" and "fr" read their wording; any other language reads nothing |
| Translations.Translate | client/src/lib/translations.ts:551-557 | a non-empty wording for the key and language is returned; otherwise the key itself |
| Translations.TranslateIsKeyOrWording | client/src/lib/translations.ts:551-557 | the result is the key or a non-empty wording stored under it |
| Translations.OtherLanguageFallsBack | client/src/lib/translations.ts:552-556 | a language other than "en" and "fr" gets the key back |
| Translations.DefaultIsFrench | client/src/lib/translations.ts:551 | without a language the lookup is French |
| Translations.EmptyOnlyForEmptyKey | client/src/lib/translations.ts:551-557 | the result is empty only for the empty key |
| Translations.NavigationWordings | client/src/lib/translations.ts:10-13 | "home" reads "Accueil" by default and "Home" in English; an unknown key comes back unchanged |

## Left out

- The users, categories, vehicle makes and order-items tables, with their get/create operations. Only the tables whose rules are modelled are kept.
- getProduct, getVehicleModel, getVehicleEngine, getUserVehicles, getUserVehicle, getMaintenanceItems, getMaintenanceItem and getOrder are plain lookups. They are not modelled.
- The server's searchProducts is not modelled. updateProduct, updateUserVehicle and deleteUserVehicle are not modelled either.
- The sample data loaded by initializeData. The store constructor starts empty.
- The PostgreSQL backend and the environment-driven choice of backend. These are database I/O.
- The HTTP routes and the client API functions. Client calls are atomic, and their outcomes are parameters.
- Toasts, navigation, promise ordering and effects firing on mount. Each client operation is one atomic state change.
- Clock readings (`new Date()`, the default end year of getYearRange). They are parameters.
- Storage.MemStorage.CreateCartItem: `addedAt` is the caller's clock reading.
- Storage.MemStorage.GetOrders: the order among orders with the same date is not stated, though the insertion sort keeps it.
- ProductsPage.SortProducts: the order among products with equal keys is not stated, except for relevance.
- Storage.MemStorage.ClearCart deletes each id through DeleteCartItem. That is the same `map.delete` that the loop in clearCart performs.
- ProductsPage.Lower: `toLowerCase` lowers only the ASCII letters here. Unicode case mapping is not modelled.
- ProductsPage.FetchProducts: the category and model choices are ids or nothing. A select value that `parseInt` turns into NaN is not modelled.
- Utils.DiscountPercentage: the floating-point division and rounding of the percentage is a parameter `percent`.
- ProductDetail.HasHalfStar: the half-star test is exact integer arithmetic. It agrees with the floating-point `% 1 >= 0.5` for every rating of ordinary size. Precision loss for huge ratings is not modelled.
- ProductDetail.RelatedProducts: the answer of the query function only. The query is cached under the key `["/api/products"]`, which the home page also uses for the whole catalogue. What the page shows from that shared cache entry is not modelled.
- Utils.TruncateText: lengths and the cut count Unicode scalar values, not UTF-16 code units as JavaScript's `length` and `substring` do. For text with characters outside the Basic Multilingual Plane the result differs; for example, the source cuts a surrogate pair in half.
- ProductDetail.RenderStars: the stars are values (full, half, empty), not rendered elements.
- Translations.Translate takes the table as a parameter. Only three of its entries are reproduced (`Translations.Navigation`). Language strings that name inherited object properties are not modelled.
- VehicleSelector.Selector: the models and engines lists and the loading flags are the queries' results, passed in. The selection is an id or nothing, standing for the option's string or "".
- Formatting of prices and mileages, the "km" unit label, tax and shipping. These are presentation or floating point.
