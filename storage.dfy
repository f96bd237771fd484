/**
 * The in-memory storage backend (`MemStorage`): one insertion-ordered map per
 * entity, keyed by ids that one counter per entity hands out from 1 upwards.
 * Creating appends under the counter's id and advances the counter; updating
 * replaces a row where it stands; deleting removes it. Read operations filter
 * the rows in insertion order.
 */
module Storage {
  import opened Wrappers
  import opened Seqs
  import opened Sorting
  import opened Schema
  import Table

  function ModelKey(m: VehicleModel): int { m.id }
  function EngineKey(e: VehicleEngine): int { e.id }
  function ProductKey(p: Product): int { p.id }
  function VehicleKey(v: UserVehicle): int { v.id }
  function MaintenanceKey(m: MaintenanceItem): int { m.id }
  function OrderKey(o: Order): int { o.id }
  function CartKey(c: CartItem): int { c.id }
  function OrderDate(o: Order): int { o.orderDate }

  /** The product filters of getProducts: one category, and one model among the compatible vehicles. */
  function InCategory(categoryId: int): Product -> bool
  {
    (p: Product) => p.categoryId == categoryId
  }

  function FitsModel(modelId: int): Product -> bool
  {
    (p: Product) => Lists(p.compatibleVehicles, modelId)
  }

  /** Two cart rows for the same user and the same product. */
  predicate SamePair(a: CartItem, b: CartItem)
  {
    a.userId == b.userId && a.productId == b.productId
  }

  /** No two cart rows share a (user, product) pair. */
  ghost predicate PairsUnique(rows: seq<CartItem>)
  {
    forall i, j :: 0 <= i < j < |rows| ==> !SamePair(rows[i], rows[j])
  }

  lemma SubseqPairsUnique(a: seq<CartItem>, b: seq<CartItem>)
    requires IsSubseq(a, b) && PairsUnique(b)
    ensures PairsUnique(a)
  {
    var distinct := (x: CartItem, y: CartItem) => !SamePair(x, y);
    assert Pairwise(b, distinct);
    SubseqPairwise(a, b, distinct);
  }

  /** Changing a row's quantity leaves every (user, product) pair where it was. */
  lemma ReplacePairsUnique(rows: seq<CartItem>, i: nat, v: CartItem)
    requires PairsUnique(rows) && i < |rows| && SamePair(rows[i], v)
    ensures PairsUnique(rows[i := v])
  {
    var after := rows[i := v];
    forall a, b | 0 <= a < b < |after| ensures !SamePair(after[a], after[b]) {
      assert SamePair(after[a], after[b]) == SamePair(rows[a], rows[b]);
    }
  }

  /** Appending a row whose pair is not yet present keeps the pairs unique. */
  lemma AppendPairsUnique(rows: seq<CartItem>, v: CartItem)
    requires PairsUnique(rows) && forall c | c in rows :: !SamePair(c, v)
    ensures PairsUnique(rows + [v])
  {
    var after := rows + [v];
    forall a, b | 0 <= a < b < |after| ensures !SamePair(after[a], after[b]) {
      if b == |rows| {
        assert after[a] in rows;
      } else {
        assert after[a] == rows[a] && after[b] == rows[b];
      }
    }
  }

  /** The cart table's invariant: ids issued by its counter, one row per (user, product). */
  ghost predicate CartOk(rows: seq<CartItem>, next: int)
  {
    Table.Counted(rows, CartKey, next) && PairsUnique(rows)
  }

  /** Deleting id `id` keeps the cart invariant, the order of the rows, and exactly the rows with another id. */
  lemma CartDelete(rows: seq<CartItem>, next: int, id: int)
    requires CartOk(rows, next)
    ensures CartOk(Table.Delete(rows, CartKey, id), next)
    ensures IsSubseq(Table.Delete(rows, CartKey, id), rows)
    ensures forall c :: c in Table.Delete(rows, CartKey, id) <==> c in rows && c.id != id
  {
    Table.DeleteMembers(rows, CartKey, next, id);
    SubseqPairsUnique(Table.Delete(rows, CartKey, id), rows);
  }

  /** Setting the quantity of the row at `i` keeps the cart invariant and changes only that row. */
  lemma CartSetQuantity(rows: seq<CartItem>, next: int, i: nat, quantity: int)
    requires CartOk(rows, next) && i < |rows|
    ensures CartOk(rows[i := rows[i].(quantity := quantity)], next)
    ensures forall j :: 0 <= j < |rows| ==>
      rows[i := rows[i].(quantity := quantity)][j] == if rows[j].id == rows[i].id then rows[j].(quantity := quantity) else rows[j]
  {
    var v := rows[i].(quantity := quantity);
    Table.ReplaceIssued(rows, CartKey, next, i, v);
    ReplacePairsUnique(rows, i, v);
    forall j | 0 <= j < |rows| && j != i ensures rows[j].id != rows[i].id {
      if rows[j].id == rows[i].id {
        Table.KeyUnique(rows, CartKey, next, rows[j], rows[i]);
        assert false;
      }
    }
  }

  /** The ids of the given cart rows, in order. */
  function CartIds(rows: seq<CartItem>): (r: seq<int>)
    ensures |r| == |rows| && forall j :: 0 <= j < |rows| ==> r[j] == rows[j].id
  {
    if rows == [] then [] else [rows[0].id] + CartIds(rows[1..])
  }

  /** The cart rows left after `map.delete` of each id of `ids` in turn. */
  function DeleteEach(rows: seq<CartItem>, ids: seq<int>): seq<CartItem>
    decreases |ids|
  {
    if ids == [] then rows else DeleteEach(Table.Delete(rows, CartKey, ids[0]), ids[1..])
  }

  /** Deleting ids one by one keeps the order and exactly the rows whose id is not among them. */
  lemma {:induction false} DeleteEachMembers(rows: seq<CartItem>, next: int, ids: seq<int>)
    requires Table.IdsIssued(rows, CartKey, next)
    ensures IsSubseq(DeleteEach(rows, ids), rows)
    ensures forall c :: c in DeleteEach(rows, ids) <==> c in rows && c.id !in ids
    decreases |ids|
  {
    if ids == [] {
      SubseqRefl(rows);
    } else {
      var rest := Table.Delete(rows, CartKey, ids[0]);
      var left := DeleteEach(rest, ids[1..]);
      assert DeleteEach(rows, ids) == left;
      Table.DeleteMembers(rows, CartKey, next, ids[0]);
      DeleteEachMembers(rest, next, ids[1..]);
      SubseqTrans(left, rest, rows);
      forall c ensures c in left <==> c in rows && c.id !in ids {
        assert c.id in ids <==> c.id == ids[0] || c.id in ids[1..] by {
          assert ids == [ids[0]] + ids[1..];
        }
      }
    }
  }

  /** With issued ids, a stored row's id is among the ids of a user's rows exactly when it belongs to that user. */
  lemma UserIds(rows: seq<CartItem>, next: int, userId: int, mine: seq<CartItem>)
    requires Table.IdsIssued(rows, CartKey, next)
    requires forall c | c in mine :: c in rows && c.userId == userId
    requires forall c | c in rows && c.userId == userId :: c in mine
    ensures forall c | c in rows :: c.id in CartIds(mine) <==> c.userId == userId
  {
    var ids := CartIds(mine);
    forall c | c in rows ensures c.id in ids <==> c.userId == userId {
      if c.userId == userId {
        var j :| 0 <= j < |mine| && mine[j] == c;
        assert ids[j] == c.id;
      }
      if c.id in ids {
        var j :| 0 <= j < |ids| && ids[j] == c.id;
        Table.KeyUnique(rows, CartKey, next, c, mine[j]);
      }
    }
  }

  class MemStorage {
    var vehicleModels: seq<VehicleModel>
    var vehicleEngines: seq<VehicleEngine>
    var products: seq<Product>
    var userVehicles: seq<UserVehicle>
    var maintenanceItems: seq<MaintenanceItem>
    var orders: seq<Order>
    var cartItems: seq<CartItem>

    var modelIdCounter: int
    var engineIdCounter: int
    var productIdCounter: int
    var vehicleIdCounter: int
    var maintenanceIdCounter: int
    var orderIdCounter: int
    var cartItemIdCounter: int

    /** Every table holds the ids its counter issued, in issue order; cart rows are unique per (user, product). */
    ghost predicate Valid()
      reads this
    {
      && Table.Counted(vehicleModels, ModelKey, modelIdCounter)
      && Table.Counted(vehicleEngines, EngineKey, engineIdCounter)
      && Table.Counted(products, ProductKey, productIdCounter)
      && Table.Counted(userVehicles, VehicleKey, vehicleIdCounter)
      && Table.Counted(maintenanceItems, MaintenanceKey, maintenanceIdCounter)
      && Table.Counted(orders, OrderKey, orderIdCounter)
      && CartOk(cartItems, cartItemIdCounter)
    }

    /** An empty store whose counters all start at 1 (the sample data is not loaded). */
    constructor ()
      ensures Valid()
      ensures vehicleModels == [] && vehicleEngines == [] && products == [] && userVehicles == []
      ensures maintenanceItems == [] && orders == [] && cartItems == []
      ensures modelIdCounter == 1 && engineIdCounter == 1 && productIdCounter == 1 && vehicleIdCounter == 1
      ensures maintenanceIdCounter == 1 && orderIdCounter == 1 && cartItemIdCounter == 1
    {
      vehicleModels, vehicleEngines, products, userVehicles := [], [], [], [];
      maintenanceItems, orders, cartItems := [], [], [];
      modelIdCounter, engineIdCounter, productIdCounter, vehicleIdCounter := 1, 1, 1, 1;
      maintenanceIdCounter, orderIdCounter, cartItemIdCounter := 1, 1, 1;
    }

    // ---------------------------------------------------------------- creation

    method CreateVehicleModel(model: VehicleModel) returns (r: VehicleModel)
      requires Valid()
      modifies this`vehicleModels, this`modelIdCounter
      ensures Valid()
      ensures r == model.(id := old(modelIdCounter))
      ensures vehicleModels == old(vehicleModels) + [r] && modelIdCounter == old(modelIdCounter) + 1
    {
      r := model.(id := modelIdCounter);
      Table.AppendFresh(vehicleModels, ModelKey, modelIdCounter, r);
      Table.SetFresh(vehicleModels, ModelKey, modelIdCounter, r);
      modelIdCounter := modelIdCounter + 1;
      vehicleModels := Table.Set(vehicleModels, ModelKey, r);
    }

    method CreateVehicleEngine(engine: VehicleEngine) returns (r: VehicleEngine)
      requires Valid()
      modifies this`vehicleEngines, this`engineIdCounter
      ensures Valid()
      ensures r == engine.(id := old(engineIdCounter))
      ensures vehicleEngines == old(vehicleEngines) + [r] && engineIdCounter == old(engineIdCounter) + 1
    {
      r := engine.(id := engineIdCounter);
      Table.AppendFresh(vehicleEngines, EngineKey, engineIdCounter, r);
      Table.SetFresh(vehicleEngines, EngineKey, engineIdCounter, r);
      engineIdCounter := engineIdCounter + 1;
      vehicleEngines := Table.Set(vehicleEngines, EngineKey, r);
    }

    method CreateProduct(product: Product) returns (r: Product)
      requires Valid()
      modifies this`products, this`productIdCounter
      ensures Valid()
      ensures r == product.(id := old(productIdCounter))
      ensures products == old(products) + [r] && productIdCounter == old(productIdCounter) + 1
    {
      r := product.(id := productIdCounter);
      Table.AppendFresh(products, ProductKey, productIdCounter, r);
      Table.SetFresh(products, ProductKey, productIdCounter, r);
      productIdCounter := productIdCounter + 1;
      products := Table.Set(products, ProductKey, r);
    }

    method CreateUserVehicle(vehicle: UserVehicle) returns (r: UserVehicle)
      requires Valid()
      modifies this`userVehicles, this`vehicleIdCounter
      ensures Valid()
      ensures r == vehicle.(id := old(vehicleIdCounter))
      ensures userVehicles == old(userVehicles) + [r] && vehicleIdCounter == old(vehicleIdCounter) + 1
    {
      r := vehicle.(id := vehicleIdCounter);
      Table.AppendFresh(userVehicles, VehicleKey, vehicleIdCounter, r);
      Table.SetFresh(userVehicles, VehicleKey, vehicleIdCounter, r);
      vehicleIdCounter := vehicleIdCounter + 1;
      userVehicles := Table.Set(userVehicles, VehicleKey, r);
    }

    method CreateMaintenanceItem(item: MaintenanceItem) returns (r: MaintenanceItem)
      requires Valid()
      modifies this`maintenanceItems, this`maintenanceIdCounter
      ensures Valid()
      ensures r == item.(id := old(maintenanceIdCounter))
      ensures maintenanceItems == old(maintenanceItems) + [r]
      ensures maintenanceIdCounter == old(maintenanceIdCounter) + 1
    {
      r := item.(id := maintenanceIdCounter);
      Table.AppendFresh(maintenanceItems, MaintenanceKey, maintenanceIdCounter, r);
      Table.SetFresh(maintenanceItems, MaintenanceKey, maintenanceIdCounter, r);
      maintenanceIdCounter := maintenanceIdCounter + 1;
      maintenanceItems := Table.Set(maintenanceItems, MaintenanceKey, r);
    }

    /** `now` is the clock reading that becomes the order date. */
    method CreateOrder(order: Order, now: int) returns (r: Order)
      requires Valid()
      modifies this`orders, this`orderIdCounter
      ensures Valid()
      ensures r == order.(id := old(orderIdCounter), orderDate := now)
      ensures orders == old(orders) + [r] && orderIdCounter == old(orderIdCounter) + 1
    {
      r := order.(id := orderIdCounter, orderDate := now);
      Table.AppendFresh(orders, OrderKey, orderIdCounter, r);
      Table.SetFresh(orders, OrderKey, orderIdCounter, r);
      orderIdCounter := orderIdCounter + 1;
      orders := Table.Set(orders, OrderKey, r);
    }

    // ---------------------------------------------------------------- vehicles

    /** Models of one make; an absent or zero make id lists every model. */
    function GetVehicleModels(makeId: Option<int>): (r: seq<VehicleModel>)
      reads this
      ensures forall m | m in r :: m in vehicleModels && (Given(makeId) ==> m.makeId == makeId.value)
      ensures forall m | m in vehicleModels && (Given(makeId) ==> m.makeId == makeId.value) :: m in r
      ensures IsSubseq(r, vehicleModels)
    {
      if Given(makeId) then Filter(vehicleModels, (m: VehicleModel) => m.makeId == makeId.value)
      else SubseqRefl(vehicleModels); vehicleModels
    }

    /** Engines of one model; an absent or zero model id lists every engine. */
    function GetVehicleEngines(modelId: Option<int>): (r: seq<VehicleEngine>)
      reads this
      ensures forall e | e in r :: e in vehicleEngines && (Given(modelId) ==> e.modelId == modelId.value)
      ensures forall e | e in vehicleEngines && (Given(modelId) ==> e.modelId == modelId.value) :: e in r
      ensures IsSubseq(r, vehicleEngines)
    {
      if Given(modelId) then Filter(vehicleEngines, (e: VehicleEngine) => e.modelId == modelId.value)
      else SubseqRefl(vehicleEngines); vehicleEngines
    }

    // ---------------------------------------------------------------- products

    /**
     * The category filter, then the compatibility filter; each applies only when
     * its argument is given and non-zero, so giving both selects their conjunction.
     */
    function GetProducts(categoryId: Option<int>, compatibleWith: Option<int>): (r: seq<Product>)
      reads this
      ensures forall p | p in r ::
        && p in products
        && (Given(categoryId) ==> p.categoryId == categoryId.value)
        && (Given(compatibleWith) ==> Lists(p.compatibleVehicles, compatibleWith.value))
      ensures forall p | p in products
        && (Given(categoryId) ==> p.categoryId == categoryId.value)
        && (Given(compatibleWith) ==> Lists(p.compatibleVehicles, compatibleWith.value)) :: p in r
      ensures IsSubseq(r, products)
    {
      var byCategory :=
        if Given(categoryId) then Filter(products, InCategory(categoryId.value))
        else (SubseqRefl(products); products);
      var byVehicle :=
        if Given(compatibleWith) then Filter(byCategory, FitsModel(compatibleWith.value))
        else (SubseqRefl(byCategory); byCategory);
      SubseqTrans(byVehicle, byCategory, products);
      byVehicle
    }

    // ---------------------------------------------------------------- maintenance

    /** The model id of vehicle `vehicleId` when both the vehicle and its model are on file. */
    function ResolvedModel(vehicleId: int): (r: Option<int>)
      reads this
      ensures r.Some? ==> exists v :: v in userVehicles && v.id == vehicleId && v.modelId == r.value
      ensures r.Some? ==> exists m :: m in vehicleModels && m.id == r.value
      ensures r.None? ==>
        (forall v | v in userVehicles :: v.id != vehicleId) ||
        (exists v :: v in userVehicles && v.id == vehicleId && forall m | m in vehicleModels :: m.id != v.modelId)
    {
      match Table.Get(userVehicles, VehicleKey, vehicleId)
      case None => None
      case Some(v) =>
        match Table.Get(vehicleModels, ModelKey, v.modelId)
        case None => None
        case Some(_) => Some(v.modelId)
    }

    /**
     * The maintenance items that apply to the vehicle's model, in insertion order,
     * whatever their intervals; nothing when the vehicle or its model is unknown.
     */
    function GetMaintenanceSchedule(vehicleId: int): (r: seq<MaintenanceItem>)
      reads this
      ensures ResolvedModel(vehicleId).None? ==> r == []
      ensures ResolvedModel(vehicleId).Some? ==>
        && (forall it | it in r :: it in maintenanceItems && Lists(it.applicableVehicles, ResolvedModel(vehicleId).value))
        && (forall it | it in maintenanceItems && Lists(it.applicableVehicles, ResolvedModel(vehicleId).value) :: it in r)
        && IsSubseq(r, maintenanceItems)
    {
      match ResolvedModel(vehicleId)
      case None => []
      case Some(modelId) => Filter(maintenanceItems, (it: MaintenanceItem) => Lists(it.applicableVehicles, modelId))
    }

    // ---------------------------------------------------------------- orders

    /** The user's orders, newest first. */
    function GetOrders(userId: int): (r: seq<Order>)
      reads this
      ensures forall o | o in r :: o in orders && o.userId == userId
      ensures forall o | o in orders && o.userId == userId :: o in r
      ensures multiset(r) == multiset(Filter(orders, (o: Order) => o.userId == userId))
      ensures SortedDesc(r, OrderDate)
    {
      var mine := Filter(orders, (o: Order) => o.userId == userId);
      SortMembers(mine, OrderDate);
      SortByKeyDesc(mine, OrderDate)
    }

    /** Changes the status of order `id` and nothing else; an unknown id changes nothing. */
    method UpdateOrderStatus(id: int, status: OrderStatus) returns (r: Option<Order>)
      requires Valid()
      modifies this`orders
      ensures Valid()
      ensures old(Table.Get(orders, OrderKey, id)).None? ==> r.None? && orders == old(orders)
      ensures old(Table.Get(orders, OrderKey, id)).Some? ==>
        && r == Some(old(Table.Get(orders, OrderKey, id)).value.(status := status))
        && |orders| == |old(orders)|
        && forall j :: 0 <= j < |orders| ==>
             orders[j] == if old(orders)[j].id == id then old(orders)[j].(status := status) else old(orders)[j]
    {
      var existing := Table.IndexOf(orders, OrderKey, id);
      if existing.None? {
        return None;
      }
      var i := existing.value;
      var updated := orders[i].(status := status);
      Table.GetStored(orders, OrderKey, orderIdCounter, orders[i]);
      Table.ReplaceIssued(orders, OrderKey, orderIdCounter, i, updated);
      ghost var before := orders;
      Table.SetExisting(orders, OrderKey, orderIdCounter, i, updated);
      orders := Table.Set(orders, OrderKey, updated);
      forall j | 0 <= j < |orders|
        ensures orders[j] == if before[j].id == id then before[j].(status := status) else before[j]
      {
        if j != i && before[j].id == id {
          assert false;
        }
      }
      r := Some(updated);
    }

    // ---------------------------------------------------------------- cart

    /** The user's cart rows in insertion order. */
    function GetCartItems(userId: int): (r: seq<CartItem>)
      reads this
      ensures forall c | c in r :: c in cartItems && c.userId == userId
      ensures forall c | c in cartItems && c.userId == userId :: c in r
      ensures IsSubseq(r, cartItems)
    {
      Filter(cartItems, (c: CartItem) => c.userId == userId)
    }

    /** The first cart row for the (user, product) pair, if there is one. */
    function GetCartItem(userId: int, productId: int): (r: Option<CartItem>)
      reads this
      ensures r.Some? ==> r.value in cartItems && r.value.userId == userId && r.value.productId == productId
      ensures r.None? ==> forall c | c in cartItems :: !(c.userId == userId && c.productId == productId)
    {
      match FirstIndex(cartItems, (c: CartItem) => c.userId == userId && c.productId == productId)
      case None => None
      case Some(i) => Some(cartItems[i])
    }

    /**
     * Sets the quantity of row `id`. A quantity of 0 or less deletes the row and
     * answers a copy of it with quantity 0; an unknown id changes nothing.
     */
    method UpdateCartItemQuantity(id: int, quantity: int) returns (r: Option<CartItem>)
      requires Valid()
      modifies this`cartItems
      ensures Valid()
      ensures old(Table.Get(cartItems, CartKey, id)).None? ==> r.None? && cartItems == old(cartItems)
      ensures old(Table.Get(cartItems, CartKey, id)).Some? && quantity <= 0 ==>
        && r == Some(old(Table.Get(cartItems, CartKey, id)).value.(quantity := 0))
        && IsSubseq(cartItems, old(cartItems))
        && forall c :: c in cartItems <==> c in old(cartItems) && c.id != id
      ensures old(Table.Get(cartItems, CartKey, id)).Some? && quantity > 0 ==>
        && r == Some(old(Table.Get(cartItems, CartKey, id)).value.(quantity := quantity))
        && |cartItems| == |old(cartItems)|
        && forall j :: 0 <= j < |cartItems| ==>
             cartItems[j] == if old(cartItems)[j].id == id then old(cartItems)[j].(quantity := quantity) else old(cartItems)[j]
    {
      var existing := Table.IndexOf(cartItems, CartKey, id);
      if existing.None? {
        r := None;
      } else {
        var i := existing.value;
        var item := cartItems[i];
        Table.GetStored(cartItems, CartKey, cartItemIdCounter, item);
        if quantity <= 0 {
          var _ := DeleteCartItem(id);  // the same map.delete that deleteCartItem performs
          r := Some(item.(quantity := 0));
        } else {
          CartSetQuantity(cartItems, cartItemIdCounter, i, quantity);
          Table.SetExisting(cartItems, CartKey, cartItemIdCounter, i, item.(quantity := quantity));
          cartItems := Table.Set(cartItems, CartKey, item.(quantity := quantity));
          r := Some(item.(quantity := quantity));
        }
      }
    }

    /**
     * Adds `quantity` of a product to the user's cart. A row that already holds
     * the (user, product) pair absorbs it through UpdateCartItemQuantity with the
     * summed quantity and consumes no id; otherwise a new row is appended under
     * the next id, stamped with the clock reading `now`.
     */
    method CreateCartItem(userId: int, productId: int, quantity: int, now: int) returns (r: CartItem)
      requires Valid()
      modifies this`cartItems, this`cartItemIdCounter
      ensures Valid()
      ensures old(GetCartItem(userId, productId)).None? ==>
        && r == CartItem(old(cartItemIdCounter), userId, productId, quantity, now)
        && cartItems == old(cartItems) + [r]
        && cartItemIdCounter == old(cartItemIdCounter) + 1
      ensures old(GetCartItem(userId, productId)).Some? ==>
        var prior := old(GetCartItem(userId, productId)).value;
        var sum := prior.quantity + quantity;
        && cartItemIdCounter == old(cartItemIdCounter)
        && (sum > 0 ==>
             && r == prior.(quantity := sum)
             && |cartItems| == |old(cartItems)|
             && forall j :: 0 <= j < |cartItems| ==>
                  cartItems[j] == if old(cartItems)[j].id == prior.id then old(cartItems)[j].(quantity := sum) else old(cartItems)[j])
        && (sum <= 0 ==>
             && r == prior.(quantity := 0)
             && IsSubseq(cartItems, old(cartItems))
             && forall c :: c in cartItems <==> c in old(cartItems) && c.id != prior.id)
    {
      var existing := GetCartItem(userId, productId);
      if existing.Some? {
        var prior := existing.value;
        Table.GetStored(cartItems, CartKey, cartItemIdCounter, prior);
        var merged := UpdateCartItemQuantity(prior.id, prior.quantity + quantity);
        r := merged.value;
        return;
      }
      r := CartItem(cartItemIdCounter, userId, productId, quantity, now);
      Table.AppendFresh(cartItems, CartKey, cartItemIdCounter, r);
      AppendPairsUnique(cartItems, r);
      Table.SetFresh(cartItems, CartKey, cartItemIdCounter, r);
      cartItemIdCounter := cartItemIdCounter + 1;
      cartItems := Table.Set(cartItems, CartKey, r);
    }

    /** Deletes row `id`, keeping the others in order; answers whether there was such a row. */
    method DeleteCartItem(id: int) returns (deleted: bool)
      requires Valid()
      modifies this`cartItems
      ensures Valid()
      ensures deleted == old(Table.Get(cartItems, CartKey, id)).Some?
      ensures cartItems == Table.Delete(old(cartItems), CartKey, id)
      ensures IsSubseq(cartItems, old(cartItems))
      ensures forall c :: c in cartItems <==> c in old(cartItems) && c.id != id
    {
      deleted := Table.IndexOf(cartItems, CartKey, id).Some?;
      CartDelete(cartItems, cartItemIdCounter, id);
      cartItems := Table.Delete(cartItems, CartKey, id);
    }

    /** Deletes every row of the user's cart, one id at a time; other users' rows stay as they were, in order. */
    method ClearCart(userId: int) returns (cleared: bool)
      requires Valid()
      modifies this`cartItems
      ensures Valid()
      ensures cleared
      ensures IsSubseq(cartItems, old(cartItems))
      ensures forall c :: c in cartItems <==> c in old(cartItems) && c.userId != userId
    {
      var userCartItems := GetCartItems(userId);
      var ids := CartIds(userCartItems);
      ghost var start := cartItems;
      var i := 0;
      while i < |ids|
        invariant 0 <= i <= |ids|
        invariant DeleteEach(cartItems, ids[i..]) == DeleteEach(start, ids)
        invariant Valid()
      {
        assert ids[i..][1..] == ids[i + 1..];
        var _ := DeleteCartItem(ids[i]);
        i := i + 1;
      }
      assert ids[i..] == [];
      DeleteEachMembers(start, cartItemIdCounter, ids);
      UserIds(start, cartItemIdCounter, userId, userCartItems);
      cleared := true;
    }
  }
}
