/**
 * The records the shop stores and exchanges. Prices and totals are integer
 * cents, ratings are integers 0..500 (hundredths of a star), dates are
 * millisecond timestamps supplied by the caller.
 */
module Schema {
  import opened Wrappers

  datatype OrderStatus = Pending | Processing | Shipped | Delivered | Cancelled

  /** `yearEnd` is absent while the model is still in production. */
  datatype VehicleModel = VehicleModel(id: int, makeId: int, name: string, yearStart: int, yearEnd: Option<int>)

  datatype VehicleEngine = VehicleEngine(id: int, name: string, description: string, modelId: int)

  /** `compatibleVehicles` lists vehicle model ids and may be null; `salePrice` may be null. */
  datatype Product = Product(
    id: int, name: string, description: string, price: int, categoryId: int, inStock: int,
    compatibleVehicles: Option<seq<int>>, rating: int, reviewCount: int,
    isTopRated: bool, isOnSale: bool, salePrice: Option<int>)

  datatype UserVehicle = UserVehicle(
    id: int, userId: int, makeId: int, modelId: int, year: int, engineId: Option<int>, mileage: int)

  /** `applicableVehicles` lists vehicle model ids and may be null. */
  datatype MaintenanceItem = MaintenanceItem(
    id: int, name: string, description: string, intervalMiles: int, intervalMonths: Option<int>,
    applicableVehicles: Option<seq<int>>)

  datatype Order = Order(
    id: int, userId: int, orderDate: int, status: OrderStatus, total: int,
    shippingAddress: string, shippingCity: string, shippingState: string, shippingZip: string)

  datatype CartItem = CartItem(id: int, userId: int, productId: int, quantity: int, addedAt: int)

  /**
   * The price the shop charges, `salePrice || price`: a sale price that is null
   * or 0 falls back to the list price.
   */
  function ChargedPrice(salePrice: Option<int>, price: int): int
  {
    if salePrice.Some? && salePrice.value != 0 then salePrice.value else price
  }

  /** `JSON array && array.includes(id)`: a null list contains nothing. */
  predicate Lists(ids: Option<seq<int>>, id: int)
  {
    ids.Some? && id in ids.value
  }

  /** JavaScript truthiness of an optional numeric argument: absent and 0 both mean "not given". */
  predicate Given(n: Option<int>)
  {
    n.Some? && n.value != 0
  }
}
