/** The one entity of the application: a product row as the local database stores it. */
module Products {
  import opened Wrappers

  /**
   The key a product carries before the local store has assigned one: the
   entity's `id` defaults to 0, which an auto-generated primary key treats as
   "not set".
   */
  const Unassigned: int := 0

  /**
   `id` is the local primary key; `firestoreId` is the id of the remote
   document mirroring this row, `None` until one has been minted.
   */
  datatype Product = Product(
    id: int,
    firestoreId: Option<string>,
    name: string,
    quantity: int,
    price: real)

  /** `Product(name = …, quantity = …, price = …)`: every other field keeps its default. */
  function NewProduct(name: string, quantity: int, price: real): (p: Product)
    ensures p.id == Unassigned && p.firestoreId == None
    ensures p.name == name && p.quantity == quantity && p.price == price
  {
    Product(Unassigned, None, name, quantity, price)
  }
}
