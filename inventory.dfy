/**
 * The e-commerce database as in-memory tables, its seed contents, and the
 * read-only queries and the stock update the server's tools run against it.
 * Rows are kept in insertion order, which is the order the queries return
 * them in.
 */
module Inventory {
  import opened Wrappers
  import opened SqlLike

  datatype Product = Product(id: int, name: string, description: string, stock: int, category: string)
  datatype Customer = Customer(id: int, name: string, email: string)
  datatype Order = Order(id: int, customerId: int, status: string)
  datatype OrderItem = OrderItem(id: int, orderId: int, productId: int, quantity: int)

  datatype Tables = Tables(
    products: seq<Product>,
    customers: seq<Customer>,
    orders: seq<Order>,
    orderItems: seq<OrderItem>)

  // ---------------------------------------------------------------------------
  // Seed data
  // ---------------------------------------------------------------------------

  /** A product row as inserted, before the database assigns its id. */
  datatype ProductRow = ProductRow(name: string, description: string, stock: int, category: string)
  datatype CustomerRow = CustomerRow(name: string, email: string)
  datatype OrderRow = OrderRow(customerId: int, status: string)
  datatype OrderItemRow = OrderItemRow(orderId: int, productId: int, quantity: int)

  const ProductRows: seq<ProductRow> := [
    ProductRow("Laptop Pro 15\"", "High-performance laptop with 16GB RAM", 10, "Electronics"),
    ProductRow("Wireless Mouse", "Ergonomic wireless mouse with USB receiver", 50, "Electronics"),
    ProductRow("Mechanical Keyboard", "RGB mechanical keyboard with blue switches", 25, "Electronics"),
    ProductRow("USB-C Hub", "7-in-1 USB-C hub with HDMI and card reader", 30, "Electronics"),
    ProductRow("Standing Desk", "Electric height-adjustable standing desk", 5, "Furniture"),
    ProductRow("Ergonomic Chair", "Mesh back office chair with lumbar support", 8, "Furniture"),
    ProductRow("Notebook Set", "Pack of 3 premium notebooks", 100, "Stationery"),
    ProductRow("Premium Coffee Beans", "Single-origin arabica coffee beans 1kg", 40, "Food & Drink"),
    ProductRow("Thermal Mug", "Insulated stainless steel travel mug", 60, "Food & Drink"),
    ProductRow("Desk Lamp", "LED desk lamp with adjustable brightness", 20, "Furniture")
  ]

  const CustomerRows: seq<CustomerRow> := [
    CustomerRow("Alice Johnson", "alice@example.com"),
    CustomerRow("Bob Smith", "bob@example.com"),
    CustomerRow("Charlie Brown", "charlie@example.com"),
    CustomerRow("Diana Prince", "diana@example.com")
  ]

  const OrderRows: seq<OrderRow> := [
    OrderRow(1, "completed"),
    OrderRow(2, "completed"),
    OrderRow(3, "pending")
  ]

  const OrderItemRows: seq<OrderItemRow> := [
    OrderItemRow(1, 1, 1),
    OrderItemRow(1, 2, 1),
    OrderItemRow(2, 3, 1),
    OrderItemRow(2, 2, 1),
    OrderItemRow(3, 7, 2)
  ]

  /** Row `k` of a fresh table gets the autoincrement id k + 1. */
  function SeedProducts(): seq<Product> {
    seq(|ProductRows|, k requires 0 <= k < |ProductRows| =>
      Product(k + 1, ProductRows[k].name, ProductRows[k].description, ProductRows[k].stock, ProductRows[k].category))
  }

  function SeedCustomers(): seq<Customer> {
    seq(|CustomerRows|, k requires 0 <= k < |CustomerRows| =>
      Customer(k + 1, CustomerRows[k].name, CustomerRows[k].email))
  }

  function SeedOrders(): seq<Order> {
    seq(|OrderRows|, k requires 0 <= k < |OrderRows| =>
      Order(k + 1, OrderRows[k].customerId, OrderRows[k].status))
  }

  function SeedOrderItems(): seq<OrderItem> {
    seq(|OrderItemRows|, k requires 0 <= k < |OrderItemRows| =>
      OrderItem(k + 1, OrderItemRows[k].orderId, OrderItemRows[k].productId, OrderItemRows[k].quantity))
  }

  /** The database `initialize_database` builds. */
  function SeedTables(): Tables {
    Tables(SeedProducts(), SeedCustomers(), SeedOrders(), SeedOrderItems())
  }

  // ---------------------------------------------------------------------------
  // Integrity
  // ---------------------------------------------------------------------------

  predicate UniqueProductIds(ps: seq<Product>) {
    forall i, j :: 0 <= i < j < |ps| ==> ps[i].id != ps[j].id
  }

  predicate UniqueCustomers(cs: seq<Customer>) {
    forall i, j :: 0 <= i < j < |cs| ==> cs[i].id != cs[j].id && cs[i].email != cs[j].email
  }

  predicate UniqueOrderIds(os: seq<Order>) {
    forall i, j :: 0 <= i < j < |os| ==> os[i].id != os[j].id
  }

  predicate UniqueItemIds(items: seq<OrderItem>) {
    forall i, j :: 0 <= i < j < |items| ==> items[i].id != items[j].id
  }

  predicate HasProduct(ps: seq<Product>, id: int) {
    exists k :: 0 <= k < |ps| && ps[k].id == id
  }

  predicate HasCustomer(cs: seq<Customer>, id: int) {
    exists k :: 0 <= k < |cs| && cs[k].id == id
  }

  predicate HasOrder(os: seq<Order>, id: int) {
    exists k :: 0 <= k < |os| && os[k].id == id
  }

  /** Primary keys and the unique e-mail hold, stocks are not negative, and every foreign key refers to an existing row. */
  predicate Consistent(t: Tables) {
    && UniqueProductIds(t.products)
    && UniqueCustomers(t.customers)
    && UniqueOrderIds(t.orders)
    && UniqueItemIds(t.orderItems)
    && (forall k :: 0 <= k < |t.products| ==> t.products[k].stock >= 0)
    && (forall k :: 0 <= k < |t.orders| ==> HasCustomer(t.customers, t.orders[k].customerId))
    && (forall k :: 0 <= k < |t.orderItems| ==>
          HasOrder(t.orders, t.orderItems[k].orderId) && HasProduct(t.products, t.orderItems[k].productId))
  }

  // ---------------------------------------------------------------------------
  // Lookups
  // ---------------------------------------------------------------------------

  /** Position of the first product with id `id` (`fetchone` of `WHERE id = ?`). */
  function FindProduct(ps: seq<Product>, id: int): (r: Option<nat>)
    ensures r.Some? ==> r.value < |ps| && ps[r.value].id == id
    ensures r.Some? ==> forall k :: 0 <= k < r.value ==> ps[k].id != id
    ensures r.None? <==> !HasProduct(ps, id)
  {
    if ps == [] then None
    else if ps[0].id == id then Some(0)
    else match FindProduct(ps[1..], id)
      case None => None
      case Some(k) => Some(k + 1)
  }

  /** `get_product`: the product with that id, or None when no row matches. */
  function GetProduct(t: Tables, id: int): (r: Option<Product>)
    ensures r.None? <==> !HasProduct(t.products, id)
    ensures r.Some? ==> r.value.id == id && r.value in t.products
  {
    match FindProduct(t.products, id)
    case None => None
    case Some(k) => Some(t.products[k])
  }

  function FindCustomerBy(cs: seq<Customer>, matches: Customer -> bool): (r: Option<Customer>)
    ensures r.Some? ==> r.value in cs && matches(r.value)
    ensures r.None? <==> forall k :: 0 <= k < |cs| ==> !matches(cs[k])
  {
    if cs == [] then None
    else if matches(cs[0]) then Some(cs[0])
    else
      var r := FindCustomerBy(cs[1..], matches);
      assert forall k :: 1 <= k < |cs| ==> cs[k] == cs[1..][k - 1];
      r
  }

  /** `get_customer`: the customer with that e-mail address, or None when no row matches. */
  function GetCustomer(t: Tables, email: string): (r: Option<Customer>)
    ensures r.None? <==> forall k :: 0 <= k < |t.customers| ==> t.customers[k].email != email
    ensures r.Some? ==> r.value.email == email && r.value in t.customers
  {
    FindCustomerBy(t.customers, (c: Customer) => c.email == email)
  }

  function CustomerById(t: Tables, id: int): (r: Option<Customer>)
    ensures r.None? <==> !HasCustomer(t.customers, id)
    ensures r.Some? ==> r.value.id == id && r.value in t.customers
  {
    FindCustomerBy(t.customers, (c: Customer) => c.id == id)
  }

  function FindOrder(os: seq<Order>, id: int): (r: Option<Order>)
    ensures r.None? <==> !HasOrder(os, id)
    ensures r.Some? ==> r.value.id == id && r.value in os
  {
    if os == [] then None
    else if os[0].id == id then Some(os[0])
    else
      var r := FindOrder(os[1..], id);
      assert forall k :: 1 <= k < |os| ==> os[k] == os[1..][k - 1];
      r
  }

  // ---------------------------------------------------------------------------
  // Order details
  // ---------------------------------------------------------------------------

  /** An item row joined with its product's name and category. */
  datatype ItemLine = ItemLine(item: OrderItem, productName: string, category: string)

  /** An order row joined with its customer's name and e-mail, and its item lines. */
  datatype OrderDetails = OrderDetails(order: Order, customerName: string, email: string, items: seq<ItemLine>)

  /** The item rows of order `orderId`, in table order. */
  function ItemsOf(items: seq<OrderItem>, orderId: int): (r: seq<OrderItem>)
    ensures |r| <= |items|
    ensures forall x :: x in r <==> x in items && x.orderId == orderId
    ensures forall x :: multiset(r)[x] == if x.orderId == orderId then multiset(items)[x] else 0
  {
    if items == [] then []
    else
      assert items == [items[0]] + items[1..];
      (if items[0].orderId == orderId then [items[0]] else []) + ItemsOf(items[1..], orderId)
  }

  /** The product name and category on a line are those of a product in `ps` with the item's product id. */
  ghost predicate FromCatalog(ps: seq<Product>, line: ItemLine)
  {
    exists p :: p in ps && p.id == line.item.productId && p.name == line.productName && p.category == line.category
  }

  /** The inner join of item rows with products; an item whose product is missing has no line. */
  function JoinProducts(ps: seq<Product>, items: seq<OrderItem>): (r: seq<ItemLine>)
    ensures |r| <= |items|
    ensures forall k :: 0 <= k < |r| ==> r[k].item in items
    ensures forall k :: 0 <= k < |r| ==> FromCatalog(ps, r[k])
  {
    if items == [] then []
    else
      var rest := JoinProducts(ps, items[1..]);
      match GetProduct(Tables(ps, [], [], []), items[0].productId)
      case None =>
        assert forall k :: 0 <= k < |rest| ==> rest[k].item in items;
        rest
      case Some(p) =>
        var line := ItemLine(items[0], p.name, p.category);
        assert FromCatalog(ps, line);
        assert forall k :: 1 <= k < 1 + |rest| ==> ([line] + rest)[k] == rest[k - 1];
        [line] + rest
  }

  /** `get_order_details`: None when no order with that id joins a customer; otherwise the order with its item lines. */
  function GetOrderDetails(t: Tables, orderId: int): (r: Option<OrderDetails>)
    ensures r.None? <==>
      (!HasOrder(t.orders, orderId) || !HasCustomer(t.customers, FindOrder(t.orders, orderId).value.customerId))
    ensures r.Some? ==> r.value.order.id == orderId && r.value.order in t.orders
    ensures r.Some? ==>
      exists c :: c in t.customers && c.id == r.value.order.customerId && c.name == r.value.customerName && c.email == r.value.email
    ensures r.Some? ==> forall k :: 0 <= k < |r.value.items| ==>
      r.value.items[k].item.orderId == orderId && r.value.items[k].item in t.orderItems
  {
    match FindOrder(t.orders, orderId)
    case None => None
    case Some(o) =>
      match CustomerById(t, o.customerId)
      case None => None
      case Some(c) => Some(OrderDetails(o, c.name, c.email, JoinProducts(t.products, ItemsOf(t.orderItems, orderId))))
  }

  /** With every item referring to an existing product, the join keeps every item row, in order. */
  lemma {:induction false} JoinKeepsAll(ps: seq<Product>, items: seq<OrderItem>)
    requires forall k :: 0 <= k < |items| ==> HasProduct(ps, items[k].productId)
    ensures |JoinProducts(ps, items)| == |items|
    ensures forall k :: 0 <= k < |items| ==> JoinProducts(ps, items)[k].item == items[k]
  {
    if items != [] {
      JoinKeepsAll(ps, items[1..]);
      assert HasProduct(Tables(ps, [], [], []).products, items[0].productId);
    }
  }

  /** In a consistent database the details list exactly the order's item rows, in table order. */
  lemma OrderDetailsListAllItems(t: Tables, orderId: int)
    requires Consistent(t)
    requires GetOrderDetails(t, orderId).Some?
    ensures var lines := GetOrderDetails(t, orderId).value.items;
      var rows := ItemsOf(t.orderItems, orderId);
      |lines| == |rows| && forall k :: 0 <= k < |rows| ==> lines[k].item == rows[k]
  {
    var rows := ItemsOf(t.orderItems, orderId);
    forall k | 0 <= k < |rows| ensures HasProduct(t.products, rows[k].productId) {
      assert rows[k] in t.orderItems;
    }
    JoinKeepsAll(t.products, rows);
  }

  // ---------------------------------------------------------------------------
  // Search
  // ---------------------------------------------------------------------------

  /** A category argument filters only when it is given and not empty (Python truthiness). */
  predicate FiltersByCategory(category: Option<string>) {
    category.Some? && category.value != []
  }

  /** The `WHERE` clause `search_products` runs for this product. */
  predicate SearchHit(p: Product, query: string, category: Option<string>) {
    var pattern := "%" + query + "%";
    if FiltersByCategory(category) then p.category == category.value && Like(p.name, pattern)
    else Like(p.name, pattern) || Like(p.description, pattern)
  }

  /** `search_products`: the products the `WHERE` clause admits, in table order. */
  function Search(ps: seq<Product>, query: string, category: Option<string>): (r: seq<Product>)
    ensures |r| <= |ps|
    ensures forall p :: p in r <==> p in ps && SearchHit(p, query, category)
    ensures forall p :: multiset(r)[p] == if SearchHit(p, query, category) then multiset(ps)[p] else 0
  {
    if ps == [] then []
    else
      assert ps == [ps[0]] + ps[1..];
      (if SearchHit(ps[0], query, category) then [ps[0]] else []) + Search(ps[1..], query, category)
  }

  /** With a category and a wildcard-free query: exactly the products of that category whose name contains the query, ignoring ASCII case. */
  lemma SearchByCategory(ps: seq<Product>, query: string, category: string)
    requires Literal(query) && category != []
    ensures forall p :: p in Search(ps, query, Some(category)) <==>
      p in ps && p.category == category && ContainsFolded(p.name, query)
  {
    forall p | p in ps ensures Like(p.name, "%" + query + "%") <==> ContainsFolded(p.name, query) {
      LikeIsContains(p.name, query);
    }
  }

  /** Without a category and with a wildcard-free query: exactly the products whose name or description contains the query. */
  lemma SearchByText(ps: seq<Product>, query: string, category: Option<string>)
    requires Literal(query) && !FiltersByCategory(category)
    ensures forall p :: p in Search(ps, query, category) <==>
      p in ps && (ContainsFolded(p.name, query) || ContainsFolded(p.description, query))
  {
    forall p | p in ps
      ensures (Like(p.name, "%" + query + "%") <==> ContainsFolded(p.name, query))
        && (Like(p.description, "%" + query + "%") <==> ContainsFolded(p.description, query))
    {
      LikeIsContains(p.name, query);
      LikeIsContains(p.description, query);
    }
  }

  /** The default search, an empty query without a category, returns every product in order. */
  lemma {:induction false} SearchEverything(ps: seq<Product>, category: Option<string>)
    requires !FiltersByCategory(category)
    ensures Search(ps, "", category) == ps
  {
    if ps != [] {
      EmptyQueryMatchesAll(ps[0].name);
      SearchEverything(ps[1..], category);
    }
  }

  // ---------------------------------------------------------------------------
  // Stock
  // ---------------------------------------------------------------------------

  const ProductNotFound: string := "Product not found"
  const InsufficientStock: string := "Insufficient stock"

  /** The dictionary `check_stock` returns. */
  datatype StockReport =
    | Missing(available: bool, error: string)
    | Found(id: int, name: string, stock: int, available: bool)

  /** `check_stock` */
  function CheckStock(t: Tables, productId: int): (r: StockReport)
    ensures r.Missing? <==> !HasProduct(t.products, productId)
    ensures r.Missing? ==> !r.available && r.error == ProductNotFound
    ensures r.Found? ==> r.id == productId && (r.available <==> r.stock > 0)
    ensures r.Found? ==> exists k :: (0 <= k < |t.products| && t.products[k].id == productId
      && t.products[k].name == r.name && t.products[k].stock == r.stock)
  {
    match GetProduct(t, productId)
    case None => Missing(false, ProductNotFound)
    case Some(p) =>
      assert p in t.products;
      Found(p.id, p.name, p.stock, p.stock > 0)
  }

  /** The dictionary `update_stock` returns. */
  datatype StockUpdate =
    | UpdateFailed(success: bool, error: string)
    | Updated(success: bool, productId: int, previousStock: int, newStock: int)

  /** The tables after `update_stock`, and its reply. */
  function ApplyStockUpdate(t: Tables, productId: int, change: int): (res: (Tables, StockUpdate))
    ensures !HasProduct(t.products, productId) ==> res == (t, UpdateFailed(false, ProductNotFound))
    ensures HasProduct(t.products, productId) ==>
      var k := FindProduct(t.products, productId).value;
      var old_ := t.products[k].stock;
      if old_ + change < 0 then res == (t, UpdateFailed(false, InsufficientStock))
      else
        && res.1 == Updated(true, productId, old_, old_ + change)
        && res.0.customers == t.customers && res.0.orders == t.orders && res.0.orderItems == t.orderItems
        && |res.0.products| == |t.products|
        && res.0.products[k] == t.products[k].(stock := old_ + change)
        && forall j :: 0 <= j < |t.products| && j != k ==> res.0.products[j] == t.products[j]
  {
    match FindProduct(t.products, productId)
    case None => (t, UpdateFailed(false, ProductNotFound))
    case Some(k) =>
      var currentStock := t.products[k].stock;
      var newStock := currentStock + change;
      if newStock < 0 then (t, UpdateFailed(false, InsufficientStock))
      else (t.(products := t.products[k := t.products[k].(stock := newStock)]), Updated(true, productId, currentStock, newStock))
  }

  /** A stock update keeps the database consistent; in particular no stock ever goes negative. */
  lemma StockUpdateKeepsConsistent(t: Tables, productId: int, change: int)
    requires Consistent(t)
    ensures Consistent(ApplyStockUpdate(t, productId, change).0)
  {
    var t' := ApplyStockUpdate(t, productId, change).0;
    if t' != t {
      var k := FindProduct(t.products, productId).value;
      assert forall j :: 0 <= j < |t.products| ==> t'.products[j].id == t.products[j].id;
      forall id | HasProduct(t.products, id) ensures HasProduct(t'.products, id) {
        var j :| 0 <= j < |t.products| && t.products[j].id == id;
        assert t'.products[j].id == id;
      }
    }
  }

  /** Lookup by id sees only the ids, so it finds the same row after a stock change. */
  lemma {:induction false} FindProductSameIds(ps: seq<Product>, qs: seq<Product>, id: int)
    requires |ps| == |qs|
    requires forall j :: 0 <= j < |ps| ==> ps[j].id == qs[j].id
    ensures FindProduct(ps, id) == FindProduct(qs, id)
    decreases |ps|
  {
    if ps != [] {
      assert ps[0].id == qs[0].id;
      assert forall j :: 0 <= j < |ps| - 1 ==> ps[1..][j].id == qs[1..][j].id;
      FindProductSameIds(ps[1..], qs[1..], id);
    }
  }

  /** After a successful update, `check_stock` reports the new stock and availability for that product. */
  lemma CheckStockAfterUpdate(t: Tables, productId: int, change: int)
    requires ApplyStockUpdate(t, productId, change).1.Updated?
    ensures var (t', reply) := ApplyStockUpdate(t, productId, change);
      CheckStock(t', productId) == Found(productId, GetProduct(t, productId).value.name,
        reply.newStock, reply.newStock > 0)
  {
    var t' := ApplyStockUpdate(t, productId, change).0;
    FindProductSameIds(t.products, t'.products, productId);
  }

  /** A stock update leaves what `check_stock` reports for every other product unchanged. */
  lemma CheckStockOthersUnchanged(t: Tables, productId: int, change: int, other: int)
    requires other != productId
    ensures CheckStock(ApplyStockUpdate(t, productId, change).0, other) == CheckStock(t, other)
  {
    var t' := ApplyStockUpdate(t, productId, change).0;
    if t' != t {
      FindProductSameIds(t.products, t'.products, other);
      var k := FindProduct(t.products, productId).value;
      var j := FindProduct(t.products, other);
      if j.Some? {
        assert j.value != k;
      }
    }
  }

  /** In a consistent database, undoing a successful change of stock with the opposite change restores the database and reports the stocks swapped. */
  lemma StockUpdateUndo(t: Tables, productId: int, change: int)
    requires Consistent(t)
    requires ApplyStockUpdate(t, productId, change).1.Updated?
    ensures var (t', reply) := ApplyStockUpdate(t, productId, change);
      ApplyStockUpdate(t', productId, -change) == (t, Updated(true, productId, reply.newStock, reply.previousStock))
  {
    var t' := ApplyStockUpdate(t, productId, change).0;
    FindProductSameIds(t.products, t'.products, productId);
    var k := FindProduct(t.products, productId).value;
    var t'' := ApplyStockUpdate(t', productId, -change).0;
    assert FindProduct(t'.products, productId) == Some(k);
    assert t'.products[k] == t.products[k].(stock := t.products[k].stock + change);
    assert t''.products[k] == t'.products[k].(stock := t.products[k].stock);
    assert t''.products[k] == t.products[k];
    assert forall j :: 0 <= j < |t.products| && j != k ==> t''.products[j] == t'.products[j] == t.products[j];
    assert t''.products == t.products;
  }

  // ---------------------------------------------------------------------------
  // Statistics
  // ---------------------------------------------------------------------------

  /** The counts `get_database_stats` returns. */
  datatype Stats = Stats(
    totalProducts: nat,
    totalCustomers: nat,
    totalOrders: nat,
    totalOrderItems: nat,
    totalCategories: nat)

  /** The distinct categories of the products (`COUNT(DISTINCT category)` counts them). */
  function Categories(ps: seq<Product>): set<string> {
    set k | 0 <= k < |ps| :: ps[k].category
  }

  /** There are never more distinct categories than products. */
  lemma {:induction false} CategoriesBound(ps: seq<Product>)
    ensures |Categories(ps)| <= |ps|
  {
    if ps != [] {
      CategoriesBound(ps[1..]);
      assert Categories(ps) == {ps[0].category} + Categories(ps[1..]) by {
        forall c | c in Categories(ps) ensures c in {ps[0].category} + Categories(ps[1..]) {
          var k :| 0 <= k < |ps| && ps[k].category == c;
          if k > 0 {
            assert ps[1..][k - 1].category == c;
          }
        }
        forall c | c in Categories(ps[1..]) ensures c in Categories(ps) {
          var k :| 0 <= k < |ps[1..]| && ps[1..][k].category == c;
          assert ps[k + 1].category == c;
        }
      }
    }
  }

  /** `get_database_stats`, without the revenue sum. */
  function DatabaseStats(t: Tables): (r: Stats)
    ensures r.totalCategories <= r.totalProducts
    ensures r.totalProducts > 0 ==> r.totalCategories >= 1
  {
    var cats := Categories(t.products);
    CategoriesBound(t.products);
    assert t.products != [] ==> t.products[0].category in cats;
    Stats(|t.products|, |t.customers|, |t.orders|, |t.orderItems|, |cats|)
  }

  /** The seeded products have ids 1 to 10 in listed order, with the listed stocks. */
  lemma SeedProductsListed()
    ensures |SeedTables().products| == 10
    ensures forall k :: 0 <= k < 10 ==> SeedTables().products[k].id == k + 1
    ensures seq(10, k requires 0 <= k < 10 => SeedTables().products[k].stock)
      == [10, 50, 25, 30, 5, 8, 100, 40, 60, 20]
  {
  }

  /** The seeded products fall into four categories. */
  lemma SeedCategories()
    ensures Categories(SeedTables().products) == {"Electronics", "Furniture", "Stationery", "Food & Drink"}
  {
    var ps := SeedTables().products;
    var listed := seq(10, k requires 0 <= k < 10 => ps[k].category);
    assert listed == ["Electronics", "Electronics", "Electronics", "Electronics", "Furniture",
                      "Furniture", "Stationery", "Food & Drink", "Food & Drink", "Furniture"];
    forall c | c in Categories(ps) ensures c in {"Electronics", "Furniture", "Stationery", "Food & Drink"} {
      var k :| 0 <= k < |ps| && ps[k].category == c;
      assert listed[k] == c;
    }
    assert ps[0].category in Categories(ps);
    assert ps[4].category in Categories(ps);
    assert ps[6].category in Categories(ps);
    assert ps[7].category in Categories(ps);
  }

  /** `get_database_stats` on the seeded database: 10 products, 4 customers, 3 orders, 5 items, 4 categories. */
  lemma SeedStats()
    ensures DatabaseStats(SeedTables()) == Stats(10, 4, 3, 5, 4)
  {
    SeedCategories();
  }

  /** Every seeded row has id k + 1 at position k. */
  lemma SeedIds()
    ensures forall k :: 0 <= k < |SeedTables().products| ==> SeedTables().products[k].id == k + 1
    ensures forall k :: 0 <= k < |SeedTables().customers| ==> SeedTables().customers[k].id == k + 1
    ensures forall k :: 0 <= k < |SeedTables().orders| ==> SeedTables().orders[k].id == k + 1
    ensures forall k :: 0 <= k < |SeedTables().orderItems| ==> SeedTables().orderItems[k].id == k + 1
  {
  }

  /** The seeded e-mail addresses are pairwise different. */
  lemma SeedEmails()
    ensures forall i, j :: 0 <= i < j < |SeedTables().customers| ==>
      SeedTables().customers[i].email != SeedTables().customers[j].email
  {
    var cs := SeedTables().customers;
    assert cs[0].email == "alice@example.com" && cs[1].email == "bob@example.com";
    assert cs[2].email == "charlie@example.com" && cs[3].email == "diana@example.com";
  }

  /** Every seeded order and item refers to an existing row. */
  lemma SeedReferences()
    ensures forall k :: 0 <= k < |SeedTables().orders| ==>
      HasCustomer(SeedTables().customers, SeedTables().orders[k].customerId)
    ensures forall k :: 0 <= k < |SeedTables().orderItems| ==>
      HasOrder(SeedTables().orders, SeedTables().orderItems[k].orderId)
      && HasProduct(SeedTables().products, SeedTables().orderItems[k].productId)
  {
    var t := SeedTables();
    assert t.customers[0].id == 1 && t.customers[1].id == 2 && t.customers[2].id == 3;
    assert t.orders[0].id == 1 && t.orders[1].id == 2 && t.orders[2].id == 3;
    assert t.products[0].id == 1 && t.products[1].id == 2 && t.products[2].id == 3 && t.products[6].id == 7;
  }

  /** The seeded stocks are not negative. */
  lemma SeedStocks()
    ensures forall k :: 0 <= k < |SeedTables().products| ==> SeedTables().products[k].stock >= 0
  {
  }

  /** Tables whose rows are numbered 1, 2, ... in order, with distinct e-mails, no negative stock and only references to existing rows, are consistent. */
  lemma NumberedConsistent(t: Tables)
    requires forall k :: 0 <= k < |t.products| ==> t.products[k].id == k + 1
    requires forall k :: 0 <= k < |t.customers| ==> t.customers[k].id == k + 1
    requires forall k :: 0 <= k < |t.orders| ==> t.orders[k].id == k + 1
    requires forall k :: 0 <= k < |t.orderItems| ==> t.orderItems[k].id == k + 1
    requires forall i, j :: 0 <= i < j < |t.customers| ==> t.customers[i].email != t.customers[j].email
    requires forall k :: 0 <= k < |t.products| ==> t.products[k].stock >= 0
    requires forall k :: 0 <= k < |t.orders| ==> HasCustomer(t.customers, t.orders[k].customerId)
    requires forall k :: 0 <= k < |t.orderItems| ==>
      HasOrder(t.orders, t.orderItems[k].orderId) && HasProduct(t.products, t.orderItems[k].productId)
    ensures Consistent(t)
  {
  }

  /** The seeded database satisfies every key and foreign-key constraint, and no stock is negative. */
  lemma SeedConsistent()
    ensures Consistent(SeedTables())
  {
    SeedIds();
    SeedEmails();
    SeedStocks();
    SeedReferences();
    NumberedConsistent(SeedTables());
  }
}
