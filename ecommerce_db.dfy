/**
 * The e-commerce database server: one module-level connection that is empty
 * until the database is initialised, either at startup or lazily by the
 * first tool call, and the tools that query or update it.
 */
module EcommerceDb {
  import opened Wrappers
  import opened Inventory

  /** The database a tool works on: the open one, or a freshly seeded one when there is none yet. */
  function Opened(conn: Option<Tables>): (t: Tables)
    ensures conn.Some? ==> t == conn.value
    ensures conn.None? ==> t == SeedTables()
  {
    if conn.Some? then conn.value else SeedTables()
  }

  class Server {
    /** The global connection; None until `initialize_database` has run. */
    var conn: Option<Tables>

    /** An open database keeps its keys, foreign keys and non-negative stocks. */
    predicate Valid()
      reads this
    {
      conn.Some? ==> Consistent(conn.value)
    }

    constructor ()
      ensures conn.None? && Valid()
    {
      conn := None;
    }

    /** `initialize_database`: a fresh database filled with the seed rows, each row getting the next autoincrement id. */
    method InitializeDatabase()
      modifies this
      ensures conn == Some(SeedTables()) && Valid()
    {
      var products: seq<Product> := [];
      for i := 0 to |ProductRows|
        invariant products == SeedProducts()[..i]
      {
        var row := ProductRows[i];
        products := products + [Product(|products| + 1, row.name, row.description, row.stock, row.category)];
      }
      var customers: seq<Customer> := [];
      for i := 0 to |CustomerRows|
        invariant customers == SeedCustomers()[..i]
      {
        var row := CustomerRows[i];
        customers := customers + [Customer(|customers| + 1, row.name, row.email)];
      }
      var orders: seq<Order> := [];
      orders := orders + [Order(|orders| + 1, 1, "completed")];
      orders := orders + [Order(|orders| + 1, 2, "completed")];
      orders := orders + [Order(|orders| + 1, 3, "pending")];
      var orderItems: seq<OrderItem> := [];
      for i := 0 to |OrderItemRows|
        invariant orderItems == SeedOrderItems()[..i]
      {
        var row := OrderItemRows[i];
        orderItems := orderItems + [OrderItem(|orderItems| + 1, row.orderId, row.productId, row.quantity)];
      }
      assert SeedProducts()[..|ProductRows|] == SeedProducts();
      assert SeedCustomers()[..|CustomerRows|] == SeedCustomers();
      assert SeedOrderItems()[..|OrderItemRows|] == SeedOrderItems();
      assert orders == SeedOrders();
      conn := Some(Tables(products, customers, orders, orderItems));
      SeedConsistent();
    }

    /** The `if not conn: initialize_database()` every tool starts with: the database is seeded once and then reused. */
    method Connect() returns (t: Tables)
      requires Valid()
      modifies this
      ensures old(conn).Some? ==> conn == old(conn)
      ensures old(conn).None? ==> conn == Some(SeedTables())
      ensures conn == Some(t) && Valid()
    {
      if conn.None? {
        InitializeDatabase();
      }
      t := conn.value;
    }

    /** `search_products` */
    method SearchProducts(query: string, category: Option<string>) returns (r: seq<Product>)
      requires Valid()
      modifies this
      ensures conn == Some(Opened(old(conn))) && Valid()
      ensures forall p :: p in r <==> p in Opened(old(conn)).products && SearchHit(p, query, category)
      ensures r == Search(Opened(old(conn)).products, query, category)
    {
      var t := Connect();
      r := Search(t.products, query, category);
    }

    /** `get_product` */
    method GetProductTool(productId: int) returns (r: Option<Product>)
      requires Valid()
      modifies this
      ensures conn == Some(Opened(old(conn))) && Valid()
      ensures r.None? <==> !HasProduct(Opened(old(conn)).products, productId)
      ensures r == GetProduct(Opened(old(conn)), productId)
    {
      var t := Connect();
      r := GetProduct(t, productId);
    }

    /** `get_customer` */
    method GetCustomerTool(email: string) returns (r: Option<Customer>)
      requires Valid()
      modifies this
      ensures conn == Some(Opened(old(conn))) && Valid()
      ensures r.Some? ==> r.value.email == email
      ensures r == GetCustomer(Opened(old(conn)), email)
    {
      var t := Connect();
      r := GetCustomer(t, email);
    }

    /** `get_order_details` */
    method GetOrderDetailsTool(orderId: int) returns (r: Option<OrderDetails>)
      requires Valid()
      modifies this
      ensures conn == Some(Opened(old(conn))) && Valid()
      ensures r == GetOrderDetails(Opened(old(conn)), orderId)
      ensures r.Some? ==> |r.value.items| == |ItemsOf(Opened(old(conn)).orderItems, orderId)|
    {
      var t := Connect();
      r := GetOrderDetails(t, orderId);
      if r.Some? {
        OrderDetailsListAllItems(t, orderId);
      }
    }

    /** `check_stock` */
    method CheckStockTool(productId: int) returns (r: StockReport)
      requires Valid()
      modifies this
      ensures conn == Some(Opened(old(conn))) && Valid()
      ensures r == CheckStock(Opened(old(conn)), productId)
      ensures r.Found? ==> r.stock >= 0
    {
      var t := Connect();
      r := CheckStock(t, productId);
    }

    /** `update_stock`: reads the current stock, refuses a missing product or a negative result, otherwise writes the new stock. */
    method UpdateStock(productId: int, quantityChange: int) returns (r: StockUpdate)
      requires Valid()
      modifies this
      ensures Valid()
      ensures var (t, reply) := ApplyStockUpdate(Opened(old(conn)), productId, quantityChange);
        conn == Some(t) && r == reply
      ensures r.Updated? ==> r.newStock >= 0 && r.newStock == r.previousStock + quantityChange
    {
      var t := Connect();
      var row := FindProduct(t.products, productId);
      if row.None? {
        return UpdateFailed(false, ProductNotFound);
      }
      var k := row.value;
      var currentStock := t.products[k].stock;
      var newStock := currentStock + quantityChange;
      if newStock < 0 {
        return UpdateFailed(false, InsufficientStock);
      }
      conn := Some(t.(products := t.products[k := t.products[k].(stock := newStock)]));
      StockUpdateKeepsConsistent(t, productId, quantityChange);
      r := Updated(true, productId, currentStock, newStock);
    }

    /** `get_database_stats`: the four table counts and the number of distinct categories. */
    method GetDatabaseStats() returns (r: Stats)
      requires Valid()
      modifies this
      ensures conn == Some(Opened(old(conn))) && Valid()
      ensures r == DatabaseStats(Opened(old(conn)))
      ensures old(conn).None? ==> r == Stats(10, 4, 3, 5, 4)
    {
      var t := Connect();
      r := DatabaseStats(t);
      if old(conn).None? {
        SeedStats();
      }
    }
  }
}
