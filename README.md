# Inventory and order bookkeeping, modelled in Dafny

This project models the in-memory core of `MyInventoryManager.py`, a single-user inventory and customer-order tool. It covers three parts:

- **The catalog** (`InventoryManager` with `Product`): an ordered list of product objects. Adding appends with no uniqueness check. Lookup returns the first product with the given id. A stock update adds a signed amount to that product in place. Deletion removes every product with the id.
- **The customer ledger** (`OrderManager` with `Customer` and `Order`): an ordered list of customer objects, each with its own ordered list of orders, plus the order-id counter. The counter starts at 1.
- **The order workflow**:
  - `create_order` has three outcomes: unknown customer, not enough stock, or success. On success the product's stock drops by the quantity, an order carrying the current counter is appended to the first matching customer, and the counter moves on by one.
  - The bookkeeping half of `load_orders` works over already-parsed lines. A line whose customer id is unknown creates a customer under the name on that line. The line's order is appended to the customer. The counter becomes `max(counter, id + 1)`.
  - Menu option 6 looks the product up in the catalog and hands that same object to `create_order`.

Files:
- `wrappers.dfy`: `Option` and `Max`.
- `inventory.dfy`, module `Inventory`: `Product`, `InventoryManager`, the first-match function `FindProduct`, and the delete filter `Remaining` with its lemmas.
- `ledger.dfy`, module `Ledger`: `Order`, `Customer`, `OrderRecord` (one parsed line of the order file), `FindCustomer`, and the pure description of a reload with its lemmas. The reload description is made of:
  - `CounterAfter`: the counter after reading the records;
  - `NewCustomers`: the customers created, as id and name, in creation order;
  - `LoadedFor`, `AfterRecord` and `AfterRecords`: which orders each customer receives.
- `order_manager.dfy`, module `OrderManagement`: the `OrderManager` class. Its object invariant `Valid()` says the counter is positive and above every stored order id. `IdsInOrder()` says each customer's order ids increase. `LoadNextRecord` is one turn of the `LoadOrders` loop: `LoadRecord` plus the ghost bookkeeping that carries the loop's description of the reload forward; it has no counterpart of its own in the source.
- `shell.dfy`, module `Shell`: menu option 6 (`PlaceOrder`) and a client scenario, `WidgetScenario`. In the scenario a catalog holds 10 widgets at 250 cents; an order for 3 gets id 1 and leaves 7, a further order for 20 is refused, and an unknown customer or product is reported. Its asserts check that the contracts are strong enough to predict each outcome.

Modelling choices:
- `Product` and `Customer` are classes because the source changes them in place through shared references. The product that menu option 6 finds in the catalog is the object `create_order` decrements, so the catalog shows the new stock.
- Ids, names and prices are `const` fields: the source sets them in the constructor and never reassigns them.
- Prices and totals are whole cents (`Cents = int`) rather than floats. Timestamps are an uninspected `int`. The clock read inside `Order` becomes the `now` parameter of `CreateOrder`.
- The source's `create_order` prints its outcome and returns `None`. The model returns the outcome as an `Outcome` value. `update_product` likewise returns whether the product was found instead of printing it.
- The source does not enforce everything the intended behaviour suggests, and the model follows the code:
  - Ids need not be unique. Duplicate products or customers are kept, and lookups return the first.
  - A stock update may make the quantity negative.
  - The stock test passes whenever the stock is at least the quantity, so a non-positive quantity passes against non-negative stock. A negative quantity raises the stock.
- When the order file is missing, the source leaves the current ledger untouched rather than emptying it. The model's `LoadOrders` over an empty record list does the same.

## Model

| member | source | states |
|---|---|---|
| `Inventory.Product.constructor` | MyInventoryManager.py:7-11 | the new product carries the given id, name, quantity and price |
| `Inventory.Product.UpdateStock` | MyInventoryManager.py:16-17 | quantity becomes old quantity plus the signed amount, with no check on the result's sign |
| `Inventory.FindProduct` | MyInventoryManager.py:71-75 | the result is the position of the first product whose id matches, and None exactly when no product matches |
| `Inventory.InventoryManager.constructor` | MyInventoryManager.py:50-51 | a new catalog is empty |
| `Inventory.InventoryManager.AddProduct` | MyInventoryManager.py:53-54 | the product is appended at the end; earlier products stay in order; a duplicate id is accepted |
| `Inventory.InventoryManager.GetProductById` | MyInventoryManager.py:71-75 | returns the first product in list order with the id, or null exactly when none has it |
| `Inventory.InventoryManager.UpdateProduct` | MyInventoryManager.py:56-62 | reports whether the id exists; only the first match's quantity changes, by the signed amount; every other product, and every product when the id is absent, keeps its quantity |
| `Inventory.InventoryManager.DeleteProduct` | MyInventoryManager.py:64-65 | the new list is the old one filtered by id, and no product with the id remains |
| `Inventory.Remaining` | MyInventoryManager.py:65 | the filtered list keeps exactly the products whose id differs, and is no longer than the original |
| `Inventory.RemainingAppend` | MyInventoryManager.py:65 | filtering distributes over concatenation, so the kept products keep their relative order |
| `Inventory.RemainingAbsent` | MyInventoryManager.py:65 | deleting an id no product carries leaves the list unchanged |
| `Inventory.RemainingShrinks` | MyInventoryManager.py:64-65 | the list gets shorter exactly when some product carries the id |
| `Inventory.RemainingIdempotent` | MyInventoryManager.py:64-65 | deleting an id twice is the same as deleting it once |
| `Inventory.RemainingCommutes` | MyInventoryManager.py:64-65 | deleting two ids gives the same list in either order |
| `Ledger.Customer.constructor` | MyInventoryManager.py:34-37 | a new customer has the given id and name and no orders |
| `Ledger.Customer.AddOrder` | MyInventoryManager.py:39-40 | the order is appended after the customer's existing orders |
| `Ledger.FindCustomer` | MyInventoryManager.py:100-104 | the result is the position of the first customer whose id matches, and None exactly when none matches |
| `Ledger.FindCustomerExtend` | MyInventoryManager.py:140-143 | registering customers at the end never changes which customer an already-known id resolves to |
| `Ledger.CounterAfterIsMax` | MyInventoryManager.py:147 | after reloading, the counter is at least its old value, above every loaded id, and equal either to its old value or to one past a loaded id |
| `Ledger.CounterAfterAppend` | MyInventoryManager.py:137-147 | reading two record lists in turn leaves the counter where reading their concatenation does |
| `Ledger.NewCustomersSpec` | MyInventoryManager.py:140-143 | customers created during reload have ids unknown before, each id is created once, and afterwards every record's customer id is known |
| `Ledger.NewCustomersNamedByFirstRecord` | MyInventoryManager.py:140-143 | each created customer takes its name from the first record with its id; later records' names are ignored |
| `Ledger.AllRecordsFound` | MyInventoryManager.py:140-146 | after the reload's registrations, every record's customer id resolves to a customer |
| `Ledger.AfterRecordSpec` | MyInventoryManager.py:140-146 | one record appends its order to the first customer with its id and leaves every other customer's orders as they were |
| `Ledger.AfterRecordsStep` | MyInventoryManager.py:137-146 | reading one more record, against a list grown only by newly created customers, is one AfterRecord step of the whole reload |
| `OrderManagement.OrderManager.constructor` | MyInventoryManager.py:93-95 | a new manager has no customers and counter 1, and its invariants hold |
| `OrderManagement.OrderManager.RegisterCustomer` | MyInventoryManager.py:97-98 | the customer is appended without a uniqueness check; the counter invariant survives exactly when that customer's orders lie below the counter |
| `OrderManagement.OrderManager.GetCustomerById` | MyInventoryManager.py:100-104 | returns the first customer in list order with the id, or null exactly when none has it |
| `OrderManagement.OrderManager.CreateOrder` | MyInventoryManager.py:106-120 | an unknown customer, or a quantity above the stock, changes no stock, no order list and not the counter. On success the stock becomes old minus quantity (so it is at least 0), and exactly one order is appended to the first matching customer. That order carries the old counter, the product name, the quantity and price times quantity. No other customer changes, and the counter grows by exactly 1. The new id exceeds every stored id, and both invariants are preserved |
| `OrderManagement.OrderManager.LoadRecord` | MyInventoryManager.py:138-147 | one line: the counter becomes max(old, id+1); a known id leaves the customer list as it was; an unknown id appends one fresh customer with the line's id and name. The order lists are those that AfterRecord gives, and the counter invariant is preserved |
| `OrderManagement.OrderManager.LoadOrders` | MyInventoryManager.py:134-147 | after reading all the records, the counter is CounterAfter of its old value, and the old customers remain as a prefix. The appended customers are fresh and are exactly NewCustomers of the old ids, in order. Every order list is AfterRecords of the old lists, every record's customer resolves, and the counter invariant is preserved |
| `Shell.PlaceOrder` | MyInventoryManager.py:197-206 | an unknown product id changes nothing. Otherwise the order is placed against the catalog's own first matching product, with the three outcomes of CreateOrder: on success that product's stock drops by the quantity, the order is appended to the first matching customer only, and the counter grows by 1; no other product's stock changes. Both invariants are preserved |

## Left out

- The menu loop, `input`, and every `print`/display method (`display_info`, `display_order`, `view_orders`, `view_products`, `view_all_orders`): these are input and output with no state of their own. Only menu option 6, the one action that joins the two stores, is modelled.
- File access: `save_inventory`, `load_inventory`, `save_orders`, the reading half of `load_orders` and the `FileNotFoundError` branches. These are library calls. `LoadOrders` takes the lines already split and converted. A line that fails to parse is not modelled. A wrong number of fields raises at the unpacking, before any customer is registered. A failed conversion of the order id, quantity, total or date raises after the line's unknown customer has been registered, so that customer is left without the order. Neither error is caught, since only a missing file is handled, so the program stops at start-up and the partial state is never used or saved.
- The text formats: CSV quoting, float printing, and the `YYYY-MM-DD HH:MM` date format with its truncation to the minute. The comma split in the order file only round-trips names without commas.
- Floating-point prices and totals: the model uses whole cents, so float rounding in `price * quantity` is not captured.
- The clock: `datetime.now()` is the `now` parameter and timestamps are never inspected.
- `OrderManagement.OrderManager.LoadOrders`: does not promise to keep `IdsInOrder()`, because the source appends loaded orders in file order whatever their ids are.
