# Pizza restaurant service — a Dafny model

This project models the domain rules of a small Flask/SQLAlchemy JSON service.
The service keeps three tables:

- restaurants, each with a name and an address;
- pizzas, each with a name and ingredients;
- `RestaurantPizza` rows, which offer one pizza at one restaurant at a price.

What the model covers:

- **The field validators.** A name or address must be non-blank after
  Python's `str.strip()` and is stored stripped. A price must lie in [1, 30].
- **The `to_dict` serialisation.** A restaurant embeds its rows without the
  back-reference, and a row can drop either parent. The output nests to a
  bounded depth.
- **The cascading deletes.** These come from the `cascade="all, delete-orphan"`
  relationships.
- **Five JSON routes:**
  - `GET /restaurants`
  - `GET /restaurants/<id>`
  - `DELETE /restaurants/<id>`
  - `GET /pizzas`
  - `POST /restaurant_pizzas`

How it is structured:

- The database is a value of type `Models.Tables`. Each table is a sequence in
  primary-key order.
- `Models.WellFormed` is the invariant every route keeps. It has three parts:
  - ids strictly increase in every table;
  - every stored name passes its validator unchanged;
  - every price is in range and both foreign keys of every row resolve.
- Each route is a function of the database and the request. The three GET
  routes return only a response. DELETE and POST return the response and the
  next database.
- The two routes that write are also methods of the class `App.Database`. That
  class is the session whose three table fields they update in place. Each
  method's contract ties its response and new state to the route function.

Modules, one per file:

- `Wrappers` holds `Option` and `Result`.
- `Json` holds the JSON value type and its nesting depth.
- `Text` models Python's `str.strip()` and `str.isspace()`.
- `Rows` holds the generic table helpers: `query.get`, filtering, ordering and
  the next id.
- `Models` models `server/models.py`.
- `App` models `server/app.py`.

## Model

| member | source | states |
|---|---|---|
| Text.Strip | server/models.py:40-42 | `strip()` returns a slice of its input with only whitespace on both sides. The result has no whitespace at either end. It is empty exactly when the input is all whitespace. |
| Text.StripIdempotent | server/models.py:42 | Stripping a stripped string changes nothing. |
| Models.ValidateRestaurantName | server/models.py:38-42 | A missing or all-whitespace name is rejected with "Restaurant name cannot be empty." Every other name is accepted and stored stripped. The stored value is non-empty. |
| Models.ValidateRestaurantAddress | server/models.py:44-48 | Same rule for the address, with "Address cannot be empty." |
| Models.ValidatePizzaName | server/models.py:73-77 | Same rule for a pizza name, with "Pizza name cannot be empty." |
| Models.ValidatorsIdempotent | server/models.py:42 | Each string validator, applied again to a value it has accepted, accepts it unchanged. |
| Models.ValidatePrice | server/models.py:102-106 | A price is accepted exactly when 1 <= price <= 30 (both bounds inclusive). An accepted price is returned unchanged. Otherwise the error is "Price must be between 1 and 30." |
| Models.RowsOfRestaurant | server/models.py:23-28 | The `restaurant_pizzas` relationship of a restaurant holds exactly the rows whose `restaurant_id` is that restaurant's id. |
| Models.PizzaToDict | server/models.py:66-71 | A pizza serialises to an object with exactly the keys `id`, `name` and `ingredients`, holding its id, name and ingredients. |
| Models.RestaurantToDict | server/models.py:30-36 | A restaurant serialises to exactly `id`, `name`, `address` and `restaurant_pizzas`, holding its id, name and address. `restaurant_pizzas` holds one entry per related row, in relationship order. Entry i is row i serialised with its pizza and without its restaurant, so it has a `pizza` key, no `restaurant` key, and that row's id. |
| Models.RestaurantPizzaToDict | server/models.py:88-100 | A row always serialises its `id`, `price`, `restaurant_id` and `pizza_id` values. `restaurant` is present exactly when not excluded, and then holds the dict of the restaurant the row refers to. `pizza` is present exactly when not excluded, and then holds the dict of the pizza the row refers to. There are no other keys. |
| Models.PizzaDictDepth | server/models.py:66-71 | A serialised pizza is flat: depth 1. |
| Models.RestaurantDictDepth | server/models.py:30-36 | A serialised restaurant nests at most 4 levels deep. |
| Models.RestaurantPizzaDictDepth | server/models.py:96-99 | A serialised row nests at most 5 levels with its restaurant, 2 with only its pizza, and 1 with neither, so serialisation never cycles. |
| Models.DeleteRestaurantCascade | server/models.py:23-28 | Deleting a restaurant removes it and every row that refers to it. All other restaurants, rows and pizzas stay. |
| Models.DeletePizzaCascade | server/models.py:59-64 | Deleting a pizza removes it and every row that refers to it. All other pizzas, rows and restaurants stay. |
| Models.DeleteRestaurantCascadeKeepsWellFormed | server/models.py:23-28 | After the restaurant cascade, the database is still well formed: no row is left dangling. A lookup of the deleted id finds nothing. |
| Models.DeletePizzaCascadeKeepsWellFormed | server/models.py:59-64 | The same holds after the pizza cascade. |
| Rows.NextId | server/app.py:88-89 | The id a new row gets is above every stored id, and it is 1 in an empty table (SQLite's default rowid rule). |
| Models.NextRestaurantPizzaId | server/app.py:88-89 | The id the next RestaurantPizza row gets is above every stored row's id, and it is 1 when there are no rows. |
| Models.InsertKeepsWellFormed | server/app.py:83-89 | Inserting a row under the next id keeps the database well formed, provided its price validates and its foreign keys resolve. The new row can then be looked up by its id. |
| Rows.FindById | server/app.py:33 | `query.get(id)` returns a stored row that carries that id. It returns nothing only when no stored row has the id. |
| Rows.FindByIdUnique | server/app.py:33 | In a table with increasing ids, `query.get` of a stored row's id returns exactly that row. |
| Rows.Filter | server/models.py:23-28 | Selecting the rows that satisfy a condition keeps exactly those rows and no others. |
| Rows.FilterAppend | server/models.py:23-28 | Selection keeps table order: the selected rows of a concatenation are those of the first part followed by those of the second. |
| App.GetRestaurants | server/app.py:22-26 | Status 200 with one item per stored restaurant, in table order. Item i is exactly restaurant i's `to_dict`, with the four restaurant keys and its id. |
| App.GetRestaurantById | server/app.py:30-36 | Status 200 exactly when the id is stored, with that restaurant's dict. Otherwise 404 `{"error": "Restaurant not found"}`. |
| App.GetPizzas | server/app.py:53-57 | Status 200 with one item per stored pizza, in table order. Item i is exactly pizza i's `to_dict`, with the three pizza keys and its id. |
| App.DeleteRestaurantOutcome | server/app.py:41-49 | An existing id gives 204 with an empty body, and the cascade is applied. An absent id gives 404 and leaves the database unchanged. Either way a later GET of the id gives 404, and the database stays well formed. |
| App.MissingKeys | server/app.py:65-66 | The missing keys are exactly the required keys the payload lacks. None is missing exactly when `price`, `restaurant_id` and `pizza_id` are all present. |
| App.MissingKeysInOrder | server/app.py:65-66 | The missing keys come in the order `price`, `restaurant_id`, `pizza_id`. |
| App.Join | server/app.py:68 | `sep.join` of no parts is the empty string, and of one part is that part. Together with `App.JoinAppend` this fixes the result for every list. |
| App.JoinAppend | server/app.py:68 | `', '.join` puts exactly one separator between each pair of neighbouring parts: joining one more part appends the separator and that part. |
| App.JoinOfRequiredKeys | server/app.py:68 | The three required keys join to "price, restaurant_id, pizza_id". |
| App.MissingKeysResponse | server/app.py:67-68 | A non-empty missing list gets status 400 and a body with the single key `error`, whose value is "Missing keys: " followed by the missing keys joined with ", ". |
| App.PriceValue | server/app.py:72-73 | The comparison `1 <= price <= 30` can run exactly for an integer, a float or a boolean. An integer or float is compared by its value, and `true`/`false` as 1/0. Any other JSON value makes it raise. |
| App.IdValue | server/app.py:77-78 | Only a JSON integer is taken as a primary key, and it names the row with that id. |
| App.LookupRestaurant | server/app.py:77 | `Restaurant.query.get(data["restaurant_id"])` finds a restaurant exactly when the value is an integer id that is stored. What it finds is that restaurant. |
| App.LookupPizza | server/app.py:78 | The same for `Pizza.query.get(data["pizza_id"])`. |
| App.NewRow | server/app.py:83-87 | The row an admissible payload creates carries the next id, above every stored id. Its price is the payload's price, which the price validator accepts. Its ids are the payload's ids, and both resolve. |
| App.AcceptRow | server/app.py:88-90 | Adding and committing the row appends exactly that row and nothing else. The database stays well formed. The row can be looked up by its id. The answer is 201 with the row's full dict, both parents included. |
| App.AddRestaurantPizzaOutcome | server/app.py:61-90 | The status is 201 exactly when the payload is admissible: all keys present, a numeric price in [1, 30], and both ids stored. In that case the outcome is `AcceptRow` of `NewRow`, so exactly one row with the next id, the given price and the given ids is added. Any other outcome leaves the database unchanged. The database stays well formed. |
| App.AddChecksRunInOrder | server/app.py:65-80 | The first failing check decides the response: missing keys give 400 "Missing keys: …", then a non-numeric price gives 500, then a price out of range gives 400 `{"errors": ["validation errors"]}`, then an unknown restaurant or pizza gives 400 "Invalid restaurant_id or pizza_id". |
| App.MissingPizzaIdIsReported | server/app.py:65-68 | A payload with `price` and `restaurant_id` but no `pizza_id` gets 400 "Missing keys: pizza_id" and changes nothing. |
| App.AllKeysMissingAreReported | server/app.py:65-68 | A payload with none of the three keys gets 400 "Missing keys: price, restaurant_id, pizza_id" and changes nothing. |
| App.Database.DeleteRestaurant | server/app.py:41-49 | The session method keeps the database well formed. Its response and new tables are those of `DeleteRestaurantOutcome`, and the pizzas table is untouched. |
| App.Database.AddRestaurantPizza | server/app.py:61-90 | The session method keeps the database well formed. Its response and new tables are those of `AddRestaurantPizzaOutcome`, and the restaurants and pizzas tables are untouched. |

## Left out

- Flask routing, `request.get_json()`, `jsonify` and HTTP transport. A route is a function from the tables and the decoded JSON object to a status and a body. A request body that is not a JSON object is not modelled.
- JSON key order and pretty-printing. Objects are maps.
- SQLAlchemy's session, commit and rollback, the `MetaData` naming convention and Flask-Migrate. The session is the class `App.Database`, whose `delete`/`add` followed by `commit` is one assignment to its table fields.
- Id assignment assumes SQLite's default rowid rule: one more than the largest id, or 1 for an empty table. The database engine is not part of this model.
- The blanket `except Exception` handlers that answer 500 with the exception text. One case is modelled: a non-numeric `price` makes the comparison at server/app.py:73 raise, which gives status 500 and leaves the database unchanged. The body carries a fixed message in place of Python's exception text. A JSON `true`/`false` price counts as 1/0, as Python's `bool` is an `int`.
- `App.IdValue`, `App.LookupRestaurant` and `App.LookupPizza`: only a JSON integer names a stored row. SQLite's INTEGER affinity would let `query.get` match `"1"`, `1.0` or `true` to row 1, so the source answers 201 where the model answers 400 "Invalid restaurant_id or pizza_id". Ids are unbounded integers: an id outside SQLite's 64-bit INTEGER range makes `query.get` raise, which the source answers with 500 (server/app.py:37-38, 50-51, 92-93), while the model answers 404 for GET/DELETE by id and 400 for the POST.
- The `db.Float` price column: prices are exact reals, so NaN, infinities and rounding are not modelled.
- The validators receive `None` or a string. Other Python values (numbers, lists) and their truthiness are not modelled.
- `delete-orphan` on removing a row from a relationship collection: no route does that. Only deletion of the parent is modelled.
- Deleting a pizza has no route. Its cascade is modelled as `Models.DeletePizzaCascade` with its invariant lemma.
- The `index` HTML route, environment and configuration reading, and `app.run` (server/app.py:8-15, 95-101).
- server/seed.py, a fixture script with console output.
