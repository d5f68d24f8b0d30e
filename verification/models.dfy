/** The three mapped tables, their field validators, their `to_dict`
    serialisation and the cascading deletes declared on their relationships. */
module Models {
  import opened Wrappers
  import opened Json
  import opened Text
  import opened Rows

  datatype Restaurant = Restaurant(id: int, name: string, address: string)
  datatype Pizza = Pizza(id: int, name: string, ingredients: string)
  /** One pizza offered at one restaurant at a price. The price column is a
      float; it is modelled as an exact number. */
  datatype RestaurantPizza = RestaurantPizza(id: int, price: real, restaurantId: int, pizzaId: int)

  function RestaurantId(r: Restaurant): int { r.id }
  function PizzaId(p: Pizza): int { p.id }
  function RestaurantPizzaId(rp: RestaurantPizza): int { rp.id }

  // ----- Field validators -----

  const RestaurantNameError := "Restaurant name cannot be empty."
  const AddressError := "Address cannot be empty."
  const PizzaNameError := "Pizza name cannot be empty."
  const PriceError := "Price must be between 1 and 30."

  /** The rule the three string validators share: a missing (`None`), empty or
      whitespace-only value raises, anything else is stored stripped. */
  function ValidateNonBlank(value: Option<string>, message: string): (r: Result<string>)
    ensures r.Ok? <==> value.Some? && !AllSpace(value.value)
    ensures r.Ok? ==> r.value == Strip(value.value) && r.value != [] && Trimmed(r.value)
    ensures r.Err? ==> r.message == message
  {
    if value.None? || value.value == [] || Strip(value.value) == [] then Err(message)
    else Ok(Strip(value.value))
  }

  /** `Restaurant.validate_name`. */
  function ValidateRestaurantName(value: Option<string>): (r: Result<string>)
    ensures r.Ok? <==> value.Some? && !AllSpace(value.value)
    ensures r.Ok? ==> r.value == Strip(value.value) && r.value != []
    ensures r.Err? ==> r.message == RestaurantNameError
  {
    ValidateNonBlank(value, RestaurantNameError)
  }

  /** `Restaurant.validate_address`. */
  function ValidateRestaurantAddress(value: Option<string>): (r: Result<string>)
    ensures r.Ok? <==> value.Some? && !AllSpace(value.value)
    ensures r.Ok? ==> r.value == Strip(value.value) && r.value != []
    ensures r.Err? ==> r.message == AddressError
  {
    ValidateNonBlank(value, AddressError)
  }

  /** `Pizza.validate_name`. */
  function ValidatePizzaName(value: Option<string>): (r: Result<string>)
    ensures r.Ok? <==> value.Some? && !AllSpace(value.value)
    ensures r.Ok? ==> r.value == Strip(value.value) && r.value != []
    ensures r.Err? ==> r.message == PizzaNameError
  {
    ValidateNonBlank(value, PizzaNameError)
  }

  /** A value a string validator has accepted passes that validator again unchanged. */
  lemma {:induction false} ValidatorsIdempotent(value: Option<string>)
    ensures ValidateRestaurantName(value).Ok? ==>
      ValidateRestaurantName(Some(ValidateRestaurantName(value).value)) == ValidateRestaurantName(value)
    ensures ValidateRestaurantAddress(value).Ok? ==>
      ValidateRestaurantAddress(Some(ValidateRestaurantAddress(value).value)) == ValidateRestaurantAddress(value)
    ensures ValidatePizzaName(value).Ok? ==>
      ValidatePizzaName(Some(ValidatePizzaName(value).value)) == ValidatePizzaName(value)
  {
    if value.Some? {
      StripIdempotent(value.value);
    }
  }

  /** `RestaurantPizza.validate_price`: both bounds are inclusive and an
      accepted price is stored as given. */
  function ValidatePrice(value: real): (r: Result<real>)
    ensures r.Ok? <==> 1.0 <= value <= 30.0
    ensures r.Ok? ==> r.value == value
    ensures r.Err? ==> r.message == PriceError
  {
    if 1.0 <= value <= 30.0 then Ok(value) else Err(PriceError)
  }

  // ----- The database -----

  /** The three tables, each in primary-key order. */
  datatype Tables = Tables(restaurants: seq<Restaurant>, pizzas: seq<Pizza>, restaurantPizzas: seq<RestaurantPizza>)

  function FindRestaurant(t: Tables, id: int): Option<Restaurant> {
    FindById(t.restaurants, RestaurantId, id)
  }

  function FindPizza(t: Tables, id: int): Option<Pizza> {
    FindById(t.pizzas, PizzaId, id)
  }

  function FindRestaurantPizza(t: Tables, id: int): Option<RestaurantPizza> {
    FindById(t.restaurantPizzas, RestaurantPizzaId, id)
  }

  /** Both foreign keys of `rp` name a stored row. */
  predicate RowResolves(t: Tables, rp: RestaurantPizza) {
    FindRestaurant(t, rp.restaurantId).Some? && FindPizza(t, rp.pizzaId).Some?
  }

  /** Every table is in primary-key order. */
  predicate Ordered(t: Tables) {
    && IdsIncreasing(t.restaurants, RestaurantId)
    && IdsIncreasing(t.pizzas, PizzaId)
    && IdsIncreasing(t.restaurantPizzas, RestaurantPizzaId)
  }

  /** Every stored name and address is as its validator stores it. */
  predicate NamesValid(t: Tables) {
    && (forall i | 0 <= i < |t.restaurants| ::
          && ValidateRestaurantName(Some(t.restaurants[i].name)) == Ok(t.restaurants[i].name)
          && ValidateRestaurantAddress(Some(t.restaurants[i].address)) == Ok(t.restaurants[i].address))
    && (forall i | 0 <= i < |t.pizzas| :: ValidatePizzaName(Some(t.pizzas[i].name)) == Ok(t.pizzas[i].name))
  }

  /** Every price is in range and every RestaurantPizza refers to a stored
      restaurant and pizza. */
  predicate OffersValid(t: Tables) {
    forall rp | rp in t.restaurantPizzas :: ValidatePrice(rp.price) == Ok(rp.price) && RowResolves(t, rp)
  }

  /** The state the application keeps the database in. */
  predicate WellFormed(t: Tables) {
    Ordered(t) && NamesValid(t) && OffersValid(t)
  }

  /** The `restaurant_pizzas` relationship of restaurant `id` (its backref is
      `RestaurantPizza.restaurant`): the rows that refer to it, in table order
      (`Rows.FilterAppend`). */
  function RowsOfRestaurant(t: Tables, id: int): (rows: seq<RestaurantPizza>)
    ensures forall rp | rp in rows :: rp in t.restaurantPizzas && rp.restaurantId == id
    ensures forall rp | rp in t.restaurantPizzas && rp.restaurantId == id :: rp in rows
  {
    Filter(t.restaurantPizzas, (rp: RestaurantPizza) => rp.restaurantId == id)
  }

  /** In a well-formed database every row of a restaurant's relationship has
      its pizza, which is what serialising the restaurant needs. */
  lemma RowsOfRestaurantResolve(t: Tables, id: int)
    requires OffersValid(t)
    ensures forall x | x in RowsOfRestaurant(t, id) :: FindPizza(t, x.pizzaId).Some?
  {
  }

  // ----- Serialisation -----

  /** `Pizza.to_dict`: flat, with exactly the keys `id`, `name`, `ingredients`
      holding the pizza's three columns. */
  function PizzaToDict(p: Pizza): (j: Value)
    ensures j.Obj? && j.fields.Keys == {"id", "name", "ingredients"}
    ensures j.fields["id"] == Int(p.id)
    ensures j.fields["name"] == Str(p.name) && j.fields["ingredients"] == Str(p.ingredients)
  {
    Obj(map["id" := Int(p.id), "name" := Str(p.name), "ingredients" := Str(p.ingredients)])
  }

  /** `Restaurant.to_dict`: the restaurant's columns and one entry per row of
      its `restaurant_pizzas` relationship, in that order, each serialised
      with its pizza but without the back-reference to the restaurant, so no
      nested entry has a `restaurant` key. */
  function RestaurantToDict(t: Tables, r: Restaurant): (j: Value)
    requires forall rp | rp in RowsOfRestaurant(t, r.id) :: FindPizza(t, rp.pizzaId).Some?
    ensures j.Obj? && j.fields.Keys == {"id", "name", "address", "restaurant_pizzas"}
    ensures j.fields["id"] == Int(r.id)
    ensures j.fields["name"] == Str(r.name) && j.fields["address"] == Str(r.address)
    ensures j.fields["restaurant_pizzas"].Arr?
    ensures var items, rows := j.fields["restaurant_pizzas"].items, RowsOfRestaurant(t, r.id);
      && |items| == |rows|
      && forall i | 0 <= i < |items| ::
           && rows[i] in rows
           && items[i] == RestaurantPizzaToDict(t, rows[i], true, false)
           && items[i].Obj? && "restaurant" !in items[i].fields && "pizza" in items[i].fields
           && "id" in items[i].fields && items[i].fields["id"] == Int(rows[i].id)
    decreases 1
  {
    var rows := RowsOfRestaurant(t, r.id);
    var items := seq(|rows|, i requires 0 <= i < |rows| =>
      assert rows[i] in rows;
      RestaurantPizzaToDict(t, rows[i], true, false));
    Obj(map["id" := Int(r.id), "name" := Str(r.name), "address" := Str(r.address),
             "restaurant_pizzas" := Arr(items)])
  }

  /** The four columns every `RestaurantPizza.to_dict` result carries. */
  function ScalarFields(rp: RestaurantPizza): (m: map<string, Value>)
    ensures m.Keys == {"id", "price", "restaurant_id", "pizza_id"}
    ensures m["id"] == Int(rp.id) && m["price"] == Real(rp.price)
    ensures m["restaurant_id"] == Int(rp.restaurantId) && m["pizza_id"] == Int(rp.pizzaId)
    ensures forall k | k in m :: DepthAtMost(m[k], 0)
  {
    map["id" := Int(rp.id), "price" := Real(rp.price), "restaurant_id" := Int(rp.restaurantId), "pizza_id" := Int(rp.pizzaId)]
  }

  /** The two keys `to_dict` may add are distinct from each other and from the
      four column keys. */
  lemma NestedKeysAreNew()
    ensures "restaurant" != "pizza"
    ensures "restaurant" !in {"id", "price", "restaurant_id", "pizza_id"}
    ensures "pizza" !in {"id", "price", "restaurant_id", "pizza_id"}
  {
  }

  /** `RestaurantPizza.to_dict`: always the row's `id`, `price`,
      `restaurant_id` and `pizza_id`; the dict of the restaurant it refers to
      exactly when that is not excluded, the dict of the pizza it refers to
      exactly when that is not excluded. */
  function RestaurantPizzaToDict(t: Tables, rp: RestaurantPizza, excludeRestaurant: bool, excludePizza: bool): (j: Value)
    requires !excludeRestaurant ==>
      && FindRestaurant(t, rp.restaurantId).Some?
      && forall x | x in RowsOfRestaurant(t, rp.restaurantId) :: FindPizza(t, x.pizzaId).Some?
    requires !excludePizza ==> FindPizza(t, rp.pizzaId).Some?
    ensures j.Obj?
    ensures {"id", "price", "restaurant_id", "pizza_id"} <= j.fields.Keys
    ensures j.fields.Keys <= {"id", "price", "restaurant_id", "pizza_id", "restaurant", "pizza"}
    ensures j.fields["id"] == Int(rp.id) && j.fields["price"] == Real(rp.price)
    ensures j.fields["restaurant_id"] == Int(rp.restaurantId) && j.fields["pizza_id"] == Int(rp.pizzaId)
    ensures "restaurant" in j.fields <==> !excludeRestaurant
    ensures !excludeRestaurant ==>
      j.fields["restaurant"] == RestaurantToDict(t, FindRestaurant(t, rp.restaurantId).value)
    ensures "pizza" in j.fields <==> !excludePizza
    ensures !excludePizza ==> j.fields["pizza"] == PizzaToDict(FindPizza(t, rp.pizzaId).value)
    decreases if excludeRestaurant then 0 else 2
  {
    NestedKeysAreNew();
    var data := ScalarFields(rp);
    var data := if !excludeRestaurant
      then data["restaurant" := RestaurantToDict(t, FindRestaurant(t, rp.restaurantId).value)]
      else data;
    var data := if !excludePizza
      then data["pizza" := PizzaToDict(FindPizza(t, rp.pizzaId).value)]
      else data;
    Obj(data)
  }

  /** Serialising never cycles: a pizza is flat, a restaurant nests at most
      four levels deep, and a RestaurantPizza at most five with its restaurant,
      two with only its pizza, and one with neither. */
  lemma {:induction false} PizzaDictDepth(p: Pizza)
    ensures DepthAtMost(PizzaToDict(p), 1)
  {
  }

  lemma {:induction false} RestaurantDictDepth(t: Tables, r: Restaurant)
    requires forall rp | rp in RowsOfRestaurant(t, r.id) :: FindPizza(t, rp.pizzaId).Some?
    ensures DepthAtMost(RestaurantToDict(t, r), 4)
    decreases 1
  {
    var j := RestaurantToDict(t, r);
    var rows := RowsOfRestaurant(t, r.id);
    var items := j.fields["restaurant_pizzas"].items;
    forall i | 0 <= i < |items| ensures DepthAtMost(items[i], 2) {
      assert rows[i] in rows;
      RestaurantPizzaDictDepth(t, rows[i], true, false);
      assert items[i] == RestaurantPizzaToDict(t, rows[i], true, false);
    }
    forall k | k in j.fields ensures DepthAtMost(j.fields[k], 3) { }
  }

  lemma {:induction false} RestaurantPizzaDictDepth(t: Tables, rp: RestaurantPizza, excludeRestaurant: bool, excludePizza: bool)
    requires !excludeRestaurant ==>
      && FindRestaurant(t, rp.restaurantId).Some?
      && forall x | x in RowsOfRestaurant(t, rp.restaurantId) :: FindPizza(t, x.pizzaId).Some?
    requires !excludePizza ==> FindPizza(t, rp.pizzaId).Some?
    ensures DepthAtMost(RestaurantPizzaToDict(t, rp, excludeRestaurant, excludePizza),
                        if !excludeRestaurant then 5 else if !excludePizza then 2 else 1)
    decreases if excludeRestaurant then 0 else 2
  {
    var d: nat := if !excludeRestaurant then 5 else if !excludePizza then 2 else 1;
    var m := ScalarFields(rp);
    ScalarFieldsDepth(rp, d - 1);
    if !excludeRestaurant {
      var r := RestaurantToDict(t, FindRestaurant(t, rp.restaurantId).value);
      RestaurantDictDepth(t, FindRestaurant(t, rp.restaurantId).value);
      DepthAtMostMonotonic(r, 4, d - 1);
      UpdateKeepsDepth(m, "restaurant", r, m["restaurant" := r], d - 1);
      m := m["restaurant" := r];
    }
    if !excludePizza {
      var p := PizzaToDict(FindPizza(t, rp.pizzaId).value);
      PizzaDictDepth(FindPizza(t, rp.pizzaId).value);
      DepthAtMostMonotonic(p, 1, d - 1);
      UpdateKeepsDepth(m, "pizza", p, m["pizza" := p], d - 1);
      m := m["pizza" := p];
    }
    assert RestaurantPizzaToDict(t, rp, excludeRestaurant, excludePizza) == Obj(m);
  }

  lemma ScalarFieldsDepth(rp: RestaurantPizza, d: nat)
    ensures forall k | k in ScalarFields(rp) :: DepthAtMost(ScalarFields(rp)[k], d)
  {
  }

  lemma UpdateKeepsDepth(m: map<string, Value>, key: string, v: Value, m': map<string, Value>, d: nat)
    requires forall k | k in m :: DepthAtMost(m[k], d)
    requires DepthAtMost(v, d) && m' == m[key := v]
    ensures forall k | k in m' :: DepthAtMost(m'[k], d)
  {
  }

  // ----- Cascading deletes -----

  /** Deleting restaurant `id` with `cascade="all, delete-orphan"` on its
      `restaurant_pizzas`: the restaurant goes, and with it every row that
      refers to it; nothing else changes. */
  function DeleteRestaurantCascade(t: Tables, id: int): (t': Tables)
    ensures t'.pizzas == t.pizzas
    ensures forall r | r in t'.restaurants :: r in t.restaurants && r.id != id
    ensures forall r | r in t.restaurants && r.id != id :: r in t'.restaurants
    ensures forall rp | rp in t'.restaurantPizzas :: rp in t.restaurantPizzas && rp.restaurantId != id
    ensures forall rp | rp in t.restaurantPizzas && rp.restaurantId != id :: rp in t'.restaurantPizzas
  {
    Tables(Filter(t.restaurants, (r: Restaurant) => r.id != id),
           t.pizzas,
           Filter(t.restaurantPizzas, (rp: RestaurantPizza) => rp.restaurantId != id))
  }

  /** Deleting pizza `id`, with the same cascade on `Pizza.restaurant_pizzas`. */
  function DeletePizzaCascade(t: Tables, id: int): (t': Tables)
    ensures t'.restaurants == t.restaurants
    ensures forall p | p in t'.pizzas :: p in t.pizzas && p.id != id
    ensures forall p | p in t.pizzas && p.id != id :: p in t'.pizzas
    ensures forall rp | rp in t'.restaurantPizzas :: rp in t.restaurantPizzas && rp.pizzaId != id
    ensures forall rp | rp in t.restaurantPizzas && rp.pizzaId != id :: rp in t'.restaurantPizzas
  {
    Tables(t.restaurants,
           Filter(t.pizzas, (p: Pizza) => p.id != id),
           Filter(t.restaurantPizzas, (rp: RestaurantPizza) => rp.pizzaId != id))
  }

  /** A lookup in a table that lost some rows finds a surviving row again. */
  lemma FindSurvivor<T>(s: seq<T>, s': seq<T>, idOf: T -> int, id: int)
    requires FindById(s, idOf, id).Some? && FindById(s, idOf, id).value in s'
    ensures FindById(s', idOf, id).Some?
  {
  }

  /** Dropping rows keeps every stored name as its validator stores it. */
  lemma NamesValidAfterRemoval(t: Tables, t': Tables)
    requires NamesValid(t)
    requires forall r | r in t'.restaurants :: r in t.restaurants
    requires forall p | p in t'.pizzas :: p in t.pizzas
    ensures NamesValid(t')
  {
    forall i | 0 <= i < |t'.restaurants|
      ensures && ValidateRestaurantName(Some(t'.restaurants[i].name)) == Ok(t'.restaurants[i].name)
              && ValidateRestaurantAddress(Some(t'.restaurants[i].address)) == Ok(t'.restaurants[i].address)
    {
      assert t'.restaurants[i] in t.restaurants;
      var j :| 0 <= j < |t.restaurants| && t.restaurants[j] == t'.restaurants[i];
    }
    forall i | 0 <= i < |t'.pizzas| ensures ValidatePizzaName(Some(t'.pizzas[i].name)) == Ok(t'.pizzas[i].name) {
      assert t'.pizzas[i] in t.pizzas;
      var j :| 0 <= j < |t.pizzas| && t.pizzas[j] == t'.pizzas[i];
    }
  }

  /** The cascade is what keeps the database well formed when a restaurant is
      deleted: no remaining row refers to the deleted restaurant. */
  lemma {:induction false} DeleteRestaurantCascadeKeepsWellFormed(t: Tables, id: int)
    requires WellFormed(t)
    ensures WellFormed(DeleteRestaurantCascade(t, id))
    ensures FindRestaurant(DeleteRestaurantCascade(t, id), id).None?
  {
    var t' := DeleteRestaurantCascade(t, id);
    FilterKeepsIncreasing(t.restaurants, RestaurantId, (r: Restaurant) => r.id != id);
    NamesValidAfterRemoval(t, t');
    FilterKeepsIncreasing(t.restaurantPizzas, RestaurantPizzaId, (rp: RestaurantPizza) => rp.restaurantId != id);
    forall rp | rp in t'.restaurantPizzas ensures RowResolves(t', rp) {
      assert RowResolves(t, rp);
      FindSurvivor(t.restaurants, t'.restaurants, RestaurantId, rp.restaurantId);
    }
  }

  /** Deleting a pizza keeps the database well formed for the same reason. */
  lemma {:induction false} DeletePizzaCascadeKeepsWellFormed(t: Tables, id: int)
    requires WellFormed(t)
    ensures WellFormed(DeletePizzaCascade(t, id))
    ensures FindPizza(DeletePizzaCascade(t, id), id).None?
  {
    var t' := DeletePizzaCascade(t, id);
    FilterKeepsIncreasing(t.pizzas, PizzaId, (p: Pizza) => p.id != id);
    NamesValidAfterRemoval(t, t');
    FilterKeepsIncreasing(t.restaurantPizzas, RestaurantPizzaId, (rp: RestaurantPizza) => rp.pizzaId != id);
    forall rp | rp in t'.restaurantPizzas ensures RowResolves(t', rp) {
      assert RowResolves(t, rp);
      FindSurvivor(t.pizzas, t'.pizzas, PizzaId, rp.pizzaId);
    }
  }

  /** The id the database gives the next RestaurantPizza row. */
  function NextRestaurantPizzaId(t: Tables): (n: int)
    requires IdsIncreasing(t.restaurantPizzas, RestaurantPizzaId)
    ensures forall rp | rp in t.restaurantPizzas :: rp.id < n
    ensures t.restaurantPizzas == [] ==> n == 1
  {
    NextId(t.restaurantPizzas, RestaurantPizzaId)
  }

  /** Inserting a row that passed the price validator and whose foreign keys
      resolve, under the next id, keeps the database well formed, and the row
      can be looked up by its id afterwards. */
  lemma {:induction false} InsertKeepsWellFormed(t: Tables, rp: RestaurantPizza)
    requires WellFormed(t)
    requires ValidatePrice(rp.price) == Ok(rp.price) && RowResolves(t, rp)
    requires rp.id == NextRestaurantPizzaId(t)
    ensures WellFormed(t.(restaurantPizzas := t.restaurantPizzas + [rp]))
    ensures FindRestaurantPizza(t.(restaurantPizzas := t.restaurantPizzas + [rp]), rp.id) == Some(rp)
  {
    var t' := t.(restaurantPizzas := t.restaurantPizzas + [rp]);
    AppendKeepsIncreasing(t.restaurantPizzas, RestaurantPizzaId, rp);
    assert Ordered(t');
    assert NamesValid(t');
    OffersValidAfterInsert(t, rp);
    FindByIdUnique(t'.restaurantPizzas, RestaurantPizzaId, rp);
  }

  lemma OffersValidAfterInsert(t: Tables, rp: RestaurantPizza)
    requires OffersValid(t) && ValidatePrice(rp.price) == Ok(rp.price) && RowResolves(t, rp)
    ensures OffersValid(t.(restaurantPizzas := t.restaurantPizzas + [rp]))
  {
  }
}
