/** The five JSON routes. Each handler is a function of the database (the
    three tables as a value) and the request: the three GET routes return only
    the response, DELETE and POST return the response and the new database.
    The two routes that write are also methods of `Database`, the session
    object whose tables they change in place. */
module App {
  import opened Wrappers
  import opened Json
  import opened Rows
  import opened Models

  /** A response body: JSON, or the plain text of a 204. */
  datatype Body = Plain(text: string) | JsonBody(value: Value)
  datatype Response = Response(status: int, body: Body)

  /** A decoded request body. */
  type Payload = map<string, Value>

  function ErrorResponse(status: int, message: string): Response {
    Response(status, JsonBody(Obj(map["error" := Str(message)])))
  }

  const RestaurantNotFound := ErrorResponse(404, "Restaurant not found")
  const ValidationErrors := Response(400, JsonBody(Obj(map["errors" := Arr([Str("validation errors")])])))
  const InvalidReference := ErrorResponse(400, "Invalid restaurant_id or pizza_id")
  /** What the blanket handler returns when comparing a non-number price with
      an integer raises; the exception's text is not modelled. */
  const PriceTypeError := Response(500, JsonBody(Obj(map["errors" := Arr([Str("price is not a number")])])))

  predicate HasRestaurant(t: Tables, id: int) {
    exists r | r in t.restaurants :: r.id == id
  }

  predicate HasPizza(t: Tables, id: int) {
    exists p | p in t.pizzas :: p.id == id
  }

  // ----- GET /restaurants, GET /restaurants/<id>, GET /pizzas -----

  /** `get_restaurants`: status 200 and one `Restaurant.to_dict` per stored
      restaurant, in table order. */
  function GetRestaurants(t: Tables): (resp: Response)
    requires WellFormed(t)
    ensures resp.status == 200 && resp.body.JsonBody? && resp.body.value.Arr?
    ensures |resp.body.value.items| == |t.restaurants|
    ensures forall i | 0 <= i < |t.restaurants| ::
      && resp.body.value.items[i].Obj?
      && resp.body.value.items[i].fields.Keys == {"id", "name", "address", "restaurant_pizzas"}
      && resp.body.value.items[i].fields["id"] == Int(t.restaurants[i].id)
      && resp.body.value.items[i] == RestaurantToDict(t, t.restaurants[i])
  {
    var rs := t.restaurants;
    Response(200, JsonBody(Arr(seq(|rs|, i requires 0 <= i < |rs| => RestaurantToDict(t, rs[i])))))
  }

  /** `get_restaurant_by_id`: 200 with the restaurant's dict when the id is
      stored, 404 `{"error": "Restaurant not found"}` otherwise. */
  function GetRestaurantById(t: Tables, id: nat): (resp: Response)
    requires WellFormed(t)
    ensures resp.status == 200 <==> HasRestaurant(t, id)
    ensures resp.status == 200 ==>
      exists r | r in t.restaurants && r.id == id :: resp == Response(200, JsonBody(RestaurantToDict(t, r)))
    ensures resp.status != 200 ==> resp == RestaurantNotFound
  {
    match FindRestaurant(t, id)
    case Some(r) => Response(200, JsonBody(RestaurantToDict(t, r)))
    case None => RestaurantNotFound
  }

  /** `get_pizzas`: status 200 and one flat `Pizza.to_dict` per stored pizza,
      in table order. */
  function GetPizzas(t: Tables): (resp: Response)
    ensures resp.status == 200 && resp.body.JsonBody? && resp.body.value.Arr?
    ensures |resp.body.value.items| == |t.pizzas|
    ensures forall i | 0 <= i < |t.pizzas| ::
      && resp.body.value.items[i].Obj?
      && resp.body.value.items[i].fields.Keys == {"id", "name", "ingredients"}
      && resp.body.value.items[i].fields["id"] == Int(t.pizzas[i].id)
      && resp.body.value.items[i] == PizzaToDict(t.pizzas[i])
  {
    var ps := t.pizzas;
    Response(200, JsonBody(Arr(seq(|ps|, i requires 0 <= i < |ps| => PizzaToDict(ps[i])))))
  }

  // ----- DELETE /restaurants/<id> -----

  /** `delete_restaurant`: an unknown id gives 404 and leaves the database
      alone; a known one deletes the restaurant with its RestaurantPizza rows
      and gives 204 with an empty body. Either way a later lookup of the id
      gives 404, and the database stays well formed. */
  function DeleteRestaurantOutcome(t: Tables, id: nat): (out: (Response, Tables))
    requires WellFormed(t)
    ensures WellFormed(out.1)
    ensures HasRestaurant(t, id) ==> out == (Response(204, Plain("")), DeleteRestaurantCascade(t, id))
    ensures !HasRestaurant(t, id) ==> out == (RestaurantNotFound, t)
    ensures GetRestaurantById(out.1, id) == RestaurantNotFound
  {
    match FindRestaurant(t, id)
    case None => (RestaurantNotFound, t)
    case Some(_) =>
      DeleteRestaurantCascadeKeepsWellFormed(t, id);
      (Response(204, Plain("")), DeleteRestaurantCascade(t, id))
  }

  // ----- POST /restaurant_pizzas -----

  const RequiredKeys: seq<string> := ["price", "restaurant_id", "pizza_id"]

  /** The required keys the payload lacks, in the order they are listed. */
  function MissingKeys(payload: Payload): (missing: seq<string>)
    ensures forall k | k in missing :: k in RequiredKeys && k !in payload
    ensures forall k | k in RequiredKeys && k !in payload :: k in missing
    ensures missing == [] <==> "price" in payload && "restaurant_id" in payload && "pizza_id" in payload
  {
    assert "price" == RequiredKeys[0] && "restaurant_id" == RequiredKeys[1] && "pizza_id" == RequiredKeys[2];
    Filter(RequiredKeys, (k: string) => k !in payload)
  }

  /** The missing keys are exactly the absent ones among `price`,
      `restaurant_id`, `pizza_id`, in that order. */
  lemma {:induction false} MissingKeysInOrder(payload: Payload)
    ensures MissingKeys(payload) ==
      (if "price" in payload then [] else ["price"]) +
      (if "restaurant_id" in payload then [] else ["restaurant_id"]) +
      (if "pizza_id" in payload then [] else ["pizza_id"])
  {
    FilterOfThree("price", "restaurant_id", "pizza_id", (k: string) => k !in payload);
  }

  /** Python's `sep.join(parts)`. */
  function Join(parts: seq<string>, sep: string): (s: string)
    ensures |parts| == 0 ==> s == ""
    ensures |parts| == 1 ==> s == parts[0]
  {
    if |parts| == 0 then ""
    else if |parts| == 1 then parts[0]
    else parts[0] + sep + Join(parts[1..], sep)
  }

  /** Joining one more part puts exactly one separator before it, so the
      parts appear in order with a separator between each neighbouring pair. */
  lemma {:induction false} JoinAppend(parts: seq<string>, sep: string, x: string)
    requires |parts| > 0
    ensures Join(parts + [x], sep) == Join(parts, sep) + sep + x
    decreases |parts|
  {
    if |parts| > 1 {
      assert (parts + [x])[1..] == parts[1..] + [x];
      JoinAppend(parts[1..], sep, x);
    } else {
      assert (parts + [x])[1..] == [x];
    }
  }

  lemma JoinOfRequiredKeys()
    ensures Join(RequiredKeys, ", ") == "price, restaurant_id, pizza_id"
  {
    assert RequiredKeys[1..] == ["restaurant_id", "pizza_id"];
    assert RequiredKeys[1..][1..] == ["pizza_id"];
    assert Join(RequiredKeys[1..], ", ") == "restaurant_id" + ", " + "pizza_id";
  }

  /** The 400 answer naming the missing keys, joined by `", "`. */
  function MissingKeysResponse(missing: seq<string>): (resp: Response)
    ensures resp.status == 400 && resp.body.JsonBody? && resp.body.value.Obj?
    ensures resp.body.value.fields.Keys == {"error"}
    ensures resp.body.value.fields["error"] == Str("Missing keys: " + Join(missing, ", "))
  {
    ErrorResponse(400, "Missing keys: " + Join(missing, ", "))
  }

  /** The number the price check `1 <= price <= 30` compares: an integer or a
      float by its value, a boolean as the integer 0 or 1 (a bool is an int in
      Python); any other JSON value makes the comparison raise. */
  function PriceValue(j: Value): (r: Option<real>)
    ensures r.Some? <==> j.Int? || j.Real? || j.Bool?
    ensures j.Int? ==> r == Some(j.i as real)
    ensures j.Real? ==> r == Some(j.r)
    ensures j.Bool? ==> r == Some(if j.b then 1.0 else 0.0)
  {
    match j
    case Int(n) => Some(n as real)
    case Real(x) => Some(x)
    case Bool(b) => Some(if b then 1.0 else 0.0)
    case _ => None
  }

  /** The primary key a JSON value names: only an integer names one. */
  function IdValue(j: Value): (r: Option<int>)
    ensures r.Some? <==> j.Int?
    ensures r.Some? ==> r.value == j.i
  {
    if j.Int? then Some(j.i) else None
  }

  /** `Restaurant.query.get(data["restaurant_id"])`. */
  function LookupRestaurant(t: Tables, key: Value): (r: Option<Restaurant>)
    ensures r.Some? <==> IdValue(key).Some? && HasRestaurant(t, IdValue(key).value)
    ensures r.Some? ==> r.value in t.restaurants && r.value.id == IdValue(key).value
  {
    match IdValue(key)
    case None => None
    case Some(id) => FindRestaurant(t, id)
  }

  /** `Pizza.query.get(data["pizza_id"])`. */
  function LookupPizza(t: Tables, key: Value): (p: Option<Pizza>)
    ensures p.Some? <==> IdValue(key).Some? && HasPizza(t, IdValue(key).value)
    ensures p.Some? ==> p.value in t.pizzas && p.value.id == IdValue(key).value
  {
    match IdValue(key)
    case None => None
    case Some(id) => FindPizza(t, id)
  }

  /** A payload the route accepts, stated independently of the order of the
      checks: every required key present, a numeric price within 1 and 30
      inclusive, and both ids naming stored rows. */
  predicate Admissible(t: Tables, payload: Payload) {
    && "price" in payload && "restaurant_id" in payload && "pizza_id" in payload
    && PriceValue(payload["price"]).Some?
    && 1.0 <= PriceValue(payload["price"]).value <= 30.0
    && IdValue(payload["restaurant_id"]).Some? && HasRestaurant(t, IdValue(payload["restaurant_id"]).value)
    && IdValue(payload["pizza_id"]).Some? && HasPizza(t, IdValue(payload["pizza_id"]).value)
  }

  /** The row an admissible payload creates, under the next primary key: a
      key above every stored one, the payload's price, which the price
      validator accepts, and the payload's ids, which both resolve. */
  function NewRow(t: Tables, payload: Payload): (rp: RestaurantPizza)
    requires Ordered(t) && Admissible(t, payload)
    ensures rp.id == NextRestaurantPizzaId(t) && forall x | x in t.restaurantPizzas :: x.id < rp.id
    ensures rp.price == PriceValue(payload["price"]).value && ValidatePrice(rp.price) == Ok(rp.price)
    ensures rp.restaurantId == payload["restaurant_id"].i && rp.pizzaId == payload["pizza_id"].i
    ensures RowResolves(t, rp)
  {
    RestaurantPizza(NextRestaurantPizzaId(t), PriceValue(payload["price"]).value,
                    IdValue(payload["restaurant_id"]).value, IdValue(payload["pizza_id"]).value)
  }

  /** `add_restaurant_pizza`: the response and the database after it. It is
      201 exactly for an admissible payload, which adds exactly one row that
      can be looked up by its new id and answers with that row's dict; every
      other outcome leaves the database unchanged. */
  function AddRestaurantPizzaOutcome(t: Tables, payload: Payload): (out: (Response, Tables))
    requires WellFormed(t)
    ensures WellFormed(out.1)
    ensures out.0.status == 201 <==> Admissible(t, payload)
    ensures out.0.status != 201 ==> out.1 == t
    ensures Admissible(t, payload) ==> out == AcceptRow(t, NewRow(t, payload))
  {
    var missing := MissingKeys(payload);
    if missing != [] then (MissingKeysResponse(missing), t)
    else
      match PriceValue(payload["price"])
      case None => (PriceTypeError, t)
      case Some(price) =>
        if !(1.0 <= price <= 30.0) then (ValidationErrors, t)
        else
          var restaurant := LookupRestaurant(t, payload["restaurant_id"]);
          var pizza := LookupPizza(t, payload["pizza_id"]);
          if restaurant.None? || pizza.None? then (InvalidReference, t)
          else
            var row := RestaurantPizza(NextRestaurantPizzaId(t), price, restaurant.value.id, pizza.value.id);
            AcceptRow(t, row)
  }

  /** The last step of a successful POST: `session.add(row)`, `commit`, and
      201 with the full dict of the stored row. */
  function AcceptRow(t: Tables, row: RestaurantPizza): (out: (Response, Tables))
    requires WellFormed(t) && ValidatePrice(row.price) == Ok(row.price) && RowResolves(t, row)
    requires row.id == NextRestaurantPizzaId(t)
    ensures WellFormed(out.1) && out.0.status == 201
    ensures out.1 == t.(restaurantPizzas := t.restaurantPizzas + [row])
    ensures FindRestaurantPizza(out.1, row.id) == Some(row)
    ensures out.0.body == JsonBody(RestaurantPizzaToDict(out.1, row, false, false))
  {
    InsertKeepsWellFormed(t, row);
    var t' := t.(restaurantPizzas := t.restaurantPizzas + [row]);
    assert row in t'.restaurantPizzas;
    RowsOfRestaurantResolve(t', row.restaurantId);
    (Response(201, JsonBody(RestaurantPizzaToDict(t', row, false, false))), t')
  }

  /** The checks run in order and the first that fails decides the response:
      missing keys (400 listing them), a price that is not a number (500), a
      price outside [1, 30] (400 "validation errors"), then an unknown
      restaurant or pizza (400). A payload failing an earlier check never
      reaches a later one. */
  lemma AddChecksRunInOrder(t: Tables, payload: Payload)
    requires WellFormed(t)
    ensures var resp := AddRestaurantPizzaOutcome(t, payload).0;
      && (MissingKeys(payload) != [] ==> resp == MissingKeysResponse(MissingKeys(payload)))
      && (MissingKeys(payload) == [] ==>
            && (PriceValue(payload["price"]).None? ==> resp == PriceTypeError)
            && (PriceValue(payload["price"]).Some? && !(1.0 <= PriceValue(payload["price"]).value <= 30.0) ==>
                  resp == ValidationErrors)
            && (PriceValue(payload["price"]).Some? && 1.0 <= PriceValue(payload["price"]).value <= 30.0 &&
                !Admissible(t, payload) ==>
                  resp == InvalidReference))
  {
  }

  /** A payload with `price` and `restaurant_id` but no `pizza_id` is refused
      with 400 naming exactly the missing key. */
  lemma {:induction false} MissingPizzaIdIsReported(t: Tables, payload: Payload)
    requires WellFormed(t)
    requires "price" in payload && "restaurant_id" in payload && "pizza_id" !in payload
    ensures AddRestaurantPizzaOutcome(t, payload) == (ErrorResponse(400, "Missing keys: " + "pizza_id"), t)
  {
  }

  /** A payload with none of the required keys is refused with 400 listing
      all three, in order and separated by `", "`. */
  lemma {:induction false} AllKeysMissingAreReported(t: Tables, payload: Payload)
    requires WellFormed(t)
    requires "price" !in payload && "restaurant_id" !in payload && "pizza_id" !in payload
    ensures AddRestaurantPizzaOutcome(t, payload) ==
      (ErrorResponse(400, "Missing keys: " + "price, restaurant_id, pizza_id"), t)
  {
    MissingKeysInOrder(payload);
    assert MissingKeys(payload) == RequiredKeys;
    JoinOfRequiredKeys();
  }

  // ----- The session -----

  /** The database session the write routes go through: three tables that
      `delete` and `add` followed by `commit` change in place. */
  class Database {
    var restaurants: seq<Restaurant>
    var pizzas: seq<Pizza>
    var restaurantPizzas: seq<RestaurantPizza>

    function Snapshot(): Tables
      reads this
    {
      Tables(restaurants, pizzas, restaurantPizzas)
    }

    ghost predicate Valid()
      reads this
    {
      WellFormed(Snapshot())
    }

    constructor (initial: Tables)
      requires WellFormed(initial)
      ensures Valid() && Snapshot() == initial
    {
      restaurants, pizzas, restaurantPizzas := initial.restaurants, initial.pizzas, initial.restaurantPizzas;
    }

    /** DELETE /restaurants/<id>. */
    method DeleteRestaurant(id: nat) returns (resp: Response)
      requires Valid()
      modifies this
      ensures Valid()
      ensures (resp, Snapshot()) == DeleteRestaurantOutcome(old(Snapshot()), id)
      ensures pizzas == old(pizzas)
    {
      var t := Snapshot();
      var restaurant := FindRestaurant(t, id);
      if restaurant.None? {
        return RestaurantNotFound;
      }
      // `session.delete(restaurant)` cascades to its rows; `commit` makes it stick.
      var after := DeleteRestaurantCascade(t, id);
      DeleteRestaurantCascadeKeepsWellFormed(t, id);
      restaurants, restaurantPizzas := after.restaurants, after.restaurantPizzas;
      assert Snapshot() == after;
      resp := Response(204, Plain(""));
    }

    /** POST /restaurant_pizzas. */
    method AddRestaurantPizza(payload: Payload) returns (resp: Response)
      requires Valid()
      modifies this
      ensures Valid()
      ensures (resp, Snapshot()) == AddRestaurantPizzaOutcome(old(Snapshot()), payload)
      ensures restaurants == old(restaurants) && pizzas == old(pizzas)
    {
      var t := Snapshot();
      var missing := MissingKeys(payload);
      if missing != [] {
        return MissingKeysResponse(missing);
      }
      var price := PriceValue(payload["price"]);
      if price.None? {
        return PriceTypeError;
      }
      if !(1.0 <= price.value <= 30.0) {
        return ValidationErrors;
      }
      var restaurant := LookupRestaurant(t, payload["restaurant_id"]);
      var pizza := LookupPizza(t, payload["pizza_id"]);
      if restaurant.None? || pizza.None? {
        return InvalidReference;
      }
      var row := RestaurantPizza(NextRestaurantPizzaId(t), price.value, restaurant.value.id, pizza.value.id);
      InsertKeepsWellFormed(t, row);
      // `session.add(row)` and `commit`.
      restaurantPizzas := restaurantPizzas + [row];
      var t' := t.(restaurantPizzas := t.restaurantPizzas + [row]);
      assert Snapshot() == t';
      resp := Response(201, JsonBody(RestaurantPizzaToDict(t', row, false, false)));
    }
  }
}
