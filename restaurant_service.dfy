/** RestaurantService: each operation loads a Restaurant entity, changes it
    through its setters and saves it, as the service does; each is proved to
    have the effect its RestaurantSpec function describes. */
module RestaurantServices {
  import opened Errors
  import opened RestaurantEntity
  import Spec = RestaurantSpec

  class RestaurantService {
    /** The restaurant table, keyed by id. */
    var rows: Spec.Store
    /** The next value of restaurant_id_sequence. */
    var nextId: int

    ghost predicate Valid()
      reads this
    {
      && Spec.StoreValid(rows)
      && (forall id | id in rows :: id < nextId)
    }

    constructor ()
      ensures Valid() && rows == map[] && nextId == 1
    {
      rows := map[];
      nextId := 1;
    }

    /** repository.existsRestaurantByName */
    function RestaurantExistByName(name: string): (b: bool)
      reads this
    {
      Spec.RestaurantExistByName(rows, name)
    }

    /** getRestaurant: a freshly loaded entity, or NotFound. */
    method GetRestaurant(id: int) returns (r: Result<Restaurant>)
      ensures r.Ok? <==> id in rows
      ensures r.Ok? ==> fresh(r.value) && r.value.id == id && r.value.Row() == rows[id]
      ensures r.Err? ==> r.error == NotFound(RestaurantKind, id)
    {
      if id !in rows {
        return Err(NotFound(RestaurantKind, id));
      }
      var restaurant := new Restaurant(id, rows[id]);
      return Ok(restaurant);
    }

    /** repository.save of an entity, after its declared constraints pass. */
    method Save(restaurant: Restaurant) returns (r: Result<RestaurantRow>)
      modifies this
      ensures (r, rows) == Spec.Save(old(rows), restaurant.id, restaurant.Row())
      ensures nextId == old(nextId)
    {
      var row := restaurant.Row();
      if !SatisfiesConstraints(row) {
        return Err(ValidationFailed);
      }
      rows := rows[restaurant.id := row];
      return Ok(row);
    }

    method Register(request: Spec.RestaurantRequest) returns (r: Result<Restaurant>)
      requires Valid()
      modifies this
      ensures Valid()
      ensures var (expected, after) := Spec.Register(old(rows), request, old(nextId));
        && rows == after
        && r.Ok? == expected.Ok?
        && (r.Ok? ==> fresh(r.value) && r.value.id == old(nextId) && r.value.Row() == expected.value)
        && (r.Err? ==> r.error == expected.error)
      ensures nextId == if r.Ok? then old(nextId) + 1 else old(nextId)
    {
      if request.name.Some? && RestaurantExistByName(request.name.value) {
        return Err(Duplicate);
      }
      if request.name.None? || request.address.None?
         || request.numberTable.None? || request.numberTableReserved.None? {
        return Err(ValidationFailed);
      }
      var restaurant := new Restaurant(nextId, RestaurantRow(request.name.value, request.address.value,
                                                             request.numberTable.value,
                                                             request.numberTableReserved.value));
      var saved := Save(restaurant);
      if saved.Err? {
        return Err(saved.error);
      }
      Spec.RegisterKeeps(old(rows), request, old(nextId));
      nextId := nextId + 1;
      return Ok(restaurant);
    }

    method UpdateInformations(request: Spec.RestaurantRequest, restaurantId: int) returns (r: Result<Restaurant>)
      requires Valid()
      modifies this
      ensures Valid() && nextId == old(nextId)
      ensures var (expected, after) := Spec.UpdateInformations(old(rows), request, restaurantId);
        && rows == after
        && r.Ok? == expected.Ok?
        && (r.Ok? ==> fresh(r.value) && r.value.id == restaurantId && r.value.Row() == expected.value)
        && (r.Err? ==> r.error == expected.error)
    {
      var found := GetRestaurant(restaurantId);
      if found.Err? {
        return Err(found.error);
      }
      var restaurant := found.value;
      var changes :- ApplyChanges(restaurant, request);
      if !changes {
        return Err(BadRequest(NoDataChanges));
      }
      var saved := Save(restaurant);
      if saved.Err? {
        return Err(saved.error);
      }
      Spec.UpdateInformationsKeeps(old(rows), request, restaurantId);
      return Ok(restaurant);
    }

    /** The three field steps of updateInformations on the loaded entity:
        Ok(changes) once every supplied, differing field is set, or the first
        check that fails. */
    method ApplyChanges(restaurant: Restaurant, request: Spec.RestaurantRequest) returns (r: Result<bool>)
      modifies restaurant
      ensures restaurant.id == old(restaurant.id)
      ensures r == Spec.UpdateChecks(rows, old(restaurant.Row()), request)
      ensures r.Ok? ==> restaurant.Row() == Spec.Applied(old(restaurant.Row()), request)
    {
      var changes := false;
      if request.address.Some? && request.address.value != restaurant.address {
        restaurant.address := request.address.value;
        changes := true;
      }
      if request.numberTable.Some? && request.numberTable.value != restaurant.numberTable {
        if request.numberTable.value < restaurant.numberTableReserved {
          return Err(IllegalArgument(restaurant.numberTableReserved));
        }
        restaurant.numberTable := request.numberTable.value;
        changes := true;
      }
      if request.name.Some? && request.name.value != restaurant.name {
        if RestaurantExistByName(request.name.value) {
          return Err(Duplicate);
        }
        restaurant.name := request.name.value;
        changes := true;
      }
      return Ok(changes);
    }

    method ReserveTable(idRestaurant: int) returns (r: Result<string>)
      requires Valid()
      modifies this
      ensures Valid() && nextId == old(nextId)
      ensures (r, rows) == Spec.ReserveTable(old(rows), idRestaurant)
    {
      var found := GetRestaurant(idRestaurant);
      if found.Err? {
        return Err(found.error);
      }
      var restaurant := found.value;
      if !IsTablesAvailable(restaurant.Row()) {
        return Err(Full);
      }
      restaurant.numberTableReserved := restaurant.numberTableReserved + 1;
      var saved := Save(restaurant);
      match saved {
        case Err(e) => r := Err(e);
        case Ok(_) =>
          Spec.ReserveTableKeeps(old(rows), idRestaurant);
          r := Ok(ReservedMessage(restaurant.name));
      }
    }

    method CancelTableReservation(idRestaurant: int) returns (r: Result<string>)
      requires Valid()
      modifies this
      ensures Valid() && nextId == old(nextId)
      ensures (r, rows) == Spec.CancelTableReservation(old(rows), idRestaurant)
    {
      var found := GetRestaurant(idRestaurant);
      if found.Err? {
        return Err(found.error);
      }
      var restaurant := found.value;
      if restaurant.numberTableReserved == 0 {
        return Err(BadRequest(NoReservationsToCancel));
      }
      restaurant.numberTableReserved := restaurant.numberTableReserved - 1;
      var saved := Save(restaurant);
      match saved {
        case Err(e) => r := Err(e);
        case Ok(_) =>
          Spec.CancelTableReservationKeeps(old(rows), idRestaurant);
          r := Ok(CanceledMessage(restaurant.name));
      }
    }

    method CheckTableAvailability(idRestaurant: int) returns (r: Result<bool>)
      ensures r != Ok(false)
      ensures r == Spec.CheckTableAvailability(rows, idRestaurant)
    {
      var found := GetRestaurant(idRestaurant);
      if found.Err? {
        return Err(found.error);
      }
      var restaurant := found.value;
      if !IsTablesAvailable(restaurant.Row()) {
        return Err(Full);
      }
      return Ok(IsTablesAvailable(restaurant.Row()));
    }

    method RestaurantExistById(id: int) returns (r: Result<bool>)
      ensures r != Ok(false)
      ensures r == Spec.RestaurantExistById(rows, id)
    {
      var found := GetRestaurant(id);
      if found.Err? {
        return Err(found.error);
      }
      return Ok(true);
    }
  }
}
