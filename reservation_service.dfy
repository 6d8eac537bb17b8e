/** ReservationService: each operation loads or builds a Reservation entity,
    calls the restaurant service through its client, changes the entity
    through its setters and saves it, as the service does; each is proved to
    have the effect, and to make the calls, its ReservationSpec function
    describes. */
module ReservationServices {
  import opened Errors
  import opened ReservationEntity
  import RestaurantServices
  import R = RestaurantSpec
  import opened ReservationSpec

  class ReservationService {
    /** The reservation table, keyed by id. */
    var rows: Ledger
    /** The next value of reservation_id_sequence. */
    var nextId: int
    /** The restaurant client, calling straight into the restaurant service. */
    const restaurantClient: RestaurantServices.RestaurantService
    /** The calls made through the client so far, oldest first. */
    ghost var calls: seq<RemoteCall>

    ghost predicate Valid()
      reads this, restaurantClient
    {
      && restaurantClient.Valid()
      && (forall id | id in rows :: id < nextId)
    }

    /** The stored state of both services. */
    function State(): World
      reads this, restaurantClient
    {
      World(restaurantClient.rows, rows, nextId)
    }

    constructor (restaurantClient: RestaurantServices.RestaurantService)
      requires restaurantClient.Valid()
      ensures Valid() && this.restaurantClient == restaurantClient
      ensures rows == map[] && nextId == 1 && calls == []
    {
      this.restaurantClient := restaurantClient;
      rows := map[];
      nextId := 1;
      calls := [];
    }

    // ------------------------------------------------------ client calls

    method CheckRestaurantExist(idRestaurant: int) returns (r: Result<bool>)
      modifies this`calls
      ensures calls == old(calls) + [ExistCall(idRestaurant)]
      ensures r == R.RestaurantExistById(restaurantClient.rows, idRestaurant)
    {
      r := restaurantClient.RestaurantExistById(idRestaurant);
      calls := calls + [ExistCall(idRestaurant)];
    }

    method CheckAvailability(idRestaurant: int) returns (r: Result<bool>)
      modifies this`calls
      ensures calls == old(calls) + [AvailabilityCall(idRestaurant)]
      ensures r == R.CheckTableAvailability(restaurantClient.rows, idRestaurant)
    {
      r := restaurantClient.CheckTableAvailability(idRestaurant);
      calls := calls + [AvailabilityCall(idRestaurant)];
    }

    method ReserveTable(idRestaurant: int) returns (r: Result<string>)
      requires Valid()
      modifies this`calls, restaurantClient
      ensures Valid()
      ensures restaurantClient.nextId == old(restaurantClient.nextId)
      ensures calls == old(calls) + [ReserveCall(idRestaurant)]
      ensures (r, restaurantClient.rows) == R.ReserveTable(old(restaurantClient.rows), idRestaurant)
    {
      r := restaurantClient.ReserveTable(idRestaurant);
      calls := calls + [ReserveCall(idRestaurant)];
    }

    method CancelTableReservation(idRestaurant: int) returns (r: Result<string>)
      requires Valid()
      modifies this`calls, restaurantClient
      ensures Valid()
      ensures restaurantClient.nextId == old(restaurantClient.nextId)
      ensures calls == old(calls) + [CancelCall(idRestaurant)]
      ensures (r, restaurantClient.rows) == R.CancelTableReservation(old(restaurantClient.rows), idRestaurant)
    {
      r := restaurantClient.CancelTableReservation(idRestaurant);
      calls := calls + [CancelCall(idRestaurant)];
    }

    /** The three client calls of a restaurant change, stopping at the first
        failure. */
    method MoveTable(from: int, to: int) returns (r: Result<string>)
      requires Valid()
      modifies this`calls, restaurantClient
      ensures Valid()
      ensures restaurantClient.nextId == old(restaurantClient.nextId)
      ensures var m := ReservationSpec.MoveTable(old(restaurantClient.rows), from, to);
        r == m.result && restaurantClient.rows == m.restaurants && calls == old(calls) + m.calls
    {
      var available := CheckAvailability(to);
      if available.Err? {
        return Err(available.error);
      }
      var reserved := ReserveTable(to);
      match reserved {
        case Err(e) => r := Err(e);
        case Ok(_) => r := CancelTableReservation(from);
      }
    }

    // -------------------------------------------------------- repository

    /** getReservation: a freshly loaded entity, or NotFound. */
    method GetReservation(id: int) returns (r: Result<Reservation>)
      ensures r.Ok? <==> id in rows
      ensures r.Ok? ==> && fresh(r.value) && r.value.id == Some(id)
                        && r.value.Complete() && r.value.Row() == rows[id]
      ensures r.Err? ==> r.error == NotFound(ReservationKind, id)
    {
      if id !in rows {
        return Err(NotFound(ReservationKind, id));
      }
      var reservation := new Reservation(id, rows[id]);
      return Ok(reservation);
    }

    /** repository.save: a null column rejects the row; an entity without an
        id gets the next value of the sequence, one with an id overwrites the
        row it was loaded from. */
    method Save(reservation: Reservation) returns (r: Result<ReservationRow>)
      requires Valid()
      requires reservation.id.Some? ==> reservation.id.value in rows
      modifies this`rows, this`nextId, reservation`id
      ensures Valid()
      ensures r.Ok? <==> reservation.Complete()
      ensures r.Ok? ==>
        && r.value == reservation.Row()
        && reservation.id == Some(if old(reservation.id).None? then old(nextId) else old(reservation.id).value)
        && rows == old(rows)[reservation.id.value := r.value]
        && nextId == if old(reservation.id).None? then old(nextId) + 1 else old(nextId)
      ensures r.Err? ==> && r.error == ValidationFailed
                         && rows == old(rows) && nextId == old(nextId) && reservation.id == old(reservation.id)
    {
      if !reservation.Complete() {
        return Err(ValidationFailed);
      }
      if reservation.id.None? {
        reservation.id := Some(nextId);
        nextId := nextId + 1;
      }
      var row := reservation.Row();
      rows := rows[reservation.id.value := row];
      return Ok(row);
    }

    // -------------------------------------------------------- operations

    method Register(request: ReservationRequest) returns (r: Result<Reservation>)
      requires Valid()
      modifies this, restaurantClient
      ensures Valid()
      ensures restaurantClient.nextId == old(restaurantClient.nextId)
      ensures var o := ReservationSpec.Register(old(State()), request);
        && State() == o.world
        && calls == old(calls) + o.calls
        && r.Ok? == o.result.Ok?
        && (r.Ok? ==> && fresh(r.value) && r.value.id == Some(old(nextId))
                      && r.value.Complete() && r.value.Row() == o.result.value)
        && (r.Err? ==> r.error == o.result.error)
    {
      if request.idRestaurant.None? {
        return Err(RemoteFailed);
      }
      var idRestaurant := request.idRestaurant.value;
      var found :- CheckRestaurantExist(idRestaurant);
      var available :- CheckAvailability(idRestaurant);
      var reservation := new Reservation.Build(idRestaurant, request.customerName, request.reservationDate);
      var reserved := ReserveTable(idRestaurant);
      match reserved {
        case Err(e) => r := Err(e);
        case Ok(_) =>
          var saved := Save(reservation);
          r := if saved.Ok? then Ok(reservation) else Err(saved.error);
      }
    }

    method CancelReservation(id: int) returns (r: Result<Reservation>)
      requires Valid()
      modifies this, restaurantClient
      ensures Valid()
      ensures restaurantClient.nextId == old(restaurantClient.nextId)
      ensures var o := ReservationSpec.CancelReservation(old(State()), id);
        && State() == o.world
        && calls == old(calls) + o.calls
        && r.Ok? == o.result.Ok?
        && (r.Ok? ==> && fresh(r.value) && r.value.id == Some(id)
                      && r.value.Complete() && r.value.Row() == o.result.value)
        && (r.Err? ==> r.error == o.result.error)
    {
      var reservation :- GetReservation(id);
      if reservation.canceled {
        return Err(BadRequest(AlreadyCanceled));
      }
      var released :- CancelTableReservation(reservation.idRestaurant);
      reservation.canceled := true;
      var saved := Save(reservation);
      match saved {
        case Err(e) => r := Err(e);
        case Ok(_) => r := Ok(reservation);
      }
    }

    method UpdateInformations(request: ReservationRequest, reservationId: int) returns (r: Result<Reservation>)
      requires Valid()
      modifies this, restaurantClient
      ensures Valid()
      ensures restaurantClient.nextId == old(restaurantClient.nextId)
      ensures var o := ReservationSpec.UpdateInformations(old(State()), request, reservationId);
        && State() == o.world
        && calls == old(calls) + o.calls
        && r.Ok? == o.result.Ok?
        && (r.Ok? ==> && fresh(r.value) && r.value.id == Some(reservationId)
                      && r.value.Complete() && r.value.Row() == o.result.value)
        && (r.Err? ==> r.error == o.result.error)
    {
      var reservation :- GetReservation(reservationId);
      var changes :- ApplyChanges(reservation, request);
      if !changes {
        return Err(BadRequest(NoDataChanges));
      }
      var saved := Save(reservation);
      match saved {
        case Err(e) => r := Err(e);
        case Ok(_) => r := Ok(reservation);
      }
    }

    /** The three field steps of updateInformations on the loaded entity:
        Ok(changes) once every supplied, differing field is set (a differing
        restaurant after its table has moved), or the failure of the move. */
    method ApplyChanges(reservation: Reservation, request: ReservationRequest) returns (r: Result<bool>)
      requires Valid() && reservation.Complete()
      modifies reservation`customerName, reservation`idRestaurant, reservation`reservationDate
      modifies this`calls, restaurantClient
      ensures Valid()
      ensures restaurantClient.nextId == old(restaurantClient.nextId)
      ensures var row := old(reservation.Row());
        var m := ReservationSpec.MoveTable(old(restaurantClient.rows), row.idRestaurant,
                                           if request.idRestaurant.Some? then request.idRestaurant.value else 0);
        && (if RestaurantDiffers(row, request)
            then restaurantClient.rows == m.restaurants && calls == old(calls) + m.calls
            else restaurantClient.rows == old(restaurantClient.rows) && calls == old(calls))
        && (r.Err? <==> RestaurantDiffers(row, request) && m.result.Err?)
        && (r.Err? ==> r.error == m.result.error)
        && (r.Ok? ==> && r.value == !NoChanges(row, request)
                      && reservation.Complete() && reservation.Row() == Applied(row, request))
    {
      var changes := false;
      if request.customerName.Some? && request.customerName != reservation.customerName {
        reservation.customerName := request.customerName;
        changes := true;
      }
      if request.idRestaurant.Some? && request.idRestaurant.value != reservation.idRestaurant {
        var moved := MoveTable(reservation.idRestaurant, request.idRestaurant.value);
        if moved.Err? {
          return Err(moved.error);
        }
        reservation.idRestaurant := request.idRestaurant.value;
        changes := true;
      }
      if request.reservationDate.Some? && request.reservationDate != reservation.reservationDate {
        reservation.reservationDate := request.reservationDate;
        changes := true;
      }
      return Ok(changes);
    }
  }
}
