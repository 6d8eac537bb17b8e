/** What RestaurantService does, as functions from the stored restaurants to a
    result and the restaurants stored afterwards. The class in
    restaurant_service.dfy is proved to do exactly this; the lemmas here state
    what the capacity counter promises. */
module RestaurantSpec {
  import opened Errors
  import opened RestaurantEntity

  /** The restaurant table, keyed by id. */
  type Store = map<int, RestaurantRow>

  /** The request body of register and update; absent means JSON null. */
  datatype RestaurantRequest = RestaurantRequest(
    name: Option<string>,
    address: Option<string>,
    numberTable: Option<int>,
    numberTableReserved: Option<int>)

  /** Names are unique and every stored row meets its declared constraints. */
  ghost predicate StoreValid(s: Store) {
    && (forall id | id in s :: SatisfiesConstraints(s[id]))
    && (forall a, b | a in s && b in s && a != b :: s[a].name != s[b].name)
  }

  /** Every restaurant keeps 0 <= reserved <= total. */
  ghost predicate Bounded(s: Store) {
    forall id | id in s :: WithinCapacity(s[id])
  }

  // ---------------------------------------------------------------- queries

  function GetRestaurant(s: Store, id: int): Result<RestaurantRow> {
    if id in s then Ok(s[id]) else Err(NotFound(RestaurantKind, id))
  }

  function RestaurantExistByName(s: Store, name: string): bool {
    exists id | id in s :: s[id].name == name
  }

  /** Either true or NotFound: this query never answers false. */
  function RestaurantExistById(s: Store, id: int): (r: Result<bool>)
    ensures r != Ok(false)
    ensures r.Ok? <==> id in s
    ensures r.Err? ==> r.error == NotFound(RestaurantKind, id)
  {
    var _ :- GetRestaurant(s, id);
    Ok(true)
  }

  /** True when a table is free; a full restaurant is reported as Full, never
      as false. */
  function CheckTableAvailability(s: Store, id: int): (r: Result<bool>)
    ensures r != Ok(false)
    ensures r == Ok(true) <==> id in s && IsTablesAvailable(s[id])
    ensures r.Err? ==> r.error == if id in s then Full else NotFound(RestaurantKind, id)
  {
    var row :- GetRestaurant(s, id);
    if !IsTablesAvailable(row) then Err(Full) else Ok(IsTablesAvailable(row))
  }

  // ---------------------------------------------------------------- updates

  /** repository.save: the entity's declared constraints are checked first. */
  function Save(s: Store, id: int, row: RestaurantRow): (Result<RestaurantRow>, Store) {
    if SatisfiesConstraints(row) then (Ok(row), s[id := row]) else (Err(ValidationFailed), s)
  }

  function ReserveTable(s: Store, id: int): (Result<string>, Store) {
    match GetRestaurant(s, id)
    case Err(e) => (Err(e), s)
    case Ok(row) =>
      if !IsTablesAvailable(row) then (Err(Full), s)
      else
        var updated := row.(numberTableReserved := row.numberTableReserved + 1);
        var (saved, s') := Save(s, id, updated);
        if saved.Err? then (Err(saved.error), s') else (Ok(ReservedMessage(updated.name)), s')
  }

  function CancelTableReservation(s: Store, id: int): (Result<string>, Store) {
    match GetRestaurant(s, id)
    case Err(e) => (Err(e), s)
    case Ok(row) =>
      if row.numberTableReserved == 0 then (Err(BadRequest(NoReservationsToCancel)), s)
      else
        var updated := row.(numberTableReserved := row.numberTableReserved - 1);
        var (saved, s') := Save(s, id, updated);
        if saved.Err? then (Err(saved.error), s') else (Ok(CanceledMessage(updated.name)), s')
  }

  /** register, storing the new restaurant under newId (the next value of the
      id sequence). A null count is rejected like a constraint violation. */
  function Register(s: Store, request: RestaurantRequest, newId: int): (Result<RestaurantRow>, Store) {
    if request.name.Some? && RestaurantExistByName(s, request.name.value) then
      (Err(Duplicate), s)
    else if request.name.None? || request.address.None?
         || request.numberTable.None? || request.numberTableReserved.None? then
      (Err(ValidationFailed), s)
    else
      Save(s, newId, RestaurantRow(request.name.value, request.address.value,
                                   request.numberTable.value, request.numberTableReserved.value))
  }

  predicate AddressDiffers(row: RestaurantRow, request: RestaurantRequest) {
    request.address.Some? && request.address.value != row.address
  }

  predicate TablesDiffer(row: RestaurantRow, request: RestaurantRequest) {
    request.numberTable.Some? && request.numberTable.value != row.numberTable
  }

  predicate NameDiffers(row: RestaurantRow, request: RestaurantRequest) {
    request.name.Some? && request.name.value != row.name
  }

  /** No supplied field differs from the stored value. */
  predicate NoChanges(row: RestaurantRow, request: RestaurantRequest) {
    !AddressDiffers(row, request) && !TablesDiffer(row, request) && !NameDiffers(row, request)
  }

  /** The row with every supplied, differing field applied (the reserved count
      of the request is never applied). */
  function Applied(row: RestaurantRow, request: RestaurantRequest): RestaurantRow {
    row.(address := if AddressDiffers(row, request) then request.address.value else row.address,
         numberTable := if TablesDiffer(row, request) then request.numberTable.value else row.numberTable,
         name := if NameDiffers(row, request) then request.name.value else row.name)
  }

  /** The checks of updateInformations in their order: Ok(whether some field
      changes), or the first failing check. */
  function UpdateChecks(s: Store, row: RestaurantRow, request: RestaurantRequest): Result<bool> {
    if TablesDiffer(row, request) && request.numberTable.value < row.numberTableReserved then
      Err(IllegalArgument(row.numberTableReserved))
    else if NameDiffers(row, request) && RestaurantExistByName(s, request.name.value) then
      Err(Duplicate)
    else
      Ok(!NoChanges(row, request))
  }

  /** updateInformations: address, then table count, then name, each only when
      supplied and different; the first failing check aborts the whole call. */
  function UpdateInformations(s: Store, request: RestaurantRequest, id: int): (Result<RestaurantRow>, Store) {
    match GetRestaurant(s, id)
    case Err(e) => (Err(e), s)
    case Ok(row) =>
      match UpdateChecks(s, row, request)
      case Err(e) => (Err(e), s)
      case Ok(changes) =>
        if !changes then (Err(BadRequest(NoDataChanges)), s)
        else Save(s, id, Applied(row, request))
  }

  // ---------------------------------------------------------------- lemmas

  /** reserveTable: +1 on a restaurant with a free table, and nothing else
      changes; Full or NotFound leave the store as it was. */
  lemma ReserveTableEffect(s: Store, id: int)
    requires StoreValid(s)
    ensures var (r, s') := ReserveTable(s, id);
      && (r.Ok? <==> id in s && IsTablesAvailable(s[id]))
      && (r.Ok? ==> && r.value == ReservedMessage(s[id].name)
                    && s'.Keys == s.Keys
                    && s'[id] == s[id].(numberTableReserved := s[id].numberTableReserved + 1)
                    && (forall k | k in s && k != id :: s'[k] == s[k]))
      && (r.Err? ==> s' == s && r.error == if id in s then Full else NotFound(RestaurantKind, id))
  {
  }

  /** cancelTableReservation: BadRequest on a restaurant with no reserved
      table, otherwise exactly -1. */
  lemma CancelTableReservationEffect(s: Store, id: int)
    requires StoreValid(s)
    ensures var (r, s') := CancelTableReservation(s, id);
      && (r.Ok? <==> id in s && s[id].numberTableReserved != 0)
      && (r.Ok? ==> && r.value == CanceledMessage(s[id].name)
                    && s'.Keys == s.Keys
                    && s'[id] == s[id].(numberTableReserved := s[id].numberTableReserved - 1)
                    && (forall k | k in s && k != id :: s'[k] == s[k]))
      && (r.Err? ==> s' == s && r.error == if id in s then BadRequest(NoReservationsToCancel)
                                           else NotFound(RestaurantKind, id))
  {
  }

  /** Reserving and then cancelling on the same restaurant restores the store. */
  lemma {:induction false} CancelUndoesReserve(s: Store, id: int)
    requires StoreValid(s)
    requires ReserveTable(s, id).0.Ok?
    ensures var s1 := ReserveTable(s, id).1;
      CancelTableReservation(s1, id).0.Ok? && CancelTableReservation(s1, id).1 == s
  {
    var s1 := ReserveTable(s, id).1;
    assert s1 == s[id := s[id].(numberTableReserved := s[id].numberTableReserved + 1)];
    var s2 := CancelTableReservation(s1, id).1;
    assert s2 == s1[id := s[id]];
    assert s2 == s;
  }

  /** Cancelling and then reserving on the same restaurant restores the store,
      as long as it respected its capacity. */
  lemma {:induction false} ReserveUndoesCancel(s: Store, id: int)
    requires StoreValid(s) && Bounded(s)
    requires CancelTableReservation(s, id).0.Ok?
    ensures var s1 := CancelTableReservation(s, id).1;
      ReserveTable(s1, id).0.Ok? && ReserveTable(s1, id).1 == s
  {
    var s1 := CancelTableReservation(s, id).1;
    assert s1 == s[id := s[id].(numberTableReserved := s[id].numberTableReserved - 1)];
    var s2 := ReserveTable(s1, id).1;
    assert s2 == s1[id := s[id]];
    assert s2 == s;
  }

  /** checkTableAvailability answers true exactly when reserveTable would
      succeed, and fails with the error reserveTable would fail with. */
  lemma CheckPredictsReserve(s: Store, id: int)
    requires StoreValid(s)
    ensures CheckTableAvailability(s, id).Ok? <==> ReserveTable(s, id).0.Ok?
    ensures CheckTableAvailability(s, id).Err? ==>
      CheckTableAvailability(s, id).error == ReserveTable(s, id).0.error
  {
  }

  /** restaurantExistById succeeds exactly when getRestaurant does. */
  lemma ExistByIdAgreesWithGet(s: Store, id: int)
    ensures RestaurantExistById(s, id).Ok? <==> GetRestaurant(s, id).Ok?
    ensures GetRestaurant(s, id).Ok? ==> GetRestaurant(s, id).value == s[id]
  {
  }

  /** existsRestaurantByName sees every registered restaurant: after a
      successful register its name is taken, and registering it again, under
      any id, fails with Duplicate and adds nothing. */
  lemma ExistByNameAfterRegister(s: Store, request: RestaurantRequest, newId: int, otherId: int)
    requires Register(s, request, newId).0.Ok?
    ensures var s' := Register(s, request, newId).1;
      && RestaurantExistByName(s', request.name.value)
      && Register(s', request, otherId) == (Err(Duplicate), s')
  {
    var s' := Register(s, request, newId).1;
    assert s'[newId].name == request.name.value;
  }

  /** register: a taken name fails with Duplicate and adds nothing; a free
      name with all four fields given succeeds exactly when the row meets the
      declared constraints, and the request's fields are then stored as they
      are under the new id, the reserved count included (no check against the
      table count). */
  lemma RegisterEffect(s: Store, request: RestaurantRequest, newId: int)
    requires newId !in s
    ensures var (r, s') := Register(s, request, newId);
      && (request.name.Some? && RestaurantExistByName(s, request.name.value) ==>
            r == Err(Duplicate) && s' == s)
      && (r.Ok? <==> && request.name.Some? && request.address.Some?
                     && request.numberTable.Some? && request.numberTableReserved.Some?
                     && !RestaurantExistByName(s, request.name.value)
                     && SatisfiesConstraints(RestaurantRow(request.name.value, request.address.value,
                                                           request.numberTable.value,
                                                           request.numberTableReserved.value)))
      && (r.Err? ==> s' == s && r.error == if request.name.Some? && RestaurantExistByName(s, request.name.value)
                                           then Duplicate else ValidationFailed)
      && (r.Ok? ==> && s' == s[newId := r.value]
                    && |s'| == |s| + 1
                    && Some(r.value.name) == request.name
                    && Some(r.value.address) == request.address
                    && Some(r.value.numberTable) == request.numberTable
                    && Some(r.value.numberTableReserved) == request.numberTableReserved
                    && SatisfiesConstraints(r.value))
  {
  }

  /** A registered reserved count above the table count is accepted. */
  lemma RegisterAcceptsOverbooked()
    ensures var request := RestaurantRequest(Some("A"), Some("B"), Some(1), Some(5));
      var (r, s') := Register(map[], request, 1);
      r.Ok? && !Bounded(s')
  {
    var request := RestaurantRequest(Some("A"), Some("B"), Some(1), Some(5));
    assert "A"[0] == 'A' && "B"[0] == 'B';
    var (r, s') := Register(map[], request, 1);
    assert s'[1].numberTableReserved > s'[1].numberTable;
  }

  /** Every request with a free name and valid fields is stored even when it
      reserves more tables than it has, leaving the store over capacity. */
  lemma RegisterStoresOverbooked(s: Store, request: RestaurantRequest, newId: int)
    requires newId !in s
    requires request.name.Some? && request.address.Some?
    requires request.numberTable.Some? && request.numberTableReserved.Some?
    requires !RestaurantExistByName(s, request.name.value)
    requires SatisfiesConstraints(RestaurantRow(request.name.value, request.address.value,
                                                request.numberTable.value, request.numberTableReserved.value))
    requires request.numberTableReserved.value > request.numberTable.value
    ensures var (r, s') := Register(s, request, newId);
      && r.Ok? && newId in s'
      && s'[newId].numberTableReserved > s'[newId].numberTable
      && !Bounded(s')
  {
    var (r, s') := Register(s, request, newId);
    assert !WithinCapacity(s'[newId]);
  }

  /** updateInformations: what it checks, in which order, when it succeeds
      and what it stores. */
  lemma UpdateInformationsEffect(s: Store, request: RestaurantRequest, id: int)
    ensures var (r, s') := UpdateInformations(s, request, id);
      && (id !in s ==> r == Err(NotFound(RestaurantKind, id)))
      && (r.Err? ==> s' == s)
      && (r.Ok? <==> id in s && UpdateChecks(s, s[id], request) == Ok(true)
                     && SatisfiesConstraints(Applied(s[id], request)))
      && (id in s && UpdateChecks(s, s[id], request) == Ok(true) && !SatisfiesConstraints(Applied(s[id], request)) ==>
            r == Err(ValidationFailed))
      && (id in s && TablesDiffer(s[id], request) && request.numberTable.value < s[id].numberTableReserved ==>
            r == Err(IllegalArgument(s[id].numberTableReserved)))
      && (id in s && !(TablesDiffer(s[id], request) && request.numberTable.value < s[id].numberTableReserved)
          && NameDiffers(s[id], request) && RestaurantExistByName(s, request.name.value) ==>
            r == Err(Duplicate))
      && (r.Ok? ==> && id in s
                    && s' == s[id := r.value]
                    && r.value == Applied(s[id], request)
                    && r.value.numberTableReserved == s[id].numberTableReserved
                    && (TablesDiffer(s[id], request) ==> r.value.numberTableReserved <= r.value.numberTable))
  {
    var (r, s') := UpdateInformations(s, request, id);
    if id in s {
      var checks := UpdateChecks(s, s[id], request);
      if checks.Err? {
        assert r == Err(checks.error) && s' == s;
      } else if r.Ok? {
        UpdateOkShape(s, request, id);
      }
    }
  }

  /** What a successful updateInformations has checked and stored. */
  lemma UpdateOkShape(s: Store, request: RestaurantRequest, id: int)
    requires UpdateInformations(s, request, id).0.Ok?
    ensures id in s
    ensures UpdateChecks(s, s[id], request) == Ok(true)
    ensures var row := Applied(s[id], request);
      && UpdateInformations(s, request, id) == (Ok(row), s[id := row])
      && SatisfiesConstraints(row)
  {
  }

  /** "No data changes found" is reported exactly when the restaurant exists
      and no supplied field differs from it. */
  lemma UpdateNoChangesIff(s: Store, request: RestaurantRequest, id: int)
    ensures UpdateInformations(s, request, id).0 == Err(BadRequest(NoDataChanges))
            <==> id in s && NoChanges(s[id], request)
  {
  }

  /** The request's reserved count has no influence on updateInformations. */
  lemma UpdateIgnoresReservedCount(s: Store, request: RestaurantRequest, id: int, reserved: Option<int>)
    ensures UpdateInformations(s, request, id)
         == UpdateInformations(s, request.(numberTableReserved := reserved), id)
  {
    var other := request.(numberTableReserved := reserved);
    if id in s {
      assert UpdateChecks(s, s[id], request) == UpdateChecks(s, s[id], other);
      assert Applied(s[id], request) == Applied(s[id], other);
    }
  }

  // ------------------------------------------------------- invariants kept

  /** Storing a row keeps the store valid when the row meets its constraints
      and its name is not used by any other restaurant. */
  lemma PutKeepsValid(s: Store, id: int, row: RestaurantRow)
    requires StoreValid(s) && SatisfiesConstraints(row)
    requires (id in s && row.name == s[id].name) || !RestaurantExistByName(s, row.name)
    ensures StoreValid(s[id := row])
  {
    var s' := s[id := row];
    forall a, b | a in s' && b in s' && a != b ensures s'[a].name != s'[b].name {
      if a == id {
        assert b in s && s[b].name == s'[b].name;
      } else if b == id {
        assert a in s && s[a].name == s'[a].name;
      } else {
        assert s'[a] == s[a] && s'[b] == s[b];
      }
    }
  }

  lemma PutKeepsBounded(s: Store, id: int, row: RestaurantRow)
    requires Bounded(s) && WithinCapacity(row)
    ensures Bounded(s[id := row])
  {
  }

  lemma ReserveTableKeeps(s: Store, id: int)
    requires StoreValid(s)
    ensures StoreValid(ReserveTable(s, id).1)
    ensures Bounded(s) ==> Bounded(ReserveTable(s, id).1)
  {
    if ReserveTable(s, id).0.Ok? {
      var row := s[id].(numberTableReserved := s[id].numberTableReserved + 1);
      assert ReserveTable(s, id).1 == s[id := row];
      PutKeepsValid(s, id, row);
      if Bounded(s) {
        PutKeepsBounded(s, id, row);
      }
    }
  }

  lemma CancelTableReservationKeeps(s: Store, id: int)
    requires StoreValid(s)
    ensures StoreValid(CancelTableReservation(s, id).1)
    ensures Bounded(s) ==> Bounded(CancelTableReservation(s, id).1)
  {
    if CancelTableReservation(s, id).0.Ok? {
      var row := s[id].(numberTableReserved := s[id].numberTableReserved - 1);
      assert CancelTableReservation(s, id).1 == s[id := row];
      PutKeepsValid(s, id, row);
      if Bounded(s) {
        PutKeepsBounded(s, id, row);
      }
    }
  }

  /** A request whose counts, when given, respect 0 <= reserved <= total. */
  predicate RequestWithinCapacity(request: RestaurantRequest) {
    request.numberTable.Some? && request.numberTableReserved.Some? ==>
      0 <= request.numberTableReserved.value <= request.numberTable.value
  }

  lemma RegisterKeeps(s: Store, request: RestaurantRequest, newId: int)
    requires StoreValid(s)
    ensures StoreValid(Register(s, request, newId).1)
    ensures Bounded(s) && RequestWithinCapacity(request) ==> Bounded(Register(s, request, newId).1)
  {
    var (r, s') := Register(s, request, newId);
    if r.Ok? {
      assert s' == s[newId := r.value];
      PutKeepsValid(s, newId, r.value);
      if Bounded(s) && RequestWithinCapacity(request) {
        PutKeepsBounded(s, newId, r.value);
      }
    }
  }

  lemma UpdateInformationsKeeps(s: Store, request: RestaurantRequest, id: int)
    requires StoreValid(s)
    ensures StoreValid(UpdateInformations(s, request, id).1)
    ensures Bounded(s) ==> Bounded(UpdateInformations(s, request, id).1)
  {
    var (r, s') := UpdateInformations(s, request, id);
    if r.Ok? {
      UpdateOkShape(s, request, id);
      var row := Applied(s[id], request);
      assert s' == s[id := row];
      assert NameDiffers(s[id], request) ==> !RestaurantExistByName(s, row.name);
      PutKeepsValid(s, id, row);
      if Bounded(s) {
        PutKeepsBounded(s, id, row);
      }
    } else {
      UpdateErrUnchanged(s, request, id);
    }
  }

  lemma UpdateErrUnchanged(s: Store, request: RestaurantRequest, id: int)
    requires UpdateInformations(s, request, id).0.Err?
    ensures UpdateInformations(s, request, id).1 == s
  {
    if id in s && UpdateChecks(s, s[id], request) == Ok(true) {
      var row := Applied(s[id], request);
      assert UpdateInformations(s, request, id) == Save(s, id, row);
      assert !SatisfiesConstraints(row);
    }
  }

  // ------------------------------------------------------------ any trace

  /** A call into the restaurant service. */
  datatype Command =
    | RegisterCmd(request: RestaurantRequest, newId: int)
    | UpdateCmd(request: RestaurantRequest, id: int)
    | ReserveCmd(id: int)
    | CancelCmd(id: int)
    | CheckAvailabilityCmd(id: int)
    | ExistByIdCmd(id: int)

  function Apply(s: Store, c: Command): Store {
    match c
    case RegisterCmd(request, newId) => Register(s, request, newId).1
    case UpdateCmd(request, id) => UpdateInformations(s, request, id).1
    case ReserveCmd(id) => ReserveTable(s, id).1
    case CancelCmd(id) => CancelTableReservation(s, id).1
    case CheckAvailabilityCmd(_) => s
    case ExistByIdCmd(_) => s
  }

  function Run(s: Store, cs: seq<Command>): Store
    decreases |cs|
  {
    if cs == [] then s else Run(Apply(s, cs[0]), cs[1..])
  }

  predicate RegistersWithinCapacity(cs: seq<Command>) {
    forall i | 0 <= i < |cs| :: cs[i].RegisterCmd? ==> RequestWithinCapacity(cs[i].request)
  }

  lemma ApplyKeeps(s: Store, c: Command)
    requires StoreValid(s)
    ensures StoreValid(Apply(s, c))
    ensures Bounded(s) && (c.RegisterCmd? ==> RequestWithinCapacity(c.request)) ==> Bounded(Apply(s, c))
  {
    match c
    case RegisterCmd(request, newId) => RegisterKeeps(s, request, newId);
    case UpdateCmd(request, id) => UpdateInformationsKeeps(s, request, id);
    case ReserveCmd(id) => ReserveTableKeeps(s, id);
    case CancelCmd(id) => CancelTableReservationKeeps(s, id);
    case CheckAvailabilityCmd(_) =>
    case ExistByIdCmd(_) =>
  }

  /** In any single-threaded sequence of calls, names stay unique, the declared
      constraints hold, and 0 <= reserved <= total is kept by every restaurant
      as long as no registration brings in a reserved count above its total. */
  lemma {:induction false} RunKeeps(s: Store, cs: seq<Command>)
    requires StoreValid(s)
    ensures StoreValid(Run(s, cs))
    ensures Bounded(s) && RegistersWithinCapacity(cs) ==> Bounded(Run(s, cs))
    decreases |cs|
  {
    if cs != [] {
      ApplyKeeps(s, cs[0]);
      assert RegistersWithinCapacity(cs) ==> RegistersWithinCapacity(cs[1..]) by {
        if RegistersWithinCapacity(cs) {
          forall i | 0 <= i < |cs[1..]| && cs[1..][i].RegisterCmd?
            ensures RequestWithinCapacity(cs[1..][i].request)
          {
            assert cs[1..][i] == cs[i + 1];
          }
        }
      }
      RunKeeps(Apply(s, cs[0]), cs[1..]);
    }
  }
}
