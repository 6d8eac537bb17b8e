/** The table-capacity protocol between the two services, over any sequence of
    calls into either of them: what every call keeps (valid restaurants, the
    capacity bound, canceled reservations staying canceled), and when the
    reserved count of each restaurant equals the number of its active
    reservations. */
module CapacityProtocol {
  import opened Errors
  import opened RestaurantEntity
  import opened ReservationEntity
  import R = RestaurantSpec
  import opened ReservationSpec

  // ------------------------------------------------------------- any call

  /** A call into either service. Restaurant commands are the calls other
      clients make to the restaurant service directly. */
  datatype Op =
    | RestaurantOp(command: R.Command)
    | RegisterOp(request: ReservationRequest)
    | CancelOp(id: int)
    | UpdateOp(request: ReservationRequest, id: int)

  function Step(w: World, op: Op): World {
    match op
    case RestaurantOp(c) => w.(restaurants := R.Apply(w.restaurants, c))
    case RegisterOp(request) => Register(w, request).world
    case CancelOp(id) => CancelReservation(w, id).world
    case UpdateOp(request, id) => UpdateInformations(w, request, id).world
  }

  function Run(w: World, ops: seq<Op>): World
    decreases |ops|
  {
    if ops == [] then w else Run(Step(w, ops[0]), ops[1..])
  }

  /** The restaurants are valid and every reservation id was drawn from the
      sequence. */
  ghost predicate WorldValid(w: World) {
    && R.StoreValid(w.restaurants)
    && (forall id | id in w.ledger :: id < w.nextId)
  }

  /** No reservation disappears, and a canceled one stays canceled. */
  ghost predicate Grows(l: Ledger, l': Ledger) {
    forall id | id in l :: id in l' && (l[id].canceled ==> l'[id].canceled)
  }

  /** No restaurant registration brings in a reserved count above its total. */
  predicate OpWithinCapacity(op: Op) {
    op.RestaurantOp? && op.command.RegisterCmd? ==> R.RequestWithinCapacity(op.command.request)
  }

  lemma MoveTableKeeps(s: R.Store, from: int, to: int)
    requires R.StoreValid(s)
    ensures R.StoreValid(MoveTable(s, from, to).restaurants)
    ensures R.Bounded(s) ==> R.Bounded(MoveTable(s, from, to).restaurants)
  {
    if R.CheckTableAvailability(s, to).Ok? {
      var s1 := R.ReserveTable(s, to).1;
      R.ReserveTableKeeps(s, to);
      R.CancelTableReservationKeeps(s1, from);
    }
  }

  lemma RegisterKeeps(w: World, request: ReservationRequest)
    requires WorldValid(w)
    ensures var w' := Register(w, request).world;
      && WorldValid(w') && Grows(w.ledger, w'.ledger)
      && (R.Bounded(w.restaurants) ==> R.Bounded(w'.restaurants))
  {
    if request.idRestaurant.Some? {
      var id := request.idRestaurant.value;
      var w' := Register(w, request).world;
      R.ReserveTableKeeps(w.restaurants, id);
      assert w'.restaurants == w.restaurants || w'.restaurants == R.ReserveTable(w.restaurants, id).1;
      assert w.nextId !in w.ledger;
    }
  }

  lemma CancelKeeps(w: World, id: int)
    requires WorldValid(w)
    ensures var w' := CancelReservation(w, id).world;
      && WorldValid(w') && Grows(w.ledger, w'.ledger)
      && (R.Bounded(w.restaurants) ==> R.Bounded(w'.restaurants))
  {
    if id in w.ledger {
      var idRestaurant := w.ledger[id].idRestaurant;
      var w' := CancelReservation(w, id).world;
      R.CancelTableReservationKeeps(w.restaurants, idRestaurant);
      assert w'.restaurants == w.restaurants || w'.restaurants == R.CancelTableReservation(w.restaurants, idRestaurant).1;
    }
  }

  lemma UpdateKeeps(w: World, request: ReservationRequest, id: int)
    requires WorldValid(w)
    ensures var w' := UpdateInformations(w, request, id).world;
      && WorldValid(w') && Grows(w.ledger, w'.ledger)
      && (R.Bounded(w.restaurants) ==> R.Bounded(w'.restaurants))
  {
    if id in w.ledger && RestaurantDiffers(w.ledger[id], request) {
      MoveTableKeeps(w.restaurants, w.ledger[id].idRestaurant, request.idRestaurant.value);
    }
  }

  lemma StepKeeps(w: World, op: Op)
    requires WorldValid(w)
    ensures WorldValid(Step(w, op))
    ensures Grows(w.ledger, Step(w, op).ledger)
    ensures R.Bounded(w.restaurants) && OpWithinCapacity(op) ==> R.Bounded(Step(w, op).restaurants)
  {
    match op
    case RestaurantOp(c) => R.ApplyKeeps(w.restaurants, c);
    case RegisterOp(request) => RegisterKeeps(w, request);
    case CancelOp(id) => CancelKeeps(w, id);
    case UpdateOp(request, id) => UpdateKeeps(w, request, id);
  }

  lemma GrowsTransitive(l1: Ledger, l2: Ledger, l3: Ledger)
    requires Grows(l1, l2) && Grows(l2, l3)
    ensures Grows(l1, l3)
  {
  }

  /** Over any sequence of calls: restaurant names stay unique and the
      declared constraints hold, no reservation is lost, Canceled is terminal,
      and 0 <= reserved <= total holds as long as no registration brings in a
      reserved count above its total. */
  lemma {:induction false} RunKeeps(w: World, ops: seq<Op>)
    requires WorldValid(w)
    ensures WorldValid(Run(w, ops))
    ensures Grows(w.ledger, Run(w, ops).ledger)
    ensures R.Bounded(w.restaurants) && (forall i | 0 <= i < |ops| :: OpWithinCapacity(ops[i])) ==>
              R.Bounded(Run(w, ops).restaurants)
    decreases |ops|
  {
    if ops != [] {
      var w1 := Step(w, ops[0]);
      StepKeeps(w, ops[0]);
      RunKeeps(w1, ops[1..]);
      GrowsTransitive(w.ledger, w1.ledger, Run(w1, ops[1..]).ledger);
      if R.Bounded(w.restaurants) && (forall i | 0 <= i < |ops| :: OpWithinCapacity(ops[i])) {
        forall i | 0 <= i < |ops[1..]| ensures OpWithinCapacity(ops[1..][i]) {
          assert ops[1..][i] == ops[i + 1];
        }
      }
    }
  }

  // ------------------------------------------- reserved count = active ones

  /** The ids of the active reservations held at a restaurant. */
  function Active(l: Ledger, idRestaurant: int): set<int> {
    set id | id in l && !l[id].canceled && l[id].idRestaurant == idRestaurant
  }

  predicate ActiveAt(row: ReservationRow, idRestaurant: int) {
    !row.canceled && row.idRestaurant == idRestaurant
  }

  /** Every reservation names a stored restaurant, and every restaurant's
      reserved count is the number of its active reservations. */
  ghost predicate Consistent(w: World) {
    && WorldValid(w)
    && (forall id | id in w.ledger :: w.ledger[id].idRestaurant in w.restaurants)
    && (forall r | r in w.restaurants :: w.restaurants[r].numberTableReserved == |Active(w.ledger, r)|)
  }

  /** Storing a row under k changes each restaurant's active count by k
      leaving it and by k joining it. */
  lemma ActiveCount(l: Ledger, k: int, row: ReservationRow, r: int)
    ensures |Active(l[k := row], r)|
         == |Active(l, r)| - (if k in Active(l, r) then 1 else 0) + (if ActiveAt(row, r) then 1 else 0)
  {
    var a := Active(l, r) - {k};
    ActiveAfterPut(l, k, row, r);
    ActiveWithout(l, k, r);
    SingletonUnionCount(a, k, ActiveAt(row, r));
    SingletonUnionCount(a, k, k in Active(l, r));
  }

  lemma ActiveAfterPut(l: Ledger, k: int, row: ReservationRow, r: int)
    ensures Active(l[k := row], r) == (Active(l, r) - {k}) + (if ActiveAt(row, r) then {k} else {})
  {
  }

  lemma ActiveWithout(l: Ledger, k: int, r: int)
    ensures Active(l, r) == (Active(l, r) - {k}) + (if k in Active(l, r) then {k} else {})
  {
  }

  lemma SingletonUnionCount(a: set<int>, k: int, add: bool)
    requires k !in a
    ensures |a + (if add then {k} else {})| == |a| + (if add then 1 else 0)
  {
  }

  /** The calls a well-behaved deployment makes: reserve and cancel reach the
      restaurant service only through reservations, restaurants are
      registered under a fresh id with nothing reserved, reservations are
      registered with a name and a date, and a canceled reservation is not
      moved to another restaurant. */
  ghost predicate Respects(w: World, op: Op) {
    match op
    case RestaurantOp(c) =>
      (match c
       case RegisterCmd(request, newId) =>
         newId !in w.restaurants && (request.numberTableReserved.Some? ==> request.numberTableReserved.value == 0)
       case UpdateCmd(_, _) => true
       case ReserveCmd(_) => false
       case CancelCmd(_) => false
       case CheckAvailabilityCmd(_) => true
       case ExistByIdCmd(_) => true)
    case RegisterOp(request) => request.customerName.Some? && request.reservationDate.Some?
    case CancelOp(_) => true
    case UpdateOp(request, id) => id in w.ledger && w.ledger[id].canceled ==> !RestaurantDiffers(w.ledger[id], request)
  }

  ghost predicate Protocol(w: World, ops: seq<Op>)
    decreases |ops|
  {
    ops == [] || (Respects(w, ops[0]) && Protocol(Step(w, ops[0]), ops[1..]))
  }

  lemma RegisterKeepsConsistent(w: World, request: ReservationRequest)
    requires Consistent(w)
    requires request.customerName.Some? && request.reservationDate.Some?
    ensures Consistent(Register(w, request).world)
  {
    if request.idRestaurant.Some? {
      var idRestaurant := request.idRestaurant.value;
      var s := w.restaurants;
      if idRestaurant in s && IsTablesAvailable(s[idRestaurant]) {
        RegisterEffect(w, request);
        R.ReserveTableKeeps(s, idRestaurant);
        var o := Register(w, request);
        var row := o.result.value;
        assert w.nextId !in w.ledger;
        forall r | r in o.world.restaurants
          ensures o.world.restaurants[r].numberTableReserved == |Active(o.world.ledger, r)|
        {
          ActiveCount(w.ledger, w.nextId, row, r);
        }
      } else {
        RegisterFailedCheck(w, request);
      }
    }
  }

  /** Cancelling an active reservation always reaches its restaurant and
      gives its table back. */
  lemma CancelKeepsConsistent(w: World, id: int)
    requires Consistent(w)
    ensures Consistent(CancelReservation(w, id).world)
    ensures id in w.ledger && !w.ledger[id].canceled ==> CancelReservation(w, id).result.Ok?
  {
    CancelReservationEffect(w, id);
    if id in w.ledger && !w.ledger[id].canceled {
      var row := w.ledger[id];
      var o := CancelReservation(w, id);
      assert id in Active(w.ledger, row.idRestaurant);
      R.CancelTableReservationKeeps(w.restaurants, row.idRestaurant);
      forall r | r in o.world.restaurants
        ensures o.world.restaurants[r].numberTableReserved == |Active(o.world.ledger, r)|
      {
        ActiveCount(w.ledger, id, row.(canceled := true), r);
      }
    }
  }

  /** Moving an active reservation moves one reserved table with it. */
  lemma UpdateKeepsConsistent(w: World, request: ReservationRequest, id: int)
    requires Consistent(w)
    requires id in w.ledger && w.ledger[id].canceled ==> !RestaurantDiffers(w.ledger[id], request)
    ensures Consistent(UpdateInformations(w, request, id).world)
    ensures id in w.ledger && RestaurantDiffers(w.ledger[id], request) ==>
              (UpdateInformations(w, request, id).result.Ok? <==>
               var to := request.idRestaurant.value; to in w.restaurants && IsTablesAvailable(w.restaurants[to]))
  {
    if id in w.ledger {
      var row := w.ledger[id];
      var o := UpdateInformations(w, request, id);
      if RestaurantDiffers(row, request) {
        var from := row.idRestaurant;
        var to := request.idRestaurant.value;
        assert id in Active(w.ledger, from);
        MoveTableEffect(w.restaurants, from, to);
        MoveTableKeeps(w.restaurants, from, to);
        UpdateMoveEffect(w, request, id);
        if o.result.Ok? {
          forall r | r in o.world.restaurants
            ensures o.world.restaurants[r].numberTableReserved == |Active(o.world.ledger, r)|
          {
            ActiveCount(w.ledger, id, Applied(row, request), r);
          }
        }
      } else if !NoChanges(row, request) {
        UpdateInPlaceEffect(w, request, id);
        forall r | r in o.world.restaurants
          ensures o.world.restaurants[r].numberTableReserved == |Active(o.world.ledger, r)|
        {
          ActiveCount(w.ledger, id, Applied(row, request), r);
        }
      } else {
        UpdateNoChangesIff(w, request, id);
      }
    }
  }

  lemma RestaurantOpKeepsConsistent(w: World, c: R.Command)
    requires Consistent(w) && Respects(w, RestaurantOp(c))
    ensures Consistent(Step(w, RestaurantOp(c)))
  {
    var s := w.restaurants;
    var s' := R.Apply(s, c);
    R.ApplyKeeps(s, c);
    match c
    case RegisterCmd(request, newId) =>
      R.RegisterEffect(s, request, newId);
      if R.Register(s, request, newId).0.Ok? {
        assert Active(w.ledger, newId) == {} by {
          forall id | id in w.ledger ensures w.ledger[id].idRestaurant != newId {
            assert w.ledger[id].idRestaurant in s;
          }
        }
      }
    case UpdateCmd(request, id) =>
      R.UpdateInformationsEffect(s, request, id);
    case CheckAvailabilityCmd(_) =>
    case ExistByIdCmd(_) =>
  }

  lemma StepKeepsConsistent(w: World, op: Op)
    requires Consistent(w) && Respects(w, op)
    ensures Consistent(Step(w, op))
  {
    match op
    case RestaurantOp(c) => RestaurantOpKeepsConsistent(w, c);
    case RegisterOp(request) => RegisterKeepsConsistent(w, request);
    case CancelOp(id) => CancelKeepsConsistent(w, id);
    case UpdateOp(request, id) => UpdateKeepsConsistent(w, request, id);
  }

  /** Across any sequence of calls that keeps to the protocol, every
      restaurant's reserved count is the number of its active reservations. */
  lemma {:induction false} RunKeepsConsistent(w: World, ops: seq<Op>)
    requires Consistent(w) && Protocol(w, ops)
    ensures Consistent(Run(w, ops))
    decreases |ops|
  {
    if ops != [] {
      StepKeepsConsistent(w, ops[0]);
      RunKeepsConsistent(Step(w, ops[0]), ops[1..]);
    }
  }

  // ------------------------------------------------ where the counts drift

  /** register with a null name or date: the table is reserved before the
      save fails, so the restaurant counts one reservation that does not
      exist. */
  lemma RegisterLeaksTable(w: World, request: ReservationRequest)
    requires Consistent(w)
    requires request.idRestaurant.Some? && request.customerName.None?
    requires var id := request.idRestaurant.value; id in w.restaurants && IsTablesAvailable(w.restaurants[id])
    ensures Register(w, request).result == Err(ValidationFailed)
    ensures !Consistent(Register(w, request).world)
  {
    RegisterEffect(w, request);
  }

  /** Moving a canceled reservation takes a table at the new restaurant that
      no active reservation holds. */
  lemma MovingCanceledDrifts(w: World, request: ReservationRequest, id: int)
    requires Consistent(w)
    requires id in w.ledger && w.ledger[id].canceled && RestaurantDiffers(w.ledger[id], request)
    requires var to := request.idRestaurant.value; to in w.restaurants && IsTablesAvailable(w.restaurants[to])
    requires var from := w.ledger[id].idRestaurant; w.restaurants[from].numberTableReserved != 0
    ensures UpdateInformations(w, request, id).result.Ok?
    ensures !Consistent(UpdateInformations(w, request, id).world)
  {
    var to := request.idRestaurant.value;
    var o := UpdateInformations(w, request, id);
    UpdateMovesCanceledReservation(w, request, id);
    UpdateMoveEffect(w, request, id);
    ActiveCount(w.ledger, id, Applied(w.ledger[id], request), to);
    assert o.world.restaurants[to].numberTableReserved != |Active(o.world.ledger, to)|;
  }
}
