# Restaurant reservations: the table-capacity protocol

A Dafny model of the two services at the heart of the restaurant reservation
system, and proofs about how they keep count of tables.

The **restaurant service** keeps a directory of restaurants. Each has a
unique name, an address, a table count and a count of reserved tables. Its
operations are:

- look a restaurant up;
- register one, refusing a taken name;
- update its fields one by one;
- reserve a table (+1 while reserved < total, otherwise Full);
- cancel a table reservation (-1, refused at 0);
- availability and existence queries that answer true or fail, never false.

The **reservation service** keeps a ledger of reservations (restaurant id,
customer name, date, canceled flag). It calls the restaurant service through
its client in a fixed order:

- register checks existence, then availability, then reserves;
- cancel refuses a reservation that is already canceled, otherwise releases
  the table and sets the flag;
- update moves a reservation to another restaurant by checking availability
  there, reserving there, then cancelling at the old restaurant.

The model has three layers:

- **Entities** (`restaurant.dfy`, `reservation.dfy`). Each entity is a value
  row plus a class with the entity's fields; the classes' setters are plain
  field assignments. The restaurant's declared constraints are the predicate
  `SatisfiesConstraints`.
- **Specification functions** (`restaurant_spec.dfy`, `reservation_spec.dfy`).
  Each operation is a total function from the stored state to a result and a
  new state. On the reservation side it also returns the list of client
  calls made, in order. Errors are the variants of `Errors.Error`;
  `Errors.Message` gives each domain exception's exact text (not the texts of
  the persistence and HTTP layers).
- **Service classes** (`restaurant_service.dfy`, `reservation_service.dfy`).
  Each method loads or builds an entity, mutates it in place and saves it,
  as the Java services do. It is proved to have exactly the effect of its
  specification function. `ReservationService` holds the `RestaurantService`
  it calls as its client, plus a ghost log of the calls.

`capacity_protocol.dfy` states the properties of the whole system over any
sequence of calls into either service:

- both stores stay valid;
- no reservation is lost, and Canceled is terminal;
- 0 <= reserved <= total is kept, as long as no restaurant is registered
  with more tables reserved than it has (register does not check this).

It also states when each restaurant's reserved count equals its number of
active reservations (`Consistent`). This holds as long as:

- reserve and cancel are reached only through reservations;
- restaurants are registered with nothing reserved;
- reservations are registered with a name and a date;
- no canceled reservation is moved to another restaurant.

Two lemmas show the count drifting when one of the last two conditions is
broken. These are behaviours of the code as written, kept as they are:

- register reserves the table before the save that rejects a null name or
  date;
- updateInformations never looks at the canceled flag.

## Model

| member | source | states |
|---|---|---|
| Errors.NatToString | restaurant/src/main/java/com/restaurantreservation/restaurant/RestaurantService.java:60 | the decimal digits `%s` prints for a non-negative id or count: non-empty, digits only, a single digit exactly below 10 and no leading zero otherwise, and they denote exactly that number |
| Errors.IntToString | restaurant/src/main/java/com/restaurantreservation/restaurant/RestaurantService.java:60 | the text of any id or count: it starts with '-' exactly when the value is negative, and what follows the sign is a non-empty run of decimal digits without a leading zero denoting exactly its magnitude |
| RestaurantEntity.Restaurant.constructor | restaurant/src/main/java/com/restaurantreservation/restaurant/Restaurant.java:26-85 | the all-arguments entity holds exactly the given id and field values |
| Errors.Message | restaurant/src/main/java/com/restaurantreservation/restaurant/RestaurantService.java:60-171 | the text each domain exception carries: the restaurant or reservation id, or the reserved count, inserted as IntToString prints it |
| Errors.ReservedMessage | restaurant/src/main/java/com/restaurantreservation/restaurant/RestaurantService.java:154 | the confirmation text reserveTable returns: "Table reserved in the restaurant [" + name + "]" |
| Errors.CanceledMessage | restaurant/src/main/java/com/restaurantreservation/restaurant/RestaurantService.java:175 | the confirmation text cancelTableReservation returns: "Table reservation canceled in the restaurant [" + name + "]" |
| RestaurantEntity.IsBlank | restaurant/src/main/java/com/restaurantreservation/restaurant/Restaurant.java:58-67 | NotBlank's test: a string is blank when nothing but characters up to ' ' is left after trimming |
| RestaurantEntity.SatisfiesConstraints | restaurant/src/main/java/com/restaurantreservation/restaurant/Restaurant.java:57-85 | the constraints a row must meet to be saved: name and address not blank, at least one table, no negative reserved count, and nothing tying the reserved count to the total |
| RestaurantEntity.IsTablesAvailable | restaurant/src/main/java/com/restaurantreservation/restaurant/RestaurantService.java:228-230 | isTablesAvailable: a table is free when reserved < total |
| RestaurantSpec.GetRestaurant | restaurant/src/main/java/com/restaurantreservation/restaurant/RestaurantService.java:55-62 | getRestaurant on the store: the stored row, or NotFound for that id (what it returns is stated by ExistByIdAgreesWithGet) |
| RestaurantSpec.RestaurantExistByName | restaurant/src/main/java/com/restaurantreservation/restaurant/RestaurantRepository.java:31 | existsRestaurantByName: some stored restaurant has exactly that name (its partner is ExistByNameAfterRegister) |
| RestaurantSpec.ExistByNameAfterRegister | restaurant/src/main/java/com/restaurantreservation/restaurant/RestaurantService.java:71-87 | after a successful register the name is taken, and registering the same request again, under any id, fails with Duplicate and adds nothing |
| RestaurantSpec.Save | restaurant/src/main/java/com/restaurantreservation/restaurant/Restaurant.java:57-85 | repository.save: the row is written under its id when it meets the declared constraints, otherwise ValidationFailed and nothing is written |
| RestaurantSpec.ReserveTable | restaurant/src/main/java/com/restaurantreservation/restaurant/RestaurantService.java:145-157 | reserveTable on the store: find, refuse a full restaurant, add 1, save (its properties are ReserveTableEffect, CheckPredictsReserve, CancelUndoesReserve and ReserveTableKeeps) |
| RestaurantSpec.CancelTableReservation | restaurant/src/main/java/com/restaurantreservation/restaurant/RestaurantService.java:166-178 | cancelTableReservation on the store: find, refuse 0, subtract 1, save (its properties are CancelTableReservationEffect, ReserveUndoesCancel and CancelTableReservationKeeps) |
| RestaurantSpec.Register | restaurant/src/main/java/com/restaurantreservation/restaurant/RestaurantService.java:71-87 | register on the store: Duplicate for a taken name, otherwise build and save (its properties are RegisterEffect, ExistByNameAfterRegister, RegisterAcceptsOverbooked and RegisterKeeps) |
| RestaurantSpec.UpdateChecks | restaurant/src/main/java/com/restaurantreservation/restaurant/RestaurantService.java:101-126 | the checks of updateInformations in their order: a differing table count below the reserved count, then a differing name already taken, else whether any supplied field differs |
| RestaurantSpec.Applied | restaurant/src/main/java/com/restaurantreservation/restaurant/RestaurantService.java:103-126 | the row with each supplied, differing address, table count and name set, the reserved count kept |
| RestaurantSpec.UpdateInformations | restaurant/src/main/java/com/restaurantreservation/restaurant/RestaurantService.java:98-136 | updateInformations on the store (its properties are UpdateInformationsEffect, UpdateOkShape, UpdateNoChangesIff, UpdateIgnoresReservedCount, UpdateErrUnchanged and UpdateInformationsKeeps) |
| RestaurantSpec.RestaurantExistById | restaurant/src/main/java/com/restaurantreservation/restaurant/RestaurantService.java:205-209 | restaurantExistById never answers false: Ok(true) exactly when the id is stored, otherwise NotFound for that id |
| RestaurantSpec.CheckTableAvailability | restaurant/src/main/java/com/restaurantreservation/restaurant/RestaurantService.java:187-197 | checkTableAvailability never answers false: Ok(true) exactly when the restaurant exists and reserved < total; otherwise Full for a stored restaurant, NotFound for an unknown id |
| RestaurantSpec.ReserveTableEffect | restaurant/src/main/java/com/restaurantreservation/restaurant/RestaurantService.java:145-157 | reserveTable succeeds exactly when the restaurant exists and reserved < total; it then adds exactly 1 to that restaurant's reserved count, changes no other field and no other restaurant, and returns "Table reserved in the restaurant [name]"; Full and NotFound leave the store as it was |
| RestaurantSpec.CancelTableReservationEffect | restaurant/src/main/java/com/restaurantreservation/restaurant/RestaurantService.java:166-178 | cancelTableReservation succeeds exactly when the restaurant exists and reserved != 0; it then subtracts exactly 1 and returns the cancellation message; otherwise BadRequest (no reservations to cancel) or NotFound, with nothing changed |
| RestaurantSpec.CancelUndoesReserve | restaurant/src/main/java/com/restaurantreservation/restaurant/RestaurantService.java:145-178 | a successful reserve followed by a cancel on the same restaurant gives back the original store |
| RestaurantSpec.ReserveUndoesCancel | restaurant/src/main/java/com/restaurantreservation/restaurant/RestaurantService.java:145-178 | on a store with 0 <= reserved <= total, a successful cancel followed by a reserve gives back the original store |
| RestaurantSpec.CheckPredictsReserve | restaurant/src/main/java/com/restaurantreservation/restaurant/RestaurantService.java:145-197 | checkTableAvailability succeeds exactly when reserveTable would succeed, and otherwise fails with the error reserveTable would fail with |
| RestaurantSpec.ExistByIdAgreesWithGet | restaurant/src/main/java/com/restaurantreservation/restaurant/RestaurantService.java:55-62 | restaurantExistById succeeds exactly when getRestaurant finds the row, and getRestaurant returns the stored row |
| RestaurantSpec.RegisterEffect | restaurant/src/main/java/com/restaurantreservation/restaurant/RestaurantService.java:71-87 | register with a taken name fails with Duplicate and adds nothing; it succeeds exactly when the name is free, all four fields are given and the row meets the declared constraints, and otherwise fails with ValidationFailed, adding nothing; success adds exactly one restaurant under the new id holding the request's four values, reserved count included, and that row meets the declared constraints |
| RestaurantSpec.RegisterAcceptsOverbooked | restaurant/src/main/java/com/restaurantreservation/restaurant/RestaurantService.java:78-84 | register stores a reserved count above the table count: one table and five reserved is accepted and breaks 0 <= reserved <= total |
| RestaurantSpec.RegisterStoresOverbooked | restaurant/src/main/java/com/restaurantreservation/restaurant/RestaurantService.java:71-87 | every request with a free name and fields meeting the declared constraints is stored even when it reserves more tables than it has, leaving that restaurant above 0 <= reserved <= total |
| RestaurantSpec.UpdateInformationsEffect | restaurant/src/main/java/com/restaurantreservation/restaurant/RestaurantService.java:98-136 | updateInformations: NotFound for an unknown id; IllegalArgument with the reserved count when a differing new table count is below it; otherwise Duplicate when a differing new name is taken; it succeeds exactly when the restaurant exists, every check passes, some field changes and the applied row meets the declared constraints, and fails with ValidationFailed when only the constraints fail; every failure leaves the store as it was; success stores the row with exactly the supplied, differing fields applied, the reserved count unchanged and not above a changed table count |
| RestaurantSpec.UpdateOkShape | restaurant/src/main/java/com/restaurantreservation/restaurant/RestaurantService.java:128-135 | a successful update passed every check, found a change, stored exactly the applied row, and that row meets the declared constraints |
| RestaurantSpec.UpdateNoChangesIff | restaurant/src/main/java/com/restaurantreservation/restaurant/RestaurantService.java:101-131 | "No data changes found" is the result exactly when the restaurant exists and no supplied field differs from it |
| RestaurantSpec.UpdateIgnoresReservedCount | restaurant/src/main/java/com/restaurantreservation/restaurant/RestaurantService.java:103-126 | the request's numberTableReserved has no influence at all on updateInformations |
| RestaurantSpec.UpdateErrUnchanged | restaurant/src/main/java/com/restaurantreservation/restaurant/RestaurantService.java:98-136 | a failed updateInformations saves nothing |
| RestaurantSpec.PutKeepsValid | restaurant/src/main/java/com/restaurantreservation/restaurant/Restaurant.java:57-85 | storing a row that meets the declared constraints, under a name no other restaurant uses, keeps names unique and every row valid |
| RestaurantSpec.ReserveTableKeeps | restaurant/src/main/java/com/restaurantreservation/restaurant/RestaurantService.java:145-157 | reserveTable keeps names unique, the declared constraints, and 0 <= reserved <= total |
| RestaurantSpec.CancelTableReservationKeeps | restaurant/src/main/java/com/restaurantreservation/restaurant/RestaurantService.java:166-178 | cancelTableReservation keeps names unique, the declared constraints, and 0 <= reserved <= total |
| RestaurantSpec.RegisterKeeps | restaurant/src/main/java/com/restaurantreservation/restaurant/RestaurantService.java:71-87 | register keeps names unique and the declared constraints, and keeps 0 <= reserved <= total when the request's counts respect it |
| RestaurantSpec.UpdateInformationsKeeps | restaurant/src/main/java/com/restaurantreservation/restaurant/RestaurantService.java:98-136 | updateInformations keeps names unique, the declared constraints, and 0 <= reserved <= total |
| RestaurantSpec.ApplyKeeps | restaurant/src/main/java/com/restaurantreservation/restaurant/RestaurantService.java:35-230 | any single call into the restaurant service keeps the store valid, and bounded unless it registers an over-reserved restaurant |
| RestaurantSpec.RunKeeps | restaurant/src/main/java/com/restaurantreservation/restaurant/RestaurantService.java:35-230 | over any sequence of calls into the restaurant service, names stay unique, the declared constraints hold, and 0 <= reserved <= total holds when no registration brings in reserved > total |
| RestaurantServices.RestaurantService.constructor | restaurant/src/main/java/com/restaurantreservation/restaurant/RestaurantService.java:35 | the service starts with no restaurants and the id sequence at 1 |
| RestaurantServices.RestaurantService.RestaurantExistByName | restaurant/src/main/java/com/restaurantreservation/restaurant/RestaurantService.java:217-220 | restaurantExistByName reads the service's stored restaurants and answers as RestaurantSpec.RestaurantExistByName |
| RestaurantServices.RestaurantService.GetRestaurant | restaurant/src/main/java/com/restaurantreservation/restaurant/RestaurantService.java:55-62 | getRestaurant returns a fresh entity holding the stored row, or NotFound for an unknown id |
| RestaurantServices.RestaurantService.Save | restaurant/src/main/java/com/restaurantreservation/restaurant/Restaurant.java:57-85 | repository.save writes the entity's row when it meets the declared constraints and otherwise fails with ValidationFailed, writing nothing |
| RestaurantServices.RestaurantService.Register | restaurant/src/main/java/com/restaurantreservation/restaurant/RestaurantService.java:71-87 | register builds and saves the entity and has exactly the effect and result of RestaurantSpec.Register; the id sequence advances only on success; the service invariant is kept |
| RestaurantServices.RestaurantService.UpdateInformations | restaurant/src/main/java/com/restaurantreservation/restaurant/RestaurantService.java:98-136 | updateInformations on the loaded entity has exactly the effect and result of RestaurantSpec.UpdateInformations and keeps the service invariant |
| RestaurantServices.RestaurantService.ApplyChanges | restaurant/src/main/java/com/restaurantreservation/restaurant/RestaurantService.java:101-126 | the address, table-count and name steps on the entity give the first failing check or whether some field changed, and leave the entity holding the applied row |
| RestaurantServices.RestaurantService.ReserveTable | restaurant/src/main/java/com/restaurantreservation/restaurant/RestaurantService.java:145-157 | reserveTable on the loaded entity has exactly the result and new store of RestaurantSpec.ReserveTable and keeps the service invariant |
| RestaurantServices.RestaurantService.CancelTableReservation | restaurant/src/main/java/com/restaurantreservation/restaurant/RestaurantService.java:166-178 | cancelTableReservation on the loaded entity has exactly the result and new store of RestaurantSpec.CancelTableReservation and keeps the service invariant |
| RestaurantServices.RestaurantService.CheckTableAvailability | restaurant/src/main/java/com/restaurantreservation/restaurant/RestaurantService.java:187-197 | checkTableAvailability changes nothing, never answers false, and answers as RestaurantSpec.CheckTableAvailability |
| RestaurantServices.RestaurantService.RestaurantExistById | restaurant/src/main/java/com/restaurantreservation/restaurant/RestaurantService.java:205-209 | restaurantExistById changes nothing, never answers false, and answers as RestaurantSpec.RestaurantExistById |
| ReservationEntity.Reservation.Build | reservation/src/main/java/com/restaurantreservation/reservation/Reservation.java:83-84 | a reservation built from a request has no id yet, holds the given values, and is not canceled |
| ReservationEntity.Reservation.constructor | reservation/src/main/java/com/restaurantreservation/reservation/Reservation.java:34-84 | a reservation loaded from a stored row has that id, every non-null column set, and holds exactly that row |
| ReservationSpec.GetReservation | reservation/src/main/java/com/restaurantreservation/reservation/ReservationService.java:118-126 | getReservation on the ledger: the stored row, or NotFound for a reservation id |
| ReservationSpec.NotCanceled | reservation/src/main/java/com/restaurantreservation/reservation/ReservationRepository.java:51 | findAllByCanceledIsFalse: the stored reservations whose canceled flag is false (stated by FindersPartition) |
| ReservationSpec.Canceled | reservation/src/main/java/com/restaurantreservation/reservation/ReservationRepository.java:43 | findAllByCanceledIsTrue: the stored reservations whose canceled flag is true (stated by FindersPartition) |
| ReservationSpec.ByRestaurant | reservation/src/main/java/com/restaurantreservation/reservation/ReservationRepository.java:60 | findAllByIdRestaurantEquals: the stored reservations of one restaurant (stated by FindersPartition and FindersAfterPut) |
| ReservationSpec.ByCustomer | reservation/src/main/java/com/restaurantreservation/reservation/ReservationRepository.java:69 | findAllByCustomerNameEquals: the stored reservations of one customer (stated by FindersPartition and FindersAfterPut) |
| ReservationSpec.Register | reservation/src/main/java/com/restaurantreservation/reservation/ReservationService.java:137-157 | register on both stores, with the client calls it makes (its properties are RegisterFailedCheck, RegisterEffect, FindersAfterRegister and CancelUndoesRegister) |
| ReservationSpec.CancelReservation | reservation/src/main/java/com/restaurantreservation/reservation/ReservationService.java:168-182 | cancelReservation on both stores, with the client calls it makes (its properties are CancelReservationEffect, CancelTwice and FindersAfterCancel) |
| ReservationSpec.MoveTable | reservation/src/main/java/com/restaurantreservation/reservation/ReservationService.java:208-215 | the three client calls of a restaurant change, stopping at the first failure (its properties are MoveTableEffect and MoveTableKeeps) |
| ReservationSpec.Applied | reservation/src/main/java/com/restaurantreservation/reservation/ReservationService.java:200-222 | the row with each supplied, differing name, restaurant and date set, the canceled flag kept |
| ReservationSpec.UpdateInformations | reservation/src/main/java/com/restaurantreservation/reservation/ReservationService.java:195-230 | updateInformations on both stores, with the client calls it makes (its properties are UpdateNoChangesIff, UpdateMoveEffect, UpdateInPlaceEffect and UpdateMovesCanceledReservation) |
| ReservationSpec.FindersPartition | reservation/src/main/java/com/restaurantreservation/reservation/ReservationService.java:71-85 | the not-canceled and canceled finders split the ledger: disjoint, together every reservation, each returning stored rows with the matching flag |
| ReservationSpec.FindersAfterRegister | reservation/src/main/java/com/restaurantreservation/reservation/ReservationService.java:137-157 | a registered reservation appears among the active ones, under its restaurant and under its customer, and not among the canceled ones |
| ReservationSpec.FindersAfterCancel | reservation/src/main/java/com/restaurantreservation/reservation/ReservationService.java:168-182 | a canceled reservation moves from the active to the canceled ones and stays under its restaurant and its customer |
| ReservationSpec.FindersAfterPut | reservation/src/main/java/com/restaurantreservation/reservation/ReservationService.java:71-109 | storing a row adds it to, or removes it from, the active and canceled finders by its flag, and adds it to the finders of its restaurant and its customer |
| ReservationSpec.RegisterFailedCheck | reservation/src/main/java/com/restaurantreservation/reservation/ReservationService.java:142-143 | when the existence or availability check fails, register stops there, issues no reserveTable, saves nothing and returns NotFound or Full |
| ReservationSpec.RegisterEffect | reservation/src/main/java/com/restaurantreservation/reservation/ReservationService.java:137-157 | on an available restaurant register calls checkRestaurantExist, checkAvailability and reserveTable once each in that order and raises the reserved count by 1; it saves one active reservation under the next id exactly when the name and the date are given, otherwise fails with ValidationFailed while the table stays reserved |
| ReservationSpec.RegisterWithoutRestaurant | reservation/src/main/java/com/restaurantreservation/reservation/ReservationService.java:138-142 | documents the RemoteFailed abstraction listed under Left out (it unfolds the definition, so it proves nothing further): a request without a restaurant id fails before any restaurant operation and changes nothing |
| ReservationSpec.CancelReservationEffect | reservation/src/main/java/com/restaurantreservation/reservation/ReservationService.java:168-182 | cancelReservation: NotFound for an unknown id and AlreadyCanceled for a canceled one, both with no remote call and nothing changed; otherwise exactly one cancelTableReservation on its restaurant, then only the canceled flag changes; a failed remote cancel saves nothing |
| ReservationSpec.CancelTwice | reservation/src/main/java/com/restaurantreservation/reservation/ReservationService.java:171-174 | a second cancel of the same reservation fails with AlreadyCanceled, makes no remote call and changes nothing |
| ReservationSpec.CancelUndoesRegister | reservation/src/main/java/com/restaurantreservation/reservation/ReservationService.java:137-182 | cancelling a freshly registered reservation succeeds and gives the restaurants back exactly as they were |
| ReservationSpec.MoveTableEffect | reservation/src/main/java/com/restaurantreservation/reservation/ReservationService.java:208-215 | a restaurant change calls checkAvailability(new), reserveTable(new), cancelTableReservation(old) in that order, stopping at a full or unknown new restaurant; success moves one reserved table from old to new; a failed cancel leaves the new table reserved |
| ReservationSpec.UpdateNoChangesIff | reservation/src/main/java/com/restaurantreservation/reservation/ReservationService.java:195-230 | "No data changes found" is the result exactly when the reservation exists and no supplied field differs, and then nothing is called or changed; an unknown id fails with NotFound |
| ReservationSpec.UpdateMoveEffect | reservation/src/main/java/com/restaurantreservation/reservation/ReservationService.java:208-229 | an update with a differing restaurant makes the move's calls and keeps their effects; it stores the applied row, canceled flag untouched, exactly when the move succeeds, and otherwise saves nothing |
| ReservationSpec.UpdateInPlaceEffect | reservation/src/main/java/com/restaurantreservation/reservation/ReservationService.java:200-229 | an update that changes only the name or the date makes no remote call and stores the applied row |
| ReservationSpec.UpdateMovesCanceledReservation | reservation/src/main/java/com/restaurantreservation/reservation/ReservationService.java:195-230 | updateInformations never looks at the canceled flag: a canceled reservation moved to an available restaurant still takes a table there and frees one at the old restaurant, and stays canceled |
| CapacityProtocol.MoveTableKeeps | reservation/src/main/java/com/restaurantreservation/reservation/ReservationService.java:208-215 | the calls of a restaurant change keep the restaurants valid and within capacity |
| CapacityProtocol.RegisterKeeps | reservation/src/main/java/com/restaurantreservation/reservation/ReservationService.java:137-157 | register keeps the restaurants valid and within capacity, loses no reservation and un-cancels none |
| CapacityProtocol.CancelKeeps | reservation/src/main/java/com/restaurantreservation/reservation/ReservationService.java:168-182 | cancelReservation keeps the restaurants valid and within capacity, loses no reservation and un-cancels none |
| CapacityProtocol.UpdateKeeps | reservation/src/main/java/com/restaurantreservation/reservation/ReservationService.java:195-230 | updateInformations keeps the restaurants valid and within capacity, loses no reservation and un-cancels none |
| CapacityProtocol.StepKeeps | reservation/src/main/java/com/restaurantreservation/reservation/ReservationService.java:137-230 | any single call into either service keeps both stores valid, never removes a reservation or clears its canceled flag, and keeps 0 <= reserved <= total unless it registers an over-reserved restaurant |
| CapacityProtocol.RunKeeps | reservation/src/main/java/com/restaurantreservation/reservation/ReservationService.java:168-230 | over any sequence of calls into either service: the stores stay valid, no reservation disappears, Canceled is terminal, and 0 <= reserved <= total holds when no registration brings in reserved > total |
| CapacityProtocol.ActiveCount | reservation/src/main/java/com/restaurantreservation/reservation/ReservationService.java:178 | storing a reservation row changes each restaurant's number of active reservations by the row leaving and the row joining it |
| CapacityProtocol.RegisterKeepsConsistent | reservation/src/main/java/com/restaurantreservation/reservation/ReservationService.java:137-157 | registering a reservation with a name and a date keeps every restaurant's reserved count equal to its number of active reservations |
| CapacityProtocol.CancelKeepsConsistent | reservation/src/main/java/com/restaurantreservation/reservation/ReservationService.java:168-182 | when the counts match, cancelling an active reservation always succeeds and keeps them matching |
| CapacityProtocol.UpdateKeepsConsistent | reservation/src/main/java/com/restaurantreservation/reservation/ReservationService.java:195-230 | when the counts match and an active reservation is moved, the move succeeds exactly when the new restaurant has a free table, and the counts still match afterwards |
| CapacityProtocol.RestaurantOpKeepsConsistent | restaurant/src/main/java/com/restaurantreservation/restaurant/RestaurantService.java:71-136 | registering a restaurant under a fresh id with nothing reserved, updating a restaurant, or querying one keeps the counts matching |
| CapacityProtocol.StepKeepsConsistent | reservation/src/main/java/com/restaurantreservation/reservation/ReservationService.java:137-230 | every call that keeps to the protocol keeps each reserved count equal to the number of active reservations |
| CapacityProtocol.RunKeepsConsistent | reservation/src/main/java/com/restaurantreservation/reservation/ReservationService.java:137-230 | over any sequence of calls that keeps to the protocol, every restaurant's reserved count stays equal to its number of active reservations |
| CapacityProtocol.RegisterLeaksTable | reservation/src/main/java/com/restaurantreservation/reservation/ReservationService.java:146-156 | register without a customer name reserves a table, then fails to save: ValidationFailed, and the counts no longer match |
| CapacityProtocol.MovingCanceledDrifts | reservation/src/main/java/com/restaurantreservation/reservation/ReservationService.java:195-230 | moving a canceled reservation to an available restaurant succeeds and leaves that restaurant counting a table no active reservation holds |
| ReservationServices.ReservationService.constructor | reservation/src/main/java/com/restaurantreservation/reservation/ReservationService.java:52 | the service starts with no reservations, the id sequence at 1 and no remote calls |
| ReservationServices.ReservationService.CheckRestaurantExist | clients/src/main/java/com/restaurantreservation/clients/restaurant/RestaurantClient.java:24-25 | the client's existence check answers as restaurantExistById on the current restaurants and is logged as one call |
| ReservationServices.ReservationService.CheckAvailability | clients/src/main/java/com/restaurantreservation/clients/restaurant/RestaurantClient.java:33-34 | the client's availability check answers as checkTableAvailability on the current restaurants and is logged as one call |
| ReservationServices.ReservationService.ReserveTable | clients/src/main/java/com/restaurantreservation/clients/restaurant/RestaurantClient.java:42-43 | the client's reserve has exactly the result and effect of reserveTable in the restaurant service, leaves its id sequence unchanged, and is logged as one call |
| ReservationServices.ReservationService.CancelTableReservation | clients/src/main/java/com/restaurantreservation/clients/restaurant/RestaurantClient.java:51-52 | the client's cancel has exactly the result and effect of cancelTableReservation in the restaurant service, leaves its id sequence unchanged, and is logged as one call |
| ReservationServices.ReservationService.MoveTable | reservation/src/main/java/com/restaurantreservation/reservation/ReservationService.java:209-211 | the three client calls of a restaurant change give exactly the result, restaurants and call log of ReservationSpec.MoveTable, with the restaurant id sequence unchanged |
| ReservationServices.ReservationService.GetReservation | reservation/src/main/java/com/restaurantreservation/reservation/ReservationService.java:118-126 | getReservation returns a fresh entity holding the stored row, or NotFound for an unknown id |
| ReservationServices.ReservationService.Save | reservation/src/main/java/com/restaurantreservation/reservation/ReservationService.java:156 | repository.save fails with ValidationFailed on a null name or date and writes nothing; otherwise it writes the row, under the next id for a new entity |
| ReservationServices.ReservationService.Register | reservation/src/main/java/com/restaurantreservation/reservation/ReservationService.java:137-157 | register has exactly the result, stored state of both services and remote calls of ReservationSpec.Register, with the restaurant id sequence unchanged |
| ReservationServices.ReservationService.CancelReservation | reservation/src/main/java/com/restaurantreservation/reservation/ReservationService.java:168-182 | cancelReservation has exactly the result, stored state of both services and remote calls of ReservationSpec.CancelReservation, with the restaurant id sequence unchanged |
| ReservationServices.ReservationService.UpdateInformations | reservation/src/main/java/com/restaurantreservation/reservation/ReservationService.java:195-230 | updateInformations has exactly the result, stored state of both services and remote calls of ReservationSpec.UpdateInformations, with the restaurant id sequence unchanged |
| ReservationServices.ReservationService.ApplyChanges | reservation/src/main/java/com/restaurantreservation/reservation/ReservationService.java:200-222 | the name, restaurant and date steps on the entity: the failure of the move, or whether some field changed, with the entity holding the applied row, the move's calls made, and the restaurant id sequence unchanged |

## Left out

- Controllers, HATEOAS links, paging and sorting: the finders are modelled as sub-maps of the ledger, and getAllRestaurants/getAllReservations are the stores themselves.
- The exception handlers and the HTTP translation of errors: an error raised by the restaurant service reaches the reservation service unchanged, where in the deployed system it travels as an HTTP error through the Feign client, whose message format is library-defined.
- The network, service discovery, the API gateway and its authentication: the client calls go straight into the restaurant service object.
- Concurrency: the model is sequential. The check-then-reserve sequence is not atomic in the services, and nothing here claims that overbooking is impossible under concurrent requests.
- Logging.
- Dates: a LocalDate is an int compared for equality.
- Integer width: ids and counts are unbounded integers; the 64-bit range of Long is not modelled.
- Transactions: a save is one atomic map update, and the ids the sequences hand out on failed inserts are not modelled (the next id advances only on a successful save).
- Bean Validation messages: a rejected save is the single error ValidationFailed, without the constraint's text; repository-level failures other than a null column or a violated declared constraint are not modelled.
- RestaurantSpec.Register: a request with a null numberTable or numberTableReserved is rejected with ValidationFailed, while the entity's @Min constraints accept null and would store it; the model keeps both counts always present.
- ReservationSpec.Register: a request without a restaurant id fails with RemoteFailed before any restaurant operation, as an abstraction of the client call with a null path variable.
- ReservationServices.ReservationService.Save: only entities that are new or were loaded from the ledger are saved (its precondition), which is how the service uses the repository.
- Names of restaurants are compared exactly (the database's collation is not modelled), and blank means every character is at most ' ', as Java's trim does.
