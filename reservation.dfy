/** The Reservation entity: its persisted row and the mutable object the
    reservation service builds or loads, changes through setters and saves. */
module ReservationEntity {
  import opened Errors

  /** A LocalDate, compared only for equality. */
  type Date = int

  /** A stored reservation; the id is the key under which the row is stored.
      idRestaurant is a plain column: nothing ties it to the restaurant store. */
  datatype ReservationRow = ReservationRow(
    idRestaurant: int,
    customerName: string,
    reservationDate: Date,
    canceled: bool)

  /** The entity object. The id stays null (None) until the first save assigns
      the next value of the id sequence; customerName and reservationDate are
      references the builder may be given as null. */
  class Reservation {
    var id: Option<int>
    var idRestaurant: int
    var customerName: Option<string>
    var reservationDate: Option<Date>
    var canceled: bool

    /** Reservation.builder()...build(): no id yet, and canceled keeps its
        default false, so a new reservation starts active. */
    constructor Build(idRestaurant: int, customerName: Option<string>, reservationDate: Option<Date>)
      ensures id.None? && !canceled
      ensures this.idRestaurant == idRestaurant
      ensures this.customerName == customerName && this.reservationDate == reservationDate
    {
      id := None;
      this.idRestaurant := idRestaurant;
      this.customerName := customerName;
      this.reservationDate := reservationDate;
      canceled := false;
    }

    /** The entity the repository loads from a stored row. */
    constructor (id: int, row: ReservationRow)
      ensures this.id == Some(id) && Complete() && Row() == row
    {
      this.id := Some(id);
      idRestaurant := row.idRestaurant;
      customerName := Some(row.customerName);
      reservationDate := Some(row.reservationDate);
      canceled := row.canceled;
    }

    /** Every column declared nullable = false holds a value. */
    predicate Complete()
      reads this
    {
      customerName.Some? && reservationDate.Some?
    }

    /** The values the entity would be stored as. */
    function Row(): ReservationRow
      reads this
      requires Complete()
    {
      ReservationRow(idRestaurant, customerName.value, reservationDate.value, canceled)
    }
  }
}
