/** The Restaurant entity: its persisted row, the constraints its fields
    declare, and the mutable object the service loads, changes and saves. */
module RestaurantEntity {

  /** A stored restaurant; the id is the key under which the row is stored. */
  datatype RestaurantRow = RestaurantRow(
    name: string,
    address: string,
    numberTable: int,
    numberTableReserved: int)

  /** Bean Validation's NotBlank: after trimming every character up to ' '
      nothing is left. */
  predicate IsBlank(s: string) {
    forall i | 0 <= i < |s| :: s[i] <= ' '
  }

  /** The field constraints the entity declares, checked when it is saved:
      name and address not blank, at least one table, no negative reserved
      count. There is no constraint tying the reserved count to the total. */
  predicate SatisfiesConstraints(r: RestaurantRow) {
    && !IsBlank(r.name)
    && !IsBlank(r.address)
    && r.numberTable >= 1
    && r.numberTableReserved >= 0
  }

  /** The capacity bound the service operations keep: 0 <= reserved <= total. */
  predicate WithinCapacity(r: RestaurantRow) {
    0 <= r.numberTableReserved <= r.numberTable
  }

  /** The service's isTablesAvailable. */
  predicate IsTablesAvailable(r: RestaurantRow) {
    r.numberTableReserved < r.numberTable
  }

  /** The entity object, with its Lombok getters and setters as plain fields. */
  class Restaurant {
    var id: int
    var name: string
    var address: string
    var numberTable: int
    var numberTableReserved: int

    /** The all-arguments constructor the builder and the repository use. */
    constructor (id: int, row: RestaurantRow)
      ensures this.id == id && Row() == row
    {
      this.id := id;
      name := row.name;
      address := row.address;
      numberTable := row.numberTable;
      numberTableReserved := row.numberTableReserved;
    }

    /** The values the entity would be stored as. */
    function Row(): RestaurantRow
      reads this
    {
      RestaurantRow(name, address, numberTable, numberTableReserved)
    }
  }
}
