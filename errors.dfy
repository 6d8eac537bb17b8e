/** The exceptions both services throw, as the error half of a Result. Each
    variant carries what its message is built from; Message gives the exact
    text the exception carries. */
module Errors {

  datatype Option<+T> = None | Some(value: T)

  /** Which store a lookup failed in. */
  datatype Kind = RestaurantKind | ReservationKind

  /** The reasons a BadRequestException is thrown for. */
  datatype Reason = NoReservationsToCancel | NoDataChanges | AlreadyCanceled

  /** One variant per exception class the core throws (or lets through from the
      persistence layer). */
  datatype Error =
    | NotFound(kind: Kind, id: int)   // ResourceNotFoundException
    | Full                            // RestaurantFullException
    | BadRequest(reason: Reason)      // BadRequestException
    | Duplicate                       // DuplicateResourceException on a taken name
    | IllegalArgument(reserved: int)  // IllegalArgumentException: table count below the reserved count
    | ValidationFailed                // a declared entity constraint rejected the save
    | RemoteFailed                    // a client call with a null restaurant id never reaches an operation

  datatype Result<+T> = Ok(value: T) | Err(error: Error) {
    predicate IsFailure() { Err? }
    function PropagateFailure<U>(): Result<U> requires Err? { Err(error) }
    function Extract(): T requires Ok? { value }
  }

  function Digit(d: nat): (c: char)
    requires d < 10
    ensures '0' <= c <= '9' && c as int - '0' as int == d
  {
    "0123456789"[d]
  }

  /** The number a string of decimal digits denotes, most significant first. */
  ghost function DecimalValue(s: string): int
    decreases |s|
  {
    if s == [] then 0 else 10 * DecimalValue(s[..|s| - 1]) + (s[|s| - 1] as int - '0' as int)
  }

  /** Decimal digits of n, most significant first, as Long.toString prints them. */
  function NatToString(n: nat): (s: string)
    ensures |s| > 0
    ensures forall i | 0 <= i < |s| :: '0' <= s[i] <= '9'
    ensures |s| == 1 <==> n < 10
    ensures |s| > 1 ==> s[0] != '0'
    ensures DecimalValue(s) == n
    decreases n
  {
    if n < 10 then [Digit(n)]
    else
      var prefix := NatToString(n / 10);
      var s := prefix + [Digit(n % 10)];
      assert s[..|s| - 1] == prefix;
      s
  }

  /** Java's "%s" formatting of a Long: a '-' for a negative value, then the
      decimal digits of its magnitude. */
  function IntToString(i: int): (s: string)
    ensures |s| > 0
    ensures (s[0] == '-') <==> i < 0
    ensures var digits := if i < 0 then s[1..] else s;
      && |digits| > 0
      && (forall k | 0 <= k < |digits| :: '0' <= digits[k] <= '9')
      && (|digits| > 1 ==> digits[0] != '0')
      && DecimalValue(digits) == if i < 0 then -i else i
  {
    if i < 0 then "-" + NatToString(-i) else NatToString(i)
  }

  /** The message each exception carries (the texts of ValidationFailed and
      RemoteFailed come from the persistence and HTTP layers and are not modelled). */
  function Message(e: Error): string {
    match e
    case NotFound(RestaurantKind, id) => "Restaurant with id [" + IntToString(id) + "] not found !!!"
    case NotFound(ReservationKind, id) => "Reservation with id [" + IntToString(id) + "] not found !!!"
    case Full => "Table reservation failed, restaurant is full !!!"
    case BadRequest(NoReservationsToCancel) => "There is no reservations to cancel !!!"
    case BadRequest(NoDataChanges) => "No data changes found"
    case BadRequest(AlreadyCanceled) => "Reservation already canceled !!!"
    case Duplicate => "Restaurant name already taken !!!"
    case IllegalArgument(reserved) =>
      "Number of tables should be superior or equal to the number of tables reserved. restaurant got ["
        + IntToString(reserved) + "] tables reserved"
    case ValidationFailed => ""
    case RemoteFailed => ""
  }

  function ReservedMessage(name: string): string {
    "Table reserved in the restaurant [" + name + "]"
  }

  function CanceledMessage(name: string): string {
    "Table reservation canceled in the restaurant [" + name + "]"
  }
}
