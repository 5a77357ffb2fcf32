/**
  The canonical review row shared by both versions of the reviews service, and
  the small wrapper types the services use for absent values and failures.
*/
module ReviewModel {

  /** A value that may be absent (`undefined` in a request or a provider record). */
  datatype Option<+T> = None | Some(value: T) {
    /** The value, or `default` when absent (the `?? default` of the source). */
    function GetOr(default: T): T {
      match this
      case Some(v) => v
      case None => default
    }
  }

  /** The failures the services raise. */
  datatype Error =
    | NotFound(id: int)                  // no row has this store id
    | UniqueViolation(hostawayId: int)   // a create hit the unique index on hostawayId
    | InvalidDate(hostawayId: int)       // the store refused an Invalid Date in a write
    | MockDataUnreadable                 // the mock-data file could not be read or parsed

  datatype Result<+T> = Ok(value: T) | Err(error: Error)

  /** One entry of a review's category breakdown, stored as an opaque list. */
  datatype Category = Category(category: string, rating: real)

  /** A provider timestamp after parsing: milliseconds since the epoch, and whether it was a valid date. */
  datatype RawDate = RawDate(ms: int, valid: bool)

  /** The persisted review row (without its store-assigned id). */
  datatype Review = Review(
    hostawayId: int,
    listingName: string,
    guestName: string,
    rating: real,
    content: string,
    channel: string,
    reviewType: string,
    status: string,
    date: int,
    categories: seq<Category>,
    isVisible: bool)

  /** A row as the store returns it: its store id and its fields. */
  datatype Row = Row(id: int, review: Review)

  /** The result of reading and parsing the mock-data file. */
  datatype FileRead<T> = Loaded(records: seq<T>) | Unreadable
}
