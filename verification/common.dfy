/** Shared vocabulary of the request handlers: optional request fields,
    JavaScript truthiness of those fields, the failure taxonomy with its
    HTTP status codes, and a Result type carrying either a value or a failure. */
module Common {

  datatype Option<+T> = None | Some(value: T)

  /** Every failure a handler answers with. `StoreError` is the catch-all
      500 that `handleError` produces when the store reports a problem the
      handler does not classify. */
  datatype Failure =
    | MissingInput          // a required request field is absent or falsy
    | InvalidValue          // a field is present but outside its allowed set
    | SlotUnavailable       // the day is not 'Activo' or has no free slot
    | NotEligible(estado: string)  // the applicant's stage does not allow booking
    | InvalidPath           // a download path outside the two storage buckets
    | LengthMismatch        // upload lists of different lengths
    | UnknownApplication    // upload for an application id the store does not hold
    | MissingMandatory(types: seq<string>)  // upload leaves mandatory documents out
    | Forbidden             // cancel by someone other than the owner
    | NotFound
    | Conflict              // uniqueness clash (ticket code, day date)
    | StoreError            // unclassified store error, answered with 500

  /** The HTTP status each failure is answered with. */
  function Status(f: Failure): (code: int)
    ensures code in {400, 403, 404, 409, 500}
    ensures code == 400 <==> f.MissingInput? || f.InvalidValue? || f.SlotUnavailable? || f.NotEligible?
                             || f.InvalidPath? || f.LengthMismatch? || f.UnknownApplication? || f.MissingMandatory?
    ensures f.Forbidden? ==> code == 403
    ensures f.NotFound? ==> code == 404
    ensures f.Conflict? ==> code == 409
    ensures f.StoreError? ==> code == 500
  {
    match f
    case Forbidden => 403
    case NotFound => 404
    case Conflict => 409
    case StoreError => 500
    case _ => 400
  }

  datatype Result<+T> = Ok(value: T) | Err(failure: Failure)

  /** JavaScript truthiness of an optional numeric field: absent and 0 are falsy. */
  predicate GivenInt(o: Option<int>) {
    o.Some? && o.value != 0
  }

  /** JavaScript truthiness of an optional string field: absent and "" are falsy. */
  predicate GivenStr(o: Option<string>) {
    o.Some? && o.value != ""
  }
}
