/** Outcomes shared by every handler of the booking service: an optional value for
    request fields the client may leave out, and a result that is either a value or
    one of the errors the routes answer with. */
module Results {

  /** A request field that may be absent (`undefined` in the request body or query). */
  datatype Option<+T> = None | Some(value: T)

  /** Why a request was refused with status 400. */
  datatype Reason =
    | MissingName        // booking: userName absent or blank
    | InvalidEmail       // booking: userEmail absent or not matching the e-mail pattern
    | InvalidPhone       // booking: fewer than ten digits in userPhone
    | InvalidExpertId    // booking: route id is not 24 hexadecimal characters
    | InvalidStatus      // status update: not one of the three status names
    | MissingEmailQuery  // listing: email query absent or blank
    | InvalidEmailQuery  // listing: email query not matching the e-mail pattern
    | CompletedIsFinal   // corrected status update only: a Completed booking cannot be reopened

  /** Which record a 404 answer reports as missing. */
  datatype Missing = ExpertMissing | SlotMissing | BookingMissing

  /** The error a route answers with; each kind stands for one HTTP status code. */
  datatype Error =
    | ValidationError(reason: Reason)   // 400
    | NotFound(what: Missing)           // 404
    | Conflict                          // 409
    | ServerError   // 500: anything the routes catch

  datatype Result<+T> = Ok(value: T) | Err(error: Error)
}
