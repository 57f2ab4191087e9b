/** Outcomes of the route handlers. Each HTTP error response of the
    backend becomes an `Error` variant; a 2xx response becomes `Ok`. */
module Responses {

  /** An optional value: a missing request field, a lookup that found nothing. */
  datatype Option<+T> = None | Some(value: T)

  /** The three error responses the handlers send: 400, 404 and 500. */
  datatype Error =
    | BadRequest(message: string)
    | NotFound(message: string)
    | ServerError(message: string)

  /** The outcome of one handler call. */
  datatype Result<+T> = Ok(value: T) | Err(error: Error)

  const NAME_AND_ROLL_REQUIRED: string := "Name and roll number are required"
  const ROLL_EXISTS: string := "Roll number already exists"
  const STUDENT_NOT_FOUND: string := "Student not found"
  const SERVER_ERROR: string := "Server error"
  const STUDENT_REMOVED: string := "Student removed successfully"
  const DATE_AND_RECORDS_REQUIRED: string := "Date and records required"
  const DATE_REQUIRED: string := "Date is required"
  const MONTH_AND_YEAR_REQUIRED: string := "Month and year required"
}
