/** Option and Result types shared by the whole model, and the application's HTTP errors. */
module Wrappers {

  datatype Option<+T> = None | Some(value: T)

  /** An error a handler throws: the HTTP status and the machine-readable code it carries. */
  datatype AppError = AppError(status: nat, code: string)

  /** The outcome of a handler or repository call: a value, or the error it throws. */
  datatype Result<+T> = Ok(value: T) | Err(error: AppError)

  function NotFound(): AppError { AppError(404, "NOT_FOUND") }

  function Forbidden(): AppError { AppError(403, "FORBIDDEN") }

  function BadRequest(code: string): AppError { AppError(400, code) }

  /** A plain `Error` thrown by a repository ("Failed to ..."), answered with 500. */
  function Internal(): AppError { AppError(500, "INTERNAL_ERROR") }

  const EXAM_NOT_EDITABLE := "EXAM_NOT_EDITABLE"
  const ALREADY_PUBLISHED := "ALREADY_PUBLISHED"
  const NO_QUESTIONS := "NO_QUESTIONS"
  const EXAM_NOT_AVAILABLE := "EXAM_NOT_AVAILABLE"
  const ALREADY_ATTEMPTED := "ALREADY_ATTEMPTED"
  const ATTEMPT_SUBMITTED := "ATTEMPT_SUBMITTED"
  const ATTEMPT_NOT_SUBMITTED := "ATTEMPT_NOT_SUBMITTED"
}
