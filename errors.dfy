/** The error taxonomy of src/error.ts, and the two ways an operation of the model can
    fail: by raising one of those application errors, or by letting through an error
    that a Node `fs` call raised itself. */
module Errors {
  import opened Paths

  /** Which class of src/error.ts an error was built by. `Generic` is a direct
      `new AppError(message, statusCode)`, which carries its own status code. */
  datatype ErrorKind = Generic(code: int) | Validation | NotFound | InternalServer

  /** The classes of src/error.ts, as the right-hand side of an `instanceof`. */
  datatype ErrorClass = AppErrorClass | ValidationErrorClass | NotFoundErrorClass | InternalServerErrorClass

  /** An instance of `AppError` or of one of its subclasses. The status code is not
      stored: each subclass fixes it, and a plain `AppError` carries it in its kind. */
  datatype AppError = AppError(kind: ErrorKind, message: string, isOperational: bool) {

    function StatusCode(): int {
      match kind
      case Generic(c) => c
      case Validation => 400
      case NotFound => 404
      case InternalServer => 500
    }

    /** `this.constructor.name`. */
    function Name(): string {
      match kind
      case Generic(_) => "AppError"
      case Validation => "ValidationError"
      case NotFound => "NotFoundError"
      case InternalServer => "InternalServerError"
    }

    /** `instanceof`: every instance is an `AppError`; a subclass instance is also an
        instance of its own class. */
    predicate InstanceOf(cls: ErrorClass) {
      match cls
      case AppErrorClass => true
      case ValidationErrorClass => kind == Validation
      case NotFoundErrorClass => kind == NotFound
      case InternalServerErrorClass => kind == InternalServer
    }
  }

  /** `new AppError(message, statusCode, isOperational = true)`. */
  function NewAppError(message: string, statusCode: int, isOperational: bool := true): (e: AppError)
    ensures e.message == message && e.StatusCode() == statusCode
    ensures e.isOperational == isOperational
    ensures e.Name() == "AppError" && e.InstanceOf(AppErrorClass)
  {
    AppError(Generic(statusCode), message, isOperational)
  }

  /** `new ValidationError(message)`. */
  function ValidationError(message: string): (e: AppError)
    ensures e.message == message && e.StatusCode() == 400 && e.isOperational
    ensures e.InstanceOf(ValidationErrorClass) && e.InstanceOf(AppErrorClass)
    ensures !e.InstanceOf(NotFoundErrorClass) && !e.InstanceOf(InternalServerErrorClass)
  {
    AppError(Validation, message, true)
  }

  /** `new NotFoundError(message)`. */
  function NotFoundError(message: string): (e: AppError)
    ensures e.message == message && e.StatusCode() == 404 && e.isOperational
    ensures e.InstanceOf(NotFoundErrorClass) && e.InstanceOf(AppErrorClass)
    ensures !e.InstanceOf(ValidationErrorClass) && !e.InstanceOf(InternalServerErrorClass)
  {
    AppError(NotFound, message, true)
  }

  /** `new InternalServerError(message)`. */
  function InternalServerError(message: string): (e: AppError)
    ensures e.message == message && e.StatusCode() == 500 && e.isOperational
    ensures e.InstanceOf(InternalServerErrorClass) && e.InstanceOf(AppErrorClass)
    ensures !e.InstanceOf(ValidationErrorClass) && !e.InstanceOf(NotFoundErrorClass)
  {
    AppError(InternalServer, message, true)
  }

  /** The status code of an instance built by one of the three subclasses tells which
      subclass built it; this is what lets a caller tell a missing path (404) from a
      failed I/O step (500) or a rejected input (400). */
  lemma {:induction false} SubclassFromStatus(e: AppError, message: string)
    requires e in {ValidationError(message), NotFoundError(message), InternalServerError(message)}
    ensures e.StatusCode() == 400 <==> e == ValidationError(message)
    ensures e.StatusCode() == 404 <==> e == NotFoundError(message)
    ensures e.StatusCode() == 500 <==> e == InternalServerError(message)
    ensures e.isOperational
  {
  }

  /** The Node `fs` calls the model uses; a raw error names the call that raised it.
      `Rm` is `fs.promises.rm(p, { recursive: true })`, which only the corrected
      directory removal uses. */
  datatype FsCall =
    | ReadFileSync | WriteFileSync | AppendFileSync | UnlinkSync | MkdirSync
    | CopyFileSync | RenameSync | ReaddirSync | StatSync | Rm

  /** What an operation raises: an application error, or a raw error of an `fs` call
      (on the path it was given) that src/file.ts does not translate. */
  datatype Failure = App(err: AppError) | Sys(call: FsCall, path: Path)

  datatype Option<T> = None | Some(value: T)

  /** The outcome of an operation that returns a value, or of one that returns nothing. */
  datatype Result<T> = Ok(value: T) | Err(error: Failure)
  datatype Outcome = Pass | Fail(error: Failure)

  /** A raised error with the given status code. */
  predicate RaisesStatus(o: Outcome, code: int) {
    o.Fail? && o.error.App? && o.error.err.StatusCode() == code
  }
}
