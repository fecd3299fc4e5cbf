/**
 * The values the lixi core passes around (internal/domain/lixi.go and
 * internal/domain/user.go) and the errors it returns, each with the exact
 * text the handlers compare against.
 */
module Domain {

  /** One prize slot; `rate` is a relative weight of which only the sign is ever tested. */
  datatype LixiEnvelope = LixiEnvelope(id: int, amount: string, message: string, rate: real)

  /** A configuration as the repository hands it out; `createdAt` is the store's creation counter. */
  datatype LixiConfig = LixiConfig(
    id: string,
    name: string,
    envelopes: seq<LixiEnvelope>,
    isActive: bool,
    createdAt: nat)

  datatype User = User(id: string, email: string, password: string)

  /** The repository operation a wrapped database error comes from. */
  datatype StoreOp = CreateConfigOp | GetConfigOp | UpdateConfigOp | DeleteConfigOp | ActivateConfigOp
  {
    /** The text each operation puts in front of the database's own error. */
    function Context(): string {
      match this
      case CreateConfigOp => "failed to create lixi config"
      case GetConfigOp => "failed to get lixi config"
      case UpdateConfigOp => "failed to update lixi config"
      case DeleteConfigOp => "failed to delete lixi config"
      case ActivateConfigOp => "failed to activate config"
    }
  }

  datatype Error =
    | NameRequired
    | EnvelopeCountInvalid
    | AmountRequired
    | MessageRequired
    | RateNotPositive
    | IdRequired
    | ConfigNotFound
    | NoActiveConfig
    | CannotDeleteActive
    | InvalidEmail
    | PasswordTooShort
    | UserExists
    | UserNotFound
      /** A database error wrapped with `fmt.Errorf("<context>: %w", err)`; `cause` is the database's text. */
    | StoreFailure(op: StoreOp, cause: string)
  {
    /** What `err.Error()` returns. */
    function Message(): string {
      match this
      case NameRequired => "name is required"
      case EnvelopeCountInvalid => "exactly 12 envelopes are required"
      case AmountRequired => "amount is required for all envelopes"
      case MessageRequired => "message is required for all envelopes"
      case RateNotPositive => "rate must be greater than 0 for all envelopes"
      case IdRequired => "id is required"
      case ConfigNotFound => NotFoundText
      case NoActiveConfig => "no active lixi config found"
      case CannotDeleteActive => CannotDeleteActiveText
      case InvalidEmail => "invalid email format"
      case PasswordTooShort => "password must be at least 8 characters"
      case UserExists => "user already exists"
      case UserNotFound => "user not found"
      case StoreFailure(op, cause) => op.Context() + ": " + cause
    }
  }

  const NotFoundText: string := "lixi config not found"
  const CannotDeleteActiveText: string := "cannot delete active config"

  /** Every wrapped database error starts with "failed to ". */
  lemma StoreFailureMessage(op: StoreOp, cause: string)
    ensures |StoreFailure(op, cause).Message()| >= 10
    ensures StoreFailure(op, cause).Message()[..10] == "failed to "
  {
    var m := StoreFailure(op, cause).Message();
    assert m == op.Context() + (": " + cause);
    assert m[..10] == op.Context()[..10];
  }

  /** Comparing `err.Error()` with "lixi config not found" singles out exactly ConfigNotFound. */
  lemma NotFoundTextIdentifies(e: Error)
    ensures e.Message() == NotFoundText <==> e == ConfigNotFound
  {
    if e.StoreFailure? {
      StoreFailureMessage(e.op, e.cause);
      assert NotFoundText[0] != "failed to "[0];
    }
  }

  /** Comparing `err.Error()` with "cannot delete active config" singles out exactly CannotDeleteActive. */
  lemma CannotDeleteTextIdentifies(e: Error)
    ensures e.Message() == CannotDeleteActiveText <==> e == CannotDeleteActive
  {
    if e.StoreFailure? {
      StoreFailureMessage(e.op, e.cause);
      assert CannotDeleteActiveText[0] != "failed to "[0];
    }
  }

  datatype Option<T> = None | Some(value: T)

  /** A value or the error that replaced it (Go's `(T, error)` pair). */
  datatype Result<T> = Ok(value: T) | Err(error: Error)

  /** A bare `error` return: nil or an error. */
  datatype Outcome = Success | Failure(error: Error)
}
