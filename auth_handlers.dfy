/**
 * The register and login handlers (internal/handler/auth_handler.go): the
 * two input validators and the order in which the handlers check, call the
 * authentication service and choose a status. The service itself is a
 * parameter: each handler is given the function that answers for it.
 */
module AuthHandlers {
  import opened Domain
  import opened GoStrings
  import opened Http

  /** The decoded JSON body of a register or login request. */
  datatype Credentials = Credentials(email: string, password: string)

  /** What the authentication service hands back: a value, or the text of its error. */
  datatype ServiceResult<T> = Done(value: T) | Failed(message: string)

  /** A handler's first stage: answer straight away, or call the service with this request. */
  datatype Step<T> = Respond(response: Response) | Call(request: T)

  const MinPasswordBytes: nat := 8

  /** validateEmail: refuses the empty string and any string without an '@'. */
  function ValidateEmail(email: string): (r: Option<Error>)
    ensures r.Some? <==> '@' !in email
    ensures r.Some? ==> r.value == InvalidEmail
  {
    if email == "" || '@' !in email then Some(InvalidEmail) else None
  }

  /** validatePassword: `len` counts UTF-8 bytes, so the limit is 8 bytes, not 8 characters. */
  function ValidatePassword(password: string): (r: Option<Error>)
    ensures r.Some? <==> Utf8Length(password) < MinPasswordBytes
    ensures r.Some? ==> r.value == PasswordTooShort
  {
    if Utf8Length(password) < MinPasswordBytes then Some(PasswordTooShort) else None
  }

  /** For an ASCII password the byte limit is a character limit. */
  lemma AsciiPasswordLength(password: string)
    requires forall i :: 0 <= i < |password| ==> (password[i] as int) < 0x80
    ensures ValidatePassword(password).None? <==> |password| >= MinPasswordBytes
  {
    Utf8LengthAscii(password);
  }

  /** Four three-byte characters make twelve bytes, enough for the limit. */
  lemma FourCharacterPasswordExample(password: string)
    requires password == "日本語の"
    ensures |password| == 4 && ValidatePassword(password).None?
  {
    assert Utf8Length(password[3..]) == 3;
    assert Utf8Length(password[2..]) == 6;
    assert Utf8Length(password[1..]) == 9;
  }

  /** Register before the service call: decode, then email, then password. */
  function RegisterGate(body: Option<Credentials>): (s: Step<Credentials>)
    ensures body.None? ==> s == Respond(WriteError(StatusBadRequest, InvalidBodyText))
    ensures s.Call? <==>
      body.Some? && ValidateEmail(body.value.email).None? && ValidatePassword(body.value.password).None?
    ensures s.Call? ==> s.request == body.value
    ensures body.Some? && ValidateEmail(body.value.email).Some? ==>
      s == Respond(WriteError(StatusBadRequest, InvalidEmail.Message()))
    ensures body.Some? && ValidateEmail(body.value.email).None? && ValidatePassword(body.value.password).Some? ==>
      s == Respond(WriteError(StatusBadRequest, PasswordTooShort.Message()))
  {
    if body.None? then Respond(WriteError(StatusBadRequest, InvalidBodyText))
    else if ValidateEmail(body.value.email).Some? then
      Respond(WriteError(StatusBadRequest, ValidateEmail(body.value.email).value.Message()))
    else if ValidatePassword(body.value.password).Some? then
      Respond(WriteError(StatusBadRequest, ValidatePassword(body.value.password).value.Message()))
    else Call(body.value)
  }

  /** Register, given the service's Register: 400 before the call, 500 on its error, 201 with its user. */
  function Register(body: Option<Credentials>, register: Credentials -> ServiceResult<User>): (resp: Response)
    ensures RegisterGate(body).Respond? ==> resp == RegisterGate(body).response && resp.status == StatusBadRequest
    ensures RegisterGate(body).Call? ==>
      var answer := register(body.value);
      && (answer.Failed? ==> resp == WriteError(StatusInternalServerError, answer.message))
      && (answer.Done? ==> resp == Response(StatusCreated, UserBody(answer.value)))
  {
    match RegisterGate(body)
    case Respond(early) => early
    case Call(c) =>
      match register(c)
      case Failed(m) => WriteError(StatusInternalServerError, m)
      case Done(u) => Response(StatusCreated, UserBody(u))
  }

  /** A request the validators refuse gets the same answer whatever the service would do: it is never called. */
  lemma RegisterRefusalIgnoresService(body: Option<Credentials>, f: Credentials -> ServiceResult<User>,
                                      g: Credentials -> ServiceResult<User>)
    requires RegisterGate(body).Respond?
    ensures Register(body, f) == Register(body, g)
  {
  }

  /** With both fields invalid the email error is the one reported. */
  lemma RegisterReportsEmailFirst(c: Credentials, register: Credentials -> ServiceResult<User>)
    requires ValidateEmail(c.email).Some? && ValidatePassword(c.password).Some?
    ensures Register(Some(c), register) == WriteError(StatusBadRequest, "invalid email format")
  {
  }

  /** Login before the service call: decode, then email; the password length is not checked. */
  function LoginGate(body: Option<Credentials>): (s: Step<Credentials>)
    ensures body.None? ==> s == Respond(WriteError(StatusBadRequest, InvalidBodyText))
    ensures s.Call? <==> body.Some? && ValidateEmail(body.value.email).None?
    ensures s.Call? ==> s.request == body.value
    ensures body.Some? && ValidateEmail(body.value.email).Some? ==>
      s == Respond(WriteError(StatusBadRequest, InvalidEmail.Message()))
  {
    if body.None? then Respond(WriteError(StatusBadRequest, InvalidBodyText))
    else if ValidateEmail(body.value.email).Some? then
      Respond(WriteError(StatusBadRequest, ValidateEmail(body.value.email).value.Message()))
    else Call(body.value)
  }

  /** Login, given the service's Login (user and token): 400 before the call, 401 on any error, 200 on success. */
  function Login(body: Option<Credentials>, login: Credentials -> ServiceResult<(User, string)>): (resp: Response)
    ensures LoginGate(body).Respond? ==> resp == LoginGate(body).response && resp.status == StatusBadRequest
    ensures LoginGate(body).Call? ==>
      var answer := login(body.value);
      && (answer.Failed? ==> resp == WriteError(StatusUnauthorized, answer.message))
      && (answer.Done? ==> resp == Response(StatusOK, LoginBody(answer.value.1, answer.value.0)))
  {
    match LoginGate(body)
    case Respond(early) => early
    case Call(c) =>
      match login(c)
      case Failed(m) => WriteError(StatusUnauthorized, m)
      case Done(pair) => Response(StatusOK, LoginBody(pair.1, pair.0))
  }

  /** A short password with a well-formed email still reaches the service at login, unlike at registration. */
  lemma LoginSkipsPasswordCheck(c: Credentials)
    requires ValidateEmail(c.email).None? && ValidatePassword(c.password).Some?
    ensures LoginGate(Some(c)).Call?
    ensures RegisterGate(Some(c)).Respond?
  {
  }
}
