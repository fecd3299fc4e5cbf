/**
 * The decisions cmd/api/main.go makes before and around the router: the
 * environment defaults for the JWT secret and the CORS allow-list, and the
 * CORS middleware's origin check and preflight answer. The environment is a
 * map from variable name to value.
 */
module ApiMain {
  import opened GoStrings
  import opened Http

  const DefaultJwtSecret: string := "my_secret_key"
  const DefaultAllowedOrigins: string := "http://localhost:3000,http://localhost:5000"
  const JwtSecretFatalText: string := "JWT_SECRET environment variable is required in production"
  const AllowedOriginsFatalText: string := "ALLOWED_ORIGINS must be set in production"

  /** os.Getenv: the empty string for an unset variable. */
  function Getenv(env: map<string, string>, key: string): (v: string)
    ensures key !in env ==> v == ""
    ensures key in env ==> v == env[key]
  {
    if key in env then env[key] else ""
  }

  predicate Production(env: map<string, string>) {
    Getenv(env, "ENV") == "production"
  }

  /** A resolved setting, or the message `log.Fatal` stops the process with. */
  datatype Setting = Setting(value: string) | Fatal(message: string)

  /** The shared rule: a set value wins; an empty one is fatal in production and the default elsewhere. */
  function SettingOrDefault(env: map<string, string>, key: string, default: string, fatal: string): (r: Setting)
    requires default != ""
    ensures r.Fatal? <==> Getenv(env, key) == "" && Production(env)
    ensures r.Fatal? ==> r.message == fatal
    ensures r.Setting? ==> r.value != ""
    ensures r.Setting? && Getenv(env, key) != "" ==> r.value == Getenv(env, key)
    ensures r.Setting? && Getenv(env, key) == "" ==> r.value == default
  {
    var v := Getenv(env, key);
    if v != "" then Setting(v)
    else if Production(env) then Fatal(fatal)
    else Setting(default)
  }

  /** The JWT secret: JWT_SECRET if set, fatal in production, "my_secret_key" elsewhere. */
  function JwtSecret(env: map<string, string>): (r: Setting)
    ensures r.Fatal? <==> Getenv(env, "JWT_SECRET") == "" && Production(env)
    ensures r.Fatal? ==> r.message == "JWT_SECRET environment variable is required in production"
    ensures r.Setting? ==> r.value == if Getenv(env, "JWT_SECRET") != "" then Getenv(env, "JWT_SECRET") else "my_secret_key"
  {
    SettingOrDefault(env, "JWT_SECRET", DefaultJwtSecret, JwtSecretFatalText)
  }

  /** The CORS allow-list: ALLOWED_ORIGINS if set, fatal in production, the two localhost origins elsewhere. */
  function AllowedOrigins(env: map<string, string>): (r: Setting)
    ensures r.Fatal? <==> Getenv(env, "ALLOWED_ORIGINS") == "" && Production(env)
    ensures r.Fatal? ==> r.message == "ALLOWED_ORIGINS must be set in production"
    ensures r.Setting? ==>
      r.value == if Getenv(env, "ALLOWED_ORIGINS") != "" then Getenv(env, "ALLOWED_ORIGINS") else DefaultAllowedOrigins
  {
    SettingOrDefault(env, "ALLOWED_ORIGINS", DefaultAllowedOrigins, AllowedOriginsFatalText)
  }

  /** Outside production, with nothing set, both defaults apply. */
  lemma DevelopmentDefaults(env: map<string, string>)
    requires !Production(env) && "JWT_SECRET" !in env && "ALLOWED_ORIGINS" !in env
    ensures JwtSecret(env) == Setting("my_secret_key")
    ensures AllowedOrigins(env) == Setting("http://localhost:3000,http://localhost:5000")
  {
  }

  /** An origin is allowed when it equals some comma-separated entry of the list after TrimSpace. */
  predicate Listed(origin: string, allowedOrigins: string) {
    var parts := Split(allowedOrigins, ',');
    exists i :: 0 <= i < |parts| && TrimSpace(parts[i]) == origin
  }

  /** The loop over strings.Split that sets originAllowed and breaks at the first match. */
  method OriginAllowed(origin: string, allowedOrigins: string) returns (allowed: bool)
    ensures allowed <==> Listed(origin, allowedOrigins)
  {
    var parts := Split(allowedOrigins, ',');
    allowed := false;
    var i := 0;
    while i < |parts|
      invariant 0 <= i <= |parts|
      invariant !allowed
      invariant forall j :: 0 <= j < i ==> TrimSpace(parts[j]) != origin
    {
      if origin == TrimSpace(parts[i]) {
        allowed := true;
        break;
      }
      i := i + 1;
    }
  }

  const LocalOrigin3000: string := "http://localhost:3000"
  const LocalOrigin5000: string := "http://localhost:5000"

  /** Two separator-free pieces joined by the separator split back into those two pieces. */
  lemma SplitTwo(a: string, b: string, sep: char)
    requires sep !in a && sep !in b
    ensures Split(a + [sep] + b, sep) == [a, b]
  {
    SplitJoin([a, b], sep);
    assert Join([a, b], sep) == a + [sep] + b;
  }

  lemma DefaultOriginsSplit()
    ensures Split(DefaultAllowedOrigins, ',') == [LocalOrigin3000, LocalOrigin5000]
  {
    assert DefaultAllowedOrigins == LocalOrigin3000 + [','] + LocalOrigin5000;
    SplitTwo(LocalOrigin3000, LocalOrigin5000, ',');
  }

  /** A two-entry list allows exactly its two trimmed entries. */
  lemma ListedInTwo(origin: string, allowedOrigins: string, a: string, b: string)
    requires Split(allowedOrigins, ',') == [a, b]
    ensures Listed(origin, allowedOrigins) <==> origin == TrimSpace(a) || origin == TrimSpace(b)
  {
    var parts := Split(allowedOrigins, ',');
    assert parts[0] == a && parts[1] == b;
    if origin == TrimSpace(a) {
      assert TrimSpace(parts[0]) == origin;
    } else if origin == TrimSpace(b) {
      assert TrimSpace(parts[1]) == origin;
    } else {
      forall i | 0 <= i < |parts|
        ensures TrimSpace(parts[i]) != origin
      {
        assert i == 0 || i == 1;
      }
    }
  }

  /** Neither default origin starts or ends with white space. */
  lemma LocalOriginTrimmed(origin: string)
    requires origin == LocalOrigin3000 || origin == LocalOrigin5000
    ensures TrimSpace(origin) == origin
  {
    assert origin[0] == 'h' && origin[|origin| - 1] in "05";
    TrimSpaceNoop(origin);
  }

  /** The default list allows exactly its two localhost origins. */
  lemma DefaultOriginsListed(origin: string)
    ensures Listed(origin, DefaultAllowedOrigins) <==> origin == LocalOrigin3000 || origin == LocalOrigin5000
  {
    DefaultOriginsSplit();
    ListedInTwo(origin, DefaultAllowedOrigins, LocalOrigin3000, LocalOrigin5000);
    LocalOriginTrimmed(LocalOrigin3000);
    LocalOriginTrimmed(LocalOrigin5000);
  }

  /** The five headers an allowed origin gets; Allow-Origin echoes the request's origin. */
  function CorsHeaders(origin: string): (h: map<string, string>)
    ensures "Access-Control-Allow-Origin" in h && h["Access-Control-Allow-Origin"] == origin
  {
    map[
      "Access-Control-Allow-Origin" := origin,
      "Access-Control-Allow-Methods" := "POST, GET, OPTIONS, PUT, DELETE",
      "Access-Control-Allow-Headers" := "Content-Type, Authorization",
      "Access-Control-Allow-Credentials" := "true",
      "Access-Control-Max-Age" := "3600"]
  }

  /** The request as the middleware sees it: its HTTP method, and its Origin header ("" when absent). */
  datatype Request = Request(verb: string, origin: string)

  /** Either the middleware answers the request itself with a status, or it passes it to the router. */
  datatype Decision = Answered(status: int) | Forwarded

  /** The headers the middleware set and what it did with the request. */
  datatype CorsResult = CorsResult(headers: map<string, string>, decision: Decision)

  /** enableCORS's handler for one request, given the resolved allow-list. */
  method EnableCORS(allowedOrigins: string, req: Request) returns (res: CorsResult)
    ensures Listed(req.origin, allowedOrigins) ==> res.headers == CorsHeaders(req.origin)
    ensures !Listed(req.origin, allowedOrigins) ==> res.headers == map[]
    ensures req.verb == "OPTIONS" ==>
      res.decision == Answered(if Listed(req.origin, allowedOrigins) then StatusOK else StatusForbidden)
    ensures req.verb != "OPTIONS" ==> res.decision == Forwarded
  {
    var allowed := OriginAllowed(req.origin, allowedOrigins);
    var headers: map<string, string> := map[];
    if allowed {
      headers := headers["Access-Control-Allow-Origin" := req.origin];
      headers := headers["Access-Control-Allow-Methods" := "POST, GET, OPTIONS, PUT, DELETE"];
      headers := headers["Access-Control-Allow-Headers" := "Content-Type, Authorization"];
      headers := headers["Access-Control-Allow-Credentials" := "true"];
      headers := headers["Access-Control-Max-Age" := "3600"];
    }
    if req.verb == "OPTIONS" {
      if allowed {
        return CorsResult(headers, Answered(StatusOK));
      }
      return CorsResult(headers, Answered(StatusForbidden));
    }
    res := CorsResult(headers, Forwarded);
  }

  /** Under the default list a request without an Origin header is never given CORS headers. */
  method MissingOriginExample(verb: string) returns (res: CorsResult)
    ensures res.headers == map[]
    ensures verb == "OPTIONS" ==> res.decision == Answered(StatusForbidden)
  {
    DefaultOriginsListed("");
    res := EnableCORS(DefaultAllowedOrigins, Request(verb, ""));
  }
}
