# Lixi configuration backend — a Dafny model

The model covers the backend's lixi-configuration lifecycle. An administrator creates configurations of exactly
twelve prize envelopes, edits and deletes them, and marks one of them *active*. The public endpoint serves that
active configuration. The model also covers the small decisions around this lifecycle:

- the id taken from the request path;
- the mapping from errors to HTTP status codes;
- the register/login validators;
- the CORS allow-list middleware;
- the environment defaults;
- the in-memory user store.

The files, one module each:

- `domain.dfy` (`Domain`) holds envelopes, configurations, users and the error datatype. Each error carries the
  exact text that `err.Error()` returns, because the handlers choose a status by comparing that text.
- `config_ids.dfy` (`ConfigIds`) handles ids in both directions. A config id is a BIGINT column, rendered with
  `%d` on the way out and read back from text by Postgres on the way in. The module proves that the two agree.
- `lixi_repository.dfy` (`LixiRepository`) is the `lixi_configs` table as a class:
  - a map from id to row;
  - the identity sequence;
  - a creation counter.

  Each SQL statement of `internal/repository/lixi_repo.go` is one method. The partial unique index
  `idx_lixi_active` (`internal/database/migrations.go:45-48`) is checked on every statement that writes
  `is_active`, and it is part of the class invariant. The activation transaction clears all flags and then sets
  the target's. Its deferred rollback restores the snapshot taken before the first statement.
- `lixi_service.dfy` (`LixiService`) covers the service rules:
  - validation order;
  - renumbering of envelope ids to 1..12;
  - the refusal to delete the active configuration;
  - the existence checks.

  The validation loop works in place on the caller's slice, here an `array`. It is proved against pure functions
  that say which error wins and what the slice holds afterwards. Every stored configuration has twelve complete
  envelopes numbered 1..12; this is the service's class invariant.
- `http.dfy` (`Http`) holds status codes, response bodies and `writeError`.
- `lixi_handlers.dfy` (`LixiHandlers`) holds `extractIDFromPath`, the status mapping of each handler, and a
  handler class. The class gives each endpoint's response in terms of the stored table.
- `auth_handlers.dfy` (`AuthHandlers`) holds the email and password validators and the register/login handlers.
  Each handler receives the authentication service's answer as a function parameter.
- `api_main.dfy` (`ApiMain`) holds the environment defaults, the origin allow-list loop and the CORS preflight
  decision.
- `memory_user_repository.dfy` (`UserStore`) holds the email-keyed user map.
- `go_strings.dfy` (`GoStrings`) holds the pieces of Go's `strings` package used above, and the UTF-8 byte length
  behind `len` on a string.

Where a source comment and the code disagree, the model follows the code. The registration response is one
example. The comment on the `Password` field (internal/domain/user.go:8) says `omitempty` hides the password in
responses. The handler, however, encodes the user that the service returns, and that user's `Password` field holds
the bcrypt hash. `omitempty` removes only an empty
value, so the hash is included; `AuthHandlers.Register` returns that user as received.

## Model

| member | source | states |
|---|---|---|
| Domain.NotFoundTextIdentifies | internal/handler/lixi_handler.go:96 | comparing an error's text with "lixi config not found" is true exactly for the not-found error, never for a wrapped database error |
| Domain.CannotDeleteTextIdentifies | internal/handler/lixi_handler.go:123 | comparing with "cannot delete active config" singles out exactly the service's refusal to delete the active config |
| Domain.StoreFailureMessage | internal/repository/lixi_repo.go:34 | every database error wrapped by the repository reads "failed to …", so it can never be mistaken for the texts the handlers test |
| ConfigIds.FormatId | internal/repository/lixi_repo.go:37 | `%d` of an id is a non-empty string of decimal digits without a leading zero |
| ConfigIds.ParseBigint | internal/repository/lixi_repo.go:73 | the `$1` text is read as a bigint: malformed exactly when it is not an optional sign followed by digits; a well-formed literal reads as its signed decimal value when that fits in 64 bits and is out of range exactly otherwise |
| ConfigIds.ParseFormat | internal/repository/lixi_repo.go:37 | Postgres reads back exactly the id the repository rendered (round trip for every id up to 2^63-1) |
| ConfigIds.FormatIdInjective | internal/repository/lixi_repo.go:37 | two different ids never render to the same string |
| ConfigIds.FormatInt | internal/repository/lixi_repo.go:37 | `%d` of a non-negative key is the unsigned rendering of FormatId |
| ConfigIds.ParseFormatInt | internal/repository/lixi_repo.go:37 | every int64, negative ones included, reads back from its `%d` rendering as itself |
| ConfigIds.LeadingZerosValue | internal/repository/lixi_repo.go:73 | leading zeros do not change the value of a string of digits |
| ConfigIds.NonCanonicalIds | internal/handler/lixi_handler.go:82 | a path id with leading zeros or a '+' sign names the same config as its rendered form, and a '-' sign names its negation |
| LixiRepository.Deactivated | internal/repository/lixi_repo.go:178 | the clearing UPDATE keeps every key and every other field and leaves no row active |
| LixiRepository.Activated | internal/repository/lixi_repo.go:177-191 | the committed activation keeps every key and every other field, and a row is active exactly when it is the target |
| LixiRepository.CastId | internal/repository/lixi_repo.go:80-85 | a WHERE `id = $1` parameter either names a key or makes the statement fail with a database error tagged with the failing operation |
| LixiRepository.InsertKeepsIndex | internal/database/migrations.go:45-48 | inserting a row keeps at most one active row exactly when the new row is inactive or no row was active |
| LixiRepository.ActivatedSingle | internal/repository/lixi_repo.go:177-191 | after activation the target is the only active row; every row keeps its other fields; the id set is unchanged |
| LixiRepository.ActivatedIdempotent | internal/repository/lixi_repo.go:178-184 | activating the same row twice leaves the same table as activating it once |
| LixiRepository.ClearThenSetKeepsIndex | internal/repository/lixi_repo.go:177-187 | in clear-then-set order neither statement violates idx_lixi_active, and the two together give the activated table |
| LixiRepository.SetBeforeClearViolates | internal/repository/lixi_repo.go:177-187 | in the opposite order the set would be refused whenever another row is active, which is why the clear comes first |
| LixiRepository.ScanStep | internal/repository/lixi_repo.go:96-127 | one step of the downward key scan keeps its invariant: the rows read so far are exactly those above the cursor, each a stored row, in strictly decreasing id order |
| LixiRepository.ScanStored | internal/repository/lixi_repo.go:110-125 | every config the finished scan returns is a stored row under its own id |
| LixiRepository.ScanComplete | internal/repository/lixi_repo.go:110-125 | a scan run down to the lowest id has returned every stored row |
| LixiRepository.ScanNewestFirst | internal/repository/lixi_repo.go:97-101 | the scan's configs come in strictly decreasing created_at order |
| LixiRepository.LixiConfigTable.Apply | internal/database/migrations.go:45-48 | a statement's write is admitted exactly when it leaves at most one active row; otherwise the table stays as it was |
| LixiRepository.LixiConfigTable.Create | internal/repository/lixi_repo.go:19-39 | inserts exactly one row with the given name, envelopes and flag under the next id, and returns the config with that id and creation time. It fails with a unique violation when the new row is active and an active row is already present (the id is still used up); once the sequence is exhausted it fails with nothing changed |
| LixiRepository.LixiConfigTable.GetActive | internal/repository/lixi_repo.go:41-67 | returns the active row whenever one exists, else "no active lixi config found" |
| LixiRepository.LixiConfigTable.GetByID | internal/repository/lixi_repo.go:69-94 | returns the row under the parsed id, "lixi config not found" when there is none, or the cast error |
| LixiRepository.LixiConfigTable.GetAll | internal/repository/lixi_repo.go:96-128 | every row appears, nothing else appears, and the list is in strictly decreasing created_at order (so no row appears twice) |
| LixiRepository.LixiConfigTable.Update | internal/repository/lixi_repo.go:130-152 | changes only name and envelopes of that one row. Zero matching rows gives "lixi config not found" and no change. is_active and created_at are untouched |
| LixiRepository.LixiConfigTable.Delete | internal/repository/lixi_repo.go:154-167 | removes exactly that row, active or not; a missing id gives "lixi config not found" and no change |
| LixiRepository.LixiConfigTable.SetActive | internal/repository/lixi_repo.go:169-198 | on an existing id only that row is active afterwards. On a missing id or a bad parameter the rollback leaves the table exactly as before, including the previously active row. The index holds throughout |
| LixiService.EnvelopeError | internal/service/lixi_service.go:31-39 | an envelope is refused exactly when amount or message is empty or rate is not positive, checked in that order: an empty amount is reported first, then an empty message, then the rate |
| LixiService.FirstInvalid | internal/service/lixi_service.go:30-42 | the position of the first refused envelope: all before it pass, it fails (or it is the length when none fails) |
| LixiService.EnvelopesError | internal/service/lixi_service.go:30-42 | the loop's error is none exactly when every envelope passes, otherwise that of the first failing envelope in list order |
| LixiService.EnvelopeListError | internal/service/lixi_service.go:25-42 | any list whose length is not 12 gets "exactly 12 envelopes are required"; a list passes exactly when it has 12 envelopes that all pass |
| LixiService.CreateError | internal/service/lixi_service.go:21-27 | an empty name gives "name is required" whatever the envelopes are; otherwise the list decides |
| LixiService.UpdateError | internal/service/lixi_service.go:81-99 | an empty list is accepted as "keep the stored envelopes"; a non-empty one must pass the create checks |
| LixiService.Renumbered | internal/service/lixi_service.go:41 | envelope i gets id i+1 and keeps every other field |
| LixiService.NumberedUpTo | internal/service/lixi_service.go:41 | the caller's slice after the loop stops at position n: the first n envelopes renumbered, the rest as supplied |
| LixiService.AcceptedListIsValid | internal/service/lixi_service.go:40-48 | a list that passes validation becomes twelve complete envelopes numbered 1 to 12 |
| LixiService.RenumberIgnoresClientIds | internal/service/lixi_service.go:41 | the ids a client sends have no effect on what is stored |
| LixiService.RenumberedIdempotent | internal/service/lixi_service.go:41 | renumbering an already numbered list changes nothing |
| LixiService.NumberedToEnd | internal/service/lixi_service.go:30-42 | a loop that reaches the end leaves the whole list renumbered |
| LixiService.FirstInvalidIs | internal/service/lixi_service.go:30-39 | the loop's stopping point is the first failing envelope: all before it pass and it fails |
| LixiService.CheckAndNumber | internal/service/lixi_service.go:30-42 | returns the error of the first failing envelope (none if all pass). The caller's slice ends with every envelope before that point renumbered and the rest untouched |
| LixiService.LixiService.CreateConfig | internal/service/lixi_service.go:20-55 | validation failures change nothing. A valid request creates exactly one inactive row with the renumbered envelopes, returned with its new id. The caller's slice keeps the partial renumbering |
| LixiService.LixiService.GetActiveConfig | internal/service/lixi_service.go:57-59 | passes the repository's active row or its error through |
| LixiService.LixiService.GetAllConfigs | internal/service/lixi_service.go:61-63 | passes the repository's full, newest-first list through |
| LixiService.LixiService.UpdateConfig | internal/service/lixi_service.go:65-108 | an empty id gives "id is required" without touching the store, and a lookup failure is returned unchanged. An empty name keeps the stored name, an empty list keeps the stored envelopes, and a non-empty list must validate and is stored renumbered. is_active is never changed |
| LixiService.LixiService.DeleteConfig | internal/service/lixi_service.go:110-126 | an empty id or a missing config fails without change; the active config is refused with "cannot delete active config"; an inactive one is removed |
| LixiService.LixiService.SetActiveConfig | internal/service/lixi_service.go:128-140 | an empty id or a missing config fails with the table unchanged; an existing one becomes the only active config |
| LixiHandlers.ExtractIDFromPath | internal/handler/lixi_handler.go:160-172 | "" without the prefix; otherwise the longest start of the remainder free of '/', so the id never contains '/' |
| LixiHandlers.ExtractIsTakeUntilSlash | internal/handler/lixi_handler.go:164-171 | the id equals an independent character-by-character take-until-'/', so trimming a trailing '/' first never changes it |
| LixiHandlers.ExtractWholeRemainder | internal/handler/lixi_handler.go:164-171 | a remainder without '/' is returned unchanged |
| LixiHandlers.ActivateID | internal/handler/lixi_handler.go:137-139 | the activation id is taken after dropping a trailing "/activate", and never contains '/' |
| LixiHandlers.ExtractFormattedId | internal/handler/lixi_handler.go:82 | the path of a rendered id gives back that id |
| LixiHandlers.ActivateFormattedId | internal/handler/lixi_handler.go:137-139 | the activation path of a rendered id gives back that id |
| LixiHandlers.ActivateSevenExample | internal/handler/lixi_handler.go:136-139 | "/api/admin/lixi/7/activate" yields "7" |
| LixiHandlers.ActivateWithoutIdExample | internal/handler/lixi_handler.go:137-143 | "/api/admin/lixi/activate" yields the empty id, which is answered with "Invalid config ID" |
| Http.WriteError | internal/handler/response.go:12-16 | the response carries the given status and an error body holding the given message |
| LixiHandlers.GetActiveReply | internal/handler/lixi_handler.go:23-30 | any error is a 404 carrying its text; a config is a 200 with that config |
| LixiHandlers.GetAllReply | internal/handler/lixi_handler.go:35-47 | an error is a 500; a list is a 200 with that list |
| LixiHandlers.CreateReply | internal/handler/lixi_handler.go:63-71 | every service error is a 400 with its text; success is a 201 with the created config |
| LixiHandlers.UpdateReply | internal/handler/lixi_handler.go:94-105 | 404 exactly for the not-found error, 400 exactly for every other error, 200 with the config on success |
| LixiHandlers.DeleteReply | internal/handler/lixi_handler.go:117-131 | 404 exactly for not found, 400 exactly for deleting the active config, 500 exactly for any other error, 204 exactly on success |
| LixiHandlers.ActivateReply | internal/handler/lixi_handler.go:145-156 | 404 exactly for not found, 500 exactly for any other error, 200 with "Config activated successfully" on success |
| LixiHandlers.LixiHandler.GetActive | internal/handler/lixi_handler.go:22-31 | 200 with the active config exactly when one is stored, otherwise 404 "no active lixi config found" |
| LixiHandlers.LixiHandler.GetAll | internal/handler/lixi_handler.go:34-48 | always 200 with every stored config, newest first |
| LixiHandlers.LixiHandler.Create | internal/handler/lixi_handler.go:56-72 | an undecodable body or a validation error is a 400 with no change. A valid request is a 201 with the new row's config, and exactly that row is added |
| LixiHandlers.LixiHandler.Update | internal/handler/lixi_handler.go:80-106 | an empty path id or an undecodable body is a 400 before the service is reached. A missing config is a 404; a bad id or a validation error is a 400 carrying that error's text; all of these leave the table unchanged. Success is a 200 with the updated row |
| LixiHandlers.LixiHandler.Delete | internal/handler/lixi_handler.go:109-132 | an empty path id is a 400, a missing config a 404, the active config a 400 and a bad id a 500, all without change; an inactive config is removed with a 204 |
| LixiHandlers.LixiHandler.Activate | internal/handler/lixi_handler.go:135-157 | an empty id is a 400 and a missing config a 404, both without change; an existing config becomes the only active one with a 200 |
| AuthHandlers.ValidateEmail | internal/handler/auth_handler.go:27-32 | refuses exactly the strings without '@' (the empty string among them), with "invalid email format" |
| AuthHandlers.ValidatePassword | internal/handler/auth_handler.go:34-39 | refuses exactly the passwords shorter than 8 UTF-8 bytes |
| AuthHandlers.AsciiPasswordLength | internal/handler/auth_handler.go:35 | for ASCII passwords the limit is 8 characters |
| AuthHandlers.FourCharacterPasswordExample | internal/handler/auth_handler.go:35 | a four-character password of three-byte characters passes, since `len` counts bytes |
| AuthHandlers.RegisterGate | internal/handler/auth_handler.go:42-55 | the service is called exactly when the body decodes and both validators pass. Otherwise the answer is a 400, with the email checked before the password |
| AuthHandlers.Register | internal/handler/auth_handler.go:41-66 | 400 from the gate; otherwise 500 with the service's error text, or 201 with the service's user |
| AuthHandlers.RegisterRefusalIgnoresService | internal/handler/auth_handler.go:48-57 | a refused request gets the same answer whatever the service would do, because the service is not called |
| AuthHandlers.RegisterReportsEmailFirst | internal/handler/auth_handler.go:48-55 | with both fields invalid the reported error is "invalid email format" |
| AuthHandlers.LoginGate | internal/handler/auth_handler.go:79-88 | the service is called exactly when the body decodes and the email passes; the password length is not checked |
| AuthHandlers.Login | internal/handler/auth_handler.go:78-102 | 400 from the gate; otherwise 401 with the error text for any service error, or 200 with token and user |
| AuthHandlers.LoginSkipsPasswordCheck | internal/handler/auth_handler.go:85-90 | a short password with a valid email reaches the login service but is refused by registration |
| ApiMain.SettingOrDefault | cmd/api/main.go:35-42 | a set value is used as is. An empty one is fatal exactly in production and is replaced by the default elsewhere, so a resolved setting is never empty |
| ApiMain.Getenv | cmd/api/main.go:35 | the variable's value, or the empty string when it is unset |
| ApiMain.JwtSecret | cmd/api/main.go:35-42 | JWT_SECRET when non-empty; fatal with "JWT_SECRET environment variable is required in production" exactly when unset or empty in production; "my_secret_key" otherwise |
| ApiMain.AllowedOrigins | cmd/api/main.go:105-111 | ALLOWED_ORIGINS when non-empty; fatal with "ALLOWED_ORIGINS must be set in production" exactly when unset or empty in production; the two localhost origins otherwise |
| ApiMain.DevelopmentDefaults | cmd/api/main.go:35-42 | outside production, with nothing set, the secret is "my_secret_key" and the origins list is the two localhost origins |
| ApiMain.OriginAllowed | cmd/api/main.go:117-123 | the origin is allowed exactly when it equals some comma-separated entry after TrimSpace |
| ApiMain.SplitTwo | cmd/api/main.go:118 | two separator-free entries joined by a comma split into exactly those two entries |
| ApiMain.DefaultOriginsSplit | cmd/api/main.go:105-111 | the default list splits into http://localhost:3000 and http://localhost:5000 |
| ApiMain.LocalOriginTrimmed | cmd/api/main.go:119 | TrimSpace leaves both default origins as they are |
| ApiMain.ListedInTwo | cmd/api/main.go:118-119 | a list that splits into two entries allows exactly their trimmed forms |
| ApiMain.DefaultOriginsListed | cmd/api/main.go:105-111 | the default list allows exactly http://localhost:3000 and http://localhost:5000 |
| ApiMain.CorsHeaders | cmd/api/main.go:126-132 | Allow-Origin echoes the request's origin |
| ApiMain.EnableCORS | cmd/api/main.go:113-145 | the five CORS headers are set exactly for an allowed origin and none otherwise. OPTIONS is answered 200 or 403 and never forwarded; every other method is forwarded |
| ApiMain.MissingOriginExample | cmd/api/main.go:114-142 | under the default list a request without an Origin header gets no CORS headers, and its preflight is refused |
| UserStore.Lookup | internal/repository/memory_repo.go:37-42 | the user stored under the email, or "user not found" exactly when there is none |
| UserStore.MemoryUserRepository.Create | internal/repository/memory_repo.go:21-31 | an email already present gives "user already exists" and leaves the map unchanged; a new email stores the user under it and changes nothing else |
| UserStore.MemoryUserRepository.GetByEmail | internal/repository/memory_repo.go:33-43 | answers the lookup on the current map |
| UserStore.LookupAfterCreate | internal/repository/memory_repo.go:29 | after a successful create, looking up the user's email returns that user |
| UserStore.CreateKeepsOthers | internal/repository/memory_repo.go:29 | a create leaves every other email's lookup as it was |
| UserStore.SameEmailTwice | internal/repository/memory_repo.go:25-29 | uniqueness is by email: a second user with the same email but any id is refused, and the first stays the one found |
| GoStrings.TrimPrefix | internal/handler/lixi_handler.go:161-164 | when the string starts with the prefix, the prefix followed by the result is the string; otherwise the string is returned as is |
| GoStrings.TrimSuffix | internal/handler/lixi_handler.go:138 | when the string ends with the suffix, the result followed by the suffix is the string; otherwise the string is returned as is |
| GoStrings.IndexByte | internal/handler/lixi_handler.go:168 | the first position of the character, or -1 exactly when it does not occur |
| GoStrings.Split | cmd/api/main.go:118 | strings.Split with one separator: at least one piece, and no piece contains the separator |
| GoStrings.JoinSplit | cmd/api/main.go:118 | joining the pieces of a split with the separator gives the input back |
| GoStrings.SplitJoin | cmd/api/main.go:118 | splitting a join of separator-free pieces gives the pieces back |
| GoStrings.TrimSpace | cmd/api/main.go:119 | what remains neither starts nor ends with white space, and is no longer than the input |
| GoStrings.TrimSpaceSlice | cmd/api/main.go:119 | TrimSpace's result is the slice of the input between a run of leading and a run of trailing white space |
| GoStrings.Utf8Length | internal/handler/auth_handler.go:35 | the byte length is between the character count and four times it |

## Left out

- SQL text is not modelled. Neither are the JSON marshalling of envelopes, row scanning, or the repository's match on "no rows in result set". Each statement is modelled by its effect on the table.
- Connection, begin and commit failures are not modelled. Neither are marshal/unmarshal failures, or database errors other than a bad id parameter, an index violation and an exhausted sequence. With them, GetActive's and GetAll's "failed to …" paths and the status codes that depend on them are also left out.
- LixiRepository.LixiConfigTable.GetAll: the model never fails. So the handler's 500 path for GetAll is stated in `LixiHandlers.GetAllReply` but is never reached from the table.
- Concurrency is not modelled: transaction isolation, concurrent activations and the user store's mutex. Each operation is one atomic step.
- ConfigIds.ParseBigint: the model accepts an optional sign followed by ASCII digits. It leaves out the surrounding white space, hexadecimal/octal/binary prefixes and digit-group underscores that newer Postgres versions also accept.
- Timestamps: `created_at` is a strictly increasing counter. Two rows created within the same clock tick, which the real ORDER BY could return in either order, do not occur in the model.
- A nil slice and an empty slice are one value in the model, so `GetAll`'s replacement of nil by an empty list has no effect to state.
- A decoded JSON body either decodes or does not. The decoder itself, and fields it fills with zero values, are not modelled.
- JSON encoding, Content-Type headers and `http.ServeMux` routing are not modelled. Only the status code and the value handed to the encoder are.
- The authentication service is a parameter of the handlers. It hashes with bcrypt, generates ids from the clock and signs JWTs.
- internal/repository/postgres_repo.go, internal/repository/lixi_greeting_repo.go and internal/database/postgres.go are not part of this model.
- The greeting endpoints are not modelled. `SubmitGreeting` and `GetAllGreetings` are routed in cmd/api/main.go but not implemented in the service file. The same file passes two repositories to a constructor that takes one.
- UserStore.MemoryUserRepository.Create: the Go map holds pointers. A caller that changes a stored user afterwards changes the stored entry; the model stores values.
- The server start-up is not modelled: loading the environment file, seeding the admin user, `PORT` and `ListenAndServe`.

