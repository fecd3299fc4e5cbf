/**
 * The lixi HTTP handlers (internal/handler/lixi_handler.go): the id taken
 * from the request path, the mapping from service outcomes to status codes,
 * and a class that wires both to the service so that each endpoint's status
 * can be stated in terms of the stored table.
 */
module LixiHandlers {
  import opened Domain
  import opened ConfigIds
  import opened GoStrings
  import opened Http
  import opened LixiRepository
  import opened LixiService

  const AdminPrefix: string := "/api/admin/lixi/"
  const ActivateSuffix: string := "/activate"
  const InvalidIdText: string := "Invalid config ID"
  const ActivatedText: string := "Config activated successfully"

  /** The decoded JSON body of a create or update request. */
  datatype ConfigRequest = ConfigRequest(name: string, envelopes: seq<LixiEnvelope>)

  /** `h` is the longest start of `s` without a '/': it stops at the end of `s` or at its first '/'. */
  predicate SlashFreeHead(s: string, h: string) {
    && |h| <= |s|
    && h == s[..|h|]
    && '/' !in h
    && (|h| < |s| ==> s[|h|] == '/')
  }

  /** extractIDFromPath: the path segment right after `prefix`, or "" when the path lacks the prefix. */
  function ExtractIDFromPath(path: string, prefix: string): (id: string)
    ensures !HasPrefix(path, prefix) ==> id == ""
    ensures '/' !in id
    ensures HasPrefix(path, prefix) ==> SlashFreeHead(path[|prefix|..], id)
  {
    if !HasPrefix(path, prefix) then ""
    else
      var rest := TrimPrefix(path, prefix);
      assert rest == path[|prefix|..];
      var trimmed := TrimSuffix(rest, "/");
      assert trimmed == rest[..|trimmed|];
      assert |trimmed| < |rest| ==> rest[|trimmed|] == '/';
      var idx := IndexByte(trimmed, '/');
      if idx != -1 then trimmed[..idx] else trimmed
  }

  /** An independent reading of the same rule: copy characters until the first '/'. */
  function TakeUntilSlash(s: string): string {
    if s == [] || s[0] == '/' then [] else [s[0]] + TakeUntilSlash(s[1..])
  }

  lemma {:induction false} SlashFreeHeadUnique(s: string, h: string)
    requires SlashFreeHead(s, h)
    ensures h == TakeUntilSlash(s)
  {
    if h != [] {
      assert h[0] == s[0] && h[0] in h;
      assert h[1..] == s[1..][..|h| - 1];
      assert forall c :: c in h[1..] ==> c in h;
      SlashFreeHeadUnique(s[1..], h[1..]);
      assert h == [h[0]] + h[1..];
    } else if s != [] {
      assert s[0] == '/';
    }
  }

  /**
   * With the prefix present, the extracted id is exactly the text up to the
   * first '/' after it; dropping a trailing '/' first never changes the result.
   */
  lemma ExtractIsTakeUntilSlash(path: string, prefix: string)
    requires HasPrefix(path, prefix)
    ensures ExtractIDFromPath(path, prefix) == TakeUntilSlash(path[|prefix|..])
  {
    SlashFreeHeadUnique(path[|prefix|..], ExtractIDFromPath(path, prefix));
  }

  /** A remainder without '/' is returned unchanged. */
  lemma ExtractWholeRemainder(path: string, prefix: string)
    requires HasPrefix(path, prefix) && '/' !in path[|prefix|..]
    ensures ExtractIDFromPath(path, prefix) == path[|prefix|..]
  {
  }

  /** The id of an activation request: the path with its trailing "/activate" removed. */
  function ActivateID(path: string): (id: string)
    ensures '/' !in id
  {
    ExtractIDFromPath(TrimSuffix(path, ActivateSuffix), AdminPrefix)
  }

  /** The paths the router hands to Update and Delete carry back the id the repository rendered. */
  lemma ExtractFormattedId(n: nat)
    ensures ExtractIDFromPath(AdminPrefix + FormatId(n), AdminPrefix) == FormatId(n)
  {
    var path := AdminPrefix + FormatId(n);
    assert path[..|AdminPrefix|] == AdminPrefix;
    assert path[|AdminPrefix|..] == FormatId(n);
    FormatIdNoSlash(n);
    ExtractWholeRemainder(path, AdminPrefix);
  }

  /** The activation path of a rendered id yields that id. */
  lemma ActivateFormattedId(n: nat)
    ensures ActivateID(AdminPrefix + FormatId(n) + ActivateSuffix) == FormatId(n)
  {
    var base := AdminPrefix + FormatId(n);
    var path := base + ActivateSuffix;
    assert path[|path| - |ActivateSuffix|..] == ActivateSuffix;
    assert path[..|path| - |ActivateSuffix|] == base;
    ExtractFormattedId(n);
  }

  /** The activation path of config 7 yields "7". */
  lemma ActivateSevenExample(path: string)
    requires path == "/api/admin/lixi/7/activate"
    ensures ActivateID(path) == "7"
  {
    assert FormatId(7) == "7";
    assert path == AdminPrefix + FormatId(7) + ActivateSuffix;
    ActivateFormattedId(7);
  }

  /** Without an id segment the prefix itself is cut short, so the id is empty. */
  lemma ActivateWithoutIdExample(path: string)
    requires path == "/api/admin/lixi/activate"
    ensures ActivateID(path) == ""
  {
    assert path[|path| - |ActivateSuffix|..] == ActivateSuffix;
    assert |TrimSuffix(path, ActivateSuffix)| < |AdminPrefix|;
  }

  /** GetActive: any service error is reported as 404 with its text. */
  function GetActiveReply(r: Result<LixiConfig>): (resp: Response)
    ensures r.Ok? ==> resp == Response(StatusOK, ConfigBody(r.value))
    ensures r.Err? ==> resp == WriteError(StatusNotFound, r.error.Message())
  {
    if r.Err? then WriteError(StatusNotFound, r.error.Message())
    else Response(StatusOK, ConfigBody(r.value))
  }

  /** GetAll: a service error is a 500; the list, empty or not, is a 200. */
  function GetAllReply(r: Result<seq<LixiConfig>>): (resp: Response)
    ensures r.Ok? ==> resp == Response(StatusOK, ConfigListBody(r.value))
    ensures r.Err? ==> resp == WriteError(StatusInternalServerError, r.error.Message())
  {
    if r.Err? then WriteError(StatusInternalServerError, r.error.Message())
    else Response(StatusOK, ConfigListBody(r.value))
  }

  /** Create: every service error is a 400, success a 201 with the created config. */
  function CreateReply(r: Result<LixiConfig>): (resp: Response)
    ensures r.Ok? ==> resp == Response(StatusCreated, ConfigBody(r.value))
    ensures r.Err? ==> resp == WriteError(StatusBadRequest, r.error.Message())
  {
    if r.Err? then WriteError(StatusBadRequest, r.error.Message())
    else Response(StatusCreated, ConfigBody(r.value))
  }

  /** Update: the not-found text gives 404, every other error 400, success 200 with the config. */
  function UpdateReply(r: Result<LixiConfig>): (resp: Response)
    ensures resp.status == StatusNotFound <==> r == Err(ConfigNotFound)
    ensures resp.status == StatusBadRequest <==> r.Err? && r.error != ConfigNotFound
    ensures r.Err? ==> resp.body == ErrorBody(r.error.Message())
    ensures r.Ok? ==> resp == Response(StatusOK, ConfigBody(r.value))
  {
    if r.Err? then
      NotFoundTextIdentifies(r.error);
      if r.error.Message() == NotFoundText then WriteError(StatusNotFound, r.error.Message())
      else WriteError(StatusBadRequest, r.error.Message())
    else Response(StatusOK, ConfigBody(r.value))
  }

  /** Delete: not found 404, deleting the active config 400, any other error 500, success 204. */
  function DeleteReply(r: Outcome): (resp: Response)
    ensures resp.status == StatusNotFound <==> r == Failure(ConfigNotFound)
    ensures resp.status == StatusBadRequest <==> r == Failure(CannotDeleteActive)
    ensures resp.status == StatusInternalServerError <==>
      r.Failure? && r.error != ConfigNotFound && r.error != CannotDeleteActive
    ensures r.Failure? ==> resp.body == ErrorBody(r.error.Message())
    ensures r.Success? ==> resp == Response(StatusNoContent, NoBody)
  {
    if r.Failure? then
      NotFoundTextIdentifies(r.error);
      CannotDeleteTextIdentifies(r.error);
      if r.error.Message() == NotFoundText then WriteError(StatusNotFound, r.error.Message())
      else if r.error.Message() == CannotDeleteActiveText then WriteError(StatusBadRequest, r.error.Message())
      else WriteError(StatusInternalServerError, r.error.Message())
    else Response(StatusNoContent, NoBody)
  }

  /** Activate: not found 404, any other error 500, success 200 with a fixed message. */
  function ActivateReply(r: Outcome): (resp: Response)
    ensures resp.status == StatusNotFound <==> r == Failure(ConfigNotFound)
    ensures resp.status == StatusInternalServerError <==> r.Failure? && r.error != ConfigNotFound
    ensures r.Failure? ==> resp.body == ErrorBody(r.error.Message())
    ensures r.Success? ==> resp == Response(StatusOK, MessageBody(ActivatedText))
  {
    if r.Failure? then
      NotFoundTextIdentifies(r.error);
      if r.error.Message() == NotFoundText then WriteError(StatusNotFound, r.error.Message())
      else WriteError(StatusInternalServerError, r.error.Message())
    else Response(StatusOK, MessageBody(ActivatedText))
  }

  /** The handlers bound to one service; each method is one endpoint. */
  class LixiHandler {
    const service: LixiService

    ghost predicate Valid()
      reads this, service, service.repo
    {
      service.Valid()
    }

    constructor (service: LixiService)
      requires service.Valid()
      ensures this.service == service && Valid()
    {
      this.service := service;
    }

    /** GET /api/lixi/active */
    method GetActive() returns (resp: Response)
      requires Valid()
      ensures resp.status == StatusOK <==> HasActive(service.repo.rows)
      ensures resp.status == StatusOK ==>
        forall k :: k in service.repo.rows && service.repo.rows[k].isActive ==>
          resp.body == ConfigBody(ToConfig(k, service.repo.rows[k]))
      ensures resp.status != StatusOK ==> resp == WriteError(StatusNotFound, NoActiveConfig.Message())
    {
      var r := service.GetActiveConfig();
      resp := GetActiveReply(r);
    }

    /** GET /api/admin/lixi */
    method GetAll() returns (resp: Response)
      requires Valid()
      ensures resp.status == StatusOK && resp.body.ConfigListBody?
      ensures var cs := resp.body.configs;
        && (forall i :: 0 <= i < |cs| ==> Stored(service.repo.rows, cs[i]))
        && (forall k :: k in service.repo.rows ==>
              exists i :: 0 <= i < |cs| && cs[i] == ToConfig(k, service.repo.rows[k]))
        && (forall i, j :: 0 <= i < j < |cs| ==> cs[i].createdAt > cs[j].createdAt)
    {
      var configs := service.GetAllConfigs();
      resp := GetAllReply(Ok(configs));
    }

    /** POST /api/admin/lixi; `body` is None when the JSON does not decode. */
    method Create(body: Option<ConfigRequest>) returns (resp: Response)
      requires Valid()
      modifies service.repo
      ensures Valid()
      ensures body.None? ==> resp == WriteError(StatusBadRequest, InvalidBodyText) && unchanged(service.repo)
      ensures body.Some? ==>
        var req := body.value;
        && (CreateError(req.name, req.envelopes).Some? ==>
              && resp == WriteError(StatusBadRequest, CreateError(req.name, req.envelopes).value.Message())
              && unchanged(service.repo))
        && (CreateError(req.name, req.envelopes).None? && old(service.repo.nextId) <= MaxInt64 ==>
              && service.repo.rows == old(service.repo.rows)[old(service.repo.nextId) :=
                   Row(req.name, Renumbered(req.envelopes), false, old(service.repo.clock))]
              && resp.status == StatusCreated
              && resp.body == ConfigBody(ToConfig(old(service.repo.nextId), service.repo.rows[old(service.repo.nextId)])))
        && (CreateError(req.name, req.envelopes).None? && old(service.repo.nextId) > MaxInt64 ==>
              resp.status == StatusBadRequest && unchanged(service.repo))
    {
      if body.None? {
        return WriteError(StatusBadRequest, InvalidBodyText);
      }
      var req := body.value;
      var envelopes := new LixiEnvelope[|req.envelopes|](i requires 0 <= i < |req.envelopes| => req.envelopes[i]);
      assert envelopes[..] == req.envelopes;
      var r := service.CreateConfig(req.name, envelopes);
      resp := CreateReply(r);
    }

    /** PUT /api/admin/lixi/{id} */
    method Update(path: string, body: Option<ConfigRequest>) returns (resp: Response)
      requires Valid()
      modifies service.repo
      ensures Valid()
      ensures var id := ExtractIDFromPath(path, AdminPrefix);
        && (id == "" ==> resp == WriteError(StatusBadRequest, InvalidIdText) && unchanged(service.repo))
        && (id != "" && body.None? ==> resp == WriteError(StatusBadRequest, InvalidBodyText) && unchanged(service.repo))
        && (id != "" && body.Some? && CastId(GetConfigOp, id).Err? ==>
              resp == WriteError(StatusBadRequest, CastId(GetConfigOp, id).error.Message()) && unchanged(service.repo))
        && (id != "" && body.Some? && CastId(GetConfigOp, id).Ok? ==>
              var k := CastId(GetConfigOp, id).value;
              var req := body.value;
              && (k !in old(service.repo.rows) ==>
                    resp == WriteError(StatusNotFound, NotFoundText) && unchanged(service.repo))
              && (k in old(service.repo.rows) && UpdateError(req.envelopes).Some? ==>
                    resp == WriteError(StatusBadRequest, UpdateError(req.envelopes).value.Message())
                    && unchanged(service.repo))
              && (k in old(service.repo.rows) && UpdateError(req.envelopes).None? ==>
                    var row := UpdatedRow(old(service.repo.rows)[k], req.name, req.envelopes);
                    && resp == Response(StatusOK, ConfigBody(ToConfig(k, row)))
                    && service.repo.rows == old(service.repo.rows)[k := row]))
    {
      var id := ExtractIDFromPath(path, AdminPrefix);
      if id == "" {
        return WriteError(StatusBadRequest, InvalidIdText);
      }
      if body.None? {
        return WriteError(StatusBadRequest, InvalidBodyText);
      }
      var req := body.value;
      var envelopes := new LixiEnvelope[|req.envelopes|](i requires 0 <= i < |req.envelopes| => req.envelopes[i]);
      assert envelopes[..] == req.envelopes;
      ghost var before := service.repo.rows;
      var r := service.UpdateConfig(id, req.name, envelopes);
      resp := UpdateReply(r);
      if CastId(GetConfigOp, id).Err? {
        assert r.error.StoreFailure?;
      } else if CastId(GetConfigOp, id).value in before && UpdateError(req.envelopes).Some? {
        assert r.error != ConfigNotFound;
      }
    }

    /** DELETE /api/admin/lixi/{id} */
    method Delete(path: string) returns (resp: Response)
      requires Valid()
      modifies service.repo
      ensures Valid()
      ensures var id := ExtractIDFromPath(path, AdminPrefix);
        && (id == "" ==> resp == WriteError(StatusBadRequest, InvalidIdText) && unchanged(service.repo))
        && (id != "" && CastId(GetConfigOp, id).Err? ==>
              resp.status == StatusInternalServerError && unchanged(service.repo))
        && (id != "" && CastId(GetConfigOp, id).Ok? ==>
              var k := CastId(GetConfigOp, id).value;
              && (k !in old(service.repo.rows) ==>
                    resp == WriteError(StatusNotFound, NotFoundText) && unchanged(service.repo))
              && (k in old(service.repo.rows) && old(service.repo.rows)[k].isActive ==>
                    resp == WriteError(StatusBadRequest, CannotDeleteActiveText) && unchanged(service.repo))
              && (k in old(service.repo.rows) && !old(service.repo.rows)[k].isActive ==>
                    resp == Response(StatusNoContent, NoBody)
                    && service.repo.rows == old(service.repo.rows) - {k}))
    {
      var id := ExtractIDFromPath(path, AdminPrefix);
      if id == "" {
        return WriteError(StatusBadRequest, InvalidIdText);
      }
      ghost var before := service.repo.rows;
      var r := service.DeleteConfig(id);
      resp := DeleteReply(r);
      if CastId(GetConfigOp, id).Err? {
        assert r.error.StoreFailure?;
      } else {
        ghost var k := CastId(GetConfigOp, id).value;
        if k !in before {
          assert r == Failure(ConfigNotFound);
        } else if before[k].isActive {
          assert r == Failure(CannotDeleteActive);
        } else {
          assert r == Success;
        }
      }
    }

    /** POST /api/admin/lixi/{id}/activate */
    method Activate(path: string) returns (resp: Response)
      requires Valid()
      modifies service.repo
      ensures Valid()
      ensures var id := ActivateID(path);
        && (id == "" ==> resp == WriteError(StatusBadRequest, InvalidIdText) && unchanged(service.repo))
        && (id != "" && CastId(GetConfigOp, id).Err? ==>
              resp.status == StatusInternalServerError && unchanged(service.repo))
        && (id != "" && CastId(GetConfigOp, id).Ok? ==>
              var k := CastId(GetConfigOp, id).value;
              && (k !in old(service.repo.rows) ==>
                    resp == WriteError(StatusNotFound, NotFoundText) && unchanged(service.repo))
              && (k in old(service.repo.rows) ==>
                    resp == Response(StatusOK, MessageBody(ActivatedText))
                    && service.repo.rows == Activated(old(service.repo.rows), k)))
    {
      var id := ActivateID(path);
      if id == "" {
        return WriteError(StatusBadRequest, InvalidIdText);
      }
      var r := service.SetActiveConfig(id);
      resp := ActivateReply(r);
    }
  }
}
