/**
 * The configuration service (internal/service/lixi_service.go): the
 * validation gate in front of the repository and the rule that the active
 * configuration cannot be deleted. The pure functions state what the
 * validation loop decides; the class holds the repository and its methods
 * are proved against those functions.
 */
module LixiService {
  import opened Domain
  import opened ConfigIds
  import opened LixiRepository

  const EnvelopeCount: nat := 12

  /** An envelope passes the per-field checks. */
  predicate EnvelopeOk(e: LixiEnvelope) {
    e.amount != "" && e.message != "" && e.rate > 0.0
  }

  /** The per-field checks in the order the loop makes them: amount, then message, then rate. */
  function EnvelopeError(e: LixiEnvelope): (r: Option<Error>)
    ensures r.None? <==> EnvelopeOk(e)
    ensures e.amount == "" ==> r == Some(AmountRequired)
    ensures e.amount != "" && e.message == "" ==> r == Some(MessageRequired)
    ensures e.amount != "" && e.message != "" && !(e.rate > 0.0) ==> r == Some(RateNotPositive)
  {
    if e.amount == "" then Some(AmountRequired)
    else if e.message == "" then Some(MessageRequired)
    else if e.rate <= 0.0 then Some(RateNotPositive)
    else None
  }

  /** The position of the first envelope that fails a check, or |s| when none does. */
  function FirstInvalid(s: seq<LixiEnvelope>): (i: nat)
    ensures i <= |s|
    ensures forall j :: 0 <= j < i ==> EnvelopeOk(s[j])
    ensures i < |s| ==> !EnvelopeOk(s[i])
  {
    if s == [] then 0
    else if !EnvelopeOk(s[0]) then 0
    else 1 + FirstInvalid(s[1..])
  }

  /** The error the envelope loop returns: that of the first failing envelope in list order. */
  function EnvelopesError(s: seq<LixiEnvelope>): (r: Option<Error>)
    ensures r.None? <==> forall i :: 0 <= i < |s| ==> EnvelopeOk(s[i])
    ensures r.Some? ==> FirstInvalid(s) < |s| && r == EnvelopeError(s[FirstInvalid(s)])
  {
    var i := FirstInvalid(s);
    if i < |s| then EnvelopeError(s[i]) else None
  }

  /** A supplied envelope list must hold exactly 12 envelopes that all pass the checks. */
  function EnvelopeListError(s: seq<LixiEnvelope>): (r: Option<Error>)
    ensures |s| != EnvelopeCount ==> r == Some(EnvelopeCountInvalid)
    ensures r.None? <==> |s| == EnvelopeCount && forall i :: 0 <= i < |s| ==> EnvelopeOk(s[i])
  {
    if |s| != EnvelopeCount then Some(EnvelopeCountInvalid) else EnvelopesError(s)
  }

  /** What CreateConfig refuses: an empty name first, then the envelope list. */
  function CreateError(name: string, s: seq<LixiEnvelope>): (r: Option<Error>)
    ensures name == "" ==> r == Some(NameRequired)
    ensures name != "" ==> r == EnvelopeListError(s)
  {
    if name == "" then Some(NameRequired) else EnvelopeListError(s)
  }

  /** What UpdateConfig refuses once the config is found: an empty list means "keep the stored one". */
  function UpdateError(s: seq<LixiEnvelope>): (r: Option<Error>)
    ensures |s| == 0 ==> r.None?
    ensures |s| > 0 ==> r == EnvelopeListError(s)
  {
    if |s| == 0 then None else EnvelopeListError(s)
  }

  /** Each envelope's id set to its 1-based position; every other field kept. */
  function Renumbered(s: seq<LixiEnvelope>): (r: seq<LixiEnvelope>)
    ensures |r| == |s|
    ensures forall i :: 0 <= i < |s| ==> r[i] == s[i].(id := i + 1)
  {
    seq(|s|, i requires 0 <= i < |s| => s[i].(id := i + 1))
  }

  /** The caller's slice after the loop has renumbered its first `n` envelopes. */
  function NumberedUpTo(s: seq<LixiEnvelope>, n: nat): (r: seq<LixiEnvelope>)
    requires n <= |s|
    ensures |r| == |s|
    ensures forall i :: 0 <= i < n ==> r[i] == s[i].(id := i + 1)
    ensures forall i :: n <= i < |s| ==> r[i] == s[i]
  {
    Renumbered(s[..n]) + s[n..]
  }

  /** The envelopes of every stored config: 12 of them, each complete, numbered 1 to 12 in order. */
  predicate ValidEnvelopes(s: seq<LixiEnvelope>) {
    && |s| == EnvelopeCount
    && forall i :: 0 <= i < |s| ==> EnvelopeOk(s[i]) && s[i].id == i + 1
  }

  /** A list that passes validation becomes a valid stored list once renumbered. */
  lemma AcceptedListIsValid(s: seq<LixiEnvelope>)
    requires EnvelopeListError(s).None?
    ensures ValidEnvelopes(Renumbered(s))
  {
  }

  /** Client-supplied ids are ignored: lists that differ only in ids renumber to the same list. */
  lemma RenumberIgnoresClientIds(s: seq<LixiEnvelope>, t: seq<LixiEnvelope>)
    requires |s| == |t|
    requires forall i :: 0 <= i < |s| ==> s[i].(id := 0) == t[i].(id := 0)
    ensures Renumbered(s) == Renumbered(t)
  {
    forall i | 0 <= i < |s|
      ensures Renumbered(s)[i] == Renumbered(t)[i]
    {
      assert s[i].(id := 0) == t[i].(id := 0);
    }
  }

  /** Renumbering an already numbered list changes nothing. */
  lemma RenumberedIdempotent(s: seq<LixiEnvelope>)
    ensures Renumbered(Renumbered(s)) == Renumbered(s)
  {
  }

  /** Once the loop has run to the end the caller's slice is the renumbered list. */
  lemma NumberedToEnd(s: seq<LixiEnvelope>)
    ensures NumberedUpTo(s, |s|) == Renumbered(s)
  {
  }

  /** The stored row after an update: an empty name or an empty list keeps what was stored. */
  function UpdatedRow(row: Row, name: string, s: seq<LixiEnvelope>): Row {
    row.(name := if name != "" then name else row.name,
         envelopes := if |s| > 0 then Renumbered(s) else row.envelopes)
  }

  /**
   * The loop CreateConfig and UpdateConfig share: checks each envelope in
   * order and, once it passes, writes its position into the caller's slice.
   * It stops at the first failing envelope, leaving the ones before it
   * already renumbered.
   */
  method CheckAndNumber(envelopes: array<LixiEnvelope>) returns (err: Option<Error>)
    modifies envelopes
    ensures err == EnvelopesError(old(envelopes[..]))
    ensures envelopes[..] == NumberedUpTo(old(envelopes[..]), FirstInvalid(old(envelopes[..])))
  {
    ghost var s := envelopes[..];
    err := None;
    var i := 0;
    while i < envelopes.Length
      invariant 0 <= i <= envelopes.Length
      invariant forall j :: 0 <= j < i ==> EnvelopeOk(s[j])
      invariant forall j :: 0 <= j < i ==> envelopes[j] == s[j].(id := j + 1)
      invariant forall j :: i <= j < envelopes.Length ==> envelopes[j] == s[j]
    {
      var env := envelopes[i];
      if env.amount == "" {
        err := Some(AmountRequired);
        break;
      }
      if env.message == "" {
        err := Some(MessageRequired);
        break;
      }
      if env.rate <= 0.0 {
        err := Some(RateNotPositive);
        break;
      }
      envelopes[i] := env.(id := i + 1);
      i := i + 1;
    }
    FirstInvalidIs(s, i);
    NumberedUpToIs(envelopes[..], s, i);
  }

  /** The first failing position is pinned down by the positions before it. */
  lemma {:induction false} FirstInvalidIs(s: seq<LixiEnvelope>, i: nat)
    requires i <= |s|
    requires forall j :: 0 <= j < i ==> EnvelopeOk(s[j])
    requires i < |s| ==> !EnvelopeOk(s[i])
    ensures FirstInvalid(s) == i
  {
    if i > 0 {
      FirstInvalidIs(s[1..], i - 1);
    }
  }

  lemma NumberedUpToIs(a: seq<LixiEnvelope>, s: seq<LixiEnvelope>, i: nat)
    requires i <= |s| == |a|
    requires forall j :: 0 <= j < i ==> a[j] == s[j].(id := j + 1)
    requires forall j :: i <= j < |s| ==> a[j] == s[j]
    ensures a == NumberedUpTo(s, i)
  {
  }

  class LixiService {
    const repo: LixiConfigTable

    /** The table's invariant plus the service's own: every stored list is valid. */
    ghost predicate Valid()
      reads this, repo
    {
      && repo.Valid()
      && forall k :: k in repo.rows ==> ValidEnvelopes(repo.rows[k].envelopes)
    }

    constructor (repo: LixiConfigTable)
      requires repo.Valid() && forall k :: k in repo.rows ==> ValidEnvelopes(repo.rows[k].envelopes)
      ensures this.repo == repo && Valid()
    {
      this.repo := repo;
    }

    /**
     * Validates the request, renumbers the envelopes in the caller's slice
     * and inserts one inactive row; the caller's slice keeps whatever
     * renumbering happened before a failing envelope.
     */
    method CreateConfig(name: string, envelopes: array<LixiEnvelope>) returns (r: Result<LixiConfig>)
      requires Valid()
      modifies repo, envelopes
      ensures Valid()
      ensures var s := old(envelopes[..]);
        && (CreateError(name, s).Some? ==> r == Err(CreateError(name, s).value) && unchanged(repo))
        && (CreateError(name, s).None? && old(repo.nextId) > MaxInt64 ==>
              r == Err(StoreFailure(CreateConfigOp, SequenceExhaustedText)) && unchanged(repo))
        && (CreateError(name, s).None? && old(repo.nextId) <= MaxInt64 ==>
              && r == Ok(LixiConfig(FormatId(old(repo.nextId)), name, Renumbered(s), false, old(repo.clock)))
              && repo.rows == old(repo.rows)[old(repo.nextId) := Row(name, Renumbered(s), false, old(repo.clock))]
              && repo.nextId == old(repo.nextId) + 1 && repo.clock == old(repo.clock) + 1)
        && envelopes[..] == (if name == "" || |s| != EnvelopeCount then s else NumberedUpTo(s, FirstInvalid(s)))
    {
      ghost var s := envelopes[..];
      if name == "" {
        return Err(NameRequired);
      }
      if envelopes.Length != EnvelopeCount {
        return Err(EnvelopeCountInvalid);
      }
      var err := CheckAndNumber(envelopes);
      if err.Some? {
        return Err(err.value);
      }
      NumberedToEnd(s);
      AcceptedListIsValid(s);
      var config := LixiConfig("", name, envelopes[..], false, 0);
      r := repo.Create(config);
    }

    /** Pass-through to the repository's GetActive. */
    method GetActiveConfig() returns (r: Result<LixiConfig>)
      requires Valid()
      ensures r.Ok? <==> HasActive(repo.rows)
      ensures r.Err? ==> r.error == NoActiveConfig
      ensures r.Ok? ==> forall k :: k in repo.rows && repo.rows[k].isActive ==> r.value == ToConfig(k, repo.rows[k])
    {
      r := repo.GetActive();
    }

    /** Pass-through to the repository's GetAll. */
    method GetAllConfigs() returns (configs: seq<LixiConfig>)
      requires Valid()
      ensures forall i :: 0 <= i < |configs| ==> Stored(repo.rows, configs[i])
      ensures forall k :: k in repo.rows ==> exists i :: 0 <= i < |configs| && configs[i] == ToConfig(k, repo.rows[k])
      ensures forall i, j :: 0 <= i < j < |configs| ==> configs[i].createdAt > configs[j].createdAt
    {
      configs := repo.GetAll();
    }

    /**
     * Looks the config up, keeps the stored name and envelopes where the
     * request leaves them empty, validates and renumbers a supplied list,
     * and writes name and envelopes back; is_active is never touched.
     */
    method UpdateConfig(id: string, name: string, envelopes: array<LixiEnvelope>) returns (r: Result<LixiConfig>)
      requires Valid()
      modifies repo, envelopes
      ensures Valid()
      ensures id == "" ==> r == Err(IdRequired) && unchanged(repo) && unchanged(envelopes)
      ensures id != "" && CastId(GetConfigOp, id).Err? ==>
        r == Err(CastId(GetConfigOp, id).error) && unchanged(repo) && unchanged(envelopes)
      ensures id != "" && CastId(GetConfigOp, id).Ok? ==>
        var k := CastId(GetConfigOp, id).value;
        var s := old(envelopes[..]);
        && (k !in old(repo.rows) ==> r == Err(ConfigNotFound) && unchanged(repo) && unchanged(envelopes))
        && (k in old(repo.rows) && UpdateError(s).Some? ==> r == Err(UpdateError(s).value) && unchanged(repo))
        && (k in old(repo.rows) && UpdateError(s).None? ==>
              var row := UpdatedRow(old(repo.rows)[k], name, s);
              && r == Ok(ToConfig(k, row))
              && repo.rows == old(repo.rows)[k := row]
              && repo.nextId == old(repo.nextId) && repo.clock == old(repo.clock))
        && (k in old(repo.rows) ==>
              envelopes[..] == (if |s| != EnvelopeCount then s else NumberedUpTo(s, FirstInvalid(s))))
    {
      ghost var s := envelopes[..];
      if id == "" {
        return Err(IdRequired);
      }
      var found := repo.GetByID(id);
      if found.Err? {
        return Err(found.error);
      }
      var config := found.value;
      ghost var k := CastId(GetConfigOp, id).value;
      if name != "" {
        config := config.(name := name);
      }
      if envelopes.Length > 0 {
        if envelopes.Length != EnvelopeCount {
          return Err(EnvelopeCountInvalid);
        }
        var err := CheckAndNumber(envelopes);
        if err.Some? {
          return Err(err.value);
        }
        NumberedToEnd(s);
        AcceptedListIsValid(s);
        config := config.(envelopes := envelopes[..]);
      }
      ParseFormat(k);
      var updated := repo.Update(config);
      assert updated == Success;
      r := Ok(config);
    }

    /** Refuses to delete the active config; an inactive one is deleted. */
    method DeleteConfig(id: string) returns (r: Outcome)
      requires Valid()
      modifies repo
      ensures Valid()
      ensures repo.nextId == old(repo.nextId) && repo.clock == old(repo.clock)
      ensures id == "" ==> r == Failure(IdRequired) && unchanged(repo)
      ensures id != "" && CastId(GetConfigOp, id).Err? ==> r == Failure(CastId(GetConfigOp, id).error) && unchanged(repo)
      ensures id != "" && CastId(GetConfigOp, id).Ok? ==>
        var k := CastId(GetConfigOp, id).value;
        && (k !in old(repo.rows) ==> r == Failure(ConfigNotFound) && unchanged(repo))
        && (k in old(repo.rows) && old(repo.rows)[k].isActive ==> r == Failure(CannotDeleteActive) && unchanged(repo))
        && (k in old(repo.rows) && !old(repo.rows)[k].isActive ==> r == Success && repo.rows == old(repo.rows) - {k})
    {
      if id == "" {
        return Failure(IdRequired);
      }
      var found := repo.GetByID(id);
      if found.Err? {
        return Failure(found.error);
      }
      if found.value.isActive {
        return Failure(CannotDeleteActive);
      }
      r := repo.Delete(id);
    }

    /** Checks the config exists, then runs the activation transaction. */
    method SetActiveConfig(id: string) returns (r: Outcome)
      requires Valid()
      modifies repo
      ensures Valid()
      ensures repo.nextId == old(repo.nextId) && repo.clock == old(repo.clock)
      ensures id == "" ==> r == Failure(IdRequired) && unchanged(repo)
      ensures id != "" && CastId(GetConfigOp, id).Err? ==> r == Failure(CastId(GetConfigOp, id).error) && unchanged(repo)
      ensures id != "" && CastId(GetConfigOp, id).Ok? ==>
        var k := CastId(GetConfigOp, id).value;
        && (k !in old(repo.rows) ==> r == Failure(ConfigNotFound) && unchanged(repo))
        && (k in old(repo.rows) ==> r == Success && repo.rows == Activated(old(repo.rows), k))
    {
      if id == "" {
        return Failure(IdRequired);
      }
      var found := repo.GetByID(id);
      if found.Err? {
        return Failure(found.error);
      }
      r := repo.SetActive(id);
    }
  }
}
