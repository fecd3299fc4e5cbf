/**
 * The lixi_configs table and the repository over it
 * (internal/repository/lixi_repo.go). Each SQL statement becomes a change to
 * an in-memory table: a map from the BIGINT id to the row, the identity
 * sequence that hands out ids, and a creation counter standing in for
 * CURRENT_TIMESTAMP. The partial unique index idx_lixi_active is the
 * table's invariant and is checked on every statement that writes is_active.
 */
module LixiRepository {
  import opened Domain
  import opened ConfigIds

  /** One row of lixi_configs; its id is the key it is stored under. */
  datatype Row = Row(name: string, envelopes: seq<LixiEnvelope>, isActive: bool, createdAt: nat)

  /** The config a SELECT hands back for a row: the key rendered with `%d`. */
  function ToConfig(key: int, row: Row): LixiConfig {
    LixiConfig(FormatInt(key), row.name, row.envelopes, row.isActive, row.createdAt)
  }

  /** What idx_lixi_active (UNIQUE on is_active WHERE is_active = TRUE) guarantees. */
  predicate AtMostOneActive(rows: map<int, Row>) {
    forall j, k :: j in rows && k in rows && rows[j].isActive && rows[k].isActive ==> j == k
  }

  /** `config` is what a SELECT returns for one of the rows. */
  ghost predicate Stored(rows: map<int, Row>, config: LixiConfig) {
    exists k :: k in rows && config == ToConfig(k, rows[k])
  }

  predicate HasActive(rows: map<int, Row>) {
    exists k :: k in rows && rows[k].isActive
  }

  /** `UPDATE lixi_configs SET is_active = FALSE WHERE is_active = TRUE` */
  function Deactivated(rows: map<int, Row>): (r: map<int, Row>)
    ensures r.Keys == rows.Keys && !HasActive(r)
    ensures forall k :: k in r ==>
      r[k].name == rows[k].name && r[k].envelopes == rows[k].envelopes && r[k].createdAt == rows[k].createdAt
  {
    map k | k in rows :: rows[k].(isActive := false)
  }

  /** The table a committed activation of `target` should leave: only `target` is active. */
  function Activated(rows: map<int, Row>, target: int): (r: map<int, Row>)
    ensures r.Keys == rows.Keys
    ensures forall k :: k in r ==> (r[k].isActive <==> k == target)
    ensures forall k :: k in r ==>
      r[k].name == rows[k].name && r[k].envelopes == rows[k].envelopes && r[k].createdAt == rows[k].createdAt
  {
    map k | k in rows :: rows[k].(isActive := k == target)
  }

  /** Postgres' text for a value of `$1` it cannot read as a bigint. */
  function CastErrorText(id: string, p: Parsed): string {
    if p.OutOfRange? then "ERROR: value \"" + id + "\" is out of range for type bigint (SQLSTATE 22003)"
    else "ERROR: invalid input syntax for type bigint: \"" + id + "\" (SQLSTATE 22P02)"
  }

  /** The key `WHERE id = $1` compares with, or the error the statement fails with inside `op`. */
  function CastId(op: StoreOp, id: string): (r: Result<int>)
    ensures r.Ok? <==> ParseBigint(id).Parsed?
    ensures r.Ok? ==> r.value == ParseBigint(id).value
    ensures r.Err? ==> r.error.StoreFailure? && r.error.op == op
  {
    var p := ParseBigint(id);
    if p.Parsed? then Ok(p.value) else Err(StoreFailure(op, CastErrorText(id, p)))
  }

  const UniqueViolationText: string :=
    "ERROR: duplicate key value violates unique constraint \"idx_lixi_active\" (SQLSTATE 23505)"
  const SequenceExhaustedText: string :=
    "ERROR: nextval: reached maximum value of sequence \"lixi_configs_id_seq\" (9223372036854775807) (SQLSTATE 2200H)"

  /** Adding a row keeps the index satisfied exactly when it is inactive or no row is active yet. */
  lemma InsertKeepsIndex(rows: map<int, Row>, key: int, row: Row)
    requires AtMostOneActive(rows) && key !in rows
    ensures AtMostOneActive(rows[key := row]) <==> !(row.isActive && HasActive(rows))
  {
    if row.isActive && HasActive(rows) {
      var j :| j in rows && rows[j].isActive;
      assert rows[key := row][j].isActive && rows[key := row][key].isActive;
    }
  }

  /** After a committed activation the target is active and every other row is inactive, with nothing else changed. */
  lemma ActivatedSingle(rows: map<int, Row>, target: int)
    requires target in rows
    ensures Activated(rows, target).Keys == rows.Keys
    ensures Activated(rows, target)[target].isActive
    ensures forall k :: k in rows && k != target ==> !Activated(rows, target)[k].isActive
    ensures forall k :: k in rows ==> Activated(rows, target)[k].(isActive := rows[k].isActive) == rows[k]
    ensures AtMostOneActive(Activated(rows, target))
  {
  }

  /** Activating the same row twice in a row leaves the same table as activating it once. */
  lemma ActivatedIdempotent(rows: map<int, Row>, target: int)
    ensures Activated(Activated(rows, target), target) == Activated(rows, target)
  {
  }

  /** Clearing first means neither statement of the activation ever trips idx_lixi_active. */
  lemma ClearThenSetKeepsIndex(rows: map<int, Row>, target: int)
    requires target in rows
    ensures AtMostOneActive(Deactivated(rows))
    ensures AtMostOneActive(Deactivated(rows)[target := rows[target].(isActive := true)])
    ensures Deactivated(rows)[target := rows[target].(isActive := true)] == Activated(rows, target)
  {
  }

  /** In the other order the first statement would already be refused whenever another row is active. */
  lemma SetBeforeClearViolates(rows: map<int, Row>, target: int, current: int)
    requires target in rows && current in rows && current != target && rows[current].isActive
    ensures !AtMostOneActive(rows[target := rows[target].(isActive := true)])
  {
    var next := rows[target := rows[target].(isActive := true)];
    assert next[current].isActive && next[target].isActive;
  }

  /**
   * The state of the downward scan once every key above `k` has been read:
   * `keys` lists, in decreasing order, exactly the table's keys above `k`,
   * and `configs` holds the config read for each.
   */
  ghost predicate ScannedAbove(rows: map<int, Row>, keys: seq<int>, configs: seq<LixiConfig>, k: int) {
    && |keys| == |configs|
    && (forall i :: 0 <= i < |keys| ==> k < keys[i])
    && (forall i :: 0 <= i < |keys| ==> keys[i] in rows && configs[i] == ToConfig(keys[i], rows[keys[i]]))
    && (forall i, j :: 0 <= i < j < |keys| ==> keys[i] > keys[j])
    && (forall key :: key in rows && k < key ==> key in keys)
  }

  /** Reading key `k` (or skipping it when absent) extends the scan by one key. */
  lemma ScanStep(rows: map<int, Row>, keys: seq<int>, configs: seq<LixiConfig>, k: int)
    requires ScannedAbove(rows, keys, configs, k)
    ensures k in rows ==> ScannedAbove(rows, keys + [k], configs + [ToConfig(k, rows[k])], k - 1)
    ensures k !in rows ==> ScannedAbove(rows, keys, configs, k - 1)
  {
    if k in rows {
      var keys', configs' := keys + [k], configs + [ToConfig(k, rows[k])];
      assert keys'[|keys|] == k;
      forall key | key in rows && k - 1 < key
        ensures key in keys'
      {
        if key == k {
          assert keys'[|keys|] == key;
        } else {
          assert key in keys;
          var i :| 0 <= i < |keys| && keys[i] == key;
          assert keys'[i] == key;
        }
      }
    }
  }

  /** Each entry read for a key of the table is a stored row. */
  lemma ScanStored(rows: map<int, Row>, keys: seq<int>, configs: seq<LixiConfig>)
    requires ScannedAbove(rows, keys, configs, 0)
    ensures forall i :: 0 <= i < |configs| ==> Stored(rows, configs[i])
  {
    forall i | 0 <= i < |configs|
      ensures Stored(rows, configs[i])
    {
      assert configs[i] == ToConfig(keys[i], rows[keys[i]]);
    }
  }

  /** A scan down to 0 over positive keys has read every row. */
  lemma ScanComplete(rows: map<int, Row>, keys: seq<int>, configs: seq<LixiConfig>)
    requires ScannedAbove(rows, keys, configs, 0)
    requires forall key :: key in rows ==> 0 < key
    ensures forall k :: k in rows ==> exists i :: 0 <= i < |configs| && configs[i] == ToConfig(k, rows[k])
  {
    forall key | key in rows
      ensures exists i :: 0 <= i < |configs| && configs[i] == ToConfig(key, rows[key])
    {
      var i :| 0 <= i < |keys| && keys[i] == key;
      assert configs[i] == ToConfig(key, rows[key]);
    }
  }

  /** When keys and creation times are ordered alike, the downward scan yields the rows newest first. */
  lemma ScanNewestFirst(rows: map<int, Row>, keys: seq<int>, configs: seq<LixiConfig>)
    requires ScannedAbove(rows, keys, configs, 0)
    requires forall j, k :: j in rows && k in rows && j < k ==> rows[j].createdAt < rows[k].createdAt
    ensures forall i, j :: 0 <= i < j < |configs| ==> configs[i].createdAt > configs[j].createdAt
  {
    forall i, j | 0 <= i < j < |configs|
      ensures configs[i].createdAt > configs[j].createdAt
    {
      assert rows[keys[j]].createdAt < rows[keys[i]].createdAt;
    }
  }

  class LixiConfigTable {
    var rows: map<int, Row>
    /** The next value of the identity column. */
    var nextId: int
    /** The creation counter: a later insert always gets a larger value. */
    var clock: nat

    ghost predicate Valid()
      reads this
    {
      && 1 <= nextId
      && AtMostOneActive(rows)
      && (forall k :: k in rows ==> 1 <= k < nextId && k <= MaxInt64 && rows[k].createdAt < clock)
      && (forall j, k :: j in rows && k in rows && j < k ==> rows[j].createdAt < rows[k].createdAt)
    }

    /** An empty table right after the migrations. */
    constructor ()
      ensures Valid()
      ensures rows == map[] && nextId == 1 && clock == 0
    {
      rows := map[];
      nextId := 1;
      clock := 0;
    }

    /** The write of one statement, which idx_lixi_active admits or refuses as a whole. */
    method Apply(next: map<int, Row>) returns (accepted: bool)
      modifies this
      ensures accepted == AtMostOneActive(next)
      ensures rows == (if accepted then next else old(rows))
      ensures nextId == old(nextId) && clock == old(clock)
    {
      accepted := AtMostOneActive(next);
      if accepted {
        rows := next;
      }
    }

    /**
     * `INSERT ... RETURNING id, created_at`: on success the caller's config
     * comes back with the new id and creation time written into it. The
     * identity value is used up even when the index refuses the row.
     */
    method Create(config: LixiConfig) returns (r: Result<LixiConfig>)
      requires Valid()
      modifies this
      ensures Valid()
      ensures old(nextId) > MaxInt64 ==>
        r == Err(StoreFailure(CreateConfigOp, SequenceExhaustedText)) && unchanged(this)
      ensures old(nextId) <= MaxInt64 ==> nextId == old(nextId) + 1
      ensures old(nextId) <= MaxInt64 && config.isActive && HasActive(old(rows)) ==>
        && r == Err(StoreFailure(CreateConfigOp, UniqueViolationText))
        && rows == old(rows) && clock == old(clock)
      ensures old(nextId) <= MaxInt64 && !(config.isActive && HasActive(old(rows))) ==>
        && r == Ok(config.(id := FormatId(old(nextId)), createdAt := old(clock)))
        && rows == old(rows)[old(nextId) := Row(config.name, config.envelopes, config.isActive, old(clock))]
        && clock == old(clock) + 1
    {
      if nextId > MaxInt64 {
        return Err(StoreFailure(CreateConfigOp, SequenceExhaustedText));
      }
      var key := nextId;
      nextId := nextId + 1;
      var row := Row(config.name, config.envelopes, config.isActive, clock);
      InsertKeepsIndex(rows, key, row);
      var accepted := Apply(rows[key := row]);
      if !accepted {
        return Err(StoreFailure(CreateConfigOp, UniqueViolationText));
      }
      clock := clock + 1;
      r := Ok(config.(id := FormatId(key), createdAt := row.createdAt));
    }

    /** `SELECT ... WHERE is_active = TRUE LIMIT 1` */
    method GetActive() returns (r: Result<LixiConfig>)
      requires Valid()
      ensures r.Ok? <==> HasActive(rows)
      ensures r.Err? ==> r.error == NoActiveConfig
      ensures r.Ok? ==> forall k :: k in rows && rows[k].isActive ==> r.value == ToConfig(k, rows[k])
    {
      if k :| k in rows && rows[k].isActive {
        r := Ok(ToConfig(k, rows[k]));
      } else {
        r := Err(NoActiveConfig);
      }
    }

    /** `SELECT ... WHERE id = $1` */
    method GetByID(id: string) returns (r: Result<LixiConfig>)
      requires Valid()
      ensures CastId(GetConfigOp, id).Err? ==> r == Err(CastId(GetConfigOp, id).error)
      ensures CastId(GetConfigOp, id).Ok? ==>
        var k := CastId(GetConfigOp, id).value;
        && (k !in rows ==> r == Err(ConfigNotFound))
        && (k in rows ==> r == Ok(ToConfig(k, rows[k])))
    {
      var key := CastId(GetConfigOp, id);
      if key.Err? {
        return Err(key.error);
      }
      if key.value !in rows {
        return Err(ConfigNotFound);
      }
      r := Ok(ToConfig(key.value, rows[key.value]));
    }

    /**
     * `SELECT ... ORDER BY created_at DESC` and the loop that appends each
     * row. The class invariant makes key order and creation order agree, so
     * the rows come out by scanning the keys downwards.
     */
    method GetAll() returns (configs: seq<LixiConfig>)
      requires Valid()
      ensures forall i :: 0 <= i < |configs| ==> Stored(rows, configs[i])
      ensures forall k :: k in rows ==> exists i :: 0 <= i < |configs| && configs[i] == ToConfig(k, rows[k])
      ensures forall i, j :: 0 <= i < j < |configs| ==> configs[i].createdAt > configs[j].createdAt
    {
      configs := [];
      ghost var keys: seq<int> := [];
      var k := nextId - 1;
      while k > 0
        invariant 0 <= k < nextId
        invariant ScannedAbove(rows, keys, configs, k)
        decreases k
      {
        ScanStep(rows, keys, configs, k);
        if k in rows {
          configs := configs + [ToConfig(k, rows[k])];
          keys := keys + [k];
        }
        k := k - 1;
      }
      ScanStored(rows, keys, configs);
      ScanComplete(rows, keys, configs);
      ScanNewestFirst(rows, keys, configs);
    }

    /** `UPDATE lixi_configs SET name = $1, envelopes = $2 WHERE id = $3`: is_active and created_at are untouched. */
    method Update(config: LixiConfig) returns (r: Outcome)
      requires Valid()
      modifies this
      ensures Valid()
      ensures nextId == old(nextId) && clock == old(clock)
      ensures CastId(UpdateConfigOp, config.id).Err? ==>
        r == Failure(CastId(UpdateConfigOp, config.id).error) && unchanged(this)
      ensures CastId(UpdateConfigOp, config.id).Ok? ==>
        var k := CastId(UpdateConfigOp, config.id).value;
        && (k !in old(rows) ==> r == Failure(ConfigNotFound) && unchanged(this))
        && (k in old(rows) ==>
              r == Success
              && rows == old(rows)[k := old(rows)[k].(name := config.name, envelopes := config.envelopes)])
    {
      var key := CastId(UpdateConfigOp, config.id);
      if key.Err? {
        return Failure(key.error);
      }
      if key.value !in rows {
        return Failure(ConfigNotFound);
      }
      rows := rows[key.value := rows[key.value].(name := config.name, envelopes := config.envelopes)];
      r := Success;
    }

    /** `DELETE FROM lixi_configs WHERE id = $1`: removes the row whether or not it is active. */
    method Delete(id: string) returns (r: Outcome)
      requires Valid()
      modifies this
      ensures Valid()
      ensures nextId == old(nextId) && clock == old(clock)
      ensures CastId(DeleteConfigOp, id).Err? ==> r == Failure(CastId(DeleteConfigOp, id).error) && unchanged(this)
      ensures CastId(DeleteConfigOp, id).Ok? ==>
        var k := CastId(DeleteConfigOp, id).value;
        && (k !in old(rows) ==> r == Failure(ConfigNotFound) && unchanged(this))
        && (k in old(rows) ==> r == Success && rows == old(rows) - {k})
    {
      var key := CastId(DeleteConfigOp, id);
      if key.Err? {
        return Failure(key.error);
      }
      if key.value !in rows {
        return Failure(ConfigNotFound);
      }
      rows := rows - {key.value};
      r := Success;
    }

    /**
     * The activation transaction: clear every active flag, then set the
     * target's. When the second statement fails or matches no row, the
     * deferred rollback restores the table as it was before the first.
     */
    method SetActive(id: string) returns (r: Outcome)
      requires Valid()
      modifies this
      ensures Valid()
      ensures nextId == old(nextId) && clock == old(clock)
      ensures CastId(ActivateConfigOp, id).Err? ==>
        r == Failure(CastId(ActivateConfigOp, id).error) && rows == old(rows)
      ensures CastId(ActivateConfigOp, id).Ok? ==>
        var k := CastId(ActivateConfigOp, id).value;
        && (k !in old(rows) ==> r == Failure(ConfigNotFound) && rows == old(rows))
        && (k in old(rows) ==> r == Success && rows == Activated(old(rows), k))
    {
      var snapshot := rows;
      var cleared := Apply(Deactivated(rows));
      assert cleared;
      var key := CastId(ActivateConfigOp, id);
      if key.Err? {
        rows := snapshot;
        return Failure(key.error);
      }
      if key.value !in rows {
        rows := snapshot;
        return Failure(ConfigNotFound);
      }
      ClearThenSetKeepsIndex(snapshot, key.value);
      var activated := Apply(rows[key.value := snapshot[key.value].(isActive := true)]);
      assert activated;
      r := Success;
    }
  }
}
