/**
 The operations of `ConfigStore` over its tables, with validation and error paths, each
 proved to be one step of `ConfigTables`. JSON Schema validation is a parameter.
 */
module ConfigStoreOps {
  import opened Wrappers
  import opened Validation
  import opened ConfigTables
  import opened ConfigHistory

  datatype Limits = Limits(maxWatchSeconds: int, maxPayloadBytes: nat, maxSchemaBytes: nat)

  const MAX_CONFIG_KEY_LEN := 256
  const MAX_PUBLISH_FIELD_LEN := 512

  predicate ValidScope(s: Scope) {
    ValidIdentifier(s.appId) && ValidIdentifier(s.environment) && ValidIdentifier(s.cluster)
    && ValidIdentifier(s.namespace)
  }

  predicate ValidConfigKey(key: string) {
    |key| <= MAX_CONFIG_KEY_LEN && ValidIdentifier(key)
  }

  class ConfigStore {
    const limits: Limits
    const valid: Validator
    const wellFormed: string -> bool

    var scopes: map<Scope, ScopeRow>
    var items: map<ItemKey, Draft>
    var releases: map<ReleaseKey, Release>

    constructor (limits: Limits, valid: Validator, wellFormed: string -> bool)
      ensures Valid() && Tables() == EMPTY
      ensures this.limits == limits && this.valid == valid && this.wellFormed == wellFormed
    {
      this.limits := limits;
      this.valid := valid;
      this.wellFormed := wellFormed;
      scopes, items, releases := map[], map[], map[];
    }

    function Tables(): Db
      reads this
    {
      Db(scopes, items, releases)
    }

    ghost predicate Valid()
      reads this
    {
      Dense(Tables())
    }

    method UpsertItem(scope: Scope, key: string, value: string) returns (r: Result<()>)
      requires Valid()
      modifies this
      ensures Valid()
      ensures r.Err? <==> || !ValidScope(scope) || !ValidConfigKey(key) || |value| > limits.maxPayloadBytes
                          || (scope in old(scopes) && old(scopes)[scope].schema.Some?
                              && !valid(old(scopes)[scope].schema.value, value))
      ensures r.Err? ==> r.error == InvalidArgument
      ensures r.Ok? ==>
                && items == old(items)[ItemKey(scope, key) := Draft(value, false)] && releases == old(releases)
                && scopes == old(scopes)[scope := old(RowOf(Tables(), scope))]
      ensures Tables() == if r.Err? then old(Tables()) else Step(old(Tables()), Upsert(scope, key, value), valid)
    {
      if !ValidScope(scope) || !ValidConfigKey(key) || |value| > limits.maxPayloadBytes {
        return Err(InvalidArgument);
      }
      DenseStep(Tables(), Upsert(scope, key, value), valid);
      var row := if scope in scopes then scopes[scope] else ScopeRow(0, None);
      if row.schema.Some? && !valid(row.schema.value, value) {
        return Err(InvalidArgument);
      }
      scopes := scopes[scope := row];
      items := items[ItemKey(scope, key) := Draft(value, false)];
      return Ok(());
    }

    method DeleteItem(scope: Scope, key: string) returns (r: Result<bool>)
      requires Valid()
      modifies this
      ensures Valid()
      ensures r.Err? <==> !ValidScope(scope) || !ValidConfigKey(key)
      ensures r.Err? ==> r.error == InvalidArgument
      ensures r.Ok? ==>
                && r.value && items == old(items)[ItemKey(scope, key) := Draft("null", true)]
                && releases == old(releases) && scopes == old(scopes)[scope := old(RowOf(Tables(), scope))]
      ensures Tables() == if r.Err? then old(Tables())
                          else Step(old(Tables()), ConfigTables.DeleteItem(scope, key), valid)
    {
      if !ValidScope(scope) || !ValidConfigKey(key) {
        return Err(InvalidArgument);
      }
      DenseStep(Tables(), ConfigTables.DeleteItem(scope, key), valid);
      var row := if scope in scopes then scopes[scope] else ScopeRow(0, None);
      scopes := scopes[scope := row];
      items := items[ItemKey(scope, key) := Draft("null", true)];
      return Ok(true);
    }

    method SetSchema(scope: Scope, schema: Option<string>) returns (r: Result<()>)
      requires Valid()
      modifies this
      ensures Valid()
      ensures r.Err? <==> || !ValidScope(scope)
                          || (schema.Some? && (|schema.value| > limits.maxSchemaBytes || !wellFormed(schema.value)))
      ensures r.Err? ==> r.error == InvalidArgument
      ensures r.Ok? ==>
                && items == old(items) && releases == old(releases)
                && scopes == old(scopes)[scope := ScopeRow(old(RowOf(Tables(), scope)).revision, schema)]
      ensures Tables() == if r.Err? then old(Tables())
                          else Step(old(Tables()), ConfigTables.SetSchema(scope, schema), valid)
    {
      if !ValidScope(scope) {
        return Err(InvalidArgument);
      }
      if schema.Some? && (|schema.value| > limits.maxSchemaBytes || !wellFormed(schema.value)) {
        return Err(InvalidArgument);
      }
      DenseStep(Tables(), ConfigTables.SetSchema(scope, schema), valid);
      var row := if scope in scopes then scopes[scope] else ScopeRow(0, None);
      scopes := scopes[scope := row.(schema := schema)];
      return Ok(());
    }

    /** The loop of publish: validate each row and copy it into the snapshot. */
    method BuildSnapshot(rows: Snapshot, schema: Option<string>) returns (r: Result<Snapshot>)
      ensures r.Ok? <==> AllSatisfy(valid, schema, rows)
      ensures r.Ok? ==> r.value == rows
      ensures r.Err? ==> r.error == InvalidArgument
    {
      var snapshot: Snapshot := map[];
      var left := rows.Keys;
      while left != {}
        invariant left <= rows.Keys && snapshot.Keys == rows.Keys - left
        invariant forall key | key in snapshot :: snapshot[key] == rows[key] && Satisfies(valid, schema, rows[key])
        decreases |left|
      {
        var key :| key in left;
        if schema.Some? && !valid(schema.value, rows[key]) {
          return Err(InvalidArgument);
        }
        snapshot := snapshot[key := rows[key]];
        left := left - {key};
      }
      assert snapshot.Keys == rows.Keys;
      return Ok(snapshot);
    }

    method Publish(scope: Scope, message: string, publishedBy: string) returns (r: Result<nat>)
      requires Valid()
      modifies this
      ensures Valid()
      ensures r.Err? <==> || !ValidScope(scope)
                          || |message| > MAX_PUBLISH_FIELD_LEN || |publishedBy| > MAX_PUBLISH_FIELD_LEN
                          || exists item | item in old(items) ::
                               && item.scope == scope && !old(items)[item].deleted
                               && scope in old(scopes) && old(scopes)[scope].schema.Some?
                               && !valid(old(scopes)[scope].schema.value, old(items)[item].value)
      ensures r.Err? ==> r.error == InvalidArgument && Tables() == old(Tables())
      ensures r.Ok? ==>
                && Tables() == Step(old(Tables()), ConfigTables.Publish(scope, message, publishedBy), valid)
                && r.value == RowOf(old(Tables()), scope).revision + 1
                && GetRelease(Tables(), scope, r.value)
                   == Ok(Release(LiveDrafts(old(Tables()), scope), message, publishedBy))
                && GetRelease(Tables(), scope, 0) == GetRelease(Tables(), scope, r.value)
                && items == old(items) && scopes[scope].schema == old(RowOf(Tables(), scope)).schema
      ensures r.Ok? ==>
                && ReleaseKey(scope, r.value) in releases
                && forall name ::
                     var item, snapshot := ItemKey(scope, name), releases[ReleaseKey(scope, r.value)].snapshot;
                     && (name in snapshot <==> item in old(items) && !old(items)[item].deleted)
                     && (name in snapshot ==> snapshot[name] == old(items)[item].value)
    {
      hide AllSatisfy, LiveDrafts;
      if !ValidScope(scope) || |message| > MAX_PUBLISH_FIELD_LEN || |publishedBy| > MAX_PUBLISH_FIELD_LEN {
        return Err(InvalidArgument);
      }
      DenseStep(Tables(), ConfigTables.Publish(scope, message, publishedBy), valid);
      InvalidDraftIff(Tables(), scope, valid);
      var row := if scope in scopes then scopes[scope] else ScopeRow(0, None);
      var snapshot := BuildSnapshot(LiveDrafts(Tables(), scope), row.schema);
      if snapshot.Err? {
        return Err(snapshot.error);
      }
      forall name {
        LiveDraftsTold(Tables(), scope, name);
      }
      var revision := row.revision + 1;
      assert ReleaseKey(scope, revision) !in releases;
      releases := releases[ReleaseKey(scope, revision) := Release(snapshot.value, message, publishedBy)];
      scopes := scopes[scope := row.(revision := revision)];
      return Ok(revision);
    }

    method Fetch(scope: Scope, revision: int) returns (r: Result<Release>)
      requires Valid()
      ensures r == if !ValidScope(scope) then Err(InvalidArgument) else GetRelease(Tables(), scope, revision)
      ensures ValidScope(scope) && revision <= 0 ==>
                && (r.Err? ==> r.error == NotFound && forall n: nat :: ReleaseKey(scope, n) !in releases)
                && (r.Ok? ==> exists newest: nat ::
                      && ReleaseKey(scope, newest) in releases && r.value == releases[ReleaseKey(scope, newest)]
                      && forall n: nat | ReleaseKey(scope, n) in releases :: n <= newest)
      ensures ValidScope(scope) && revision > 0 ==>
                r == if ReleaseKey(scope, revision) in releases then Ok(releases[ReleaseKey(scope, revision)])
                     else Err(NotFound)
    {
      if !ValidScope(scope) {
        return Err(InvalidArgument);
      }
      if revision <= 0 {
        var latest := LatestNewerThan(Tables(), scope, 0);
        LatestIsCurrent(Tables(), scope, 0);
        if latest.None? {
          return Err(NotFound);
        }
        return Ok(releases[ReleaseKey(scope, latest.value)]);
      }
      if ReleaseKey(scope, revision) !in releases {
        return Err(NotFound);
      }
      return Ok(releases[ReleaseKey(scope, revision)]);
    }
  }
}
