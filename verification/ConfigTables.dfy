/**
 The Config Center tables and its four write transactions, each as one step, with what
 holds over every sequence of them: releases are dense, immutable, and snapshots of
 drafts that satisfied the schema in force.
 */
module ConfigTables {
  import opened Wrappers
  import opened Collections

  datatype Scope = Scope(appId: string, environment: string, cluster: string, namespace: string)

  datatype ScopeRow = ScopeRow(revision: nat, schema: Option<string>)

  datatype ItemKey = ItemKey(scope: Scope, key: string)

  datatype Draft = Draft(value: string, deleted: bool)

  datatype ReleaseKey = ReleaseKey(scope: Scope, revision: nat)

  type Snapshot = map<string, string>

  datatype Release = Release(snapshot: Snapshot, message: string, publishedBy: string)

  datatype Db = Db(
    scopes: map<Scope, ScopeRow>,
    items: map<ItemKey, Draft>,
    releases: map<ReleaseKey, Release>)

  const EMPTY := Db(map[], map[], map[])

  /** JSON Schema validation of a value, an uninterpreted predicate. */
  type Validator = (string, string) -> bool

  datatype Command =
    | Upsert(scope: Scope, key: string, value: string)
    | DeleteItem(scope: Scope, key: string)
    | SetSchema(scope: Scope, schema: Option<string>)
    | Publish(scope: Scope, message: string, publishedBy: string)

  /** The row ensure_scope finds or inserts. */
  function RowOf(db: Db, scope: Scope): ScopeRow {
    if scope in db.scopes then db.scopes[scope] else ScopeRow(0, None)
  }

  predicate Satisfies(valid: Validator, schema: Option<string>, value: string) {
    schema.Some? ==> valid(schema.value, value)
  }

  /** The non-deleted drafts of a scope. */
  function LiveDrafts(db: Db, scope: Scope): Snapshot {
    map k | k in db.items && k.scope == scope && !db.items[k].deleted :: k.key := db.items[k].value
  }

  predicate AllSatisfy(valid: Validator, schema: Option<string>, snapshot: Snapshot) {
    forall key | key in snapshot :: Satisfies(valid, schema, snapshot[key])
  }

  /** Whether the transaction commits; a failed one is rolled back completely. */
  predicate Commits(db: Db, c: Command, valid: Validator) {
    match c
    case Upsert(scope, key, value) => Satisfies(valid, RowOf(db, scope).schema, value)
    case DeleteItem(scope, key) => true
    case SetSchema(scope, schema) => true
    case Publish(scope, message, author) =>
      && AllSatisfy(valid, RowOf(db, scope).schema, LiveDrafts(db, scope))
      && ReleaseKey(scope, RowOf(db, scope).revision + 1) !in db.releases
  }

  function Write(db: Db, c: Command): Db {
    var row := RowOf(db, c.scope);
    match c
    case Upsert(scope, key, value) =>
      db.(scopes := db.scopes[scope := row], items := db.items[ItemKey(scope, key) := Draft(value, false)])
    case DeleteItem(scope, key) =>
      db.(scopes := db.scopes[scope := row], items := db.items[ItemKey(scope, key) := Draft("null", true)])
    case SetSchema(scope, schema) =>
      db.(scopes := db.scopes[scope := row.(schema := schema)])
    case Publish(scope, message, author) =>
      db.(scopes := db.scopes[scope := row.(revision := row.revision + 1)],
          releases := db.releases[
            ReleaseKey(scope, row.revision + 1) := Release(LiveDrafts(db, scope), message, author)])
  }

  function Step(db: Db, c: Command, valid: Validator): Db {
    if Commits(db, c, valid) then Write(db, c) else db
  }

  type Run = seq<Command>

  function After(run: Run, k: nat, valid: Validator): Db
    requires k <= |run|
  {
    if k == 0 then EMPTY else Step(After(run, k - 1, valid), run[k - 1], valid)
  }

  // ----- Dense and immutable -----

  /** A scope's revisions are exactly 1, ..., current_revision. */
  ghost predicate Dense(db: Db) {
    forall scope, revision: nat ::
      ReleaseKey(scope, revision) in db.releases <==> 1 <= revision <= RowOf(db, scope).revision
  }

  lemma DenseStep(db: Db, c: Command, valid: Validator)
    requires Dense(db)
    ensures Dense(Step(db, c, valid))
    ensures forall k | k in db.releases ::
              k in Step(db, c, valid).releases && Step(db, c, valid).releases[k] == db.releases[k]
  {
    hide LiveDrafts, AllSatisfy;
    var db' := Step(db, c, valid);
    forall scope, revision: nat
      ensures ReleaseKey(scope, revision) in db'.releases <==> 1 <= revision <= RowOf(db', scope).revision
    {
      assert ReleaseKey(scope, revision) in db.releases <==> 1 <= revision <= RowOf(db, scope).revision;
    }
  }

  lemma {:induction false} RevisionsAreDense(run: Run, k: nat, valid: Validator)
    requires k <= |run|
    ensures Dense(After(run, k, valid))
  {
    hide Step, Dense;
    if k == 0 {
      EmptyDense();
    } else {
      RevisionsAreDense(run, k - 1, valid);
      DenseStep(After(run, k - 1, valid), run[k - 1], valid);
    }
  }

  lemma EmptyDense()
    ensures Dense(EMPTY)
  {
  }

  /** A published release is there for good and never changes. */
  lemma {:induction false} ReleasesAreImmutable(run: Run, i: nat, j: nat, valid: Validator, key: ReleaseKey)
    requires i <= j <= |run| && key in After(run, i, valid).releases
    ensures key in After(run, j, valid).releases
    ensures After(run, j, valid).releases[key] == After(run, i, valid).releases[key]
  {
    hide Step, Dense;
    if i < j {
      ReleasesAreImmutable(run, i, j - 1, valid, key);
      RevisionsAreDense(run, j - 1, valid);
      DenseStep(After(run, j - 1, valid), run[j - 1], valid);
    }
  }

  /** The UNIQUE (scope_id, revision) insert never fails: only the schema can stop a publish. */
  lemma PublishFailsOnlyOnSchema(run: Run, k: nat, valid: Validator)
    requires k < |run| && run[k].Publish?
    ensures var db, scope := After(run, k, valid), run[k].scope;
            Commits(db, run[k], valid) <==> AllSatisfy(valid, RowOf(db, scope).schema, LiveDrafts(db, scope))
  {
    hide Step, AllSatisfy, LiveDrafts;
    RevisionsAreDense(run, k, valid);
  }

  // ----- Reading -----

  /** latest_newer_than: ORDER BY revision DESC LIMIT 1, among revisions above `known`. */
  function LatestNewerThan(db: Db, scope: Scope, known: int): Option<nat> {
    var newer := set k | k in db.releases && k.scope == scope && known < k.revision :: k.revision;
    if newer == {} then None else Some(Max(newer))
  }

  /** On dense tables the query finds the current revision, or nothing if it is already known. */
  lemma LatestIsCurrent(db: Db, scope: Scope, known: int)
    requires Dense(db) && 0 <= known
    ensures LatestNewerThan(db, scope, known)
            == if known < RowOf(db, scope).revision then Some(RowOf(db, scope).revision) else None
  {
    var current := RowOf(db, scope).revision;
    var newer := set k | k in db.releases && k.scope == scope && known < k.revision :: k.revision;
    if known < current {
      assert ReleaseKey(scope, current) in db.releases;
      assert current in newer;
    }
    assert forall r | r in newer :: known < r <= current by {
      forall r: nat | r in newer
        ensures known < r <= current
      {
        assert ReleaseKey(scope, r) in db.releases;
      }
    }
  }

  /** get_release: a revision that is not positive asks for the latest. */
  function GetRelease(db: Db, scope: Scope, revision: int): Result<Release> {
    var wanted := if revision <= 0 then RowOf(db, scope).revision else revision;
    if wanted > 0 && ReleaseKey(scope, wanted) in db.releases then Ok(db.releases[ReleaseKey(scope, wanted)])
    else Err(NotFound)
  }

  /** Draft edits, schema changes and failed publishes never alter what get_release returns. */
  lemma OnlyPublishIsVisible(run: Run, k: nat, valid: Validator, scope: Scope, revision: int)
    requires k < |run|
    requires !(run[k].Publish? && run[k].scope == scope && Commits(After(run, k, valid), run[k], valid))
    ensures GetRelease(After(run, k + 1, valid), scope, revision) == GetRelease(After(run, k, valid), scope, revision)
  {
    RevisionsAreDense(run, k, valid);
    UnpublishedStep(After(run, k, valid), run[k], valid, scope);
  }

  lemma UnpublishedStep(db: Db, c: Command, valid: Validator, scope: Scope)
    requires !(c.Publish? && c.scope == scope && Commits(db, c, valid))
    ensures RowOf(Step(db, c, valid), scope).revision == RowOf(db, scope).revision
    ensures forall r: nat ::
              && (ReleaseKey(scope, r) in Step(db, c, valid).releases <==> ReleaseKey(scope, r) in db.releases)
              && (ReleaseKey(scope, r) in db.releases ==>
                    Step(db, c, valid).releases[ReleaseKey(scope, r)] == db.releases[ReleaseKey(scope, r)])
  {
  }

  // ----- Snapshots -----

  /** Command `i` published the release: a snapshot of the drafts, all valid under the schema of that moment. */
  ghost predicate PublishedBy(run: Run, i: nat, valid: Validator, key: ReleaseKey, release: Release) {
    && i < |run| && run[i] == Publish(key.scope, release.message, release.publishedBy)
    && var db := After(run, i, valid);
       && key.revision == RowOf(db, key.scope).revision + 1
       && release.snapshot == LiveDrafts(db, key.scope)
       && AllSatisfy(valid, RowOf(db, key.scope).schema, release.snapshot)
  }

  lemma ReleaseStep(db: Db, c: Command, valid: Validator, key: ReleaseKey)
    requires key in Step(db, c, valid).releases && key !in db.releases
    ensures c.Publish? && Commits(db, c, valid) && key == ReleaseKey(c.scope, RowOf(db, c.scope).revision + 1)
    ensures Step(db, c, valid).releases[key] == Release(LiveDrafts(db, c.scope), c.message, c.publishedBy)
  {
  }

  /** Every release is the snapshot some publish took, valid under the schema it was published with. */
  lemma {:induction false} SnapshotsAreSound(run: Run, k: nat, valid: Validator, key: ReleaseKey) returns (i: nat)
    requires k <= |run| && key in After(run, k, valid).releases
    ensures i < k && PublishedBy(run, i, valid, key, After(run, k, valid).releases[key])
  {
    hide Step, LiveDrafts, AllSatisfy, Dense;
    if key in After(run, k - 1, valid).releases {
      i := SnapshotsAreSound(run, k - 1, valid, key);
      ReleasesAreImmutable(run, k - 1, k, valid, key);
    } else {
      i := k - 1;
      ReleaseStep(After(run, i, valid), run[i], valid, key);
    }
  }
}
