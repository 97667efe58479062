/**
 Drafts, schemas and releases told by the commands alone: the value of a key is that of the
 last accepted edit, the schema of a scope is the last one set, and a release holds exactly
 what the last accepted edits before its publish left, valid under the schema then set.
 */
module ConfigHistory {
  import opened Wrappers
  import opened ConfigTables

  predicate SetsSchema(run: Run, j: nat, scope: Scope)
    requires j < |run|
  {
    run[j].SetSchema? && run[j].scope == scope
  }

  /** Command `j` is the last before `k` to set the schema of `scope`. */
  ghost predicate LastSet(run: Run, j: nat, k: nat, scope: Scope)
    requires k <= |run|
  {
    j < k && SetsSchema(run, j, scope) && forall l: nat | j < l < k :: !SetsSchema(run, l, scope)
  }

  /** The schema of `scope` before command `k`: none, unless one was set. */
  ghost predicate SchemaIs(run: Run, k: nat, scope: Scope, schema: Option<string>)
    requires k <= |run|
  {
    || (schema.None? && forall l: nat | l < k :: !SetsSchema(run, l, scope))
    || exists j: nat :: LastSet(run, j, k, scope) && run[j].schema == schema
  }

  ghost predicate Fits(valid: Validator, schema: Option<string>, value: string) {
    schema.Some? ==> valid(schema.value, value)
  }

  /** Command `j` upserts a value that the schema of its scope allows. */
  ghost predicate Accepted(run: Run, j: nat, valid: Validator)
    requires j < |run|
  {
    run[j].Upsert? && exists schema :: SchemaIs(run, j, run[j].scope, schema) && Fits(valid, schema, run[j].value)
  }

  /** Command `j` is an accepted upsert or a deletion of `name`. */
  ghost predicate Edits(run: Run, j: nat, valid: Validator, scope: Scope, name: string)
    requires j < |run|
  {
    && (Accepted(run, j, valid) || run[j].DeleteItem?)
    && run[j].scope == scope && run[j].key == name
  }

  /** Command `j` is the last edit of `name` before command `k`. */
  ghost predicate LastEdit(run: Run, j: nat, k: nat, valid: Validator, scope: Scope, name: string)
    requires k <= |run|
  {
    j < k && Edits(run, j, valid, scope, name) && forall l: nat | j < l < k :: !Edits(run, l, valid, scope, name)
  }

  // ----- Schemas -----

  lemma SchemaStep(db: Db, c: Command, valid: Validator, scope: Scope)
    ensures RowOf(Step(db, c, valid), scope).schema
            == if c.SetSchema? && c.scope == scope then c.schema else RowOf(db, scope).schema
  {
    hide LiveDrafts, AllSatisfy;
  }

  lemma {:induction false} SchemaByHistory(run: Run, k: nat, valid: Validator, scope: Scope)
    requires k <= |run|
    ensures SchemaIs(run, k, scope, RowOf(After(run, k, valid), scope).schema)
  {
    hide Step, LastSet;
    if k > 0 {
      SchemaByHistory(run, k - 1, valid, scope);
      SchemaStep(After(run, k - 1, valid), run[k - 1], valid, scope);
      SchemaNext(run, k - 1, scope, RowOf(After(run, k - 1, valid), scope).schema);
    }
  }

  lemma SchemaNext(run: Run, k: nat, scope: Scope, schema: Option<string>)
    requires k < |run| && SchemaIs(run, k, scope, schema)
    ensures SchemaIs(run, k + 1, scope, if SetsSchema(run, k, scope) then run[k].schema else schema)
  {
    if SetsSchema(run, k, scope) {
      assert LastSet(run, k, k + 1, scope);
    } else if j: nat :| LastSet(run, j, k, scope) && run[j].schema == schema {
      assert LastSet(run, j, k + 1, scope);
    }
  }

  lemma SchemaUnique(run: Run, k: nat, scope: Scope, a: Option<string>, b: Option<string>)
    requires k <= |run| && SchemaIs(run, k, scope, a) && SchemaIs(run, k, scope, b)
    ensures a == b
  {
    if j: nat :| LastSet(run, j, k, scope) && run[j].schema == a {
      if l: nat :| LastSet(run, l, k, scope) && run[l].schema == b {
        assert j == l;
      }
    }
  }

  /** An upsert commits exactly when it is accepted. */
  lemma CommitsIffAccepted(run: Run, k: nat, valid: Validator)
    requires k < |run| && run[k].Upsert?
    ensures Commits(After(run, k, valid), run[k], valid) <==> Accepted(run, k, valid)
  {
    hide Step, SchemaIs;
    var scope := run[k].scope;
    var schema := RowOf(After(run, k, valid), scope).schema;
    SchemaByHistory(run, k, valid, scope);
    forall other | SchemaIs(run, k, scope, other)
      ensures other == schema
    {
      SchemaUnique(run, k, scope, other, schema);
    }
    assert Satisfies(valid, schema, run[k].value) <==> Fits(valid, schema, run[k].value);
  }

  // ----- Drafts -----

  /** What one command does to the draft of `name`. */
  lemma DraftStep(db: Db, c: Command, valid: Validator, scope: Scope, name: string)
    ensures var item, db' := ItemKey(scope, name), Step(db, c, valid);
            if c.Upsert? && c.scope == scope && c.key == name && Commits(db, c, valid)
            then item in db'.items && db'.items[item] == Draft(c.value, false)
            else if c.DeleteItem? && c.scope == scope && c.key == name
            then item in db'.items && db'.items[item].deleted
            else (item in db'.items <==> item in db.items)
                 && (item in db.items ==> db'.items[item] == db.items[item])
  {
    hide LiveDrafts, AllSatisfy;
  }

  ghost predicate DraftTold(run: Run, k: nat, valid: Validator, scope: Scope, name: string)
    requires k <= |run|
  {
    var item, items := ItemKey(scope, name), After(run, k, valid).items;
    && ((forall l: nat | l < k :: !Edits(run, l, valid, scope, name)) ==> item !in items)
    && forall j: nat | LastEdit(run, j, k, valid, scope, name) ::
         && item in items
         && if run[j].Upsert? then items[item] == Draft(run[j].value, false) else items[item].deleted
  }

  lemma {:induction false} DraftByHistory(run: Run, k: nat, valid: Validator, scope: Scope, name: string)
    requires k <= |run|
    ensures DraftTold(run, k, valid, scope, name)
  {
    hide Step, Accepted, Commits;
    if k > 0 {
      DraftByHistory(run, k - 1, valid, scope, name);
      var db, c := After(run, k - 1, valid), run[k - 1];
      DraftStep(db, c, valid, scope, name);
      if c.Upsert? {
        CommitsIffAccepted(run, k - 1, valid);
      }
      NotUpsertNotAccepted(run, k - 1, valid);
      if Edits(run, k - 1, valid, scope, name) {
        forall j: nat | LastEdit(run, j, k, valid, scope, name)
          ensures j == k - 1
        {
        }
      } else {
        forall j: nat | LastEdit(run, j, k, valid, scope, name)
          ensures LastEdit(run, j, k - 1, valid, scope, name)
        {
        }
        if forall l: nat | l < k :: !Edits(run, l, valid, scope, name) {
          assert forall l: nat | l < k - 1 :: !Edits(run, l, valid, scope, name);
        }
      }
    }
  }

  lemma NotUpsertNotAccepted(run: Run, k: nat, valid: Validator)
    requires k < |run|
    ensures Accepted(run, k, valid) ==> run[k].Upsert?
  {
  }

  lemma {:induction false} FindEdit(run: Run, k: nat, valid: Validator, scope: Scope, name: string) returns (j: nat)
    requires k <= |run| && exists l: nat :: l < k && Edits(run, l, valid, scope, name)
    ensures LastEdit(run, j, k, valid, scope, name)
  {
    hide Edits;
    if Edits(run, k - 1, valid, scope, name) {
      j := k - 1;
    } else {
      j := FindEdit(run, k - 1, valid, scope, name);
    }
  }

  /** A snapshot holds exactly what the last accepted edits before command `i` left. */
  ghost predicate HoldsLastEdits(run: Run, i: nat, valid: Validator, scope: Scope, snapshot: Snapshot)
    requires i <= |run|
  {
    && (forall name | name in snapshot :: exists j: nat ::
          LastEdit(run, j, i, valid, scope, name) && run[j].Upsert? && run[j].value == snapshot[name])
    && (forall name, j: nat | LastEdit(run, j, i, valid, scope, name) && run[j].Upsert? ::
          name in snapshot && snapshot[name] == run[j].value)
  }

  lemma LiveDraftsTold(db: Db, scope: Scope, name: string)
    ensures var drafts, item := LiveDrafts(db, scope), ItemKey(scope, name);
            && (name in drafts <==> item in db.items && !db.items[item].deleted)
            && (name in drafts ==> drafts[name] == db.items[item].value)
  {
    var item := ItemKey(scope, name);
    if item in db.items && !db.items[item].deleted {
      assert item.key in LiveDrafts(db, scope);
    }
  }

  /** What stops a publish is a live draft that the schema does not allow. */
  lemma InvalidDraftIff(db: Db, scope: Scope, valid: Validator)
    ensures !AllSatisfy(valid, RowOf(db, scope).schema, LiveDrafts(db, scope)) <==>
            exists item | item in db.items ::
              && item.scope == scope && !db.items[item].deleted
              && scope in db.scopes && db.scopes[scope].schema.Some?
              && !valid(db.scopes[scope].schema.value, db.items[item].value)
  {
    var drafts := LiveDrafts(db, scope);
    forall name
      ensures var item := ItemKey(scope, name);
              && (name in drafts <==> item in db.items && !db.items[item].deleted)
              && (name in drafts ==> drafts[name] == db.items[item].value)
    {
      LiveDraftsTold(db, scope, name);
    }
    hide LiveDrafts;
    if name :| name in drafts && !Satisfies(valid, RowOf(db, scope).schema, drafts[name]) {
      assert ItemKey(scope, name) in db.items;
    }
    if item :| item in db.items && item.scope == scope && !db.items[item].deleted
               && scope in db.scopes && db.scopes[scope].schema.Some?
               && !valid(db.scopes[scope].schema.value, db.items[item].value)
    {
      assert item == ItemKey(scope, item.key);
    }
  }

  lemma DraftsHoldLastEdits(run: Run, i: nat, valid: Validator, scope: Scope)
    requires i <= |run|
    ensures HoldsLastEdits(run, i, valid, scope, LiveDrafts(After(run, i, valid), scope))
  {
    hide After, LiveDrafts, Edits, DraftTold;
    var db := After(run, i, valid);
    forall name
      ensures var drafts := LiveDrafts(db, scope);
              && (name in drafts ==> exists j: nat ::
                    LastEdit(run, j, i, valid, scope, name) && run[j].Upsert? && run[j].value == drafts[name])
              && forall j: nat | LastEdit(run, j, i, valid, scope, name) && run[j].Upsert? ::
                   name in drafts && drafts[name] == run[j].value
    {
      LiveDraftsTold(db, scope, name);
      DraftByHistory(run, i, valid, scope, name);
      DraftOfName(run, i, valid, scope, name);
    }
  }

  lemma DraftOfName(run: Run, i: nat, valid: Validator, scope: Scope, name: string)
    requires i <= |run| && DraftTold(run, i, valid, scope, name)
    ensures var item, items := ItemKey(scope, name), After(run, i, valid).items;
            && (item in items && !items[item].deleted ==> exists j: nat ::
                  LastEdit(run, j, i, valid, scope, name) && run[j].Upsert? && run[j].value == items[item].value)
            && forall j: nat | LastEdit(run, j, i, valid, scope, name) && run[j].Upsert? ::
                 item in items && !items[item].deleted && items[item].value == run[j].value
  {
    hide After, Edits;
    var item, items := ItemKey(scope, name), After(run, i, valid).items;
    if item in items && !items[item].deleted {
      var j := FindEdit(run, i, valid, scope, name);
    }
  }

  // ----- Releases -----

  /** Every value of a snapshot satisfies the schema set for the scope before command `i`. */
  ghost predicate AllFit(run: Run, i: nat, valid: Validator, scope: Scope, snapshot: Snapshot)
    requires i <= |run|
  {
    exists schema ::
      SchemaIs(run, i, scope, schema) && forall name | name in snapshot :: Fits(valid, schema, snapshot[name])
  }

  /** Every release was published by a command, and holds what the edits before it left, all of it valid. */
  lemma ReleaseByHistory(run: Run, k: nat, valid: Validator, key: ReleaseKey) returns (i: nat)
    requires k <= |run| && key in After(run, k, valid).releases
    ensures var release := After(run, k, valid).releases[key];
            && i < k && run[i] == Publish(key.scope, release.message, release.publishedBy)
            && HoldsLastEdits(run, i, valid, key.scope, release.snapshot)
            && AllFit(run, i, valid, key.scope, release.snapshot)
  {
    hide Step, LiveDrafts, SchemaIs, HoldsLastEdits;
    i := SnapshotsAreSound(run, k, valid, key);
    DraftsHoldLastEdits(run, i, valid, key.scope);
    SchemaByHistory(run, i, valid, key.scope);
    FitsIsSatisfies(valid, RowOf(After(run, i, valid), key.scope).schema, LiveDrafts(After(run, i, valid), key.scope));
  }

  lemma FitsIsSatisfies(valid: Validator, schema: Option<string>, snapshot: Snapshot)
    ensures AllSatisfy(valid, schema, snapshot) <==>
            forall name | name in snapshot :: Fits(valid, schema, snapshot[name])
  {
  }

  lemma PublishStep(db: Db, c: Command, valid: Validator)
    requires c.Publish? && ReleaseKey(c.scope, RowOf(db, c.scope).revision + 1) !in db.releases
    ensures Step(db, c, valid).releases != db.releases <==>
            AllSatisfy(valid, RowOf(db, c.scope).schema, LiveDrafts(db, c.scope))
  {
    hide LiveDrafts, AllSatisfy;
  }

  /** A publish adds a release exactly when every value the edits left satisfies the schema set for the scope. */
  lemma PublishesIff(run: Run, i: nat, valid: Validator, snapshot: Snapshot)
    requires i < |run| && run[i].Publish? && HoldsLastEdits(run, i, valid, run[i].scope, snapshot)
    ensures After(run, i + 1, valid).releases != After(run, i, valid).releases <==>
            AllFit(run, i, valid, run[i].scope, snapshot)
  {
    hide Step, LiveDrafts, SchemaIs, HoldsLastEdits, Dense;
    var db, scope := After(run, i, valid), run[i].scope;
    NextIsFree(run, i, valid, scope);
    PublishStep(db, run[i], valid);
    DraftsHoldLastEdits(run, i, valid, scope);
    SameSnapshot(run, i, valid, scope, snapshot, LiveDrafts(db, scope));
    FitsIsSatisfies(valid, RowOf(db, scope).schema, snapshot);
    SchemaByHistory(run, i, valid, scope);
    forall other | SchemaIs(run, i, scope, other)
      ensures other == RowOf(db, scope).schema
    {
      SchemaUnique(run, i, scope, other, RowOf(db, scope).schema);
    }
  }

  lemma NextIsFree(run: Run, i: nat, valid: Validator, scope: Scope)
    requires i <= |run|
    ensures ReleaseKey(scope, RowOf(After(run, i, valid), scope).revision + 1) !in After(run, i, valid).releases
  {
    hide Step;
    RevisionsAreDense(run, i, valid);
  }

  lemma SameSnapshot(run: Run, i: nat, valid: Validator, scope: Scope, a: Snapshot, b: Snapshot)
    requires i <= |run| && HoldsLastEdits(run, i, valid, scope, a) && HoldsLastEdits(run, i, valid, scope, b)
    ensures a == b
  {
    hide LastEdit;
    forall name
      ensures name in a <==> name in b
      ensures name in a ==> a[name] == b[name]
    {
    }
    assert a.Keys == b.Keys;
  }
}
