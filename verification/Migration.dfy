/** The migration of one document, and what its report promises. */
module Migration {
  import opened Json
  import opened RefMigration
  import opened MigrationClean
  import opened MigrationAccounting

  /**
   * The transform, followed by the post-check when validation is on. Conversions and transform
   * errors name each topmost legacy reference once. A validated run without errors leaves no
   * legacy reference and is the last one that does anything; without validation that is so
   * exactly for clean documents.
   */
  method MigrateValue(v: Json, ctx: Context, validate: bool) returns (o: Outcome)
    requires WellFormed(v)
    ensures o == Migrated(v, ctx, validate)
    ensures exists own :: ReportsOnce(v, o, own, validate)
    ensures o.changed <==> o.conversions != []
    ensures !o.changed ==> o.value == v
    ensures validate && o.errors == [] ==>
      && |o.conversions| == |LegacyPositions(v, [])|
      && NoLegacy(o.value) && Migrated(o.value, ctx, true) == Unchanged(o.value)
    ensures !validate ==> (Migrated(o.value, ctx, false) == Unchanged(o.value) <==> Clean(v, ctx))
  {
    var transformed := TransformValue(v, ctx, []);
    var validationErrors := [];
    if validate {
      validationErrors := CollectPostTransformErrors(transformed.value, [], validationErrors);
    }
    assert validationErrors == if validate then PostErrors(transformed.value, []) else [];
    o := transformed.(errors := transformed.errors + validationErrors);
    MigrationAccounts(v, ctx);
    assert ReportsOnce(v, o, transformed.errors, validate);
    if validate && o.errors == [] {
      ValidatedMigrationIdempotent(v, ctx);
    }
    if !validate {
      UnvalidatedMigrationIdempotent(v, ctx);
    }
  }

  /** Conversions and the transform's own errors name each topmost legacy reference once; the check's follow. */
  ghost predicate ReportsOnce(v: Json, o: Outcome, own: seq<MigrationError>, validate: bool) {
    && o.errors == own + (if validate then PostErrors(o.value, []) else [])
    && Accounts(o.conversions, own, LegacyPositions(v, []))
  }
}
