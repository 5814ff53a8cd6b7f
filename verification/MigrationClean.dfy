/** On which documents the transform alone, without the post-check, is idempotent. */
module MigrationClean {
  import opened Wrappers
  import opened Text
  import opened Json
  import opened RefMigration

  // ---- the condition on the input ----

  /** A legacy static reference the transform replaces by its primitive value. */
  predicate IsStaticWrapper(v: Json) {
    && v.Obj? && !IsCanonical(v.fields) && !IsLegacyVault(v.fields) && !IsLegacyEnv(v.fields)
    && IsLegacyStatic(v.fields) && IsPrimitive(Get(v.fields, "value").value)
  }

  function Peel(v: Json): Json {
    if IsStaticWrapper(v) then Get(v.fields, "value").value else v
  }

  function Peeled(v: Option<Json>): Option<Json> {
    if v.Some? then Some(Peel(v.value)) else None
  }

  /** The record is a legacy reference once static wrappers directly below it are gone. */
  predicate BecomesLegacy(fields: seq<Field>) {
    var source := Peeled(Get(fields, "source"));
    || (Equals(source, "vault") && IsString(Peeled(Get(fields, "value"))))
    || (Equals(source, "env") && IsString(Peeled(Get(fields, "envVar"))))
    || (Equals(source, "static") && Get(fields, "value").Some?)
  }

  /** Every legacy reference of v converts, and unwrapping builds no new one. */
  ghost predicate Clean(v: Json, ctx: Context) {
    match v
    case Arr(items) => forall i :: 0 <= i < |items| ==> Clean(items[i], ctx)
    case Obj(fields) =>
      if IsCanonical(fields) then true
      else if IsLegacy(fields) then Convert(fields, ctx).Done?
      else !BecomesLegacy(fields) && forall i :: 0 <= i < |fields| ==> Clean(fields[i].value, ctx)
    case _ => true
  }

  // ---- what the transform leaves ----

  /** An item of the result is the item transformed, and the item itself if nothing changed. */
  lemma {:induction false} ItemIs(v: Json, n: nat, i: nat, ctx: Context, p: Pointer)
    requires v.Arr? && i < n <= |v.items|
    ensures var c := ItemsOutcome(v, n, ctx, p);
            && c.values[i] == Transform(v.items[i], ctx, p + [Decimal(i)]).value
            && (!c.changed ==> c.values[i] == v.items[i])
    decreases n
  {
    if i < n - 1 {
      ItemIs(v, n - 1, i, ctx, p);
    } else {
      UnchangedIsInput(v.items[i], ctx, p + [Decimal(i)]);
    }
  }

  lemma {:induction false} FieldIs(v: Json, n: nat, i: nat, ctx: Context, p: Pointer)
    requires v.Obj? && i < n <= |v.fields|
    ensures var c := FieldsOutcome(v, n, ctx, p);
            && c.values[i] == Transform(v.fields[i].value, ctx, p + [v.fields[i].key]).value
            && (!c.changed ==> c.values[i] == v.fields[i].value)
    decreases n
  {
    if i < n - 1 {
      FieldIs(v, n - 1, i, ctx, p);
    } else {
      UnchangedIsInput(v.fields[i].value, ctx, p + [v.fields[i].key]);
    }
  }

  lemma {:induction false} UnchangedIsInput(v: Json, ctx: Context, p: Pointer)
    ensures !Transform(v, ctx, p).changed ==> Transform(v, ctx, p).value == v
    decreases v, 1
  {
  }

  /** The transformed list, whether or not anything in it changed. */
  lemma ListTransformed(v: Json, ctx: Context, p: Pointer) returns (values: seq<Json>)
    requires v.Arr?
    ensures |values| == |v.items| && Transform(v, ctx, p).value == Arr(values)
    ensures forall i :: 0 <= i < |values| ==> values[i] == Transform(v.items[i], ctx, p + [Decimal(i)]).value
  {
    var c := ItemsOutcome(v, |v.items|, ctx, p);
    values := c.values;
    forall i | 0 <= i < |values|
      ensures values[i] == Transform(v.items[i], ctx, p + [Decimal(i)]).value
      ensures !c.changed ==> values[i] == v.items[i]
    {
      ItemIs(v, |v.items|, i, ctx, p);
    }
    if !c.changed {
      assert values == v.items;
    }
  }

  /** The transformed record, likewise. */
  lemma RecordTransformed(v: Json, ctx: Context, p: Pointer) returns (values: seq<Json>)
    requires v.Obj? && !IsCanonical(v.fields) && !IsLegacy(v.fields)
    ensures |values| == |v.fields| && Transform(v, ctx, p).value == Obj(WithValues(v.fields, values))
    ensures forall i :: 0 <= i < |values| ==>
      values[i] == Transform(v.fields[i].value, ctx, p + [v.fields[i].key]).value
  {
    var c := FieldsOutcome(v, |v.fields|, ctx, p);
    values := c.values;
    forall i | 0 <= i < |values|
      ensures values[i] == Transform(v.fields[i].value, ctx, p + [v.fields[i].key]).value
      ensures !c.changed ==> values[i] == v.fields[i].value
    {
      FieldIs(v, |v.fields|, i, ctx, p);
    }
    if !c.changed {
      assert WithValues(v.fields, values) == v.fields;
    }
  }

  /** A transformed value is a text exactly when it was one, wrapped or not. */
  lemma TextsArePeeled(v: Json, ctx: Context, p: Pointer)
    ensures var t := Transform(v, ctx, p).value; t == Peel(v) || (!t.Str? && !Peel(v).Str?)
  {
    if v.Obj? && !IsCanonical(v.fields) && IsLegacy(v.fields) && Convert(v.fields, ctx).Done? {
      ConvertedShape(v.fields, ctx);
    }
  }

  /** Converting gives a reference record without `source`, or the primitive of a static wrapper. */
  lemma ConvertedShape(fields: seq<Field>, ctx: Context)
    requires IsLegacy(fields) && Convert(fields, ctx).Done? && !IsCanonical(fields)
    ensures var t := Convert(fields, ctx).value;
            && (IsStaticWrapper(Obj(fields)) ==> t == Peel(Obj(fields)))
            && (!IsStaticWrapper(Obj(fields)) ==> t.Obj?)
            && NoLegacy(t)
  {
    var t := Convert(fields, ctx).value;
    if IsLegacyVault(fields) || IsLegacyEnv(fields) {
      ConvertWellFormed(fields, ctx);
      CanonicalNotLegacy(t.fields);
    }
  }

  lemma {:induction false} GetWithValues(fields: seq<Field>, values: seq<Json>, key: string, ctx: Context, p: Pointer)
    requires |values| == |fields|
    requires forall i :: 0 <= i < |values| ==> values[i] == Transform(fields[i].value, ctx, p + [fields[i].key]).value
    ensures var before, after := Get(fields, key), Get(WithValues(fields, values), key);
            && before.Some? == after.Some?
            && (before.Some? ==> after.value == Peel(before.value) || (!after.value.Str? && !Peel(before.value).Str?))
  {
    if fields != [] {
      if fields[0].key == key {
        TextsArePeeled(fields[0].value, ctx, p + [fields[0].key]);
      } else {
        assert WithValues(fields, values)[1..] == WithValues(fields[1..], values[1..]);
        GetWithValues(fields[1..], values[1..], key, ctx, p);
      }
    }
  }

  lemma LegacyAfter(fields: seq<Field>, values: seq<Json>, ctx: Context, p: Pointer)
    requires |values| == |fields|
    requires forall i :: 0 <= i < |values| ==> values[i] == Transform(fields[i].value, ctx, p + [fields[i].key]).value
    ensures IsLegacy(WithValues(fields, values)) <==> BecomesLegacy(fields)
  {
    GetWithValues(fields, values, "source", ctx, p);
    GetWithValues(fields, values, "value", ctx, p);
    GetWithValues(fields, values, "envVar", ctx, p);
  }

  /** The transform leaves no legacy reference exactly when its input is clean. */
  lemma {:induction false} CleanExact(v: Json, ctx: Context, p: Pointer)
    requires WellFormed(v)
    ensures NoLegacy(Transform(v, ctx, p).value) <==> Clean(v, ctx)
    decreases v, 1
  {
    match v
    case Arr(items) =>
      forall i | 0 <= i < |items|
        ensures NoLegacy(Transform(items[i], ctx, p + [Decimal(i)]).value) <==> Clean(items[i], ctx)
      {
        CleanExact(items[i], ctx, p + [Decimal(i)]);
      }
      ItemsClean(v, ctx, p);
    case Obj(fields) =>
      if IsCanonical(fields) {
        CanonicalNotLegacy(fields);
      } else if IsLegacy(fields) {
        if Convert(fields, ctx).Done? {
          ConvertedShape(fields, ctx);
        }
      } else {
        forall i | 0 <= i < |fields|
          ensures NoLegacy(Transform(fields[i].value, ctx, p + [fields[i].key]).value) <==> Clean(fields[i].value, ctx)
        {
          CleanExact(fields[i].value, ctx, p + [fields[i].key]);
        }
        RecordClean(v, ctx, p);
      }
    case _ =>
  }

  lemma ItemsClean(v: Json, ctx: Context, p: Pointer)
    requires v.Arr?
    requires forall i :: 0 <= i < |v.items| ==>
      (NoLegacy(Transform(v.items[i], ctx, p + [Decimal(i)]).value) <==> Clean(v.items[i], ctx))
    ensures NoLegacy(Transform(v, ctx, p).value) <==> Clean(v, ctx)
  {
    var values := ListTransformed(v, ctx, p);
  }

  lemma RecordClean(v: Json, ctx: Context, p: Pointer)
    requires v.Obj? && !IsCanonical(v.fields) && !IsLegacy(v.fields)
    requires forall i :: 0 <= i < |v.fields| ==>
      (NoLegacy(Transform(v.fields[i].value, ctx, p + [v.fields[i].key]).value) <==> Clean(v.fields[i].value, ctx))
    ensures NoLegacy(Transform(v, ctx, p).value) <==> Clean(v, ctx)
  {
    var values := RecordTransformed(v, ctx, p);
    LegacyAfter(v.fields, values, ctx, p);
    assert forall i :: 0 <= i < |values| ==> WithValues(v.fields, values)[i].value == values[i];
  }

  /** Without the post-check, a second run is quiet exactly for clean documents. */
  lemma UnvalidatedMigrationIdempotent(v: Json, ctx: Context)
    requires WellFormed(v)
    ensures var out := Migrated(v, ctx, false).value;
            Migrated(out, ctx, false) == Unchanged(out) <==> Clean(v, ctx)
  {
    TransformWellFormed(v, ctx, []);
    QuietIffNoLegacy(Migrated(v, ctx, false).value, ctx, []);
    CleanExact(v, ctx, []);
  }
}
