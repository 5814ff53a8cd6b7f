/**
 * The graph-ref-migrate transform: legacy vault, env and static references are rewritten to
 * the canonical shapes, and a separate post-check looks for what is left. `Transform` and
 * `PostErrors` say what the two recursive walks compute; the methods are the walks.
 */
module RefMigration {
  import opened Wrappers
  import opened Text
  import opened Json
  import JsonPointer

  datatype Context = Context(defaultMount: string, knownMounts: set<string>)

  datatype Kind = Vault | Var | Static

  datatype Conversion = Conversion(pointer: string, kind: Kind, usedDefaultMount: bool)

  datatype Message =
    | EmptyVault | AbsoluteVault | TooFewSegments | MissingPathSegment | InvalidVault
    | MissingEnvVar | InvalidVariable | StaticNotPrimitive
    | LegacyRemains | InvalidCanonicalVault | InvalidCanonicalVariable | ConfigNotObject | StateNotObject

  datatype MigrationError = MigrationError(pointer: string, message: Message)

  datatype Outcome = Outcome(value: Json, changed: bool, conversions: seq<Conversion>, errors: seq<MigrationError>)

  type Pointer = seq<string>

  /** The pointer of the document itself is printed as "/". */
  function PointerToString(p: Pointer): string {
    if p == [] then "/" else JsonPointer.Encode(p)
  }

  // ---- shapes ----

  predicate OnlyKeys(fields: seq<Field>, keys: set<string>) {
    forall i | 0 <= i < |fields| :: fields[i].key in keys
  }

  /** SecretReferenceSchema: strict, so no other keys. */
  predicate SecretSchema(fields: seq<Field>) {
    && Equals(Get(fields, "kind"), "vault")
    && IsNonEmptyString(Get(fields, "path")) && IsNonEmptyString(Get(fields, "key"))
    && (Get(fields, "mount").Some? ==> IsNonEmptyString(Get(fields, "mount")))
    && OnlyKeys(fields, {"kind", "path", "key", "mount"})
  }

  /** VariableReferenceSchema: strict. */
  predicate VariableSchema(fields: seq<Field>) {
    && Equals(Get(fields, "kind"), "var")
    && IsNonEmptyString(Get(fields, "name"))
    && (Get(fields, "default").Some? ==> IsString(Get(fields, "default")))
    && OnlyKeys(fields, {"kind", "name", "default"})
  }

  predicate IsCanonical(fields: seq<Field>) {
    SecretSchema(fields) || VariableSchema(fields)
  }

  predicate IsLegacyVault(fields: seq<Field>) {
    Equals(Get(fields, "source"), "vault") && IsString(Get(fields, "value"))
  }

  predicate IsLegacyEnv(fields: seq<Field>) {
    Equals(Get(fields, "source"), "env") && IsString(Get(fields, "envVar"))
  }

  predicate IsLegacyStatic(fields: seq<Field>) {
    Equals(Get(fields, "source"), "static") && Get(fields, "value").Some?
  }

  predicate IsLegacy(fields: seq<Field>) {
    IsLegacyVault(fields) || IsLegacyEnv(fields) || IsLegacyStatic(fields)
  }

  predicate IsPrimitive(v: Json) {
    !v.Arr? && !v.Obj?
  }

  // ---- converting one legacy reference ----

  /** raw.split('/') without its empty parts. */
  function Segments(s: string): seq<string> {
    if s == "" then []
    else if s[0] == '/' then Segments(s[1..])
    else [s[..JsonPointer.TokenLength(s)]] + Segments(s[JsonPointer.TokenLength(s)..])
  }

  function VaultRef(mount: string, path: string, key: string): Json {
    Obj([Field("kind", Str("vault")), Field("mount", Str(mount)), Field("path", Str(path)), Field("key", Str(key))])
  }

  datatype Converted = Done(value: Json, kind: Kind, usedDefaultMount: bool) | Refused(message: Message)

  function ConvertVault(text: string, ctx: Context): Converted {
    var raw := Trim(text);
    if raw == "" then Refused(EmptyVault)
    else if raw[0] == '/' then Refused(AbsoluteVault)
    else
      var segments := Segments(raw);
      if |segments| < 2 then Refused(TooFewSegments)
      else if |segments| == 2 then
        if segments[0] in ctx.knownMounts then Refused(MissingPathSegment)
        else Checked(VaultRef(ctx.defaultMount, segments[0], segments[1]), true)
      else Checked(VaultRef(segments[0], Join(segments[1..|segments| - 1], "/"), segments[|segments| - 1]), false)
  }

  function Checked(v: Json, usedDefaultMount: bool): Converted {
    if v.Obj? && SecretSchema(v.fields) then Done(v, Vault, usedDefaultMount) else Refused(InvalidVault)
  }

  function ConvertEnv(fields: seq<Field>): Converted
    requires IsLegacyEnv(fields)
  {
    var name := Trim(Get(fields, "envVar").value.s);
    if name == "" then Refused(MissingEnvVar)
    else
      var default := Get(fields, "default");
      var next := [Field("kind", Str("var")), Field("name", Str(name))]
      + (if default.Some? then [Field("default", default.value)] else []);
      if VariableSchema(next) then Done(Obj(next), Var, false) else Refused(InvalidVariable)
  }

  /** What the transform does with a legacy reference; the first form that applies decides. */
  function Convert(fields: seq<Field>, ctx: Context): Converted
    requires IsLegacy(fields)
  {
    if IsLegacyVault(fields) then ConvertVault(Get(fields, "value").value.s, ctx)
    else if IsLegacyEnv(fields) then ConvertEnv(fields)
    else if IsPrimitive(Get(fields, "value").value) then Done(Get(fields, "value").value, Static, false)
    else Refused(StaticNotPrimitive)
  }

  function Unchanged(v: Json): Outcome {
    Outcome(v, false, [], [])
  }

  function TransformLegacy(fields: seq<Field>, ctx: Context, p: Pointer): Outcome
    requires IsLegacy(fields)
  {
    match Convert(fields, ctx)
    case Done(value, kind, usedDefaultMount) =>
      Outcome(value, true, [Conversion(PointerToString(p), kind, usedDefaultMount)], [])
    case Refused(message) => Outcome(Obj(fields), false, [], [MigrationError(PointerToString(p), message)])
  }

  // ---- the walk ----

  datatype Children = Children(
    values: seq<Json>, changed: bool, conversions: seq<Conversion>, errors: seq<MigrationError>)

  function Extend(c: Children, o: Outcome): Children {
    Children(c.values + [o.value], c.changed || o.changed, c.conversions + o.conversions, c.errors + o.errors)
  }

  function ItemsOutcome(v: Json, n: nat, ctx: Context, p: Pointer): (c: Children)
    requires v.Arr? && n <= |v.items|
    ensures |c.values| == n
    decreases v, 0, n
  {
    if n == 0 then Children([], false, [], [])
    else Extend(ItemsOutcome(v, n - 1, ctx, p), Transform(v.items[n - 1], ctx, p + [Decimal(n - 1)]))
  }

  function FieldsOutcome(v: Json, n: nat, ctx: Context, p: Pointer): (c: Children)
    requires v.Obj? && n <= |v.fields|
    ensures |c.values| == n
    decreases v, 0, n
  {
    if n == 0 then Children([], false, [], [])
    else Extend(FieldsOutcome(v, n - 1, ctx, p), Transform(v.fields[n - 1].value, ctx, p + [v.fields[n - 1].key]))
  }

  function WithValues(fields: seq<Field>, values: seq<Json>): (r: seq<Field>)
    requires |fields| == |values|
    ensures |r| == |fields| && forall i :: 0 <= i < |r| ==> r[i] == Field(fields[i].key, values[i])
  {
    seq(|fields|, i requires 0 <= i < |fields| => Field(fields[i].key, values[i]))
  }

  function Transform(v: Json, ctx: Context, p: Pointer): Outcome
    decreases v, 1
  {
    match v
    case Arr(items) =>
      var c := ItemsOutcome(v, |items|, ctx, p);
      Outcome(if c.changed then Arr(c.values) else v, c.changed, c.conversions, c.errors)
    case Obj(fields) =>
      if IsCanonical(fields) then Unchanged(v)
      else if IsLegacy(fields) then TransformLegacy(fields, ctx, p)
      else
        var c := FieldsOutcome(v, |fields|, ctx, p);
        Outcome(if c.changed then Obj(WithValues(fields, c.values)) else v, c.changed, c.conversions, c.errors)
    case _ => Unchanged(v)
  }

  method TransformValue(v: Json, ctx: Context, p: Pointer) returns (o: Outcome)
    ensures o == Transform(v, ctx, p)
    decreases v
  {
    match v
    case Arr(items) =>
      var conversions, errors, changed, next := [], [], false, [];
      for i := 0 to |items|
        invariant Children(next, changed, conversions, errors) == ItemsOutcome(v, i, ctx, p)
      {
        var child := TransformValue(items[i], ctx, p + [Decimal(i)]);
        if child.changed {
          changed := true;
        }
        conversions := conversions + child.conversions;
        errors := errors + child.errors;
        next := next + [child.value];
      }
      o := Outcome(if changed then Arr(next) else v, changed, conversions, errors);
    case Obj(fields) =>
      if IsCanonical(fields) {
        return Unchanged(v);
      }
      if IsLegacy(fields) {
        return TransformLegacy(fields, ctx, p);
      }
      var conversions, errors, changed, next := [], [], false, [];
      for i := 0 to |fields|
        invariant Children(next, changed, conversions, errors) == FieldsOutcome(v, i, ctx, p)
      {
        var child := TransformValue(fields[i].value, ctx, p + [fields[i].key]);
        if child.changed {
          changed := true;
        }
        conversions := conversions + child.conversions;
        errors := errors + child.errors;
        next := next + [child.value];
      }
      o := Outcome(if changed then Obj(WithValues(fields, next)) else v, changed, conversions, errors);
    case _ =>
      o := Unchanged(v);
  }

  // ---- the post-check ----

  predicate IsNodeLike(fields: seq<Field>) {
    IsString(Get(fields, "id")) && IsString(Get(fields, "template"))
  }

  predicate MustBeObject(fields: seq<Field>, key: string) {
    Get(fields, key).Some? && !Get(fields, key).value.Obj?
  }

  function CanonicalErrors(fields: seq<Field>, p: Pointer): seq<MigrationError> {
    if Equals(Get(fields, "kind"), "vault") then
      if SecretSchema(fields) then [] else [MigrationError(PointerToString(p), InvalidCanonicalVault)]
    else if Equals(Get(fields, "kind"), "var") then
      if VariableSchema(fields) then [] else [MigrationError(PointerToString(p), InvalidCanonicalVariable)]
    else []
  }

  function NodeErrors(fields: seq<Field>, p: Pointer): seq<MigrationError> {
    if !IsNodeLike(fields) then []
    else
      (if MustBeObject(fields, "config") then [MigrationError(PointerToString(p + ["config"]), ConfigNotObject)]
       else [])
      + (if MustBeObject(fields, "state") then [MigrationError(PointerToString(p + ["state"]), StateNotObject)] else [])
  }

  function PostErrors(v: Json, p: Pointer): seq<MigrationError>
    decreases v, 1
  {
    match v
    case Arr(items) => PostItems(v, |items|, p)
    case Obj(fields) =>
      if IsLegacy(fields) then [MigrationError(PointerToString(p), LegacyRemains)]
      else CanonicalErrors(fields, p) + NodeErrors(fields, p) + PostFields(v, |fields|, p)
    case _ => []
  }

  function PostItems(v: Json, n: nat, p: Pointer): seq<MigrationError>
    requires v.Arr? && n <= |v.items|
    decreases v, 0, n
  {
    if n == 0 then [] else PostItems(v, n - 1, p) + PostErrors(v.items[n - 1], p + [Decimal(n - 1)])
  }

  function PostFields(v: Json, n: nat, p: Pointer): seq<MigrationError>
    requires v.Obj? && n <= |v.fields|
    decreases v, 0, n
  {
    if n == 0 then [] else PostFields(v, n - 1, p) + PostErrors(v.fields[n - 1].value, p + [v.fields[n - 1].key])
  }

  /** Pushes the errors of v onto a list shared by the whole walk. */
  method CollectPostTransformErrors(v: Json, p: Pointer, errors: seq<MigrationError>) returns (out: seq<MigrationError>)
    ensures out == errors + PostErrors(v, p)
    decreases v, 1
  {
    out := errors;
    match v
    case Arr(items) =>
      for i := 0 to |items|
        invariant out == errors + PostItems(v, i, p)
      {
        out := CollectPostTransformErrors(items[i], p + [Decimal(i)], out);
      }
    case Obj(fields) =>
      if IsLegacy(fields) {
        out := out + [MigrationError(PointerToString(p), LegacyRemains)];
        return;
      }
      var canonical, node := CanonicalErrors(fields, p), NodeErrors(fields, p);
      out := CollectFields(v, p, errors + canonical + node);
      Reassociate(errors, canonical, node, PostFields(v, |fields|, p));
    case _ =>
  }

  lemma Reassociate<T>(a: seq<T>, b: seq<T>, c: seq<T>, d: seq<T>)
    ensures a + b + c + d == a + (b + c + d)
  {
  }

  method CollectFields(v: Json, p: Pointer, errors: seq<MigrationError>) returns (out: seq<MigrationError>)
    requires v.Obj?
    ensures out == errors + PostFields(v, |v.fields|, p)
    decreases v, 0
  {
    out := errors;
    for i := 0 to |v.fields|
      invariant out == errors + PostFields(v, i, p)
    {
      out := CollectPostTransformErrors(v.fields[i].value, p + [v.fields[i].key], out);
    }
  }

  function Migrated(v: Json, ctx: Context, validate: bool): Outcome {
    var t := Transform(v, ctx, []);
    t.(errors := t.errors + if validate then PostErrors(t.value, []) else [])
  }

  // ---- idempotence ----

  /** No legacy reference at any position. */
  ghost predicate NoLegacy(v: Json) {
    match v
    case Arr(items) => forall i :: 0 <= i < |items| ==> NoLegacy(items[i])
    case Obj(fields) => !IsLegacy(fields) && forall i :: 0 <= i < |fields| ==> NoLegacy(fields[i].value)
    case _ => true
  }

  lemma {:induction false} PostFindsLegacy(v: Json, p: Pointer)
    requires PostErrors(v, p) == []
    ensures NoLegacy(v)
    decreases v, 1
  {
    match v
    case Arr(items) => PostItemsFind(v, |items|, p);
    case Obj(fields) =>
      if !IsLegacy(fields) {
        PostFieldsFind(v, |fields|, p);
      }
    case _ =>
  }

  lemma {:induction false} PostItemsFind(v: Json, n: nat, p: Pointer)
    requires v.Arr? && n <= |v.items| && PostItems(v, n, p) == []
    ensures forall i :: 0 <= i < n ==> NoLegacy(v.items[i])
    decreases v, 0, n
  {
    if n > 0 {
      PostItemsFind(v, n - 1, p);
      PostFindsLegacy(v.items[n - 1], p + [Decimal(n - 1)]);
    }
  }

  lemma {:induction false} PostFieldsFind(v: Json, n: nat, p: Pointer)
    requires v.Obj? && n <= |v.fields| && PostFields(v, n, p) == []
    ensures forall i :: 0 <= i < n ==> NoLegacy(v.fields[i].value)
    decreases v, 0, n
  {
    if n > 0 {
      PostFieldsFind(v, n - 1, p);
      PostFindsLegacy(v.fields[n - 1].value, p + [v.fields[n - 1].key]);
    }
  }

  /** A strict canonical reference has string fields only, and no `source`. */
  lemma CanonicalNotLegacy(fields: seq<Field>)
    requires IsCanonical(fields) && DistinctKeys(fields)
    ensures NoLegacy(Obj(fields))
  {
    if Get(fields, "source").Some? {
      var i := GetFound(fields, "source");
    }
    forall i | 0 <= i < |fields| ensures NoLegacy(fields[i].value) {
      GetAt(fields, i);
    }
  }

  /** A transform that converts nothing and reports nothing is exactly a document without legacy references. */
  lemma {:induction false} QuietIffNoLegacy(v: Json, ctx: Context, p: Pointer)
    requires WellFormed(v)
    ensures Transform(v, ctx, p) == Unchanged(v) <==> NoLegacy(v)
    ensures Transform(v, ctx, p).conversions == [] && Transform(v, ctx, p).errors == [] <==> NoLegacy(v)
    decreases v, 1
  {
    match v
    case Arr(items) => QuietItems(v, |items|, ctx, p);
    case Obj(fields) =>
      if IsCanonical(fields) {
        CanonicalNotLegacy(fields);
      } else if !IsLegacy(fields) {
        QuietFields(v, |fields|, ctx, p);
      }
    case _ =>
  }

  lemma {:induction false} QuietItems(v: Json, n: nat, ctx: Context, p: Pointer)
    requires v.Arr? && n <= |v.items| && WellFormed(v)
    ensures var c := ItemsOutcome(v, n, ctx, p);
            && (c.conversions == [] && c.errors == [] <==> forall i :: 0 <= i < n ==> NoLegacy(v.items[i]))
            && (c.conversions == [] && c.errors == [] ==> !c.changed)
    decreases v, 0, n
  {
    if n > 0 {
      QuietItems(v, n - 1, ctx, p);
      QuietIffNoLegacy(v.items[n - 1], ctx, p + [Decimal(n - 1)]);
    }
  }

  lemma {:induction false} QuietFields(v: Json, n: nat, ctx: Context, p: Pointer)
    requires v.Obj? && n <= |v.fields| && WellFormed(v)
    ensures var c := FieldsOutcome(v, n, ctx, p);
            && (c.conversions == [] && c.errors == [] <==> forall i :: 0 <= i < n ==> NoLegacy(v.fields[i].value))
            && (c.conversions == [] && c.errors == [] ==> !c.changed)
    decreases v, 0, n
  {
    if n > 0 {
      QuietFields(v, n - 1, ctx, p);
      QuietIffNoLegacy(v.fields[n - 1].value, ctx, p + [v.fields[n - 1].key]);
    }
  }

  /** The transform repeats no key: it keeps the keys of objects and builds references with distinct ones. */
  lemma {:induction false} TransformWellFormed(v: Json, ctx: Context, p: Pointer)
    requires WellFormed(v)
    ensures WellFormed(Transform(v, ctx, p).value)
    decreases v, 1
  {
    match v
    case Arr(items) => ItemsWellFormed(v, |items|, ctx, p);
    case Obj(fields) =>
      if !IsCanonical(fields) {
        if IsLegacy(fields) {
          if Convert(fields, ctx).Done? {
            ConvertWellFormed(fields, ctx);
          }
        } else {
          FieldsWellFormed(v, |fields|, ctx, p);
        }
      }
    case _ =>
  }

  lemma ConvertWellFormed(fields: seq<Field>, ctx: Context)
    requires IsLegacy(fields) && Convert(fields, ctx).Done?
    ensures WellFormed(Convert(fields, ctx).value)
  {
    if IsLegacyVault(fields) {
    } else if IsLegacyEnv(fields) {
      var d := Get(fields, "default");
      if d.Some? {
        var name := Trim(Get(fields, "envVar").value.s);
        var next := [Field("kind", Str("var")), Field("name", Str(name))] + [Field("default", d.value)];
        assert next[2] == Field("default", d.value);
        assert DistinctKeys(next);
        GetAt(next, 2);
      }
    }
  }

  lemma {:induction false} ItemsWellFormed(v: Json, n: nat, ctx: Context, p: Pointer)
    requires v.Arr? && n <= |v.items| && WellFormed(v)
    ensures forall i :: 0 <= i < n ==> WellFormed(ItemsOutcome(v, n, ctx, p).values[i])
    decreases v, 0, n
  {
    if n > 0 {
      ItemsWellFormed(v, n - 1, ctx, p);
      TransformWellFormed(v.items[n - 1], ctx, p + [Decimal(n - 1)]);
    }
  }

  lemma {:induction false} FieldsWellFormed(v: Json, n: nat, ctx: Context, p: Pointer)
    requires v.Obj? && n <= |v.fields| && WellFormed(v)
    ensures forall i :: 0 <= i < n ==> WellFormed(FieldsOutcome(v, n, ctx, p).values[i])
    decreases v, 0, n
  {
    if n > 0 {
      FieldsWellFormed(v, n - 1, ctx, p);
      TransformWellFormed(v.fields[n - 1].value, ctx, p + [v.fields[n - 1].key]);
    }
  }

  /**
   * A validated migration without errors leaves no legacy reference anywhere, and running it
   * again changes, converts and reports nothing.
   */
  lemma ValidatedMigrationIdempotent(v: Json, ctx: Context)
    requires WellFormed(v) && Migrated(v, ctx, true).errors == []
    ensures var out := Migrated(v, ctx, true).value;
            NoLegacy(out) && Migrated(out, ctx, true) == Unchanged(out)
  {
    var out := Migrated(v, ctx, true).value;
    PostFindsLegacy(out, []);
    TransformWellFormed(v, ctx, []);
    QuietIffNoLegacy(out, ctx, []);
  }

  /** {"source": {"source": "static", "value": "vault"}, "value": "a/b/c"} */
  const NESTED_STATIC := [Field("source", Str("static")), Field("value", Str("vault"))]

  const NESTED := [Field("source", Obj(NESTED_STATIC)), Field("value", Str("a/b/c"))]

  lemma GetTwo(a: Field, b: Field, key: string)
    ensures Get([a, b], key) == if a.key == key then Some(a.value) else if b.key == key then Some(b.value) else None
  {
    assert [a, b][1..] == [b] && [b][1..] == [];
    assert Get([b], key) == if b.key == key then Some(b.value) else None;
  }

  lemma NestedShapes(v: Json)
    ensures !IsCanonical([Field("source", v), Field("value", Str("a/b/c"))])
    ensures IsLegacy([Field("source", v), Field("value", Str("a/b/c"))]) <==> v == Str("vault") || v == Str("static")
    ensures !IsCanonical(NESTED_STATIC) && IsLegacyStatic(NESTED_STATIC)
    ensures !IsLegacyVault(NESTED_STATIC) && !IsLegacyEnv(NESTED_STATIC)
  {
    var outer := [Field("source", v), Field("value", Str("a/b/c"))];
    assert outer[0].key == "source" && NESTED_STATIC[0].key == "source";
    GetTwo(Field("source", v), Field("value", Str("a/b/c")), "source");
    GetTwo(Field("source", v), Field("value", Str("a/b/c")), "value");
    GetTwo(Field("source", v), Field("value", Str("a/b/c")), "envVar");
    GetTwo(NESTED_STATIC[0], NESTED_STATIC[1], "source");
    GetTwo(NESTED_STATIC[0], NESTED_STATIC[1], "value");
    assert "static" != "vault" && "static" != "env";
  }

  lemma InnerOutcome(ctx: Context, p: Pointer)
    ensures Transform(Obj(NESTED_STATIC), ctx, p) ==
      Outcome(Str("vault"), true, [Conversion(PointerToString(p), Static, false)], [])
  {
    NestedShapes(Null);
    GetTwo(NESTED_STATIC[0], NESTED_STATIC[1], "value");
  }

  lemma NestedChildren(ctx: Context)
    ensures var c := FieldsOutcome(Obj(NESTED), 2, ctx, []);
            c.values == [Str("vault"), Str("a/b/c")] && c.changed && c.errors == []
  {
    var v := Obj(NESTED);
    InnerOutcome(ctx, [] + ["source"]);
    assert v.fields[0].key == "source" && v.fields[0].value == Obj(NESTED_STATIC);
    assert v.fields[1] == Field("value", Str("a/b/c"));
    var none, one := FieldsOutcome(v, 0, ctx, []), FieldsOutcome(v, 1, ctx, []);
    assert one == Extend(none, Transform(Obj(NESTED_STATIC), ctx, [] + ["source"]));
    var second := Transform(v.fields[1].value, ctx, [] + [v.fields[1].key]);
    assert second == Unchanged(Str("a/b/c"));
    assert FieldsOutcome(v, 2, ctx, []) == Extend(one, second);
  }

  lemma NestedOutcome(ctx: Context)
    ensures var t := Transform(Obj(NESTED), ctx, []);
            t.errors == [] && t.value == Obj([Field("source", Str("vault")), Field("value", Str("a/b/c"))])
  {
    NestedShapes(Obj(NESTED_STATIC));
    NestedChildren(ctx);
    var out := WithValues(NESTED, [Str("vault"), Str("a/b/c")]);
    assert out == [Field("source", Str("vault")), Field("value", Str("a/b/c"))];
  }

  /** Unwrapping a nested static can build a legacy reference one level up; only the post-check sees it. */
  lemma UnwrappingManufacturesLegacy(ctx: Context)
    ensures WellFormed(Obj(NESTED)) && Migrated(Obj(NESTED), ctx, false).errors == []
    ensures !NoLegacy(Migrated(Obj(NESTED), ctx, false).value)
  {
    NestedOutcome(ctx);
    NestedShapes(Str("vault"));
  }
}
