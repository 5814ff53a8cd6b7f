/** What the migration reports: one entry per topmost legacy reference, under pointers that identify it. */
module MigrationAccounting {
  import opened Wrappers
  import opened Text
  import opened Json
  import opened RefMigration
  import JsonPointer

  // ---- evaluating a pointer ----

  function IndexOf(token: string, n: nat): Option<nat> {
    if n == 0 then None else if token == Decimal(n - 1) then Some(n - 1) else IndexOf(token, n - 1)
  }

  /** The value a list of reference tokens leads to. */
  function At(v: Json, tokens: seq<string>): Option<Json>
    decreases |tokens|
  {
    if tokens == [] then Some(v)
    else
      match v
      case Arr(items) =>
        var i := IndexOf(tokens[0], |items|);
        if i.Some? && i.value < |items| then At(items[i.value], tokens[1..]) else None
      case Obj(fields) =>
        var child := Get(fields, tokens[0]);
        if child.Some? then At(child.value, tokens[1..]) else None
      case _ => None
  }

  lemma DecimalInjective(a: nat, b: nat)
    requires Decimal(a) == Decimal(b)
    ensures a == b
  {
    DecimalRoundTrip(a);
    DecimalRoundTrip(b);
  }

  lemma {:induction false} IndexOfDecimal(i: nat, n: nat)
    requires i < n
    ensures IndexOf(Decimal(i), n) == Some(i)
  {
    if Decimal(i) == Decimal(n - 1) {
      DecimalInjective(i, n - 1);
    } else {
      assert i != n - 1;
      IndexOfDecimal(i, n - 1);
    }
  }

  lemma {:induction false} IndexOfFound(token: string, n: nat)
    requires IndexOf(token, n).Some?
    ensures IndexOf(token, n).value < n && token == Decimal(IndexOf(token, n).value)
  {
    if token != Decimal(n - 1) {
      IndexOfFound(token, n - 1);
    }
  }

  // ---- topmost legacy references ----

  function LegacyPositions(v: Json, p: Pointer): seq<Pointer>
    decreases v, 1
  {
    match v
    case Arr(items) => ItemPositions(v, |items|, p)
    case Obj(fields) =>
      if IsCanonical(fields) then [] else if IsLegacy(fields) then [p] else FieldPositions(v, |fields|, p)
    case _ => []
  }

  function ItemPositions(v: Json, n: nat, p: Pointer): seq<Pointer>
    requires v.Arr? && n <= |v.items|
    decreases v, 0, n
  {
    if n == 0 then [] else ItemPositions(v, n - 1, p) + LegacyPositions(v.items[n - 1], p + [Decimal(n - 1)])
  }

  function FieldPositions(v: Json, n: nat, p: Pointer): seq<Pointer>
    requires v.Obj? && n <= |v.fields|
    decreases v, 0, n
  {
    if n == 0 then []
    else FieldPositions(v, n - 1, p) + LegacyPositions(v.fields[n - 1].value, p + [v.fields[n - 1].key])
  }

  /** q is a listed position: below p, and leading from v to a legacy reference. */
  ghost predicate LeadsToLegacy(v: Json, p: Pointer, q: Pointer) {
    && p <= q && At(v, q[|p|..]).Some? && At(v, q[|p|..]).value.Obj? && IsLegacy(At(v, q[|p|..]).value.fields)
  }

  lemma StepInto(v: Json, child: Json, token: string, p: Pointer, q: Pointer)
    requires LeadsToLegacy(child, p + [token], q) && At(v, [token]) == Some(child)
    ensures LeadsToLegacy(v, p, q)
  {
    var rest := q[|p|..];
    assert rest[0] == token && rest[1..] == q[|p + [token]|..];
    assert [token][1..] == [];
  }

  lemma {:induction false} PositionsLead(v: Json, p: Pointer)
    requires WellFormed(v)
    ensures forall q :: q in LegacyPositions(v, p) ==> LeadsToLegacy(v, p, q)
    decreases v, 1
  {
    match v
    case Arr(items) => ItemsLead(v, |items|, p);
    case Obj(fields) =>
      if !IsCanonical(fields) {
        if IsLegacy(fields) {
          assert p[|p|..] == [];
        } else {
          FieldsLead(v, |fields|, p);
        }
      }
    case _ =>
  }

  lemma {:induction false} ItemsLead(v: Json, n: nat, p: Pointer)
    requires v.Arr? && n <= |v.items| && WellFormed(v)
    ensures forall q :: q in ItemPositions(v, n, p) ==> LeadsToLegacy(v, p, q)
    decreases v, 0, n
  {
    if n > 0 {
      ItemsLead(v, n - 1, p);
      var child, token := v.items[n - 1], Decimal(n - 1);
      PositionsLead(child, p + [token]);
      IndexOfDecimal(n - 1, |v.items|);
      assert [token][1..] == [];
      forall q | q in LegacyPositions(child, p + [token]) ensures LeadsToLegacy(v, p, q) {
        StepInto(v, child, token, p, q);
      }
    }
  }

  lemma {:induction false} FieldsLead(v: Json, n: nat, p: Pointer)
    requires v.Obj? && n <= |v.fields| && WellFormed(v)
    ensures forall q :: q in FieldPositions(v, n, p) ==> LeadsToLegacy(v, p, q)
    decreases v, 0, n
  {
    if n > 0 {
      FieldsLead(v, n - 1, p);
      var child, token := v.fields[n - 1].value, v.fields[n - 1].key;
      PositionsLead(child, p + [token]);
      GetAt(v.fields, n - 1);
      assert [token][1..] == [];
      forall q | q in LegacyPositions(child, p + [token]) ensures LeadsToLegacy(v, p, q) {
        StepInto(v, child, token, p, q);
      }
    }
  }

  /** Every legacy reference of v lies at or below a listed position. */
  lemma {:induction false} PositionsCover(v: Json, p: Pointer, tokens: seq<string>)
    requires WellFormed(v) && LeadsToLegacy(v, p, p + tokens)
    ensures exists q :: q in LegacyPositions(v, p) && q <= p + tokens
    decreases |tokens|
  {
    assert (p + tokens)[|p|..] == tokens;
    if tokens == [] {
      if IsCanonical(v.fields) {
        CanonicalNotLegacy(v.fields);
      }
      assert p in LegacyPositions(v, p) && p <= p + tokens;
    } else {
      var token := tokens[0];
      var child := At(v, [token]).value by {
        ChildAt(v, tokens);
      }
      ChildAt(v, tokens);
      assert p + [token] + tokens[1..] == p + tokens;
      assert (p + tokens)[|p + [token]|..] == tokens[1..];
      PositionsCover(child, p + [token], tokens[1..]);
      ChildListed(v, token, child, p, tokens);
    }
  }

  lemma ChildAt(v: Json, tokens: seq<string>)
    requires tokens != [] && At(v, tokens).Some?
    ensures At(v, [tokens[0]]).Some? && At(v, tokens) == At(At(v, [tokens[0]]).value, tokens[1..])
    ensures WellFormed(v) ==> WellFormed(At(v, [tokens[0]]).value)
  {
    assert [tokens[0]][1..] == [];
    if v.Obj? {
      var i := GetFound(v.fields, tokens[0]);
    }
  }

  lemma ChildListed(v: Json, token: string, child: Json, p: Pointer, tokens: seq<string>)
    requires WellFormed(v) && At(v, [token]) == Some(child) && tokens != [] && tokens[0] == token
    requires LeadsToLegacy(child, p + [token], p + tokens)
    requires exists q :: q in LegacyPositions(child, p + [token]) && q <= p + tokens
    ensures exists q :: q in LegacyPositions(v, p) && q <= p + tokens
  {
    assert [token][1..] == [];
    var q :| q in LegacyPositions(child, p + [token]) && q <= p + tokens;
    if v.Arr? {
      IndexOfFound(token, |v.items|);
      ItemsListed(v, IndexOf(token, |v.items|).value, |v.items|, p, q);
    } else if IsCanonical(v.fields) {
      CanonicalNotLegacy(v.fields);
      var i := GetFound(v.fields, token);
      QuietNoPositions(child, p + [token]);
      assert false;
    } else if IsLegacy(v.fields) {
      assert p in LegacyPositions(v, p) && p <= p + tokens;
    } else {
      var i := GetFound(v.fields, token);
      FieldsListed(v, i, |v.fields|, p, q);
    }
  }

  lemma {:induction false} ItemsListed(v: Json, i: nat, n: nat, p: Pointer, q: Pointer)
    requires v.Arr? && i < n <= |v.items| && q in LegacyPositions(v.items[i], p + [Decimal(i)])
    ensures q in ItemPositions(v, n, p)
    decreases n
  {
    if i < n - 1 {
      ItemsListed(v, i, n - 1, p, q);
    }
  }

  lemma {:induction false} FieldsListed(v: Json, i: nat, n: nat, p: Pointer, q: Pointer)
    requires v.Obj? && i < n <= |v.fields| && q in LegacyPositions(v.fields[i].value, p + [v.fields[i].key])
    ensures q in FieldPositions(v, n, p)
    decreases n
  {
    if i < n - 1 {
      FieldsListed(v, i, n - 1, p, q);
    }
  }

  lemma {:induction false} QuietNoPositions(v: Json, p: Pointer)
    requires NoLegacy(v)
    ensures LegacyPositions(v, p) == []
    decreases v, 1
  {
    match v
    case Arr(items) => QuietNoItems(v, |items|, p);
    case Obj(fields) => QuietNoFields(v, |fields|, p);
    case _ =>
  }

  lemma {:induction false} QuietNoItems(v: Json, n: nat, p: Pointer)
    requires v.Arr? && n <= |v.items| && NoLegacy(v)
    ensures ItemPositions(v, n, p) == []
    decreases v, 0, n
  {
    if n > 0 {
      QuietNoItems(v, n - 1, p);
      QuietNoPositions(v.items[n - 1], p + [Decimal(n - 1)]);
    }
  }

  lemma {:induction false} QuietNoFields(v: Json, n: nat, p: Pointer)
    requires v.Obj? && n <= |v.fields| && NoLegacy(v)
    ensures FieldPositions(v, n, p) == []
    decreases v, 0, n
  {
    if n > 0 {
      QuietNoFields(v, n - 1, p);
      QuietNoPositions(v.fields[n - 1].value, p + [v.fields[n - 1].key]);
    }
  }

  // ---- distinct pointers ----

  ghost predicate Distinct<T>(s: seq<T>) {
    forall i, j :: 0 <= i < j < |s| ==> s[i] != s[j]
  }

  lemma DistinctAppend<T>(a: seq<T>, b: seq<T>)
    requires Distinct(a) && Distinct(b) && forall x :: x in a ==> x !in b
    ensures Distinct(a + b)
  {
    forall i, j | 0 <= i < j < |a + b| ensures (a + b)[i] != (a + b)[j] {
      if i < |a| <= j {
        assert a[i] in a && b[j - |a|] in b;
      }
    }
  }

  /** Positions below different children differ in the child's token. */
  lemma {:induction false} PositionsDistinct(v: Json, p: Pointer)
    requires WellFormed(v)
    ensures Distinct(LegacyPositions(v, p))
    decreases v, 1
  {
    match v
    case Arr(items) => ItemsDistinct(v, |items|, p);
    case Obj(fields) =>
      if !IsCanonical(fields) && !IsLegacy(fields) {
        FieldsDistinct(v, |fields|, p);
      }
    case _ =>
  }

  lemma {:induction false} ItemsDistinct(v: Json, n: nat, p: Pointer)
    requires v.Arr? && n <= |v.items| && WellFormed(v)
    ensures Distinct(ItemPositions(v, n, p))
    ensures forall q :: q in ItemPositions(v, n, p) ==> |q| > |p| && q[|p|] in FirstIndices(n)
    decreases v, 0, n
  {
    if n > 0 {
      var token := Decimal(n - 1);
      ItemsDistinct(v, n - 1, p);
      PositionsDistinct(v.items[n - 1], p + [token]);
      PositionsLead(v.items[n - 1], p + [token]);
      forall q | q in LegacyPositions(v.items[n - 1], p + [token]) ensures |q| > |p| && q[|p|] == token {
        assert (p + [token])[|p|] == token;
      }
      NextIndexFresh(n - 1, n - 1);
      DistinctAppend(ItemPositions(v, n - 1, p), LegacyPositions(v.items[n - 1], p + [token]));
    }
  }

  function FirstIndices(n: nat): set<string> {
    if n == 0 then {} else FirstIndices(n - 1) + {Decimal(n - 1)}
  }

  lemma {:induction false} NextIndexFresh(n: nat, i: nat)
    requires n <= i
    ensures Decimal(i) !in FirstIndices(n)
  {
    if n > 0 {
      NextIndexFresh(n - 1, i);
      if Decimal(i) == Decimal(n - 1) {
        DecimalInjective(i, n - 1);
      }
    }
  }

  lemma {:induction false} FieldsDistinct(v: Json, n: nat, p: Pointer)
    requires v.Obj? && n <= |v.fields| && WellFormed(v)
    ensures Distinct(FieldPositions(v, n, p))
    ensures forall q :: q in FieldPositions(v, n, p) ==> |q| > |p| && q[|p|] in FirstKeys(v.fields, n)
    decreases v, 0, n
  {
    if n > 0 {
      var child, token := v.fields[n - 1].value, v.fields[n - 1].key;
      FieldsDistinct(v, n - 1, p);
      PositionsDistinct(child, p + [token]);
      PositionsLead(child, p + [token]);
      forall q | q in LegacyPositions(child, p + [token]) ensures |q| > |p| && q[|p|] == token {
        assert (p + [token])[|p|] == token;
      }
      assert token !in FirstKeys(v.fields, n - 1);
      DistinctAppend(FieldPositions(v, n - 1, p), LegacyPositions(child, p + [token]));
    }
  }

  function FirstKeys(fields: seq<Field>, n: nat): set<string>
    requires n <= |fields|
  {
    set i | 0 <= i < n :: fields[i].key
  }

  function Texts(ps: seq<Pointer>): (r: seq<string>)
    ensures |r| == |ps| && forall i :: 0 <= i < |r| ==> r[i] == PointerToString(ps[i])
  {
    seq(|ps|, i requires 0 <= i < |ps| => PointerToString(ps[i]))
  }

  /** Printed pointers of one document's references never coincide, although "/" stands for two pointers. */
  lemma TextsDistinct(v: Json)
    requires WellFormed(v)
    ensures Distinct(Texts(LegacyPositions(v, [])))
  {
    var ps := LegacyPositions(v, []);
    PositionsDistinct(v, []);
    if |ps| > 1 {
      NoRootAmongMany(v);
      var texts := Texts(ps);
      forall i, j | 0 <= i < j < |ps| ensures texts[i] != texts[j] {
        assert ps[i] in ps && ps[j] in ps;
        if texts[i] == texts[j] {
          JsonPointer.EncodeInjective(ps[i], ps[j]);
        }
      }
    }
  }

  lemma NoRootAmongMany(v: Json)
    requires WellFormed(v) && |LegacyPositions(v, [])| > 1
    ensures forall q :: q in LegacyPositions(v, []) ==> q != []
  {
    match v
    case Arr(items) => ItemsDistinct(v, |items|, []);
    case Obj(fields) => FieldsDistinct(v, |fields|, []);
    case _ =>
  }

  // ---- one report entry per reference ----

  function ConversionPointers(cs: seq<Conversion>): (r: seq<string>)
    ensures |r| == |cs| && forall i :: 0 <= i < |r| ==> r[i] == cs[i].pointer
  {
    seq(|cs|, i requires 0 <= i < |cs| => cs[i].pointer)
  }

  function ErrorPointers(es: seq<MigrationError>): (r: seq<string>)
    ensures |r| == |es| && forall i :: 0 <= i < |r| ==> r[i] == es[i].pointer
  {
    seq(|es|, i requires 0 <= i < |es| => es[i].pointer)
  }

  function Reported(cs: seq<Conversion>, es: seq<MigrationError>): multiset<string> {
    multiset(ConversionPointers(cs)) + multiset(ErrorPointers(es))
  }

  lemma ReportedAppend(cs: seq<Conversion>, es: seq<MigrationError>, cs': seq<Conversion>, es': seq<MigrationError>)
    ensures Reported(cs + cs', es + es') == Reported(cs, es) + Reported(cs', es')
  {
    assert ConversionPointers(cs + cs') == ConversionPointers(cs) + ConversionPointers(cs');
    assert ErrorPointers(es + es') == ErrorPointers(es) + ErrorPointers(es');
  }

  /** The reported pointers are those of the positions, each as often. */
  ghost predicate Accounts(cs: seq<Conversion>, es: seq<MigrationError>, ps: seq<Pointer>) {
    Reported(cs, es) == multiset(Texts(ps))
  }

  lemma {:induction false} Accounted(v: Json, ctx: Context, p: Pointer)
    requires WellFormed(v)
    ensures var o := Transform(v, ctx, p);
            && Accounts(o.conversions, o.errors, LegacyPositions(v, p))
            && (o.changed <==> o.conversions != [])
            && (!o.changed ==> o.value == v)
    decreases v, 1
  {
    match v
    case Arr(items) => ItemsAccounted(v, |items|, ctx, p);
    case Obj(fields) =>
      if IsCanonical(fields) {
      } else if IsLegacy(fields) {
        LegacyAccounted(fields, ctx, p);
      } else {
        FieldsAccounted(v, |fields|, ctx, p);
      }
    case _ =>
  }

  lemma LegacyAccounted(fields: seq<Field>, ctx: Context, p: Pointer)
    requires IsLegacy(fields)
    ensures var o := TransformLegacy(fields, ctx, p); Accounts(o.conversions, o.errors, [p])
  {
    var o := TransformLegacy(fields, ctx, p);
    assert Texts([p]) == [PointerToString(p)];
    assert o.conversions != [] ==> ConversionPointers(o.conversions) == [PointerToString(p)];
    assert o.errors != [] ==> ErrorPointers(o.errors) == [PointerToString(p)];
  }

  /** The account of the first n children. */
  ghost predicate ChildrenAccount(c: Children, ps: seq<Pointer>) {
    Accounts(c.conversions, c.errors, ps) && (c.changed <==> c.conversions != [])
  }

  lemma {:induction false} ItemsAccounted(v: Json, n: nat, ctx: Context, p: Pointer)
    requires v.Arr? && n <= |v.items| && WellFormed(v)
    ensures ChildrenAccount(ItemsOutcome(v, n, ctx, p), ItemPositions(v, n, p))
    decreases v, 0, n
  {
    if n > 0 {
      ItemsAccounted(v, n - 1, ctx, p);
      ChildAccounted(v.items[n - 1], ctx, p + [Decimal(n - 1)],
                     ItemsOutcome(v, n - 1, ctx, p), ItemPositions(v, n - 1, p));
    }
  }

  lemma {:induction false} FieldsAccounted(v: Json, n: nat, ctx: Context, p: Pointer)
    requires v.Obj? && n <= |v.fields| && WellFormed(v)
    ensures ChildrenAccount(FieldsOutcome(v, n, ctx, p), FieldPositions(v, n, p))
    decreases v, 0, n
  {
    if n > 0 {
      FieldsAccounted(v, n - 1, ctx, p);
      ChildAccounted(v.fields[n - 1].value, ctx, p + [v.fields[n - 1].key],
                     FieldsOutcome(v, n - 1, ctx, p), FieldPositions(v, n - 1, p));
    }
  }

  /** One more child extends the account. */
  lemma {:induction false} ChildAccounted(child: Json, ctx: Context, p: Pointer, c: Children, ps: seq<Pointer>)
    requires WellFormed(child)
    ensures ChildrenAccount(c, ps) ==>
      ChildrenAccount(Extend(c, Transform(child, ctx, p)), ps + LegacyPositions(child, p))
    decreases child, 2
  {
    Accounted(child, ctx, p);
    ExtendAccounts(c, Transform(child, ctx, p), ps, LegacyPositions(child, p));
  }

  lemma ExtendAccounts(c: Children, o: Outcome, a: seq<Pointer>, b: seq<Pointer>)
    ensures Accounts(c.conversions, c.errors, a) && Accounts(o.conversions, o.errors, b)
            ==> Accounts(Extend(c, o).conversions, Extend(c, o).errors, a + b)
  {
    ReportedAppend(c.conversions, c.errors, o.conversions, o.errors);
    TextsAppend(a, b);
  }

  lemma TextsAppend(a: seq<Pointer>, b: seq<Pointer>)
    ensures multiset(Texts(a + b)) == multiset(Texts(a)) + multiset(Texts(b))
  {
    assert Texts(a + b) == Texts(a) + Texts(b);
  }

  /**
   * Conversions and transform errors together name each topmost legacy reference once, by
   * distinct pointers; a result is changed exactly when something was converted, and an
   * unchanged result is the input.
   */
  lemma MigrationAccounts(v: Json, ctx: Context)
    requires WellFormed(v)
    ensures var o := Transform(v, ctx, []);
            && |o.conversions| + |o.errors| == |LegacyPositions(v, [])|
            && Accounts(o.conversions, o.errors, LegacyPositions(v, []))
            && Distinct(Texts(LegacyPositions(v, [])))
            && (o.changed <==> o.conversions != [])
            && (!o.changed ==> o.value == v)
  {
    var o := Transform(v, ctx, []);
    Accounted(v, ctx, []);
    TextsDistinct(v);
    assert |Reported(o.conversions, o.errors)| == |o.conversions| + |o.errors|;
  }

  // ---- the parts of a vault string ----

  /** Runs of slashes become one, and a trailing one is dropped. */
  function Collapse(s: string): string {
    if s == "" then ""
    else if s[0] == '/' && (|s| == 1 || s[1] == '/') then Collapse(s[1..])
    else [s[0]] + Collapse(s[1..])
  }

  lemma {:induction false} CollapseToken(s: string, n: nat)
    requires n <= JsonPointer.TokenLength(s)
    ensures Collapse(s) == s[..n] + Collapse(s[n..])
  {
    if n > 0 {
      var rest := s[1..];
      CollapseToken(rest, n - 1);
      SplitAfterFirst(s, n);
      Regroup([s[0]], rest[..n - 1], Collapse(s[n..]));
    }
  }

  lemma SplitAfterFirst(s: string, n: nat)
    requires 0 < n <= |s|
    ensures s[..n] == [s[0]] + s[1..][..n - 1] && s[n..] == s[1..][n - 1..]
  {
  }

  lemma Regroup(a: string, b: string, c: string)
    ensures a + (b + c) == (a + b) + c
  {
  }

  lemma {:induction false} CollapseSegments(s: string)
    ensures Collapse(s) == (if s != "" && s[0] == '/' && Segments(s) != [] then "/" else "") + Join(Segments(s), "/")
    decreases |s|
  {
    if s == "" {
    } else if s[0] == '/' {
      CollapseSegments(s[1..]);
    } else {
      var n := JsonPointer.TokenLength(s);
      var rest := s[n..];
      CollapseToken(s, n);
      CollapseSegments(rest);
      TokenStops(s);
      assert Segments(s)[1..] == Segments(rest);
    }
  }

  lemma {:induction false} TokenStops(s: string)
    ensures var n := JsonPointer.TokenLength(s); n == |s| || s[n] == '/'
  {
    if s != "" && s[0] != '/' {
      TokenStops(s[1..]);
    }
  }

  lemma {:induction false} JoinLast(parts: seq<string>)
    requires |parts| >= 2
    ensures Join(parts, "/") == Join(parts[..|parts| - 1], "/") + "/" + parts[|parts| - 1]
  {
    if |parts| == 2 {
      assert parts[1..] == [parts[1]] && parts[..1] == [parts[0]];
    } else {
      JoinLast(parts[1..]);
      assert parts[1..][..|parts| - 2] == parts[..|parts| - 1][1..];
    }
  }

  lemma {:induction false} SegmentsFilled(s: string)
    ensures forall i :: 0 <= i < |Segments(s)| ==> Segments(s)[i] != ""
    decreases |s|
  {
    if s != "" {
      SegmentsFilled(if s[0] == '/' then s[1..] else s[JsonPointer.TokenLength(s)..]);
    }
  }

  lemma VaultRefChecks(mount: string, path: string, key: string)
    requires path != "" && key != ""
    ensures VaultRef(mount, path, key).Obj? && (SecretSchema(VaultRef(mount, path, key).fields) <==> mount != "")
  {
    var f := VaultRef(mount, path, key).fields;
    assert f[0].key == "kind" && f[1].key == "mount" && f[2].key == "path" && f[3].key == "key";
    GetAt(f, 0);
    GetAt(f, 1);
    GetAt(f, 2);
    GetAt(f, 3);
  }

  /**
   * Which vault strings convert: those without a leading slash and with three or more segments,
   * or with two of which the first is no known mount, given a default mount.
   */
  lemma VaultConvertsExactly(text: string, ctx: Context)
    ensures var raw := Trim(text); var segments := Segments(raw);
            ConvertVault(text, ctx).Done? <==>
              raw != "" && raw[0] != '/'
              && (|segments| >= 3 || (|segments| == 2 && segments[0] !in ctx.knownMounts && ctx.defaultMount != ""))
  {
    var raw := Trim(text);
    var segments := Segments(raw);
    SegmentsFilled(raw);
    if |segments| == 2 {
      VaultRefChecks(ctx.defaultMount, segments[0], segments[1]);
    } else if |segments| >= 3 {
      VaultRefChecks(segments[0], Join(segments[1..|segments| - 1], "/"), segments[|segments| - 1]);
    }
  }

  /**
   * A vault string of three or more segments that does not start with a slash converts to
   * mount/path/key, which rejoined are the string up to outer white space and repeated slashes.
   */
  lemma VaultRejoined(text: string, ctx: Context)
    requires |Segments(Trim(text))| >= 3 && Trim(text)[0] != '/'
    ensures ConvertVault(text, ctx).Done? && !ConvertVault(text, ctx).usedDefaultMount
    ensures exists mount, path, key ::
      && ConvertVault(text, ctx).value == VaultRef(mount, path, key)
      && mount + "/" + path + "/" + key == Collapse(Trim(text))
  {
    var raw := Trim(text);
    var segments := Segments(raw);
    VaultConvertsExactly(text, ctx);
    var mount, path, key := segments[0], Join(segments[1..|segments| - 1], "/"), segments[|segments| - 1];
    CollapseSegments(raw);
    JoinLast(segments);
    assert segments[..|segments| - 1][1..] == segments[1..|segments| - 1];
    assert mount + "/" + path + "/" + key == Collapse(raw);
  }
}
