/** JSON values. The fields of an object are listed in Object.entries order. */
module Json {
  import opened Wrappers

  datatype Json =
    | Null
    | Bool(b: bool)
    | Num(n: int)
    | Str(s: string)
    | Arr(items: seq<Json>)
    | Obj(fields: seq<Field>)

  datatype Field = Field(key: string, value: Json)

  ghost predicate DistinctKeys(fields: seq<Field>) {
    forall i, j :: 0 <= i < j < |fields| ==> fields[i].key != fields[j].key
  }

  /** No object in v repeats a key. */
  ghost predicate WellFormed(v: Json) {
    match v
    case Arr(items) => forall i :: 0 <= i < |items| ==> WellFormed(items[i])
    case Obj(fields) => DistinctKeys(fields) && forall i :: 0 <= i < |fields| ==> WellFormed(fields[i].value)
    case _ => true
  }

  function Get(fields: seq<Field>, key: string): Option<Json> {
    if fields == [] then None
    else if fields[0].key == key then Some(fields[0].value)
    else Get(fields[1..], key)
  }

  predicate IsString(v: Option<Json>) {
    v.Some? && v.value.Str?
  }

  predicate IsNonEmptyString(v: Option<Json>) {
    v.Some? && v.value.Str? && v.value.s != ""
  }

  /** v has this string value. */
  predicate Equals(v: Option<Json>, s: string) {
    v == Some(Str(s))
  }

  lemma {:induction false} GetAt(fields: seq<Field>, i: nat)
    requires DistinctKeys(fields) && i < |fields|
    ensures Get(fields, fields[i].key) == Some(fields[i].value)
  {
    if i > 0 {
      assert fields[0].key != fields[i].key;
      GetAt(fields[1..], i - 1);
    }
  }

  lemma {:induction false} GetFound(fields: seq<Field>, key: string) returns (i: nat)
    requires Get(fields, key).Some?
    ensures i < |fields| && fields[i].key == key && fields[i].value == Get(fields, key).value
  {
    if fields[0].key == key {
      i := 0;
    } else {
      var k := GetFound(fields[1..], key);
      i := k + 1;
    }
  }
}
