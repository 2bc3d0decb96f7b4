/** JSON values as the repository's code walks them, and the paths that lead into them. */
module Json {
  import opened Prelude

  datatype Json =
    | Null
    | Bool(b: bool)
    | Number(n: real)
    | Str(s: string)
    | Arr(items: seq<Json>)
    | Obj(fields: seq<Field>)  // the own properties in enumeration order

  datatype Field = Field(key: string, value: Json)

  /** A record never holds the same key twice. */
  ghost predicate DistinctKeys(fields: seq<Field>) {
    forall i, j :: 0 <= i < j < |fields| ==> fields[i].key != fields[j].key
  }

  ghost predicate WellFormed(v: Json) {
    match v
    case Arr(items) => forall i :: 0 <= i < |items| ==> WellFormed(items[i])
    case Obj(fields) => DistinctKeys(fields) && forall i :: 0 <= i < |fields| ==> WellFormed(fields[i].value)
    case _ => true
  }

  /** Property access on a record. */
  function Lookup(fields: seq<Field>, key: string): Option<Json> {
    if fields == [] then None
    else if fields[0].key == key then Some(fields[0].value)
    else Lookup(fields[1..], key)
  }

  lemma {:induction false} LookupField(fields: seq<Field>, i: nat)
    requires DistinctKeys(fields) && i < |fields|
    ensures Lookup(fields, fields[i].key) == Some(fields[i].value)
  {
    if i > 0 {
      LookupField(fields[1..], i - 1);
    }
  }

  lemma {:induction false} LookupFound(fields: seq<Field>, key: string) returns (i: nat)
    requires Lookup(fields, key).Some?
    ensures i < |fields| && fields[i].key == key && fields[i].value == Lookup(fields, key).value
  {
    if fields[0].key == key {
      i := 0;
    } else {
      i := LookupFound(fields[1..], key);
      i := i + 1;
    }
  }

  lemma {:induction false} LookupPrefix(fields: seq<Field>, n: nat, key: string)
    requires n <= |fields| && Lookup(fields[..n], key).Some?
    ensures Lookup(fields, key) == Lookup(fields[..n], key)
  {
    if fields[0].key != key {
      assert fields[..n][1..] == fields[1..][..n - 1];
      LookupPrefix(fields[1..], n - 1, key);
    }
  }

  // ----- Paths -----

  datatype Segment = Key(key: string) | Item(index: nat)

  function Into(v: Json, segment: Segment): Option<Json> {
    match segment
    case Key(key) => if v.Obj? then Lookup(v.fields, key) else None
    case Item(i) => if v.Arr? && i < |v.items| then Some(v.items[i]) else None
  }

  function At(v: Json, path: seq<Segment>): Option<Json>
    decreases |path|
  {
    if path == [] then Some(v)
    else match Into(v, path[0]) case None => None case Some(child) => At(child, path[1..])
  }
}
