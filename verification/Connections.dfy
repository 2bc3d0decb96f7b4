/** packages/workflow-compiler/src/index.ts: collecting the connections named anywhere in action settings. */
module Connections {
  import opened Prelude
  import opened Json
  import opened FlowActions
  import opened SortedStrings

  predicate IsConnectionKey(key: string) {
    key == "connectionId" || key == "connectionName"
  }

  /** What visiting `v` under `key` collects. */
  function Collected(v: Json, key: string): set<string> {
    (if IsConnectionKey(key) && v.Str? then {v.s} else {})
    + match v
      case Arr(items) => CollectedItems(items)
      case Obj(fields) => CollectedFields(fields)
      case _ => {}
  }

  function CollectedItems(items: seq<Json>): set<string> {
    if items == [] then {} else CollectedItems(items[..|items| - 1]) + Collected(items[|items| - 1], "")
  }

  function CollectedFields(fields: seq<Field>): set<string> {
    if fields == [] then {}
    else
      var last := fields[|fields| - 1];
      CollectedFields(fields[..|fields| - 1]) + Collected(last.value, last.key)
  }

  /** The set that the visitor's callback fills while it walks through a value. */
  class ConnectionCollector {
    var values: set<string>

    constructor ()
      ensures values == {}
    {
      values := {};
    }

    method Visit(v: Json, key: string)
      modifies this
      ensures values == old(values) + Collected(v, key)
      decreases v
    {
      if IsConnectionKey(key) && v.Str? {
        values := values + {v.s};
      }
      match v
      case Arr(items) =>
        for i := 0 to |items|
          invariant values == old(values) + CollectedItems(items[..i])
        {
          assert items[..i + 1][..i] == items[..i];
          Visit(items[i], "");
        }
        assert items[..|items|] == items;
      case Obj(fields) =>
        for i := 0 to |fields|
          invariant values == old(values) + CollectedFields(fields[..i])
        {
          assert fields[..i + 1][..i] == fields[..i];
          Visit(fields[i].value, fields[i].key);
        }
        assert fields[..|fields|] == fields;
      case _ =>
    }
  }

  /** The connections of one settings record. */
  function ConnectionsOf(settings: seq<Field>): set<string> {
    Collected(Obj(settings), "")
  }

  function ConnectionsOfAll(actions: seq<Action>): set<string> {
    set i, s | 0 <= i < |actions| && s in ConnectionsOf(actions[i].settings) :: s
  }

  method ExtractConnections(settings: seq<Field>) returns (sorted: seq<string>)
    ensures StrictlySorted(sorted)
    ensures forall s :: s in sorted <==> s in ConnectionsOf(settings)
  {
    var collector := new ConnectionCollector();
    collector.Visit(Obj(settings), "");
    sorted := SortSet(collector.values);
  }

  method ExtractConnectionIds(actions: seq<Action>) returns (sorted: seq<string>)
    ensures StrictlySorted(sorted)
    ensures forall s :: s in sorted <==> s in ConnectionsOfAll(actions)
  {
    var collector := new ConnectionCollector();
    for i := 0 to |actions|
      invariant collector.values == ConnectionsOfAll(actions[..i])
    {
      collector.Visit(Obj(actions[i].settings), "");
      ConnectionsOneMore(actions, i);
    }
    assert actions[..|actions|] == actions;
    sorted := SortSet(collector.values);
  }

  lemma ConnectionsOneMore(actions: seq<Action>, i: nat)
    requires i < |actions|
    ensures ConnectionsOfAll(actions[..i + 1]) == ConnectionsOfAll(actions[..i]) + ConnectionsOf(actions[i].settings)
  {
    var before, after := actions[..i], actions[..i + 1];
    forall s
      ensures s in ConnectionsOfAll(after) <==> s in ConnectionsOfAll(before) + ConnectionsOf(actions[i].settings)
    {
      if s in ConnectionsOfAll(after) {
        var k :| 0 <= k < |after| && s in ConnectionsOf(after[k].settings);
        assert k < i ==> after[k] == before[k];
      }
      if s in ConnectionsOfAll(before) {
        var k :| 0 <= k < |before| && s in ConnectionsOf(before[k].settings);
        assert after[k] == before[k];
      }
      if s in ConnectionsOf(actions[i].settings) {
        assert after[i] == actions[i];
      }
    }
  }

  // ----- Collection is exact: the paths that end in a connection -----

  /** `path` leads from `v` to the string `s` under a connection key of a record. */
  ghost predicate Names(v: Json, path: seq<Segment>, s: string) {
    && path != []
    && (path[|path| - 1] == Key("connectionId") || path[|path| - 1] == Key("connectionName"))
    && At(v, path) == Some(Str(s))
  }

  lemma NamesInto(v: Json, path: seq<Segment>, s: string)
    requires Names(v, path, s)
    ensures Into(v, path[0]).Some?
    ensures |path| > 1 ==> Names(Into(v, path[0]).value, path[1..], s)
    ensures |path| == 1 ==> Into(v, path[0]) == Some(Str(s))
  {
    var rest := path[1..];
    if |path| > 1 {
      assert rest[|rest| - 1] == path[|path| - 1];
    } else {
      assert rest == [];
      assert At(v, path) == At(Into(v, path[0]).value, rest);
    }
  }

  lemma NamesBehind(v: Json, segment: Segment, path: seq<Segment>, s: string)
    requires Into(v, segment).Some? && Names(Into(v, segment).value, path, s)
    ensures Names(v, [segment] + path, s)
  {
    assert ([segment] + path)[1..] == path;
  }

  lemma {:induction false} ItemCollected(items: seq<Json>, i: nat)
    requires i < |items|
    ensures Collected(items[i], "") <= CollectedItems(items)
  {
    if i < |items| - 1 {
      ItemCollected(items[..|items| - 1], i);
    }
  }

  lemma {:induction false} FieldCollected(fields: seq<Field>, i: nat)
    requires i < |fields|
    ensures Collected(fields[i].value, fields[i].key) <= CollectedFields(fields)
  {
    if i < |fields| - 1 {
      FieldCollected(fields[..|fields| - 1], i);
    }
  }

  lemma {:induction false} CollectedItem(items: seq<Json>, s: string) returns (i: nat)
    requires s in CollectedItems(items)
    ensures i < |items| && s in Collected(items[i], "")
  {
    i := |items| - 1;
    if s !in Collected(items[i], "") {
      i := CollectedItem(items[..i], s);
    }
  }

  lemma {:induction false} CollectedField(fields: seq<Field>, s: string) returns (i: nat)
    requires s in CollectedFields(fields)
    ensures i < |fields| && s in Collected(fields[i].value, fields[i].key)
  {
    i := |fields| - 1;
    if s !in Collected(fields[i].value, fields[i].key) {
      i := CollectedField(fields[..i], s);
    }
  }

  /** Whatever a path names is collected. */
  lemma {:induction false} NamedIsCollected(v: Json, path: seq<Segment>, s: string, key: string)
    requires Names(v, path, s)
    ensures s in Collected(v, key)
    decreases |path|
  {
    NamesInto(v, path, s);
    var child := Into(v, path[0]).value;
    match path[0]
    case Item(i) =>
      assert |path| > 1;
      NamedIsCollected(child, path[1..], s, "");
      ItemCollected(v.items, i);
    case Key(k) =>
      var i := LookupFound(v.fields, k);
      if |path| > 1 {
        NamedIsCollected(child, path[1..], s, k);
      }
      FieldCollected(v.fields, i);
  }

  /** Whatever is collected is named by a path, unless it is the visited value itself. */
  lemma {:induction false} CollectedIsNamed(v: Json, key: string, s: string) returns (path: seq<Segment>)
    requires WellFormed(v) && s in Collected(v, key)
    ensures (path == [] && IsConnectionKey(key) && v == Str(s)) || Names(v, path, s)
    decreases v
  {
    path := [];
    match v
    case Arr(items) =>
      var i := CollectedItem(items, s);
      var rest := CollectedIsNamed(items[i], "", s);
      path := [Item(i)] + rest;
      NamesBehind(v, Item(i), rest, s);
    case Obj(fields) =>
      var i := CollectedField(fields, s);
      LookupField(fields, i);
      var rest := CollectedIsNamed(fields[i].value, fields[i].key, s);
      path := [Key(fields[i].key)] + rest;
      if rest == [] {
        assert At(fields[i].value, []) == Some(Str(s));
        assert path[1..] == [];
      } else {
        NamesBehind(v, Key(fields[i].key), rest, s);
      }
    case _ =>
  }

  /**
   * The connections of settings are exactly the strings found under a `connectionId` or
   * `connectionName` key at any depth; an item of an array has no key of its own.
   */
  lemma ConnectionsExact(settings: seq<Field>, s: string)
    requires WellFormed(Obj(settings))
    ensures s in ConnectionsOf(settings) <==> exists path :: Names(Obj(settings), path, s)
  {
    if s in ConnectionsOf(settings) {
      var path := CollectedIsNamed(Obj(settings), "", s);
      assert Names(Obj(settings), path, s);
    }
    if path :| Names(Obj(settings), path, s) {
      NamedIsCollected(Obj(settings), path, s, "");
    }
  }
}
