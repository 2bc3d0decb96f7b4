/** packages/activepieces-bridge/src/index.ts: redacting a request body before it is logged or returned. */
module Redaction {
  import opened Prelude
  import opened Json
  import opened Text

  const MARKER := "[redacted-by-lexframe-bridge]"
  const PROTO := "__proto__"
  const WORDS: seq<string> := ["secret", "token", "password", "apikey", "privatekey", "servicerole"]

  /** `word`, which is lower case, occurs in `text` at position `i` up to ASCII case. */
  predicate MatchesAt(text: string, word: string, i: nat) {
    i + |word| <= |text| && forall k :: 0 <= k < |word| ==> LowerChar(text[i + k]) == word[k]
  }

  /** The key test, a case-insensitive search for one of the words. */
  predicate Sensitive(key: string) {
    exists w, i :: 0 <= w < |WORDS| && 0 <= i <= |key| && MatchesAt(key, WORDS[w], i)
  }

  /** The fields after redaction. Assigning to `__proto__` sets no own property, so that key is not copied. */
  function RedactedFields(fields: seq<Field>): seq<Field> {
    if fields == [] then []
    else
      var Field(key, child) := fields[|fields| - 1];
      RedactedFields(fields[..|fields| - 1])
      + if Sensitive(key) then [Field(key, Str(MARKER))]
        else if key == PROTO then []
        else [Field(key, Redacted(child))]
  }

  function Redacted(v: Json): Json {
    match v
    case Arr(items) => Arr(seq(|items|, i requires 0 <= i < |items| => Redacted(items[i])))
    case Obj(fields) => Obj(RedactedFields(fields))
    case _ => v
  }

  method RedactBridgeBody(v: Json) returns (result: Json)
    ensures result == Redacted(v)
  {
    match v
    case Arr(items) =>
      var out := [];
      for i := 0 to |items|
        invariant |out| == i && forall j :: 0 <= j < i ==> out[j] == Redacted(items[j])
      {
        var item := RedactBridgeBody(items[i]);
        out := out + [item];
      }
      result := Arr(out);
    case Obj(fields) =>
      var output := [];
      for i := 0 to |fields|
        invariant output == RedactedFields(fields[..i])
      {
        assert fields[..i + 1][..i] == fields[..i];
        var Field(key, child) := fields[i];
        if Sensitive(key) {
          output := output + [Field(key, Str(MARKER))];
        } else {
          var value := RedactBridgeBody(child);
          if key != PROTO {
            output := output + [Field(key, value)];
          }
        }
      }
      assert fields[..|fields|] == fields;
      result := Obj(output);
    case _ =>
      result := v;
  }

  // ----- Which keys are sensitive -----

  /** The same letter, or its capital. */
  ghost predicate SameLetter(c: char, letter: char) {
    || c == letter
    || exists i :: 0 <= i < 26 && c == "ABCDEFGHIJKLMNOPQRSTUVWXYZ"[i] && letter == "abcdefghijklmnopqrstuvwxyz"[i]
  }

  /** The key holds the word, in capitals or not, somewhere. */
  ghost predicate Spells(key: string, word: string) {
    exists i :: 0 <= i <= |key| - |word| && SpellsAt(key, word, i)
  }

  ghost predicate SpellsAt(key: string, word: string, i: int) {
    0 <= i <= |key| - |word| && forall k :: 0 <= k < |word| ==> SameLetter(key[i + k], word[k])
  }

  predicate SmallLetters(word: string) {
    forall k :: 0 <= k < |word| ==> 'a' <= word[k] <= 'z'
  }

  lemma SameLetterIff(c: char, letter: char)
    requires 'a' <= letter <= 'z'
    ensures LowerChar(c) == letter <==> SameLetter(c, letter)
  {
    LowerCharMeans(c);
    if 'A' <= c <= 'Z' {
      CapitalsInOrder(c as int - 65);
    }
    if i :| 0 <= i < 26 && c == "ABCDEFGHIJKLMNOPQRSTUVWXYZ"[i] && letter == "abcdefghijklmnopqrstuvwxyz"[i] {
      CapitalsInOrder(i);
    }
  }

  lemma SpellsIff(key: string, word: string, i: nat)
    requires SmallLetters(word)
    ensures MatchesAt(key, word, i) <==> SpellsAt(key, word, i)
  {
    if i + |word| <= |key| {
      forall k | 0 <= k < |word|
        ensures LowerChar(key[i + k]) == word[k] <==> SameLetter(key[i + k], word[k])
      {
        SameLetterIff(key[i + k], word[k]);
      }
    }
  }

  lemma WordIff(key: string, w: nat)
    requires w < |WORDS| && SmallLetters(WORDS[w])
    ensures (exists i :: 0 <= i <= |key| && MatchesAt(key, WORDS[w], i)) <==> Spells(key, WORDS[w])
  {
    forall i: nat
      ensures MatchesAt(key, WORDS[w], i) <==> SpellsAt(key, WORDS[w], i)
    {
      SpellsIff(key, WORDS[w], i);
    }
  }

  /** A key is sensitive exactly when it holds one of six words, in whatever case. */
  lemma SensitiveMeans(key: string)
    ensures Sensitive(key) <==>
            || Spells(key, "secret") || Spells(key, "token") || Spells(key, "password")
            || Spells(key, "apikey") || Spells(key, "privatekey") || Spells(key, "servicerole")
  {
    WordIff(key, 0);
    WordIff(key, 1);
    WordIff(key, 2);
    WordIff(key, 3);
    WordIff(key, 4);
    WordIff(key, 5);
  }

  // ----- What a redacted body shows -----

  /** A segment redaction looks through. */
  predicate VisibleSegment(segment: Segment) {
    segment.Key? ==> !Sensitive(segment.key) && segment.key != "__proto__"
  }

  predicate Visible(path: seq<Segment>) {
    forall i :: 0 <= i < |path| ==> VisibleSegment(path[i])
  }

  /** The keys of a record other than `__proto__`, in order. */
  function OwnKeys(fields: seq<Field>): seq<string> {
    if fields == [] then []
    else
      var key := fields[|fields| - 1].key;
      OwnKeys(fields[..|fields| - 1]) + if key == PROTO then [] else [key]
  }

  /** A value without its children. */
  datatype View = Absent | Leaf(value: Json) | List(length: nat) | Record(keys: seq<string>)

  function Shape(v: Json): View {
    match v
    case Arr(items) => List(|items|)
    case Obj(fields) => Record(OwnKeys(fields))
    case _ => Leaf(v)
  }

  /** What can be seen at the end of a path. */
  function ViewAt(v: Json, path: seq<Segment>): View {
    match At(v, path) case None => Absent case Some(x) => Shape(x)
  }

  function Cover(key: string, value: Json): Json {
    if Sensitive(key) then Str(MARKER) else Redacted(value)
  }

  lemma ProtoIsNotSensitive()
    ensures !Sensitive(PROTO)
  {
    forall w, i | 0 <= w < |WORDS| && 0 <= i <= |PROTO|
      ensures !MatchesAt(PROTO, WORDS[w], i)
    {
      if i + |WORDS[w]| <= |PROTO| {
        assert LowerChar(PROTO[i + 0]) != WORDS[w][0];
      }
    }
  }

  /** The redacted record field by field. */
  lemma {:induction false} RedactedFieldsAre(fields: seq<Field>)
    requires DistinctKeys(fields)
    ensures |RedactedFields(fields)| == |OwnKeys(fields)|
    ensures forall i :: 0 <= i < |OwnKeys(fields)| ==>
              && Lookup(fields, OwnKeys(fields)[i]).Some?
              && RedactedFields(fields)[i] ==
                 Field(OwnKeys(fields)[i], Cover(OwnKeys(fields)[i], Lookup(fields, OwnKeys(fields)[i]).value))
  {
    if fields != [] {
      ProtoIsNotSensitive();
      var n := |fields| - 1;
      var before := fields[..n];
      RedactedFieldsAre(before);
      forall i | 0 <= i < |OwnKeys(before)|
        ensures Lookup(fields, OwnKeys(before)[i]) == Lookup(before, OwnKeys(before)[i])
      {
        LookupPrefix(fields, n, OwnKeys(before)[i]);
      }
      LookupField(fields, n);
    }
  }

  lemma {:induction false} OwnKeysAre(fields: seq<Field>)
    ensures PROTO !in OwnKeys(fields)
    ensures forall k :: k in OwnKeys(fields) ==> exists i :: 0 <= i < |fields| && fields[i].key == k
    ensures forall i :: 0 <= i < |fields| && fields[i].key != PROTO ==> fields[i].key in OwnKeys(fields)
  {
    if fields != [] {
      OwnKeysAre(fields[..|fields| - 1]);
      assert forall i :: 0 <= i < |fields| - 1 ==> fields[i] == fields[..|fields| - 1][i];
    }
  }

  lemma {:induction false} OwnKeysDistinct(fields: seq<Field>)
    requires DistinctKeys(fields)
    ensures Distinct(OwnKeys(fields))
  {
    if fields != [] {
      var before, last := fields[..|fields| - 1], fields[|fields| - 1].key;
      OwnKeysDistinct(before);
      OwnKeysAre(before);
      forall k | k in OwnKeys(before)
        ensures k != last
      {
        var i :| 0 <= i < |before| && before[i].key == k;
        assert fields[i].key == k;
      }
      assert forall i :: 0 <= i < |OwnKeys(before)| ==> OwnKeys(before)[i] in OwnKeys(before);
    }
  }

  /** Property access on a redacted record. */
  lemma LookupRedacted(fields: seq<Field>, key: string)
    requires DistinctKeys(fields)
    ensures Lookup(RedactedFields(fields), key) ==
            if key == PROTO || Lookup(fields, key).None? then None else Some(Cover(key, Lookup(fields, key).value))
  {
    var redacted := RedactedFields(fields);
    RedactedFieldsAre(fields);
    OwnKeysAre(fields);
    OwnKeysDistinct(fields);
    if Lookup(redacted, key).Some? {
      var i := LookupFound(redacted, key);
      assert OwnKeys(fields)[i] == key;
    } else if key != PROTO && Lookup(fields, key).Some? {
      var i := LookupFound(fields, key);
      var j :| 0 <= j < |OwnKeys(fields)| && OwnKeys(fields)[j] == key;
      assert DistinctKeys(redacted);
      LookupField(redacted, j);
    }
  }

  lemma ChildWellFormed(v: Json, segment: Segment)
    requires WellFormed(v) && Into(v, segment).Some?
    ensures WellFormed(Into(v, segment).value)
  {
    if segment.Key? {
      var i := LookupFound(v.fields, segment.key);
    }
  }

  lemma IntoRedacted(v: Json, segment: Segment)
    requires WellFormed(v) && VisibleSegment(segment)
    ensures Into(Redacted(v), segment) ==
            match Into(v, segment) case None => None case Some(child) => Some(Redacted(child))
  {
    if v.Obj? && segment.Key? {
      LookupRedacted(v.fields, segment.key);
    }
  }

  /** Along a visible path redaction commutes with access. */
  lemma {:induction false} RedactedAtVisible(v: Json, path: seq<Segment>)
    requires WellFormed(v) && Visible(path)
    ensures At(Redacted(v), path) == match At(v, path) case None => None case Some(x) => Some(Redacted(x))
    decreases |path|
  {
    if path != [] {
      IntoRedacted(v, path[0]);
      if Into(v, path[0]).Some? {
        ChildWellFormed(v, path[0]);
        RedactedAtVisible(Into(v, path[0]).value, path[1..]);
      }
    }
  }

  lemma {:induction false} AtConcat(v: Json, p: seq<Segment>, q: seq<Segment>)
    ensures At(v, p + q) == match At(v, p) case None => None case Some(x) => At(x, q)
    decreases |p|
  {
    if p == [] {
      assert p + q == q;
    } else {
      assert (p + q)[0] == p[0] && (p + q)[1..] == p[1..] + q;
      if Into(v, p[0]).Some? {
        AtConcat(Into(v, p[0]).value, p[1..], q);
      }
    }
  }

  lemma {:induction false} AtWellFormed(v: Json, path: seq<Segment>)
    requires WellFormed(v) && At(v, path).Some?
    ensures WellFormed(At(v, path).value)
    decreases |path|
  {
    if path != [] {
      ChildWellFormed(v, path[0]);
      AtWellFormed(Into(v, path[0]).value, path[1..]);
    }
  }

  /** The same at the key itself. */
  lemma SensitiveField(x: Json, key: string, rest: seq<Segment>)
    requires WellFormed(x) && Sensitive(key)
    ensures At(Redacted(x), [Key(key)] + rest) ==
            if Into(x, Key(key)).Some? && rest == [] then Some(Str(MARKER)) else None
  {
    ProtoIsNotSensitive();
    assert ([Key(key)] + rest)[1..] == rest;
    if x.Obj? {
      LookupRedacted(x.fields, key);
    }
  }

  /** At a sensitive key only the marker is left, whatever was there, and nothing lies beneath it. */
  lemma RedactedAtSensitive(v: Json, path: seq<Segment>, key: string, rest: seq<Segment>)
    requires WellFormed(v) && Visible(path) && Sensitive(key)
    ensures At(Redacted(v), path + [Key(key)] + rest) ==
            if At(v, path + [Key(key)]).Some? && rest == [] then Some(Str("[redacted-by-lexframe-bridge]")) else None
  {
    AtConcat(v, path, [Key(key)]);
    AtConcat(Redacted(v), path, [Key(key)] + rest);
    assert path + [Key(key)] + rest == path + ([Key(key)] + rest);
    RedactedAtVisible(v, path);
    if At(v, path).Some? {
      AtWellFormed(v, path);
      SensitiveField(At(v, path).value, key, rest);
    }
  }

  lemma ShapeRedacted(v: Json)
    requires WellFormed(v)
    ensures Shape(Redacted(v)) == Shape(v)
  {
    if v.Obj? {
      RedactedFieldsAre(v.fields);
      OwnKeysAre(v.fields);
      OwnKeysOf(RedactedFields(v.fields), OwnKeys(v.fields));
    }
  }

  lemma {:induction false} OwnKeysOf(fields: seq<Field>, keys: seq<string>)
    requires |fields| == |keys| && PROTO !in keys
    requires forall i :: 0 <= i < |fields| ==> fields[i].key == keys[i]
    ensures OwnKeys(fields) == keys
  {
    if fields != [] {
      OwnKeysOf(fields[..|fields| - 1], keys[..|keys| - 1]);
    }
  }

  /** Redaction keeps what is visible: key order, array lengths, leaves. */
  lemma ViewRedacted(v: Json, path: seq<Segment>)
    requires WellFormed(v) && Visible(path)
    ensures ViewAt(Redacted(v), path) == ViewAt(v, path)
  {
    RedactedAtVisible(v, path);
    if At(v, path).Some? {
      AtWellFormed(v, path);
      ShapeRedacted(At(v, path).value);
    }
  }

  /** The two values look the same along every visible path. */
  ghost predicate SameView(a: Json, b: Json) {
    forall path :: Visible(path) ==> ViewAt(a, path) == ViewAt(b, path)
  }

  lemma SameViewInto(a: Json, b: Json, segment: Segment)
    requires SameView(a, b) && VisibleSegment(segment)
    requires Into(a, segment).Some? && Into(b, segment).Some?
    ensures SameView(Into(a, segment).value, Into(b, segment).value)
  {
    forall path | Visible(path)
      ensures ViewAt(Into(a, segment).value, path) == ViewAt(Into(b, segment).value, path)
    {
      var longer := [segment] + path;
      assert longer[1..] == path && Visible(longer);
      assert ViewAt(a, longer) == ViewAt(b, longer);
    }
  }

  lemma SameShape(a: Json, b: Json)
    requires SameView(a, b)
    ensures Shape(a) == Shape(b)
  {
    assert Visible([]);
    assert ViewAt(a, []) == ViewAt(b, []);
  }

  lemma {:induction false} SameViewSameRedaction(a: Json, b: Json)
    requires WellFormed(a) && WellFormed(b) && SameView(a, b)
    ensures Redacted(a) == Redacted(b)
  {
    SameShape(a, b);
    if a.Arr? {
      forall i | 0 <= i < |a.items|
        ensures Redacted(a.items[i]) == Redacted(b.items[i])
      {
        SameViewInto(a, b, Item(i));
        SameViewSameRedaction(a.items[i], b.items[i]);
      }
    } else if a.Obj? {
      var keys := OwnKeys(a.fields);
      RedactedFieldsAre(a.fields);
      RedactedFieldsAre(b.fields);
      OwnKeysAre(a.fields);
      forall i | 0 <= i < |keys|
        ensures RedactedFields(a.fields)[i] == RedactedFields(b.fields)[i]
      {
        assert keys[i] != PROTO;
        if !Sensitive(keys[i]) {
          SameViewInto(a, b, Key(keys[i]));
          var j := LookupFound(a.fields, keys[i]);
          ChildWellFormed(b, Key(keys[i]));
          SameViewSameRedaction(a.fields[j].value, Lookup(b.fields, keys[i]).value);
        }
      }
    }
  }

  /** Two bodies are redacted to the same body exactly when they agree along every visible path. */
  lemma RedactionKernel(a: Json, b: Json)
    requires WellFormed(a) && WellFormed(b)
    ensures Redacted(a) == Redacted(b) <==> SameView(a, b)
  {
    if Redacted(a) == Redacted(b) {
      forall path | Visible(path)
        ensures ViewAt(a, path) == ViewAt(b, path)
      {
        ViewRedacted(a, path);
        ViewRedacted(b, path);
      }
    } else if SameView(a, b) {
      SameViewSameRedaction(a, b);
      assert false;
    }
  }

  lemma {:induction false} RedactedWellFormed(v: Json)
    requires WellFormed(v)
    ensures WellFormed(Redacted(v))
  {
    if v.Arr? {
      forall i | 0 <= i < |v.items|
        ensures WellFormed(Redacted(v.items[i]))
      {
        RedactedWellFormed(v.items[i]);
      }
    } else if v.Obj? {
      RedactedFieldsAre(v.fields);
      OwnKeysDistinct(v.fields);
      forall i | 0 <= i < |OwnKeys(v.fields)|
        ensures WellFormed(RedactedFields(v.fields)[i].value)
      {
        var j := LookupFound(v.fields, OwnKeys(v.fields)[i]);
        RedactedWellFormed(v.fields[j].value);
      }
    }
  }

  /** Redacting twice changes nothing more. */
  lemma RedactionIdempotent(v: Json)
    requires WellFormed(v)
    ensures Redacted(Redacted(v)) == Redacted(v)
  {
    RedactedWellFormed(v);
    forall path | Visible(path)
      ensures ViewAt(Redacted(v), path) == ViewAt(v, path)
    {
      ViewRedacted(v, path);
    }
    SameViewSameRedaction(Redacted(v), v);
  }

  /** A record keeps all its keys exactly when none of them is `__proto__`. */
  lemma KeysKept(fields: seq<Field>)
    requires DistinctKeys(fields)
    ensures (forall k :: Lookup(fields, k).Some? <==> Lookup(RedactedFields(fields), k).Some?) <==>
            (forall i :: 0 <= i < |fields| ==> fields[i].key != "__proto__")
  {
    forall k
      ensures Lookup(RedactedFields(fields), k).Some? <==> k != PROTO && Lookup(fields, k).Some?
    {
      LookupRedacted(fields, k);
    }
    if i :| 0 <= i < |fields| && fields[i].key == PROTO {
      LookupField(fields, i);
      assert Lookup(fields, PROTO).Some?;
    } else if Lookup(fields, PROTO).Some? {
      var i := LookupFound(fields, PROTO);
    }
  }
}
