/** packages/activepieces-catalog-sync/src/index.ts: writing values as SQL literals, and reading them back. */
module SqlLiterals {
  import opened Prelude

  /** A column value: a text or null, or a JSON document given by its text. */
  datatype SqlValue = Text(text: Option<string>) | Jsonb(document: string)

  /** Every quote is doubled. */
  function Escape(s: string): string {
    if s == "" then "" else (if s[0] == '\'' then "''" else [s[0]]) + Escape(s[1..])
  }

  function Quote(s: string): string {
    "'" + Escape(s) + "'"
  }

  function SqlText(text: Option<string>): string {
    match text case None => "null" case Some(s) => Quote(s)
  }

  function SqlJson(document: string): string {
    Quote(document) + "::jsonb"
  }

  function Print(v: SqlValue): string {
    match v case Text(t) => SqlText(t) case Jsonb(d) => SqlJson(d)
  }

  // ----- Reading: character string literals of ISO/IEC 9075-2, section 5.3 -----

  datatype Scan<T> = Scan(value: T, rest: string)

  /** The rest of a literal whose opening quote has been read: it ends at the first quote that is not doubled. */
  function ScanBody(input: string): Option<Scan<string>> {
    if input == "" then None
    else if input[0] != '\'' then
      (match ScanBody(input[1..]) case None => None case Some(s) => Some(Scan([input[0]] + s.value, s.rest)))
    else if |input| > 1 && input[1] == '\'' then
      (match ScanBody(input[2..]) case None => None case Some(s) => Some(Scan("'" + s.value, s.rest)))
    else Some(Scan("", input[1..]))
  }

  function ScanLiteral(input: string): Option<Scan<string>> {
    if input != "" && input[0] == '\'' then ScanBody(input[1..]) else None
  }

  predicate StartsWithQuote(s: string) {
    s != "" && s[0] == '\''
  }

  /** Puts a text in front of what was scanned. */
  function Prepend(s: string, scan: Option<Scan<string>>): Option<Scan<string>> {
    match scan case None => None case Some(r) => Some(Scan(s + r.value, r.rest))
  }

  lemma ScanCharacter(c: char, inner: string)
    ensures ScanBody((if c == '\'' then "''" else [c]) + inner) == Prepend([c], ScanBody(inner))
  {
    if c == '\'' {
      assert ("''" + inner)[2..] == inner;
    } else {
      assert ([c] + inner)[1..] == inner;
    }
  }

  lemma PrependTwice(a: string, b: string, scan: Option<Scan<string>>)
    ensures Prepend(a, Prepend(b, scan)) == Prepend(a + b, scan)
  {
    if scan.Some? {
      assert a + (b + scan.value.value) == (a + b) + scan.value.value;
    }
  }

  /** Scanning runs through an escaped text character by character. */
  lemma {:induction false} ScanEscaped(s: string, tail: string)
    ensures ScanBody(Escape(s) + tail) == Prepend(s, ScanBody(tail))
  {
    if s == "" {
      assert Escape(s) + tail == tail;
      PrependTwice("", "", ScanBody(tail));
      assert ScanBody(tail).Some? ==> "" + ScanBody(tail).value.value == ScanBody(tail).value.value;
    } else {
      var inner := Escape(s[1..]) + tail;
      var head := if s[0] == '\'' then "''" else [s[0]];
      assert Escape(s) + tail == head + inner;
      ScanEscaped(s[1..], tail);
      ScanCharacter(s[0], inner);
      PrependTwice([s[0]], s[1..], ScanBody(tail));
      assert [s[0]] + s[1..] == s;
    }
  }

  lemma {:induction false} ScanConsumes(input: string)
    ensures ScanBody(input).Some? ==> |ScanBody(input).value.rest| < |input|
  {
    if input != "" {
      if input[0] != '\'' {
        ScanConsumes(input[1..]);
      } else if |input| > 1 && input[1] == '\'' {
        ScanConsumes(input[2..]);
      }
    }
  }

  /** A quoted text is read back with what follows it, exactly when what follows is not another quote. */
  lemma LiteralRoundTrip(s: string, rest: string)
    ensures ScanLiteral(Quote(s) + rest) == Some(Scan(s, rest)) <==> !StartsWithQuote(rest)
  {
    var input := Quote(s) + rest;
    var tail := "'" + rest;
    assert input[1..] == Escape(s) + tail;
    ScanEscaped(s, tail);
    if StartsWithQuote(rest) {
      assert tail[2..] == rest[1..];
      ScanConsumes(tail[2..]);
    } else {
      assert tail[1..] == rest;
      assert s + "" == s;
    }
  }

  // ----- A list of values -----

  const SEPARATOR := ",\n  "
  const CAST := "::jsonb"

  function PrintValues(values: seq<SqlValue>): string
    requires values != []
  {
    if |values| == 1 then Print(values[0]) else Print(values[0]) + SEPARATOR + PrintValues(values[1..])
  }

  function ScanValue(input: string): Option<Scan<SqlValue>> {
    if "null" <= input then Some(Scan(Text(None), input[4..]))
    else match ScanLiteral(input)
      case None => None
      case Some(s) =>
        Some(if CAST <= s.rest then Scan(Jsonb(s.value), s.rest[|CAST|..]) else Scan(Text(Some(s.value)), s.rest))
  }

  function ScanValues(input: string): Option<Scan<seq<SqlValue>>>
    decreases |input|
  {
    match ScanValue(input)
    case None => None
    case Some(first) =>
      if SEPARATOR <= first.rest && |first.rest| <= |input| then
        (match ScanValues(first.rest[|SEPARATOR|..])
         case None => None
         case Some(more) => Some(Scan([first.value] + more.value, more.rest)))
      else Some(Scan([first.value], first.rest))
  }

  /** What may follow a value: neither a quote nor a cast. */
  predicate Separates(rest: string) {
    rest != "" && rest[0] != '\'' && rest[0] != ':'
  }

  lemma ValueRoundTrip(v: SqlValue, rest: string)
    requires Separates(rest)
    ensures ScanValue(Print(v) + rest) == Some(Scan(v, rest))
  {
    match v
    case Text(None) =>
    case Text(Some(s)) =>
      assert (Print(v) + rest)[0] == '\'';
      LiteralRoundTrip(s, rest);
    case Jsonb(d) =>
      assert (Print(v) + rest)[0] == '\'';
      var tail := CAST + rest;
      assert Print(v) + rest == Quote(d) + tail;
      LiteralRoundTrip(d, tail);
      assert tail[|CAST|..] == rest;
  }

  lemma ScanStep(input: string, v: SqlValue, tail: string)
    requires ScanValue(input) == Some(Scan(v, SEPARATOR + tail)) && |SEPARATOR + tail| <= |input|
    requires ScanValues(tail).Some?
    ensures ScanValues(input) == Some(Scan([v] + ScanValues(tail).value.value, ScanValues(tail).value.rest))
  {
    assert (SEPARATOR + tail)[|SEPARATOR|..] == tail;
  }

  /** A whole list of values is read back as it was written, whatever texts it holds. */
  lemma {:induction false} ValuesRoundTrip(values: seq<SqlValue>, rest: string)
    requires values != [] && Separates(rest) && rest[0] != ','
    ensures ScanValues(PrintValues(values) + rest) == Some(Scan(values, rest))
    decreases |values|
  {
    if |values| == 1 {
      ValueRoundTrip(values[0], rest);
      assert values == [values[0]];
    } else {
      var tail := PrintValues(values[1..]) + rest;
      assert PrintValues(values) + rest == Print(values[0]) + (SEPARATOR + tail);
      ValueRoundTrip(values[0], SEPARATOR + tail);
      ValuesRoundTrip(values[1..], rest);
      ScanStep(Print(values[0]) + (SEPARATOR + tail), values[0], tail);
      assert values == [values[0]] + values[1..];
    }
  }
}
