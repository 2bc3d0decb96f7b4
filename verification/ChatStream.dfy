/** packages/api-client/src/chat-client.ts: the read loop of a chat stream and the outcome it settles on. */
module ChatStream {
  import opened Prelude
  import opened Json
  import opened Text
  import opened SseFrames

  /** `JSON.parse`, which is not modelled: `None` where it throws. */
  type JsonParser = string -> Option<Json>

  datatype StreamEvent = StreamEvent(eventType: string, payload: Json)

  datatype StreamError = StreamError(code: string, message: string)

  /** What the caller gets: the final snapshot, or the error that is thrown. */
  datatype Outcome = Snapshot(value: Json) | Failed(error: StreamError)

  const INCOMPLETE := StreamError("CHAT_STREAM_INCOMPLETE", "Chat stream ended without a final snapshot.")

  // ----- One frame -----

  function LineEnd(s: string, i: nat := 0): (r: int)
    requires i <= |s|
    ensures r < 0 ==> forall j :: i <= j < |s| ==> s[j] != '\n'
    ensures 0 <= r ==> i <= r < |s| && s[r] == '\n' && forall j :: i <= j < r ==> s[j] != '\n'
    decreases |s| - i
  {
    if i == |s| then -1 else if s[i] == '\n' then i else LineEnd(s, i + 1)
  }

  function StripCr(line: string): string {
    if line != "" && line[|line| - 1] == '\r' then line[..|line| - 1] else line
  }

  /** Splitting at a line feed together with a carriage return directly before it. */
  function Lines(s: string): seq<string>
    decreases |s|
  {
    var i := LineEnd(s);
    if i < 0 then [s] else [StripCr(s[..i])] + Lines(s[i + 1..])
  }

  /** The text after `data:` of the lines that start with it. */
  function DataLines(lines: seq<string>): seq<string> {
    if lines == [] then []
    else (if "data:" <= lines[0] then [TrimStart(lines[0][5..])] else []) + DataLines(lines[1..])
  }

  function FrameData(frame: string): string {
    Join(DataLines(Lines(frame)), "\n")
  }

  function EventOf(parse: JsonParser, data: string): Option<StreamEvent> {
    match parse(data)
    case Some(Obj(fields)) =>
      (match (Lookup(fields, "type"), Lookup(fields, "payload"))
       case (Some(Str(t)), Some(p)) => if p.Obj? || p.Arr? then Some(StreamEvent(t, p)) else None
       case _ => None)
    case _ => None
  }

  function ParseFrame(parse: JsonParser, frame: string): Option<StreamEvent> {
    if FrameData(frame) == "" then None else EventOf(parse, FrameData(frame))
  }

  // ----- The effect of an event -----

  /** A property of a payload that is a string, when it is one. */
  function TextProperty(v: Json, key: string): Option<string> {
    if v.Obj? && Lookup(v.fields, key).Some? && Lookup(v.fields, key).value.Str?
    then Some(Lookup(v.fields, key).value.s) else None
  }

  predicate IsSnapshot(v: Json) {
    TextProperty(v, "streamId").Some? && TextProperty(v, "threadId").Some? && TextProperty(v, "messageId").Some?
  }

  /** The snapshot an event carries, if it is a `done` event with a proper one. */
  function CarriedSnapshot(event: StreamEvent): Option<Json> {
    if event.eventType == "done" && event.payload.Obj? && Lookup(event.payload.fields, "snapshot").Some?
       && IsSnapshot(Lookup(event.payload.fields, "snapshot").value)
    then Lookup(event.payload.fields, "snapshot") else None
  }

  function CarriedError(event: StreamEvent): Option<StreamError> {
    if event.eventType == "error"
    then Some(StreamError(OrElse(TextProperty(event.payload, "code"), "CHAT_STREAM_FAILED"),
                          OrElse(TextProperty(event.payload, "message"), "Chat stream returned an error event.")))
    else None
  }

  // ----- The whole text at once -----

  /** The events of a list of frames, in order. */
  function Events(parse: JsonParser, frames: seq<string>): seq<StreamEvent> {
    if frames == [] then []
    else
      Events(parse, frames[..|frames| - 1])
      + match ParseFrame(parse, frames[|frames| - 1]) case None => [] case Some(event) => [event]
  }

  /** `k` is the last event that carries a snapshot. */
  ghost predicate LastSnapshot(events: seq<StreamEvent>, k: nat) {
    k < |events| && CarriedSnapshot(events[k]).Some? &&
    forall j :: k < j < |events| ==> CarriedSnapshot(events[j]).None?
  }

  ghost predicate LastError(events: seq<StreamEvent>, k: nat) {
    k < |events| && CarriedError(events[k]).Some? &&
    forall j :: k < j < |events| ==> CarriedError(events[j]).None?
  }

  /** The last snapshot wins; without one the last error; without either the stream is incomplete. */
  ghost predicate Settles(events: seq<StreamEvent>, outcome: Outcome) {
    if exists k: nat :: LastSnapshot(events, k) then
      exists k: nat :: LastSnapshot(events, k) && outcome == Snapshot(CarriedSnapshot(events[k]).value)
    else if exists k: nat :: LastError(events, k) then
      exists k: nat :: LastError(events, k) && outcome == Failed(CarriedError(events[k]).value)
    else
      outcome == Failed(INCOMPLETE)
  }

  lemma SettlesUnique(events: seq<StreamEvent>, x: Outcome, y: Outcome)
    requires Settles(events, x) && Settles(events, y)
    ensures x == y
  {
  }

  /** What the loop's variable for the snapshot holds after some events. */
  ghost predicate RemembersSnapshot(events: seq<StreamEvent>, snapshot: Option<Json>) {
    if exists k: nat :: LastSnapshot(events, k)
    then exists k: nat :: LastSnapshot(events, k) && snapshot == CarriedSnapshot(events[k])
    else snapshot == None
  }

  ghost predicate RemembersError(events: seq<StreamEvent>, error: Option<StreamError>) {
    if exists k: nat :: LastError(events, k)
    then exists k: nat :: LastError(events, k) && error == CarriedError(events[k])
    else error == None
  }

  lemma OneMoreSnapshot(events: seq<StreamEvent>, event: StreamEvent, snapshot: Option<Json>)
    requires RemembersSnapshot(events, snapshot)
    ensures RemembersSnapshot(events + [event],
                              if CarriedSnapshot(event).Some? then CarriedSnapshot(event) else snapshot)
  {
    var all := events + [event];
    if CarriedSnapshot(event).Some? {
      assert LastSnapshot(all, |events|);
    } else {
      forall k: nat
        ensures LastSnapshot(all, k) <==> LastSnapshot(events, k)
      {
        assert forall j :: 0 <= j < |events| ==> all[j] == events[j];
        assert all[|events|] == event;
      }
    }
  }

  lemma OneMoreError(events: seq<StreamEvent>, event: StreamEvent, error: Option<StreamError>)
    requires RemembersError(events, error)
    ensures RemembersError(events + [event], if CarriedError(event).Some? then CarriedError(event) else error)
  {
    var all := events + [event];
    if CarriedError(event).Some? {
      assert LastError(all, |events|);
    } else {
      forall k: nat
        ensures LastError(all, k) <==> LastError(events, k)
      {
        assert forall j :: 0 <= j < |events| ==> all[j] == events[j];
        assert all[|events|] == event;
      }
    }
  }

  // ----- What a frame says, without the functions that read it -----

  /** The lines of a message: its pieces between line feeds. */
  function MessageLines(message: string): (lines: seq<string>)
    ensures |lines| > 0
    decreases |message|
  {
    var i := LineEnd(message);
    if i < 0 then [message] else [message[..i]] + MessageLines(message[i + 1..])
  }

  predicate SingleLine(line: string) {
    '\n' !in line
  }

  lemma {:induction false} MessageLinesAre(message: string)
    ensures forall i :: 0 <= i < |MessageLines(message)| ==> SingleLine(MessageLines(message)[i])
    ensures Join(MessageLines(message), "\n") == message
    decreases |message|
  {
    var i := LineEnd(message);
    if i >= 0 {
      var rest := MessageLines(message[i + 1..]);
      MessageLinesAre(message[i + 1..]);
      assert ([message[..i]] + rest)[1..] == rest;
      assert message == message[..i] + "\n" + message[i + 1..];
    }
  }

  /** Pieces without line feeds that make up a text are its pieces between line feeds. */
  lemma {:induction false} PiecesUnique(pieces: seq<string>)
    requires pieces != [] && forall i :: 0 <= i < |pieces| ==> SingleLine(pieces[i])
    ensures MessageLines(Join(pieces, "\n")) == pieces
  {
    var s := Join(pieces, "\n");
    if |pieces| == 1 {
      assert LineEnd(s) < 0;
    } else {
      var rest := Join(pieces[1..], "\n");
      assert s == pieces[0] + "\n" + rest;
      assert s[|pieces[0]|] == '\n' && forall j :: 0 <= j < |pieces[0]| ==> s[j] == pieces[0][j];
      assert LineEnd(s) == |pieces[0]|;
      assert s[..|pieces[0]|] == pieces[0] && s[|pieces[0]| + 1..] == rest;
      PiecesUnique(pieces[1..]);
      assert pieces == [pieces[0]] + pieces[1..];
    }
  }

  /** A line as it ends before a line feed: with a carriage return that is dropped, or with none. */
  ghost predicate EndedLine(piece: string, line: string) {
    piece == line + "\r" || (piece == line && (line == "" || line[|line| - 1] != '\r'))
  }

  /** The lines are these pieces between line feeds, each but the last without a carriage return at its end. */
  ghost predicate MadeOf(frame: string, pieces: seq<string>, lines: seq<string>) {
    && |pieces| == |lines| > 0 && Join(pieces, "\n") == frame
    && (forall i :: 0 <= i < |pieces| ==> SingleLine(pieces[i]))
    && lines[|lines| - 1] == pieces[|lines| - 1]
    && forall i :: 0 <= i < |lines| - 1 ==> EndedLine(pieces[i], lines[i])
  }

  ghost predicate CutLines(frame: string, lines: seq<string>) {
    exists pieces :: MadeOf(frame, pieces, lines)
  }

  ghost predicate DataAfter(line: string, spaces: string, data: string) {
    && line == "data:" + spaces + data
    && (forall i :: 0 <= i < |spaces| ==> IsSpace(spaces[i]))
    && (data == "" || !IsSpace(data[0]))
  }

  /** The data of a line: what follows `data:` and white space. */
  ghost predicate DataOf(line: string, data: string) {
    exists spaces :: DataAfter(line, spaces, data)
  }

  /** The data of a frame: those of its lines that have any, joined by line feeds. */
  ghost predicate FrameSays(frame: string, data: string) {
    exists lines, datas ::
      && CutLines(frame, lines) && Picks(lines, datas, (line: string, d: string) => DataOf(line, d))
      && data == Join(datas, "\n")
  }

  lemma StripCrEnds(piece: string, line: string)
    ensures EndedLine(piece, line) <==> line == StripCr(piece)
  {
    if line == StripCr(piece) && line != piece {
      assert piece == line + "\r";
    }
    if piece == line + "\r" {
      assert piece[|piece| - 1] == '\r' && piece[..|piece| - 1] == line;
    }
  }

  /** The lines are the pieces, each but the last without a carriage return at its end. */
  ghost predicate StripsAll(pieces: seq<string>, lines: seq<string>) {
    && |lines| == |pieces| > 0 && lines[|lines| - 1] == pieces[|lines| - 1]
    && forall i :: 0 <= i < |lines| - 1 ==> lines[i] == StripCr(pieces[i])
  }

  lemma StripsOneMore(piece: string, pieces: seq<string>, lines: seq<string>)
    requires StripsAll(pieces, lines)
    ensures StripsAll([piece] + pieces, [StripCr(piece)] + lines)
  {
  }

  lemma {:induction false} LinesOfPieces(s: string)
    ensures StripsAll(MessageLines(s), Lines(s))
    decreases |s|
  {
    var i := LineEnd(s);
    if i >= 0 {
      LinesOfPieces(s[i + 1..]);
      StripsOneMore(s[..i], MessageLines(s[i + 1..]), Lines(s[i + 1..]));
    }
  }

  lemma CutLinesAre(frame: string, lines: seq<string>)
    ensures CutLines(frame, lines) <==> lines == Lines(frame)
  {
    LinesOfPieces(frame);
    MessageLinesAre(frame);
    forall piece, line
      ensures EndedLine(piece, line) <==> line == StripCr(piece)
    {
      StripCrEnds(piece, line);
    }
    assert MadeOf(frame, MessageLines(frame), Lines(frame));
    if pieces :| MadeOf(frame, pieces, lines) {
      PiecesUnique(pieces);
      assert forall i :: 0 <= i < |lines| ==> lines[i] == Lines(frame)[i];
    }
  }

  lemma {:induction false} TrimStartIs(s: string, spaces: string, rest: string)
    requires s == spaces + rest && (forall i :: 0 <= i < |spaces| ==> IsSpace(spaces[i]))
    requires rest == "" || !IsSpace(rest[0])
    ensures TrimStart(s) == rest
  {
    if spaces == "" {
      assert s == rest;
    } else {
      assert s[0] == spaces[0] && s[1..] == spaces[1..] + rest;
      TrimStartIs(s[1..], spaces[1..], rest);
    }
  }

  lemma {:induction false} TrimmedSpaces(s: string) returns (spaces: string)
    ensures s == spaces + TrimStart(s) && forall i :: 0 <= i < |spaces| ==> IsSpace(spaces[i])
    ensures TrimStart(s) == "" || !IsSpace(TrimStart(s)[0])
  {
    spaces := "";
    if s != "" && IsSpace(s[0]) {
      var rest := TrimmedSpaces(s[1..]);
      spaces := [s[0]] + rest;
      assert s == [s[0]] + s[1..];
    }
  }

  lemma DataOfIs(line: string, data: string)
    ensures DataOf(line, data) <==> "data:" <= line && data == TrimStart(line[5..])
  {
    if spaces :| DataAfter(line, spaces, data) {
      assert line[5..] == spaces + data && line[..5] == "data:";
      TrimStartIs(line[5..], spaces, data);
    }
    if "data:" <= line && data == TrimStart(line[5..]) {
      var spaces := TrimmedSpaces(line[5..]);
      assert line == "data:" + line[5..];
      assert "data:" + (spaces + data) == "data:" + spaces + data;
      assert DataAfter(line, spaces, data);
    }
  }

  lemma {:induction false} DataLinesSnoc(lines: seq<string>, line: string)
    ensures DataLines(lines + [line]) ==
            DataLines(lines) + if "data:" <= line then [TrimStart(line[5..])] else []
  {
    if lines == [] {
      assert ([] + [line])[1..] == [];
    } else {
      assert (lines + [line])[1..] == lines[1..] + [line];
      DataLinesSnoc(lines[1..], line);
    }
  }

  lemma {:induction false} DataLinesPicked(lines: seq<string>)
    ensures Picks(lines, DataLines(lines), (line: string, d: string) => DataOf(line, d))
  {
    if lines != [] {
      var rest, last := lines[..|lines| - 1], lines[|lines| - 1];
      var gives := (line: string, d: string) => DataOf(line, d);
      DataLinesPicked(rest);
      DataLinesSnoc(rest, last);
      assert lines == rest + [last];
      var more := if "data:" <= last then [TrimStart(last[5..])] else [];
      forall d
        ensures gives(last, d) <==> d in more
      {
        DataOfIs(last, d);
      }
      PicksLast(lines, last, DataLines(rest), gives, more);
    }
  }

  /** What the code reads from a frame is what the frame says. */
  lemma FrameSaysData(frame: string, data: string)
    ensures FrameSays(frame, data) <==> data == FrameData(frame)
  {
    var gives := (line: string, d: string) => DataOf(line, d);
    CutLinesAre(frame, Lines(frame));
    DataLinesPicked(Lines(frame));
    if lines, datas :| CutLines(frame, lines) && Picks(lines, datas, gives) && data == Join(datas, "\n") {
      CutLinesAre(frame, lines);
      forall i, d, e | 0 <= i < |lines| && gives(lines[i], d) && gives(lines[i], e)
        ensures d == e
      {
        DataOfIs(lines[i], d);
        DataOfIs(lines[i], e);
      }
      PicksUnique(lines, datas, DataLines(lines), gives);
    }
  }

  /** The event of a frame: the string at `type` and the record or array at `payload` of its parsed data. */
  ghost predicate FrameTells(parse: JsonParser, frame: string, event: StreamEvent) {
    exists data, v ::
      && FrameSays(frame, data) && data != "" && parse(data) == Some(v)
      && At(v, [Key("type")]) == Some(Str(event.eventType))
      && At(v, [Key("payload")]) == Some(event.payload) && (event.payload.Obj? || event.payload.Arr?)
  }

  lemma AtKey(v: Json, key: string)
    ensures At(v, [Key(key)]) == if v.Obj? then Lookup(v.fields, key) else None
  {
    assert [Key(key)][1..] == [];
    match Into(v, Key(key))
    case None =>
    case Some(child) => assert At(child, []) == Some(child);
  }

  lemma FrameTellsEvent(parse: JsonParser, frame: string, event: StreamEvent)
    ensures FrameTells(parse, frame, event) <==> ParseFrame(parse, frame) == Some(event)
  {
    forall data
      ensures FrameSays(frame, data) <==> data == FrameData(frame)
    {
      FrameSaysData(frame, data);
    }
    match parse(FrameData(frame))
    case None =>
    case Some(v) =>
      AtKey(v, "type");
      AtKey(v, "payload");
  }

  /** The events of a list of frames are the events that its frames tell, in order. */
  lemma {:induction false} EventsTold(parse: JsonParser, frames: seq<string>)
    ensures Picks(frames, Events(parse, frames), (frame: string, event: StreamEvent) => FrameTells(parse, frame, event))
  {
    if frames != [] {
      var rest, last := frames[..|frames| - 1], frames[|frames| - 1];
      var gives := (frame: string, event: StreamEvent) => FrameTells(parse, frame, event);
      EventsTold(parse, rest);
      var more := match ParseFrame(parse, last) case None => [] case Some(event) => [event];
      forall event
        ensures gives(last, event) <==> event in more
      {
        FrameTellsEvent(parse, last, event);
      }
      PicksLast(frames, last, Events(parse, rest), gives, more);
    }
  }

  // ----- What the outcome is, read off the payloads -----

  /** The event is a `done` event whose payload has the proper snapshot `v`. */
  ghost predicate Finishes(event: StreamEvent, v: Json) {
    && event.eventType == "done" && At(event.payload, [Key("snapshot")]) == Some(v)
    && (exists s :: At(v, [Key("streamId")]) == Some(Str(s)))
    && (exists s :: At(v, [Key("threadId")]) == Some(Str(s)))
    && (exists s :: At(v, [Key("messageId")]) == Some(Str(s)))
  }

  /** `text` is the string under `key` of the payload, or the default without one. */
  ghost predicate Says(payload: Json, key: string, default: string, text: string) {
    if exists s :: At(payload, [Key(key)]) == Some(Str(s))
    then At(payload, [Key(key)]) == Some(Str(text))
    else text == default
  }

  /** The outcome of a list of events. */
  ghost predicate EndsWith(events: seq<StreamEvent>, outcome: Outcome) {
    match outcome
    case Snapshot(v) =>
      exists k :: 0 <= k < |events| && Finishes(events[k], v) &&
                  forall j, u :: k < j < |events| ==> !Finishes(events[j], u)
    case Failed(error) =>
      && (forall j, u :: 0 <= j < |events| ==> !Finishes(events[j], u))
      && if forall j :: 0 <= j < |events| ==> events[j].eventType != "error" then
           error == StreamError("CHAT_STREAM_INCOMPLETE", "Chat stream ended without a final snapshot.")
         else
           exists k :: 0 <= k < |events| && events[k].eventType == "error" &&
                       (forall j :: k < j < |events| ==> events[j].eventType != "error") &&
                       Says(events[k].payload, "code", "CHAT_STREAM_FAILED", error.code) &&
                       Says(events[k].payload, "message", "Chat stream returned an error event.", error.message)
  }

  lemma PropertyAt(v: Json, key: string)
    ensures TextProperty(v, key).Some? <==> exists s :: At(v, [Key(key)]) == Some(Str(s))
    ensures TextProperty(v, key).Some? ==> At(v, [Key(key)]) == Some(Str(TextProperty(v, key).value))
  {
    AtKey(v, key);
  }

  lemma CarriedFinishes(event: StreamEvent, v: Json)
    ensures CarriedSnapshot(event) == Some(v) <==> Finishes(event, v)
  {
    AtKey(event.payload, "snapshot");
    PropertyAt(v, "streamId");
    PropertyAt(v, "threadId");
    PropertyAt(v, "messageId");
  }

  lemma CarriedSays(event: StreamEvent, error: StreamError)
    ensures CarriedError(event) == Some(error) <==>
            && event.eventType == "error"
            && Says(event.payload, "code", "CHAT_STREAM_FAILED", error.code)
            && Says(event.payload, "message", "Chat stream returned an error event.", error.message)
  {
    PropertyAt(event.payload, "code");
    PropertyAt(event.payload, "message");
  }

  lemma {:induction false} LastOfSnapshots(events: seq<StreamEvent>)
    requires exists j :: 0 <= j < |events| && CarriedSnapshot(events[j]).Some?
    ensures exists k: nat :: LastSnapshot(events, k)
  {
    var n := |events| - 1;
    if CarriedSnapshot(events[n]).Some? {
      assert LastSnapshot(events, n);
    } else {
      assert forall j :: 0 <= j < n ==> events[..n][j] == events[j];
      LastOfSnapshots(events[..n]);
      var k: nat :| LastSnapshot(events[..n], k);
      assert LastSnapshot(events, k);
    }
  }

  lemma {:induction false} LastOfErrors(events: seq<StreamEvent>)
    requires exists j :: 0 <= j < |events| && CarriedError(events[j]).Some?
    ensures exists k: nat :: LastError(events, k)
  {
    var n := |events| - 1;
    if CarriedError(events[n]).Some? {
      assert LastError(events, n);
    } else {
      assert forall j :: 0 <= j < n ==> events[..n][j] == events[j];
      LastOfErrors(events[..n]);
      var k: nat :| LastError(events[..n], k);
      assert LastError(events, k);
    }
  }

  /** The outcome that the loop settles on is the one read off the payloads. */
  lemma SettlesEnds(events: seq<StreamEvent>, outcome: Outcome)
    requires Settles(events, outcome)
    ensures EndsWith(events, outcome)
  {
    forall event, v
      ensures CarriedSnapshot(event) == Some(v) <==> Finishes(event, v)
    {
      CarriedFinishes(event, v);
    }
    if exists k: nat :: LastSnapshot(events, k) {
      var k: nat :| LastSnapshot(events, k) && outcome == Snapshot(CarriedSnapshot(events[k]).value);
      assert Finishes(events[k], outcome.value);
    } else {
      forall j, u | 0 <= j < |events|
        ensures !Finishes(events[j], u)
      {
        if CarriedSnapshot(events[j]).Some? {
          LastOfSnapshots(events);
          assert false;
        }
      }
      FailsWith(events, outcome);
    }
  }

  lemma FailsWith(events: seq<StreamEvent>, outcome: Outcome)
    requires Settles(events, outcome) && !exists k: nat :: LastSnapshot(events, k)
    requires forall j, u :: 0 <= j < |events| ==> !Finishes(events[j], u)
    ensures EndsWith(events, outcome)
  {
    if exists k: nat :: LastError(events, k) {
      var k: nat :| LastError(events, k) && outcome == Failed(CarriedError(events[k]).value);
      CarriedSays(events[k], outcome.error);
      assert forall j :: k < j < |events| ==> CarriedError(events[j]).None?;
    } else {
      forall j | 0 <= j < |events|
        ensures events[j].eventType != "error"
      {
        if CarriedError(events[j]).Some? {
          LastOfErrors(events);
          assert false;
        }
      }
    }
  }

  // ----- The loop over what the reader delivers -----

  /** The two branches on the type of an event. */
  method HandleEvent(seen: seq<StreamEvent>, event: StreamEvent, snapshot: Option<Json>, error: Option<StreamError>)
    returns (snapshot': Option<Json>, error': Option<StreamError>)
    requires RemembersSnapshot(seen, snapshot) && RemembersError(seen, error)
    ensures RemembersSnapshot(seen + [event], snapshot') && RemembersError(seen + [event], error')
  {
    OneMoreSnapshot(seen, event, snapshot);
    OneMoreError(seen, event, error);
    snapshot', error' := snapshot, error;
    if event.eventType == "done" {
      if CarriedSnapshot(event).Some? {
        snapshot' := CarriedSnapshot(event);
      }
    } else if event.eventType == "error" {
      error' := CarriedError(event);
    }
  }

  lemma OneMoreEvent(parse: JsonParser, seen: seq<StreamEvent>, frames: seq<string>, i: nat)
    requires i < |frames|
    ensures seen + Events(parse, frames[..i + 1]) ==
            match ParseFrame(parse, frames[i])
            case None => seen + Events(parse, frames[..i])
            case Some(event) => (seen + Events(parse, frames[..i])) + [event]
  {
    assert frames[..i + 1][..i] == frames[..i];
  }

  /** The inner loop: handles the frames found in the buffer. */
  method HandleFrames(parse: JsonParser, frames: seq<string>, seen: seq<StreamEvent>,
                      snapshot: Option<Json>, error: Option<StreamError>)
    returns (events: seq<StreamEvent>, snapshot': Option<Json>, error': Option<StreamError>)
    requires RemembersSnapshot(seen, snapshot) && RemembersError(seen, error)
    ensures events == seen + Events(parse, frames)
    ensures RemembersSnapshot(events, snapshot') && RemembersError(events, error')
  {
    events, snapshot', error' := seen, snapshot, error;
    for i := 0 to |frames|
      invariant events == seen + Events(parse, frames[..i])
      invariant RemembersSnapshot(events, snapshot') && RemembersError(events, error')
    {
      var parsed := ParseFrame(parse, frames[i]);
      OneMoreEvent(parse, seen, frames, i);
      if parsed.Some? {
        snapshot', error' := HandleEvent(events, parsed.value, snapshot', error');
        events := events + [parsed.value];
      }
    }
    assert frames[..|frames|] == frames;
  }

  lemma {:induction false} EventsConcat(parse: JsonParser, a: seq<string>, b: seq<string>)
    ensures Events(parse, a + b) == Events(parse, a) + Events(parse, b)
    decreases |b|
  {
    if b == [] {
      assert a + b == a;
    } else {
      assert (a + b)[..|a + b| - 1] == a + b[..|b| - 1];
      EventsConcat(parse, a, b[..|b| - 1]);
    }
  }

  /** What the buffer and the next chunk add to the events of the chunks before. */
  lemma OneMoreChunk(parse: JsonParser, chunks: seq<string>, i: nat)
    requires i < |chunks|
    ensures var before, after := chunks[..i], chunks[..i + 1];
            && Events(parse, ReadFrames(after)) ==
               Events(parse, ReadFrames(before)) + Events(parse, Frames(Residue(before) + chunks[i]))
            && Residue(after) == Tail(Residue(before) + chunks[i])
  {
    assert chunks[..i + 1] == chunks[..i] + [chunks[i]];
    ReadOneMore(chunks[..i], chunks[i], "");
    EventsConcat(parse, ReadFrames(chunks[..i]), Frames(Residue(chunks[..i]) + chunks[i]));
  }

  /**
   * Reads decoded chunks until the stream is done: the events reported and the outcome are those of
   * the frames that the buffered reader finds, as the frames and the payloads say them.
   */
  method StreamChatMessageEvents(parse: JsonParser, chunks: seq<string>)
    returns (events: seq<StreamEvent>, outcome: Outcome)
    ensures events == Events(parse, ReadFrames(chunks))
    ensures events == Events(parse, Frames(Concat(chunks)))
    ensures Settles(events, outcome)
    ensures Picks(Frames(Concat(chunks)), events,
                  (frame: string, event: StreamEvent) => FrameTells(parse, frame, event))
    ensures EndsWith(events, outcome)
  {
    var buffer := "";
    var snapshot, error := None, None;
    events := [];
    for i := 0 to |chunks|
      invariant events == Events(parse, ReadFrames(chunks[..i]))
      invariant buffer == Residue(chunks[..i])
      invariant RemembersSnapshot(events, snapshot) && RemembersError(events, error)
    {
      OneMoreChunk(parse, chunks, i);
      buffer := buffer + chunks[i];
      var frames := Frames(buffer);
      buffer := Tail(buffer);
      events, snapshot, error := HandleFrames(parse, frames, events, snapshot, error);
    }
    assert chunks[..|chunks|] == chunks;
    FramesIgnoreCuts(chunks, chunks);
    if snapshot.Some? {
      outcome := Snapshot(snapshot.value);
    } else if error.Some? {
      outcome := Failed(error.value);
    } else {
      outcome := Failed(INCOMPLETE);
    }
    EventsTold(parse, Frames(Concat(chunks)));
    SettlesEnds(events, outcome);
  }

  /**
   * Network chunking cannot be observed: read from any two ways of cutting a text, the buffered
   * reader reports the same events and admits only the same outcome.
   */
  lemma ChunkingInvisible(parse: JsonParser, one: seq<string>, other: seq<string>, x: Outcome, y: Outcome)
    requires Concat(one) == Concat(other)
    requires Settles(Events(parse, ReadFrames(one)), x) && Settles(Events(parse, ReadFrames(other)), y)
    ensures Events(parse, ReadFrames(one)) == Events(parse, ReadFrames(other)) && x == y
  {
    FramesIgnoreCuts(one, other);
    SettlesUnique(Events(parse, ReadFrames(one)), x, y);
  }
}
