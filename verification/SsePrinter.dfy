/** Writing messages in the form the chat stream is sent in, and what the reader recovers of them. */
module SsePrinter {
  import opened Text
  import opened SseFrames
  import opened ChatStream

  /** The frame of a message: every line behind `data: `. */
  function FrameOf(lines: seq<string>): string
    requires |lines| > 0
  {
    if |lines| == 1 then "data: " + lines[0] else "data: " + lines[0] + "\n" + FrameOf(lines[1..])
  }

  function FramesOf(messages: seq<string>): seq<string> {
    if messages == [] then [] else [FrameOf(MessageLines(messages[0]))] + FramesOf(messages[1..])
  }

  /** The stream text of a list of messages. */
  function Print(messages: seq<string>): string {
    Written(FramesOf(messages))
  }

  /** The data strings of a list of frames that the reader hands to the JSON parser. */
  function Datas(frames: seq<string>): seq<string> {
    if frames == [] then []
    else (if FrameData(frames[0]) == "" then [] else [FrameData(frames[0])]) + Datas(frames[1..])
  }

  /** What the reader makes of the data strings of messages. */
  function EventsOfDatas(parse: JsonParser, datas: seq<string>): seq<StreamEvent> {
    if datas == [] then []
    else (match EventOf(parse, datas[0]) case None => [] case Some(event) => [event]) + EventsOfDatas(parse, datas[1..])
  }

  // ----- Frames are found again -----

  lemma NoBreakAppend(line: string, rest: string)
    requires SingleLine(line) && line != "" && NoBreak(rest) && (rest == "" || rest[0] != '\n')
    ensures NoBreak(line + "\n" + rest)
  {
    var s := line + "\n" + rest;
    forall j: nat
      ensures !BreakAt(s, j)
    {
      if j > |line| {
        assert !BreakAt(rest, j - |line| - 1);
      }
    }
  }

  lemma {:induction false} FrameHasNoBreak(lines: seq<string>)
    requires |lines| > 0 && forall i :: 0 <= i < |lines| ==> SingleLine(lines[i])
    ensures NoBreak(FrameOf(lines) + "\n") && FrameOf(lines)[..1] == "d"
  {
    if |lines| == 1 {
      NoBreakAppend("data: " + lines[0], "");
      assert "data: " + lines[0] + "\n" + "" == FrameOf(lines) + "\n";
    } else {
      FrameHasNoBreak(lines[1..]);
      assert (FrameOf(lines[1..]) + "\n")[0] == FrameOf(lines[1..])[..1][0];
      NoBreakAppend("data: " + lines[0], FrameOf(lines[1..]) + "\n");
      assert "data: " + lines[0] + "\n" + (FrameOf(lines[1..]) + "\n") == FrameOf(lines) + "\n";
    }
  }

  lemma {:induction false} FramesHaveNoBreak(messages: seq<string>)
    ensures forall i :: 0 <= i < |FramesOf(messages)| ==> NoBreak(FramesOf(messages)[i] + "\n")
  {
    if messages != [] {
      MessageLinesAre(messages[0]);
      FrameHasNoBreak(MessageLines(messages[0]));
      FramesHaveNoBreak(messages[1..]);
    }
  }

  lemma FramesRecovered(messages: seq<string>)
    ensures Frames(Print(messages)) == FramesOf(messages) && Tail(Print(messages)) == ""
  {
    FramesHaveNoBreak(messages);
    assert Print(messages) == Written(FramesOf(messages)) + "";
    CutCharacterised(Print(messages), FramesOf(messages), "");
  }

  // ----- Lines are found again, up to the white space the reader drops -----

  /** What is left of the lines of a message: a carriage return before a line end and leading white space go. */
  function ReceivedLines(lines: seq<string>): (received: seq<string>)
    requires |lines| > 0
    ensures |received| == |lines|
  {
    if |lines| == 1 then [TrimStart(lines[0])] else [TrimStart(StripCr(lines[0]))] + ReceivedLines(lines[1..])
  }

  lemma TrimPrinted(line: string)
    ensures DataLines(["data: " + line]) == [TrimStart(line)]
  {
    var printed := "data: " + line;
    assert "data:" <= printed;
    assert printed[5..] == " " + line;
    assert (" " + line)[1..] == line;
    assert DataLines([printed][1..]) == [];
  }

  lemma FirstLineApart(lines: seq<string>)
    requires |lines| > 1 && SingleLine(lines[0])
    ensures Lines(FrameOf(lines)) == ["data: " + StripCr(lines[0])] + Lines(FrameOf(lines[1..]))
  {
    var first := "data: " + lines[0];
    var frame := FrameOf(lines);
    assert frame == first + "\n" + FrameOf(lines[1..]);
    assert frame[|first|] == '\n';
    assert LineEnd(frame) == |first|;
    assert frame[..|first|] == first && frame[|first| + 1..] == FrameOf(lines[1..]);
    assert StripCr(first) == "data: " + StripCr(lines[0]);
  }

  lemma DataLinesApart(first: string, rest: seq<string>)
    ensures DataLines([first] + rest) == DataLines([first]) + DataLines(rest)
  {
    assert ([first] + rest)[1..] == rest && [first][1..] == [];
  }

  lemma {:induction false} LinesRecovered(lines: seq<string>)
    requires |lines| > 0 && forall i :: 0 <= i < |lines| ==> SingleLine(lines[i])
    ensures DataLines(Lines(FrameOf(lines))) == ReceivedLines(lines)
  {
    if |lines| == 1 {
      assert LineEnd(FrameOf(lines)) < 0;
      TrimPrinted(lines[0]);
    } else {
      LinesRecovered(lines[1..]);
      FirstLineApart(lines);
      TrimPrinted(StripCr(lines[0]));
      DataLinesApart("data: " + StripCr(lines[0]), Lines(FrameOf(lines[1..])));
    }
  }

  // ----- Which messages come back as they were -----

  predicate FaithfulLast(line: string) {
    line == "" || !IsSpace(line[0])
  }

  predicate FaithfulLine(line: string) {
    line == "" || (!IsSpace(line[0]) && line[|line| - 1] != '\r')
  }

  /** No line starts with white space and none but the last ends in a carriage return. */
  ghost predicate FaithfulLines(lines: seq<string>)
    requires |lines| > 0
  {
    && FaithfulLast(lines[|lines| - 1])
    && forall i :: 0 <= i < |lines| - 1 ==> FaithfulLine(lines[i])
  }

  ghost predicate Faithful(message: string) {
    message != "" && FaithfulLines(MessageLines(message))
  }

  lemma LineReceived(line: string)
    ensures |TrimStart(StripCr(line))| <= |line|
    ensures |TrimStart(StripCr(line))| == |line| <==> FaithfulLine(line)
    ensures FaithfulLine(line) ==> TrimStart(StripCr(line)) == line
  {
    TrimStartShrinks(StripCr(line));
  }

  lemma FaithfulCons(lines: seq<string>)
    requires |lines| > 1
    ensures FaithfulLines(lines) <==> FaithfulLine(lines[0]) && FaithfulLines(lines[1..])
  {
    var rest := lines[1..];
    assert rest[|rest| - 1] == lines[|lines| - 1];
    assert forall i :: 1 <= i < |lines| ==> lines[i] == rest[i - 1];
    assert forall i :: 0 <= i < |rest| ==> rest[i] == lines[i + 1];
  }

  /** The received lines join to a text of the same length exactly when nothing was dropped. */
  lemma {:induction false} LinesReceived(lines: seq<string>)
    requires |lines| > 0
    ensures |Join(ReceivedLines(lines), "\n")| <= |Join(lines, "\n")|
    ensures |Join(ReceivedLines(lines), "\n")| == |Join(lines, "\n")| <==> FaithfulLines(lines)
    ensures FaithfulLines(lines) ==> ReceivedLines(lines) == lines
  {
    if |lines| == 1 {
      TrimStartShrinks(lines[0]);
    } else {
      LineReceived(lines[0]);
      LinesReceived(lines[1..]);
      FaithfulCons(lines);
      var received := ReceivedLines(lines);
      assert received[1..] == ReceivedLines(lines[1..]);
      assert Join(received, "\n") == received[0] + "\n" + Join(received[1..], "\n");
      assert lines == [lines[0]] + lines[1..];
    }
  }

  /** A message comes back unchanged from its own frame exactly when it is faithful. */
  lemma MessageReceived(message: string)
    ensures |FrameData(FrameOf(MessageLines(message)))| <= |message|
    ensures FrameData(FrameOf(MessageLines(message))) == message <==> FaithfulLines(MessageLines(message))
  {
    MessageLinesAre(message);
    LinesRecovered(MessageLines(message));
    LinesReceived(MessageLines(message));
  }

  // ----- Whole streams -----

  /** At most one data string per message comes out; as many as messages only if none is empty. */
  lemma {:induction false} DatasReceived(messages: seq<string>)
    ensures |Datas(FramesOf(messages))| <= |messages|
    ensures Datas(FramesOf(messages)) == messages <==> forall i :: 0 <= i < |messages| ==> Faithful(messages[i])
  {
    if messages != [] {
      var rest := messages[1..];
      DatasReceived(rest);
      MessageReceived(messages[0]);
      var frames := FramesOf(messages);
      assert frames[1..] == FramesOf(rest);
      var data := FrameData(frames[0]);
      assert messages == [messages[0]] + rest;
      if data != "" {
        assert Datas(frames) == [data] + Datas(FramesOf(rest));
        assert Datas(frames)[1..] == Datas(FramesOf(rest));
      }
      assert (forall i :: 0 <= i < |messages| ==> Faithful(messages[i])) <==>
             Faithful(messages[0]) && forall i :: 0 <= i < |rest| ==> Faithful(rest[i]);
    }
  }

  lemma {:induction false} EventsFromDatas(parse: JsonParser, frames: seq<string>)
    ensures Events(parse, frames) == EventsOfDatas(parse, Datas(frames))
  {
    if frames != [] {
      EventsFromDatas(parse, frames[1..]);
      assert frames == [frames[0]] + frames[1..];
      EventsConcat(parse, [frames[0]], frames[1..]);
      assert [frames[0]][..0] == [];
      var data := FrameData(frames[0]);
      if data == "" {
        assert Datas(frames) == Datas(frames[1..]);
        assert Events(parse, [frames[0]]) == [];
      } else {
        assert Datas(frames) == [data] + Datas(frames[1..]);
        assert Datas(frames)[1..] == Datas(frames[1..]);
        assert Events(parse, [frames[0]]) == match EventOf(parse, data) case None => [] case Some(event) => [event];
      }
    }
  }

  /**
   * Messages printed to a stream and cut into chunks in any way: the data strings that the buffered
   * reader finds are the messages, exactly and in order, if and only if every one of them is faithful.
   */
  lemma PrintReadRoundTrip(messages: seq<string>, chunks: seq<string>)
    requires Concat(chunks) == Print(messages)
    ensures Datas(ReadFrames(chunks)) == messages <==> forall i :: 0 <= i < |messages| ==> Faithful(messages[i])
    ensures Residue(chunks) == ""
  {
    ReadFramesWhole(chunks, "");
    assert "" + Concat(chunks) == Print(messages);
    FramesRecovered(messages);
    DatasReceived(messages);
  }

  /** The events of such a stream are those of the messages themselves. */
  lemma PrintedEvents(parse: JsonParser, messages: seq<string>, chunks: seq<string>)
    requires Concat(chunks) == Print(messages)
    requires forall i :: 0 <= i < |messages| ==> Faithful(messages[i])
    ensures Events(parse, ReadFrames(chunks)) == EventsOfDatas(parse, messages)
  {
    PrintReadRoundTrip(messages, chunks);
    EventsFromDatas(parse, ReadFrames(chunks));
  }
}
