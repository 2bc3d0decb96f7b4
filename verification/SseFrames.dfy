/** packages/api-client/src/chat-client.ts: cutting the event stream text into frames at blank lines. */
module SseFrames {
  import opened Text

  const BREAK := "\n\n"

  predicate BreakAt(s: string, i: nat) {
    i + 1 < |s| && s[i] == '\n' && s[i + 1] == '\n'
  }

  ghost predicate NoBreak(s: string) {
    forall i: nat :: !BreakAt(s, i)
  }

  /** The position of the first blank line at or after `i`, or -1. */
  function FindBreak(s: string, i: nat := 0): (r: int)
    requires i <= |s|
    ensures r < 0 ==> forall j: nat :: i <= j ==> !BreakAt(s, j)
    ensures 0 <= r ==> i <= r && BreakAt(s, r) && forall j: nat :: i <= j < r ==> !BreakAt(s, j)
    decreases |s| - i
  {
    if BreakAt(s, i) then i else if i == |s| then -1 else FindBreak(s, i + 1)
  }

  /** All pieces of `split` at the blank lines but the last: the complete frames. */
  function Frames(s: string): seq<string>
    decreases |s|
  {
    var i := FindBreak(s);
    if i < 0 then [] else [s[..i]] + Frames(s[i + 2..])
  }

  /** The last piece of `split`: the text after the last complete frame. */
  function Tail(s: string): string
    decreases |s|
  {
    var i := FindBreak(s);
    if i < 0 then s else Tail(s[i + 2..])
  }

  /** Frames written one after the other, each ended by a blank line. */
  function Written(frames: seq<string>): string {
    if frames == [] then "" else frames[0] + BREAK + Written(frames[1..])
  }

  /**
   * The leftmost non-overlapping cut, said without an algorithm: the pieces make up the text, no
   * blank line starts inside a frame (not even with the line end that closes it), none is in the tail.
   */
  ghost predicate IsCut(s: string, frames: seq<string>, tail: string) {
    && s == Written(frames) + tail
    && (forall i :: 0 <= i < |frames| ==> NoBreak(frames[i] + "\n"))
    && NoBreak(tail)
  }

  lemma FirstFrame(frame: string, rest: string)
    requires NoBreak(frame + "\n")
    ensures FindBreak(frame + BREAK + rest) == |frame|
  {
    var s := frame + BREAK + rest;
    assert BreakAt(s, |frame|);
    forall j: nat | j < |frame|
      ensures !BreakAt(s, j)
    {
      assert !BreakAt(frame + "\n", j);
    }
  }

  lemma NoBreakBefore(s: string, i: nat)
    requires FindBreak(s) == i
    ensures NoBreak(s[..i] + "\n")
  {
    forall j: nat
      ensures !BreakAt(s[..i] + "\n", j)
    {
      if j < i {
        assert !BreakAt(s, j);
      }
    }
  }

  /** A frame in front of a cut makes a longer cut. */
  lemma CutCons(frame: string, s: string, frames: seq<string>, tail: string)
    requires NoBreak(frame + "\n") && IsCut(s, frames, tail)
    ensures IsCut(frame + BREAK + s, [frame] + frames, tail)
  {
    assert ([frame] + frames)[1..] == frames;
    assert frame + BREAK + (Written(frames) + tail) == (frame + BREAK + Written(frames)) + tail;
  }

  lemma {:induction false} CutIsCut(s: string)
    ensures IsCut(s, Frames(s), Tail(s))
    decreases |s|
  {
    var i := FindBreak(s);
    if i < 0 {
      assert Written([]) + s == s;
    } else {
      CutIsCut(s[i + 2..]);
      NoBreakBefore(s, i);
      CutCons(s[..i], s[i + 2..], Frames(s[i + 2..]), Tail(s[i + 2..]));
      assert s == s[..i] + BREAK + s[i + 2..];
    }
  }

  lemma {:induction false} CutUnique(s: string, frames: seq<string>, tail: string)
    requires IsCut(s, frames, tail)
    ensures Frames(s) == frames && Tail(s) == tail
    decreases |frames|
  {
    if frames == [] {
      assert s == tail;
    } else {
      var rest := Written(frames[1..]) + tail;
      assert s == frames[0] + BREAK + rest;
      FirstFrame(frames[0], rest);
      assert s[..|frames[0]|] == frames[0] && s[|frames[0]| + 2..] == rest;
      assert frames == [frames[0]] + frames[1..];
      CutUnique(rest, frames[1..], tail);
    }
  }

  /** `Frames` and `Tail` are the one leftmost cut of a text. */
  lemma CutCharacterised(s: string, frames: seq<string>, tail: string)
    ensures IsCut(s, frames, tail) <==> frames == Frames(s) && tail == Tail(s)
  {
    CutIsCut(s);
    if IsCut(s, frames, tail) {
      CutUnique(s, frames, tail);
    }
  }

  lemma {:induction false} WrittenConcat(x: seq<string>, y: seq<string>)
    ensures Written(x + y) == Written(x) + Written(y)
  {
    if x == [] {
      assert x + y == y;
    } else {
      assert (x + y)[0] == x[0] && (x + y)[1..] == x[1..] + y;
      WrittenConcat(x[1..], y);
      assert x[0] + BREAK + (Written(x[1..]) + Written(y)) == (x[0] + BREAK + Written(x[1..])) + Written(y);
    }
  }

  /** Frames found so far stay found: only the tail meets the text that follows. */
  lemma CutExtends(a: string, b: string)
    ensures Frames(a + b) == Frames(a) + Frames(Tail(a) + b)
    ensures Tail(a + b) == Tail(Tail(a) + b)
  {
    CutIsCut(a);
    CutIsCut(Tail(a) + b);
    ExtendCut(a, Frames(a), Tail(a), b, Frames(Tail(a) + b), Tail(Tail(a) + b));
    CutUnique(a + b, Frames(a) + Frames(Tail(a) + b), Tail(Tail(a) + b));
  }

  /** A cut of the tail with more text extends a cut of the text before. */
  lemma ExtendCut(a: string, frames: seq<string>, tail: string, b: string, more: seq<string>, tail': string)
    requires IsCut(a, frames, tail) && IsCut(tail + b, more, tail')
    ensures IsCut(a + b, frames + more, tail')
  {
    WrittenConcat(frames, more);
    assert a + b == Written(frames) + (tail + b);
    assert Written(frames) + (Written(more) + tail') == (Written(frames) + Written(more)) + tail';
  }

  // ----- The reader, chunk by chunk -----

  /** The frames found as chunks arrive: each chunk meets only what the buffer kept of those before. */
  function ReadFrames(chunks: seq<string>, buffer: string := ""): seq<string> {
    if chunks == [] then []
    else Frames(buffer + chunks[0]) + ReadFrames(chunks[1..], Tail(buffer + chunks[0]))
  }

  /** What the buffer holds when the chunks have been read. */
  function Residue(chunks: seq<string>, buffer: string := ""): string {
    if chunks == [] then buffer else Residue(chunks[1..], Tail(buffer + chunks[0]))
  }

  lemma TailIsTail(s: string)
    ensures Frames(Tail(s)) == [] && Tail(Tail(s)) == Tail(s)
  {
    CutIsCut(s);
    assert IsCut(Tail(s), [], Tail(s)) by { assert Written([]) + Tail(s) == Tail(s); }
    CutUnique(Tail(s), [], Tail(s));
  }

  /** However a text is cut, reading it chunk by chunk finds the frames of the whole text and keeps its tail. */
  lemma {:induction false} ReadFramesWhole(chunks: seq<string>, buffer: string)
    requires Frames(buffer) == [] && Tail(buffer) == buffer
    ensures ReadFrames(chunks, buffer) == Frames(buffer + Concat(chunks))
    ensures Residue(chunks, buffer) == Tail(buffer + Concat(chunks))
    decreases |chunks|
  {
    if chunks == [] {
      assert buffer + Concat(chunks) == buffer;
    } else {
      var first, rest := buffer + chunks[0], Concat(chunks[1..]);
      TailIsTail(first);
      ReadFramesWhole(chunks[1..], Tail(first));
      CutExtends(first, rest);
      ConcatCons(chunks);
      assert buffer + Concat(chunks) == first + rest;
    }
  }

  /** One more chunk is read from what the chunks before left in the buffer. */
  lemma {:induction false} ReadOneMore(chunks: seq<string>, chunk: string, buffer: string)
    ensures ReadFrames(chunks + [chunk], buffer) ==
            ReadFrames(chunks, buffer) + Frames(Residue(chunks, buffer) + chunk)
    ensures Residue(chunks + [chunk], buffer) == Tail(Residue(chunks, buffer) + chunk)
    decreases |chunks|
  {
    var all := chunks + [chunk];
    if chunks == [] {
      assert all[1..] == [];
    } else {
      assert all[0] == chunks[0] && all[1..] == chunks[1..] + [chunk];
      ReadOneMore(chunks[1..], chunk, Tail(buffer + chunks[0]));
    }
  }

  /** The reader's frames depend on the text only, not on where it was cut. */
  lemma FramesIgnoreCuts(one: seq<string>, other: seq<string>)
    requires Concat(one) == Concat(other)
    ensures ReadFrames(one) == ReadFrames(other) == Frames(Concat(one))
  {
    ReadFramesWhole(one, "");
    ReadFramesWhole(other, "");
    assert "" + Concat(one) == Concat(one);
  }


  /** A blank line is two line feeds, where it is looked for and where it is written. */
  lemma BreakIsBlankLine(s: string, i: nat)
    ensures BreakAt(s, i) <==> i + 2 <= |s| && s[i..i + 2] == "\n\n"
    ensures BREAK == "\n\n"
  {
  }
}
