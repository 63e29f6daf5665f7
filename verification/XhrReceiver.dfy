/**
  The streaming receiver that cuts a growing response text into newline-terminated
  frames (`cluster/wwwroot/sockjs.js`, `XhrReceiver`).
 */
module XhrReceiver {
  import opened Texts

  /** The index of the first line feed; the length when there is none. */
  function IndexOfLF(text: Text): (i: nat)
    ensures i <= |text| && LF !in text[..i]
    ensures i < |text| ==> text[i] == LF
  {
    if text == [] || text[0] == LF then 0
    else
      assert forall k :: 1 <= k < 1 + IndexOfLF(text[1..]) ==> text[k] == text[1..][k - 1];
      assert forall k :: 0 <= k < IndexOfLF(text[1..]) ==> text[1..][..IndexOfLF(text[1..])][k] != LF;
      1 + IndexOfLF(text[1..])
  }

  /** The lines of `text` that a line feed ends, without it. */
  function Lines(text: Text): seq<Text>
    decreases |text|
  {
    var i := IndexOfLF(text);
    if i == |text| then [] else [text[..i]] + Lines(text[i + 1..])
  }

  /** What follows the last line feed of `text`. */
  function Unfinished(text: Text): Text
    decreases |text|
  {
    var i := IndexOfLF(text);
    if i == |text| then text else Unfinished(text[i + 1..])
  }

  function NonEmpty(lines: seq<Text>): seq<Text> {
    if lines == [] then []
    else if lines[0] == [] then NonEmpty(lines[1..])
    else [lines[0]] + NonEmpty(lines[1..])
  }

  function Terminated(lines: seq<Text>): Text {
    if lines == [] then [] else lines[0] + [LF] + Terminated(lines[1..])
  }

  lemma {:induction false} IndexIs(text: Text, k: nat)
    requires k <= |text| && LF !in text[..k] && (k < |text| ==> text[k] == LF)
    ensures IndexOfLF(text) == k
    decreases |text|
  {
    if k > 0 {
      assert text[..k][0] == text[0];
      assert text[1..][..k - 1] == text[..k][1..];
      IndexIs(text[1..], k - 1);
    }
  }

  lemma CutNone(text: Text)
    requires LF !in text
    ensures Lines(text) == [] && Unfinished(text) == text
  {
    assert text[..|text|] == text;
    IndexIs(text, |text|);
  }

  lemma CutOne(line: Text, rest: Text)
    requires LF !in line
    ensures Lines(line + [LF] + rest) == [line] + Lines(rest)
    ensures Unfinished(line + [LF] + rest) == Unfinished(rest)
  {
    hide IndexOfLF;
    var text := line + [LF] + rest;
    assert text[..|line|] == line && text[|line| + 1..] == rest;
    IndexIs(text, |line|);
  }

  /** Cutting `text` at its line feeds loses nothing. */
  lemma {:induction false} LinesCutText(text: Text)
    ensures text == Terminated(Lines(text)) + Unfinished(text)
    ensures LF !in Unfinished(text) && forall l <- Lines(text) :: LF !in l
    decreases |text|
  {
    hide IndexOfLF, Lines, Unfinished;
    var i := IndexOfLF(text);
    if i == |text| {
      assert text[..i] == text;
      CutNone(text);
    } else {
      var line, rest := text[..i], text[i + 1..];
      assert text == line + [LF] + rest;
      LinesCutText(rest);
      CutOne(line, rest);
      assert ([line] + Lines(rest))[1..] == Lines(rest);
      assert text == line + [LF] + (Terminated(Lines(rest)) + Unfinished(rest));
    }
  }

  /** Any way to cut `text` at all its line feeds is `Lines` and `Unfinished`. */
  lemma {:induction false} LinesOfCut(lines: seq<Text>, tail: Text)
    requires LF !in tail && forall l <- lines :: LF !in l
    ensures Lines(Terminated(lines) + tail) == lines
    decreases |lines|
  {
    hide IndexOfLF, Lines, Unfinished;
    if lines == [] {
      assert Terminated(lines) + tail == tail;
      CutNone(tail);
    } else {
      var rest := Terminated(lines[1..]) + tail;
      assert Terminated(lines) + tail == lines[0] + [LF] + rest;
      CutOne(lines[0], rest);
      LinesOfCut(lines[1..], tail);
      assert lines == [lines[0]] + lines[1..];
    }
  }

  // ---------- the handler ----------

  /** Where the text after the last line feed begins. */
  function Position(text: Text): (p: nat)
  {
    |Terminated(Lines(text))|
  }

  datatype State = State(position: nat, emitted: seq<Text>)
  datatype Chunk = Chunk(status: int, text: Text)

  function Slice(text: Text, position: nat): Text {
    if position <= |text| then text[position..] else []
  }

  function AfterChunk(s: State, c: Chunk): State {
    if c.status != 200 || c.text == [] then s
    else
      Finished(s, Slice(c.text, s.position))
  }

  lemma FirstLine(line: Text, rest: Text)
    requires LF !in line
    ensures Position(line + [LF] + rest) == |line| + 1 + Position(rest)
    ensures NonEmpty(Lines(line + [LF] + rest)) == (if line == [] then [] else [line]) + NonEmpty(Lines(rest))
  {
    hide Lines;
    CutOne(line, rest);
    assert ([line] + Lines(rest))[1..] == Lines(rest);
  }

  lemma NoLine(buf: Text)
    requires LF !in buf
    ensures Position(buf) == 0 && NonEmpty(Lines(buf)) == []
  {
    CutNone(buf);
  }

  /** The state once the rest `buf` of the text has been cut. */
  function Finished(s: State, buf: Text): State {
    State(s.position + Position(buf), s.emitted + NonEmpty(Lines(buf)))
  }

  lemma FinishedStep(s: State, buf: Text, i: nat)
    requires i == IndexOfLF(buf) < |buf|
    ensures Finished(s, buf)
         == Finished(State(s.position + i + 1, if i == 0 then s.emitted else s.emitted + [buf[..i]]), buf[i + 1..])
  {
    hide Lines, NonEmpty, Position, IndexOfLF;
    var line, rest := buf[..i], buf[i + 1..];
    assert buf == line + [LF] + rest;
    FirstLine(line, rest);
    Regroup(s.emitted, [line], NonEmpty(Lines(rest)));
    Regroup(s.emitted, [], NonEmpty(Lines(rest)));
  }

  lemma Regroup(a: seq<Text>, b: seq<Text>, c: seq<Text>)
    ensures a + (b + c) == a + b + c && a + [] == a
  {
  }

  lemma SliceAdvance(text: Text, position: nat, k: nat)
    requires k <= |Slice(text, position)|
    ensures Slice(text, position + k) == Slice(text, position)[k..]
  {
  }

  lemma NothingFinished(s: State, buf: Text)
    requires IndexOfLF(buf) == |buf|
    ensures Finished(s, buf) == s
  {
    assert buf[..|buf|] == buf;
    NoLine(buf);
  }

  lemma NothingLeft()
    ensures Position([]) == 0 && NonEmpty([]) == [] && Lines([]) == []
  {
    CutNone([]);
  }

  class Receiver {
    var bufferPosition: nat
    var emitted: seq<Text>

    constructor ()
      ensures bufferPosition == 0 && emitted == []
    {
      bufferPosition, emitted := 0, [];
    }

    ghost function Now(): State
      reads this
    {
      State(bufferPosition, emitted)
    }

    /** `emit('message', msg)`. */
    method Emit(msg: Text)
      modifies this`emitted
      ensures emitted == old(emitted) + [msg]
    {
      emitted := emitted + [msg];
    }

    /** `_chunkHandler(status, text)`. */
    method ChunkHandler(status: int, text: Text)
      modifies this
      ensures Now() == AfterChunk(old(Now()), Chunk(status, text))
    {
      if status != 200 || |text| == 0 { return; }
      hide Finished, Slice;
      CutLines(text);
    }

    /** The loop of the handler. */
    method CutLines(text: Text)
      modifies this
      ensures Now() == Finished(old(Now()), Slice(text, old(bufferPosition)))
    {
      hide Finished, IndexOfLF, Slice;
      ghost var goal := Finished(Now(), Slice(text, bufferPosition));
      while true
        invariant goal == Finished(Now(), Slice(text, bufferPosition))
        decreases |Slice(text, bufferPosition)|
      {
        var buf := Slice(text, bufferPosition);
        var idx := IndexOfLF(buf);
        if idx == |buf| {
          NothingFinished(Now(), buf);
          break;
        }
        FinishedStep(Now(), buf, idx);
        SliceAdvance(text, bufferPosition, idx + 1);
        if idx > 0 {
          Emit(buf[..idx]);
        }
        bufferPosition := bufferPosition + idx + 1;
      }
    }
  }

  // ---------- runs over a growing text ----------

  function Run(chunks: seq<Chunk>): State {
    if chunks == [] then State(0, []) else AfterChunk(Run(chunks[..|chunks| - 1]), chunks[|chunks| - 1])
  }

  /** The text of the last chunk the handler looks at. */
  function LastText(chunks: seq<Chunk>): Text {
    if chunks == [] then []
    else
      var c := chunks[|chunks| - 1];
      if c.status == 200 && c.text != [] then c.text else LastText(chunks[..|chunks| - 1])
  }

  /** Every text the handler looks at continues the one before. */
  predicate Growing(chunks: seq<Chunk>) {
    chunks == []
    || (var init := chunks[..|chunks| - 1];
        var c := chunks[|chunks| - 1];
        Growing(init) && (c.status == 200 && c.text != [] ==> LastText(init) <= c.text))
  }

  lemma {:induction false} NonEmptyConcat(a: seq<Text>, b: seq<Text>)
    ensures NonEmpty(a + b) == NonEmpty(a) + NonEmpty(b)
    decreases |a|
  {
    if a == [] {
      assert a + b == b;
    } else {
      assert (a + b)[1..] == a[1..] + b;
      NonEmptyConcat(a[1..], b);
    }
  }

  lemma {:induction false} TerminatedConcat(a: seq<Text>, b: seq<Text>)
    ensures Terminated(a + b) == Terminated(a) + Terminated(b)
    decreases |a|
  {
    if a == [] {
      assert a + b == b;
    } else {
      assert (a + b)[1..] == a[1..] + b;
      TerminatedConcat(a[1..], b);
      assert a[0] + [LF] + (Terminated(a[1..]) + Terminated(b)) == (a[0] + [LF] + Terminated(a[1..])) + Terminated(b);
    }
  }

  /** Cutting the longer text is cutting the shorter one and then what lies behind its last line feed. */
  lemma GrowingCut(earlier: Text, text: Text)
    requires earlier <= text
    ensures Position(earlier) <= |text|
    ensures Lines(text) == Lines(earlier) + Lines(text[Position(earlier)..])
  {
    hide Lines, Unfinished, Terminated;
    LinesCutText(earlier);
    var done, buf := Lines(earlier), text[Position(earlier)..];
    LinesCutText(buf);
    TerminatedConcat(done, Lines(buf));
    SplitAtPrefix(text, Terminated(done), Unfinished(earlier));
    assert Terminated(done) + (Terminated(Lines(buf)) + Unfinished(buf))
        == Terminated(done + Lines(buf)) + Unfinished(buf);
    LinesOfCut(done + Lines(buf), Unfinished(buf));
  }

  lemma SplitAtPrefix(text: Text, a: Text, b: Text)
    requires a + b <= text
    ensures |a| <= |text| && text == a + text[|a|..]
  {
    assert text[..|a + b|] == a + b;
    assert text[..|a|] == (a + b)[..|a|];
  }

  /**
    However the response was chunked, the messages emitted are exactly the non-empty
    newline-terminated lines of the last text, each once and in order.
   */
  lemma {:induction false} EmitsEachLineOnce(chunks: seq<Chunk>)
    requires Growing(chunks)
    ensures Run(chunks).emitted == NonEmpty(Lines(LastText(chunks)))
    ensures Run(chunks).position == Position(LastText(chunks))
    decreases |chunks|
  {
    hide Lines, Terminated;
    if chunks == [] {
      NothingLeft();
    } else {
      var init, c := chunks[..|chunks| - 1], chunks[|chunks| - 1];
      EmitsEachLineOnce(init);
      if c.status == 200 && c.text != [] {
        var before := LastText(init);
        GrowingCut(before, c.text);
        NonEmptyConcat(Lines(before), Lines(c.text[Position(before)..]));
        TerminatedConcat(Lines(before), Lines(c.text[Position(before)..]));
      }
    }
  }
}
