/** The decoder over whole streams: chunking never shows, and what the server prints comes back. */
module SseStream {
  import opened Prelude
  import opened SseDecoder

  // ---- A reference over the whole body ----

  /** The complete lines of a body, without their line ends. */
  function Lines(body: seq<Byte>): seq<seq<Byte>>
    decreases |body|
  {
    var i := FirstLF(body);
    if i == |body| then [] else [StripCR(body[..i])] + Lines(body[i + 1..])
  }

  /** What follows the last line feed. */
  function Tail(body: seq<Byte>): seq<Byte>
    decreases |body|
  {
    var i := FirstLF(body);
    if i == |body| then body else Tail(body[i + 1..])
  }

  /** Events are runs of non-empty lines between empty ones; the unterminated tail joins the last run. */
  function Events(lines: seq<seq<Byte>>, open: seq<Byte>, tail: seq<Byte>): seq<seq<Byte>>
    decreases |lines|
  {
    if lines == [] then (if open + tail == [] then [] else [open + tail])
    else if lines[0] != [] then Events(lines[1..], open + lines[0] + [LF], tail)
    else (if open == [] then [] else [open]) + Events(lines[1..], [], tail)
  }

  /** Frames in order, up to the end or to the first event that does not decode. */
  datatype Decoded<F> = Decoded(frames: seq<F>, ok: bool)

  function Before<F>(frames: seq<F>, d: Decoded<F>): Decoded<F> {
    d.(frames := frames + d.frames)
  }

  function DecodeEvents<F>(events: seq<seq<Byte>>, decode: JsonDecoder<F>): Decoded<F> {
    if events == [] then Decoded([], true)
    else
      var r := DecodeEvent(events[0], decode);
      if r.Failure? then Decoded([], false) else Before(r.value, DecodeEvents(events[1..], decode))
  }

  function Reference<F>(body: seq<Byte>, decode: JsonDecoder<F>): Decoded<F> {
    DecodeEvents(Events(Lines(body), [], Tail(body)), decode)
  }

  // ---- The client ----

  function Concat(chunks: seq<seq<Byte>>): seq<Byte> {
    if chunks == [] then [] else chunks[0] + Concat(chunks[1..])
  }

  /** What a client gets that pushes chunk after chunk, stops at the first error, and finishes at the end. */
  function StreamDecode<F>(b: Buffers, chunks: seq<seq<Byte>>, decode: JsonDecoder<F>): Decoded<F>
    decreases |chunks|
  {
    if chunks == [] then
      var last := FinishBuffers(b, decode);
      if last.Failure? then Decoded([], false) else Decoded(last.value, true)
    else
      var fed := Feed(b, chunks[0], decode);
      if fed.failed then Decoded([], false)
      else Before(fed.frames, StreamDecode(fed.buffers, chunks[1..], decode))
  }

  /** Finishing after a drain, keeping the frames found before an error. */
  function FinishFed<F>(fed: Fed<F>, decode: JsonDecoder<F>): Decoded<F> {
    if fed.failed then Decoded(fed.frames, false)
    else
      var last := FinishBuffers(fed.buffers, decode);
      if last.Failure? then Decoded(fed.frames, false) else Decoded(fed.frames + last.value, true)
  }

  function DrainAndFinish<F>(b: Buffers, decode: JsonDecoder<F>): Decoded<F> {
    FinishFed(Drain(b, decode), decode)
  }

  lemma FinishPrepended<F>(frames: seq<F>, fed: Fed<F>, decode: JsonDecoder<F>)
    ensures FinishFed(Prepend(frames, fed), decode) == Before(frames, FinishFed(fed, decode))
  {
    hide FinishBuffers;
    var last := FinishBuffers(fed.buffers, decode);
    assert last.Success? ==> frames + fed.frames + last.value == frames + (fed.frames + last.value);
  }

  lemma FirstLFOfAppended(a: seq<Byte>, b: seq<Byte>)
    requires FirstLF(a) < |a|
    ensures FirstLF(a + b) == FirstLF(a)
  {
    var i, k := FirstLF(a), FirstLF(a + b);
    assert (a + b)[i] == LF;
    if k < i { assert (a + b)[k] == a[k]; }
  }

  lemma BeforeTwice<F>(a: seq<F>, b: seq<F>, d: Decoded<F>)
    ensures Before(a + b, d) == Before(a, Before(b, d))
    ensures Before([], d) == d
  {
    assert a + b + d.frames == a + (b + d.frames);
    assert [] + d.frames == d.frames;
  }

  /** The buffers after the next line, and the frames that line brings out. */
  function NextLine(b: Buffers): Buffers
    requires FirstLF(b.pending) < |b.pending|
  {
    var i := FirstLF(b.pending);
    var line := StripCR(b.pending[..i]);
    Buffers(b.pending[i + 1..], if line == [] then [] else b.current + line + [LF])
  }

  function Emits<F>(b: Buffers, decode: JsonDecoder<F>): Result<seq<F>, JsonError>
    requires FirstLF(b.pending) < |b.pending|
  {
    if StripCR(b.pending[..FirstLF(b.pending)]) == [] && b.current != [] then DecodeEvent(b.current, decode)
    else Success([])
  }

  lemma DrainOneLine<F>(b: Buffers, decode: JsonDecoder<F>)
    requires FirstLF(b.pending) < |b.pending|
    ensures var e := Emits(b, decode);
            if e.Failure? then Drain(b, decode).failed && Drain(b, decode).frames == []
            else Drain(b, decode) == Prepend(e.value, Drain(NextLine(b), decode))
  {
    hide DecodeEvent;
    PrependTwice([], [], Drain(NextLine(b), decode));
  }

  lemma FinishOneLine<F>(b: Buffers, decode: JsonDecoder<F>)
    requires FirstLF(b.pending) < |b.pending|
    ensures var e := Emits(b, decode);
            DrainAndFinish(b, decode) ==
            if e.Failure? then Decoded([], false) else Before(e.value, DrainAndFinish(NextLine(b), decode))
  {
    DrainOneLine(b, decode);
    hide Drain, FinishBuffers, Emits, Prepend, Before, NextLine, FirstLF;
    var e := Emits(b, decode);
    if e.Success? {
      FinishPrepended(e.value, Drain(NextLine(b), decode), decode);
    }
  }

  lemma NextLineOfAppended<F>(b: Buffers, more: seq<Byte>, decode: JsonDecoder<F>)
    requires FirstLF(b.pending) < |b.pending|
    ensures var b' := b.(pending := b.pending + more);
            && FirstLF(b'.pending) < |b'.pending|
            && NextLine(b') == NextLine(b).(pending := NextLine(b).pending + more)
            && Emits(b', decode) == Emits(b, decode)
  {
    hide DecodeEvent, StripCR;
    FirstLFOfAppended(b.pending, more);
    var i := FirstLF(b.pending);
    assert (b.pending + more)[..i] == b.pending[..i];
    assert (b.pending + more)[i + 1..] == b.pending[i + 1..] + more;
  }

  lemma {:induction false} DrainInPieces<F>(b: Buffers, more: seq<Byte>, decode: JsonDecoder<F>)
    ensures var fed := Drain(b, decode);
            var whole := DrainAndFinish(b.(pending := b.pending + more), decode);
            && (fed.failed ==> !whole.ok && whole.frames == fed.frames)
            && (!fed.failed ==>
                  && FirstLF(fed.buffers.pending) == |fed.buffers.pending|
                  && whole == Before(fed.frames, DrainAndFinish(fed.buffers.(pending := fed.buffers.pending + more), decode)))
    decreases |b.pending|
  {
    if FirstLF(b.pending) == |b.pending| {
      BeforeTwice([], [], DrainAndFinish(b.(pending := b.pending + more), decode));
    } else {
      var next := NextLine(b);
      hide Drain, DrainAndFinish, NextLine, Emits, FirstLF;
      NextLineOfAppended(b, more, decode);
      DrainOneLine(b, decode);
      FinishOneLine(b.(pending := b.pending + more), decode);
      ShorterRest(b);
      DrainInPieces(next, more, decode);
      var e := Emits(b, decode);
      if e.Success? {
        var fed := Drain(next, decode);
        BeforeTwice(e.value, fed.frames, DrainAndFinish(fed.buffers.(pending := fed.buffers.pending + more), decode));
      }
    }
  }

  lemma ShorterRest(b: Buffers)
    requires FirstLF(b.pending) < |b.pending|
    ensures |NextLine(b).pending| < |b.pending|
  {
  }

  lemma {:induction false} StreamIsDrain<F>(b: Buffers, chunks: seq<seq<Byte>>, decode: JsonDecoder<F>)
    requires FirstLF(b.pending) == |b.pending|
    ensures var got := StreamDecode(b, chunks, decode);
            var whole := DrainAndFinish(b.(pending := b.pending + Concat(chunks)), decode);
            got.ok == whole.ok && got.frames <= whole.frames && (got.ok ==> got.frames == whole.frames)
    decreases |chunks|
  {
    hide DecodeEvent, FinishBuffers;
    if chunks == [] {
      assert b.pending + [] == b.pending;
      var last := FinishBuffers(b, decode);
      assert last.Success? ==> [] + last.value == last.value;
    } else {
      hide Drain, DrainAndFinish, FirstLF;
      var rest := Concat(chunks[1..]);
      var b' := b.(pending := b.pending + chunks[0]);
      assert b.pending + (chunks[0] + rest) == b.pending + chunks[0] + rest;
      DrainInPieces(b', rest, decode);
      var fed := Feed(b, chunks[0], decode);
      if !fed.failed {
        StreamIsDrain(fed.buffers, chunks[1..], decode);
      }
    }
  }

  lemma {:induction false} DrainIsReference<F>(body: seq<Byte>, open: seq<Byte>, decode: JsonDecoder<F>)
    ensures DrainAndFinish(Buffers(body, open), decode) ==
            DecodeEvents(Events(Lines(body), open, Tail(body)), decode)
    decreases |body|
  {
    if FirstLF(body) == |body| {
      LastEvent(body, open, decode);
    } else {
      var b := Buffers(body, open);
      var next := NextLine(b);
      LinesUnfold(body);
      EventsOneLine(StripCR(body[..FirstLF(body)]), Lines(next.pending), open, Tail(next.pending));
      hide DrainAndFinish, Lines, Tail, Events, FirstLF, StripCR;
      FinishOneLine(b, decode);
      DrainIsReference(next.pending, next.current, decode);
      var after := Events(Lines(next.pending), next.current, Tail(next.pending));
      DecodePrepended(Emits(b, decode), open, after, decode);
    }
  }

  lemma LastEvent<F>(body: seq<Byte>, open: seq<Byte>, decode: JsonDecoder<F>)
    requires FirstLF(body) == |body|
    ensures DrainAndFinish(Buffers(body, open), decode) ==
            DecodeEvents(Events(Lines(body), open, Tail(body)), decode)
  {
    hide DecodeEvent;
    if open + body != [] {
      assert [open + body][1..] == [];
      var r := DecodeEvent(open + body, decode);
      assert r.Success? ==> [] + r.value == r.value && r.value + [] == r.value;
    }
  }

  lemma EventsOneLine(line: seq<Byte>, lines: seq<seq<Byte>>, open: seq<Byte>, tail: seq<Byte>)
    ensures Events([line] + lines, open, tail) ==
            if line != [] then Events(lines, open + line + [LF], tail)
            else if open == [] then Events(lines, [], tail)
            else [open] + Events(lines, [], tail)
  {
    assert ([line] + lines)[1..] == lines;
    assert [] + Events(lines, [], tail) == Events(lines, [], tail);
  }

  lemma DecodePrepended<F>(e: Result<seq<F>, JsonError>, text: seq<Byte>, after: seq<seq<Byte>>, decode: JsonDecoder<F>)
    ensures e == Success([]) ==> Before([], DecodeEvents(after, decode)) == DecodeEvents(after, decode)
    ensures e == DecodeEvent(text, decode) ==>
            DecodeEvents([text] + after, decode) ==
            if e.Failure? then Decoded([], false) else Before(e.value, DecodeEvents(after, decode))
  {
    hide DecodeEvent;
    BeforeTwice([], [], DecodeEvents(after, decode));
    assert ([text] + after)[1..] == after;
  }

  /**
    Chunking never shows.  For every body and every way to cut it, the client fails exactly if some event
    of the body fails; it gets all frames if not, and a prefix of the frames before the failure if so.
   */
  lemma ChunkIndependence<F>(chunks: seq<seq<Byte>>, decode: JsonDecoder<F>)
    ensures var got := StreamDecode(Buffers([], []), chunks, decode);
            var correct := Reference(Concat(chunks), decode);
            && got.ok == correct.ok
            && got.frames <= correct.frames
            && (got.ok ==> got.frames == correct.frames)
            && ParseFrames(Concat(chunks), decode) ==
               (if correct.ok then Success(correct.frames) else Failure(JsonError))
  {
    hide DecodeEvent;
    StreamIsDrain(Buffers([], []), chunks, decode);
    assert [] + Concat(chunks) == Concat(chunks);
    DrainIsReference(Concat(chunks), [], decode);
  }

  // ---- What the server prints ----

  /** `id:`, and the colon that starts a comment. */
  const ID_PREFIX: seq<Byte> := [105, 100, 58]
  const COLON: Byte := 58
  /** `data:` */
  const DATA_FIELD: seq<Byte> := [100, 97, 116, 97, 58]

  /** One block of the stream: an event with its id and JSON text, or a comment such as a keep-alive. */
  datatype Block<F> =
    | Event(frame: F, id: seq<Byte>, json: seq<Byte>, crlf: bool)
    | Comment(text: seq<Byte>, crlf: bool)

  predicate Clean(line: seq<Byte>) {
    LF !in line && CR !in line
  }

  ghost predicate Printable<F>(block: Block<F>, decode: JsonDecoder<F>) {
    match block
    case Event(frame, id, json, _) => Clean(id) && Clean(json) && decode(json) == Some(frame)
    case Comment(text, _) => Clean(text)
  }

  function PrintLine(line: seq<Byte>, crlf: bool): seq<Byte> {
    if crlf then line + [CR, LF] else line + [LF]
  }

  function PrintBlock<F>(block: Block<F>): seq<Byte> {
    match block
    case Event(_, id, json, crlf) =>
      PrintLine(ID_PREFIX + id, crlf) + (PrintLine(DATA_FIELD + json, crlf) + PrintLine([], crlf))
    case Comment(text, crlf) => PrintLine([COLON] + text, crlf) + PrintLine([], crlf)
  }

  function PrintBlocks<F>(blocks: seq<Block<F>>): seq<Byte> {
    if blocks == [] then [] else PrintBlock(blocks[0]) + PrintBlocks(blocks[1..])
  }

  function FramesIn<F>(blocks: seq<Block<F>>): seq<F> {
    if blocks == [] then []
    else (if blocks[0].Event? then [blocks[0].frame] else []) + FramesIn(blocks[1..])
  }

  lemma PrintedLineIsRead(line: seq<Byte>, crlf: bool, rest: seq<Byte>)
    requires Clean(line)
    ensures Lines(PrintLine(line, crlf) + rest) == [line] + Lines(rest)
    ensures Tail(PrintLine(line, crlf) + rest) == Tail(rest)
  {
    hide Lines, Tail;
    var body := PrintLine(line, crlf) + rest;
    var end := if crlf then |line| + 1 else |line|;
    assert body[end] == LF;
    assert forall k | 0 <= k < end :: body[k] != LF;
    assert FirstLF(body) == end;
    assert body[end + 1..] == rest;
    assert StripCR(body[..end]) == line by {
      if crlf { assert body[..end] == line + [CR]; assert (line + [CR])[..|line|] == line; } else { assert body[..end] == line; }
    }
    LinesUnfold(body);
  }

  lemma LinesUnfold(body: seq<Byte>)
    requires FirstLF(body) < |body|
    ensures Lines(body) == [StripCR(body[..FirstLF(body)])] + Lines(body[FirstLF(body) + 1..])
    ensures Tail(body) == Tail(body[FirstLF(body) + 1..])
  {
  }

  lemma SplitAtLF(a: seq<Byte>, b: seq<Byte>)
    requires LF !in a
    ensures SplitLF(a + [LF] + b) == [a] + SplitLF(b)
  {
    var s := a + [LF] + b;
    assert s[|a|] == LF;
    assert FirstLF(s) == |a|;
    assert s[..|a|] == a && s[|a| + 1..] == b;
  }

  lemma NotData(line: seq<Byte>)
    requires line != [] && line[0] != DATA_PREFIX[0]
    ensures !(DATA_PREFIX <= StripCR(line))
  {
  }

  /** The event text a printed block collects decodes to the block's frame, or to none for a comment. */
  lemma BlockTextDecodes<F>(block: Block<F>, decode: JsonDecoder<F>)
    requires Printable(block, decode)
    ensures block.Event? ==>
              DecodeEvent([] + (ID_PREFIX + block.id) + [LF] + (DATA_FIELD + block.json) + [LF], decode) == Success([block.frame])
    ensures block.Comment? ==> DecodeEvent([] + ([COLON] + block.text) + [LF], decode) == Success([])
  {
    hide SplitLF, FirstLF;
    SplitEmpty();
    var blank: seq<seq<Byte>> := [[]];
    assert blank[1..] == [];
    match block
    case Event(frame, id, json, _) =>
      var (first, second) := (ID_PREFIX + id, DATA_FIELD + json);
      var text := [] + first + [LF] + second + [LF];
      assert text == first + [LF] + (second + [LF] + []);
      SplitAtLF(first, second + [LF] + []);
      SplitAtLF(second, []);
      var lines := SplitLF(text);
      assert lines == [first, second, []];
      NotData(first);
      DataLineAdds(json);
      assert AddLines(None, lines) == AddLines(None, [second, []]) by { assert lines[1..] == [second, []]; }
      assert AddLines(None, [second, []]) == AddLines(Some(json), blank) by { assert [second, []][1..] == blank; }
      assert AddLines(Some(json), blank) == Some(json);
    case Comment(text, _) =>
      var line := [COLON] + text;
      var whole := [] + line + [LF];
      assert whole == line + [LF] + [];
      SplitAtLF(line, []);
      assert SplitLF(whole) == [line, []];
      NotData(line);
      assert AddLines(None, [line, []]) == AddLines(None, blank) by { assert [line, []][1..] == blank; }
      assert AddLines(None, blank) == None;
  }

  lemma SplitEmpty()
    ensures SplitLF([]) == [[]]
  {
  }

  lemma DataLineAdds(json: seq<Byte>)
    requires Clean(json)
    ensures AddLine(None, DATA_FIELD + json) == Some(json)
  {
    var line := DATA_FIELD + json;
    assert line[|line| - 1] != CR;
    assert StripCR(line) == line && line[|DATA_PREFIX|..] == json;
  }

  /** Printed blocks come first as their frames, whatever follows them. */
  lemma {:induction false} PrintedBlocksThen<F>(blocks: seq<Block<F>>, rest: seq<Byte>, decode: JsonDecoder<F>)
    requires forall block | block in blocks :: Printable(block, decode)
    ensures Reference(PrintBlocks(blocks) + rest, decode) == Before(FramesIn(blocks), Reference(rest, decode))
  {
    hide DecodeEvent, Lines, Tail, PrintLine, PrintBlock, Printable;
    if blocks == [] {
      assert [] + rest == rest;
      BeforeTwice([], [], Reference(rest, decode));
    } else {
      var (block, more) := (blocks[0], PrintBlocks(blocks[1..]) + rest);
      PrintedBlocksThen(blocks[1..], rest, decode);
      assert PrintBlock(block) + PrintBlocks(blocks[1..]) + rest == PrintBlock(block) + more;
      if block.Event? {
        PrintedEventThen(block, more, decode);
      } else {
        PrintedCommentThen(block, more, decode);
      }
      hide Reference;
      var frames := if block.Event? then [block.frame] else [];
      BeforeTwice(frames, FramesIn(blocks[1..]), Reference(rest, decode));
    }
  }

  lemma PrintedEventThen<F>(block: Block<F>, rest: seq<Byte>, decode: JsonDecoder<F>)
    requires block.Event? && Printable(block, decode)
    ensures Reference(PrintBlock(block) + rest, decode) == Before([block.frame], Reference(rest, decode))
  {
    BlockTextDecodes(block, decode);
    EventLines(block, rest);
    hide DecodeEvent, Lines, Tail, PrintBlock, Events, DecodeEvents;
    var (first, second) := (ID_PREFIX + block.id, DATA_FIELD + block.json);
    OneEvent(first, second, Lines(rest), Tail(rest));
    DecodePrepended(Success([block.frame]), [] + first + [LF] + second + [LF], Events(Lines(rest), [], Tail(rest)), decode);
  }

  lemma EventLines<F>(block: Block<F>, rest: seq<Byte>)
    requires block.Event? && Clean(block.id) && Clean(block.json)
    ensures Lines(PrintBlock(block) + rest) ==
            [ID_PREFIX + block.id] + ([DATA_FIELD + block.json] + ([[]] + Lines(rest)))
    ensures Tail(PrintBlock(block) + rest) == Tail(rest)
  {
    hide Lines, Tail, PrintLine;
    var (first, second, crlf) := (ID_PREFIX + block.id, DATA_FIELD + block.json, block.crlf);
    var (a, b, c) := (PrintLine(first, crlf), PrintLine(second, crlf), PrintLine([], crlf));
    assert a + (b + c) + rest == a + (b + (c + rest));
    PrintedLineIsRead(first, crlf, b + (c + rest));
    PrintedLineIsRead(second, crlf, c + rest);
    PrintedLineIsRead([], crlf, rest);
  }

  lemma PrintedCommentThen<F>(block: Block<F>, rest: seq<Byte>, decode: JsonDecoder<F>)
    requires block.Comment? && Printable(block, decode)
    ensures Reference(PrintBlock(block) + rest, decode) == Before([], Reference(rest, decode))
  {
    BlockTextDecodes(block, decode);
    CommentLines(block, rest);
    hide DecodeEvent, Lines, Tail, PrintBlock, Events, DecodeEvents;
    var line := [COLON] + block.text;
    OneComment(line, Lines(rest), Tail(rest));
    DecodePrepended(Success([]), [] + line + [LF], Events(Lines(rest), [], Tail(rest)), decode);
  }

  lemma CommentLines<F>(block: Block<F>, rest: seq<Byte>)
    requires block.Comment? && Clean(block.text)
    ensures Lines(PrintBlock(block) + rest) == [[COLON] + block.text] + ([[]] + Lines(rest))
    ensures Tail(PrintBlock(block) + rest) == Tail(rest)
  {
    hide Lines, Tail, PrintLine;
    var (line, crlf) := ([COLON] + block.text, block.crlf);
    var (a, c) := (PrintLine(line, crlf), PrintLine([], crlf));
    assert a + c + rest == a + (c + rest);
    PrintedLineIsRead(line, crlf, c + rest);
    PrintedLineIsRead([], crlf, rest);
  }

  lemma PrintedBlocksDecode<F>(blocks: seq<Block<F>>, decode: JsonDecoder<F>)
    requires forall block | block in blocks :: Printable(block, decode)
    ensures Reference(PrintBlocks(blocks), decode) == Decoded(FramesIn(blocks), true)
  {
    EmptyBody();
    assert Reference([], decode) == Decoded([], true);
    PrintedBlocksThen(blocks, [], decode);
    assert PrintBlocks(blocks) + [] == PrintBlocks(blocks);
    assert FramesIn(blocks) + [] == FramesIn(blocks);
  }

  lemma OpenEventIsRead<F>(last: Block<F>, decode: JsonDecoder<F>)
    requires last.Event? && Printable(last, decode)
    ensures Reference(PrintLine(ID_PREFIX + last.id, last.crlf) + (DATA_FIELD + last.json), decode) ==
            Decoded([last.frame], true)
  {
    CleanField(last);
    hide DecodeEvent, PrintLine, Lines, Tail, Events, Printable, Clean;
    var (first, second) := (ID_PREFIX + last.id, DATA_FIELD + last.json);
    PrintedLineIsRead(first, last.crlf, second);
    OpenEventDecodes(first, second, last, decode);
    NoLineInTail(second);
    OpenEvent(first, second);
    DecodePrepended(Success([last.frame]), [] + first + [LF] + second, [], decode);
    DecodeNothing(decode);
    assert [last.frame] + [] == [last.frame];
  }

  lemma CleanField<F>(block: Block<F>)
    requires block.Event? && Clean(block.id) && Clean(block.json)
    ensures Clean(ID_PREFIX + block.id) && LF !in DATA_FIELD + block.json
  {
  }

  lemma DecodeNothing<F>(decode: JsonDecoder<F>)
    ensures DecodeEvents([], decode) == Decoded([], true)
  {
  }

  /** A last event that the stream breaks off behind, before its blank line and even its line end, is still read. */
  lemma UnterminatedEventIsDecoded<F>(blocks: seq<Block<F>>, last: Block<F>, chunks: seq<seq<Byte>>, decode: JsonDecoder<F>)
    requires (forall block | block in blocks :: Printable(block, decode)) && last.Event? && Printable(last, decode)
    requires Concat(chunks) == PrintBlocks(blocks) + (PrintLine(ID_PREFIX + last.id, last.crlf) + (DATA_FIELD + last.json))
    ensures StreamDecode(Buffers([], []), chunks, decode) == Decoded(FramesIn(blocks) + [last.frame], true)
  {
    hide Reference, StreamDecode, ParseFrames, PrintBlocks, PrintLine, FramesIn, Concat, Printable;
    ChunkIndependence(chunks, decode);
    PrintedBlocksThen(blocks, PrintLine(ID_PREFIX + last.id, last.crlf) + (DATA_FIELD + last.json), decode);
    OpenEventIsRead(last, decode);
  }

  lemma NoLineInTail(text: seq<Byte>)
    requires LF !in text
    ensures Lines(text) == [] && Tail(text) == text
  {
    assert FirstLF(text) == |text|;
  }

  lemma OpenEvent(first: seq<Byte>, second: seq<Byte>)
    requires first != []
    ensures Events([first] + [], [], second) == [[] + first + [LF] + second] + []
  {
    EventsOneLine(first, [], [], second);
  }

  lemma OpenEventDecodes<F>(first: seq<Byte>, second: seq<Byte>, last: Block<F>, decode: JsonDecoder<F>)
    requires last.Event? && Printable(last, decode) && first == ID_PREFIX + last.id && second == DATA_FIELD + last.json
    ensures DecodeEvent([] + first + [LF] + second, decode) == Success([last.frame])
  {
    hide SplitLF, FirstLF;
    var text := [] + first + [LF] + second;
    assert text == first + [LF] + second;
    SplitAtLF(first, second);
    SplitOneLine(second);
    NotData(first);
    DataLineAdds(last.json);
    var lines := SplitLF(text);
    assert lines == [first, second] && lines[1..] == [second];
    assert AddLines(None, lines) == AddLines(None, [second]);
    assert [second][1..] == [];
    assert AddLines(None, [second]) == AddLines(Some(last.json), []) == Some(last.json);
  }

  lemma SplitOneLine(line: seq<Byte>)
    requires LF !in line
    ensures SplitLF(line) == [line]
  {
  }

  lemma EmptyBody()
    ensures Lines([]) == [] && Tail([]) == []
  {
  }

  lemma OneEvent(first: seq<Byte>, second: seq<Byte>, lines: seq<seq<Byte>>, tail: seq<Byte>)
    requires first != [] && second != []
    ensures Events([first] + ([second] + ([[]] + lines)), [], tail) ==
            [[] + first + [LF] + second + [LF]] + Events(lines, [], tail)
  {
    var l2 := [[]] + lines;
    var l1 := [second] + l2;
    var open := [] + first + [LF];
    assert ([first] + l1)[1..] == l1 && l1[1..] == l2 && l2[1..] == lines;
    assert Events([first] + l1, [], tail) == Events(l1, open, tail);
    assert Events(l1, open, tail) == Events(l2, open + second + [LF], tail);
  }

  lemma OneComment(line: seq<Byte>, lines: seq<seq<Byte>>, tail: seq<Byte>)
    requires line != []
    ensures Events([line] + ([[]] + lines), [], tail) == [[] + line + [LF]] + Events(lines, [], tail)
  {
    var l1 := [[]] + lines;
    assert ([line] + l1)[1..] == l1 && l1[1..] == lines;
    assert Events([line] + l1, [], tail) == Events(l1, [] + line + [LF], tail);
  }

  /** Printing any frames with LF or CRLF ends and comments between, then decoding in any chunks, gives them back. */
  lemma PrintedStreamRoundTrips<F>(blocks: seq<Block<F>>, chunks: seq<seq<Byte>>, decode: JsonDecoder<F>)
    requires forall block | block in blocks :: Printable(block, decode)
    requires Concat(chunks) == PrintBlocks(blocks)
    ensures StreamDecode(Buffers([], []), chunks, decode) == Decoded(FramesIn(blocks), true)
  {
    ChunkIndependence(chunks, decode);
    PrintedBlocksDecode(blocks, decode);
  }
}
