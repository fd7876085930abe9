/**
  The client's incremental decoder of an event stream.  It follows the line and event rules of sections
  9.2.5 and 9.2.6 of the HTML Standard as far as the code does: a lone CR ends no line, the space after
  a colon is kept, and an unterminated last event is decoded.  Decoding JSON is a parameter.
 */
module SseDecoder {
  import opened Prelude

  const LF: Byte := 10
  const CR: Byte := 13
  /** `data:` */
  const DATA_PREFIX: seq<Byte> := [100, 97, 116, 97, 58]

  datatype JsonError = JsonError

  type JsonDecoder<F> = seq<Byte> -> Option<F>

  /** The position of the first line feed, or the length if there is none. */
  function FirstLF(s: seq<Byte>): (i: nat)
    ensures i <= |s|
    ensures i < |s| ==> s[i] == LF
    ensures forall k | 0 <= k < i :: s[k] != LF
  {
    if s == [] || s[0] == LF then 0 else 1 + FirstLF(s[1..])
  }

  function StripCR(line: seq<Byte>): seq<Byte> {
    if line != [] && line[|line| - 1] == CR then line[..|line| - 1] else line
  }

  /** At most one CR is taken off the end of a line, and a CR anywhere else stays. */
  lemma OneCRIsStripped(line: seq<Byte>)
    ensures StripCR(line + [CR]) == line
    ensures line == [] || line[|line| - 1] != CR ==> StripCR(line) == line
  {
    assert (line + [CR])[..|line|] == line;
  }

  function SplitLF(s: seq<Byte>): (lines: seq<seq<Byte>>)
    ensures |lines| >= 1
    decreases |s|
  {
    var i := FirstLF(s);
    if i == |s| then [s] else [s[..i]] + SplitLF(s[i + 1..])
  }

  // ---- One event ----

  /** What the line adds to the data seen so far; `None` until a first data line. */
  function AddLine(acc: Option<seq<Byte>>, line: seq<Byte>): Option<seq<Byte>> {
    var stripped := StripCR(line);
    if !(DATA_PREFIX <= stripped) then acc
    else if acc.Some? then Some(acc.value + [LF] + stripped[|DATA_PREFIX|..])
    else Some(stripped[|DATA_PREFIX|..])
  }

  function AddLines(acc: Option<seq<Byte>>, lines: seq<seq<Byte>>): Option<seq<Byte>>
    decreases |lines|
  {
    if lines == [] then acc else AddLines(AddLine(acc, lines[0]), lines[1..])
  }

  function EventData(event: seq<Byte>): Option<seq<Byte>> {
    AddLines(None, SplitLF(event))
  }

  function DecodeEvent<F>(event: seq<Byte>, decode: JsonDecoder<F>): Result<seq<F>, JsonError> {
    match EventData(event)
    case None => Success([])
    case Some(data) => if decode(data).Some? then Success([decode(data).value]) else Failure(JsonError)
  }

  method DecodeSseEvent<F>(event: seq<Byte>, decode: JsonDecoder<F>, frames: seq<F>)
    returns (r: Result<seq<F>, JsonError>)
    ensures r == if DecodeEvent(event, decode).Success? then Success(frames + DecodeEvent(event, decode).value)
                 else Failure(JsonError)
  {
    var lines := SplitLF(event);
    var data: seq<Byte> := [];
    var sawData := false;
    var i := 0;
    while i < |lines|
      invariant 0 <= i <= |lines|
      invariant !sawData ==> data == []
      invariant AddLines(if sawData then Some(data) else None, lines[i..]) == EventData(event)
    {
      assert lines[i..][0] == lines[i] && lines[i..][1..] == lines[i + 1..];
      var line := StripCR(lines[i]);
      if DATA_PREFIX <= line {
        if sawData {
          data := data + [LF];
        }
        sawData := true;
        assert [] + line[|DATA_PREFIX|..] == line[|DATA_PREFIX|..];
        data := data + line[|DATA_PREFIX|..];
      }
      i := i + 1;
    }
    assert lines[i..] == [];
    if sawData {
      var frame := decode(data);
      if frame.None? {
        return Failure(JsonError);
      }
      return Success(frames + [frame.value]);
    }
    return Success(frames + []);
  }

  /** The payloads of the data lines, in order. */
  function Payloads(lines: seq<seq<Byte>>): seq<seq<Byte>> {
    if lines == [] then []
    else (if DATA_PREFIX <= StripCR(lines[0]) then [StripCR(lines[0])[|DATA_PREFIX|..]] else []) + Payloads(lines[1..])
  }

  function JoinLF(parts: seq<seq<Byte>>): seq<Byte>
    requires parts != []
  {
    if |parts| == 1 then parts[0] else parts[0] + [LF] + JoinLF(parts[1..])
  }

  lemma {:induction false} AddLinesJoins(acc: Option<seq<Byte>>, lines: seq<seq<Byte>>)
    ensures var parts := PartsSoFar(acc) + Payloads(lines);
            AddLines(acc, lines) == if parts == [] then None else Some(JoinLF(parts))
    decreases |lines|
  {
    hide AddLine, StripCR;
    if lines == [] {
      assert PartsSoFar(acc) + [] == PartsSoFar(acc);
    } else {
      var payload := if DATA_PREFIX <= StripCR(lines[0]) then [StripCR(lines[0])[|DATA_PREFIX|..]] else [];
      assert PartsSoFar(acc) + (payload + Payloads(lines[1..])) == PartsSoFar(acc) + payload + Payloads(lines[1..]);
      AddLinesJoins(AddLine(acc, lines[0]), lines[1..]);
      AddLineJoins(acc, lines[0], Payloads(lines[1..]));
    }
  }

  function PartsSoFar(acc: Option<seq<Byte>>): seq<seq<Byte>> {
    if acc.Some? then [acc.value] else []
  }

  lemma AddLineJoins(acc: Option<seq<Byte>>, line: seq<Byte>, rest: seq<seq<Byte>>)
    ensures var before := PartsSoFar(acc) + (if DATA_PREFIX <= StripCR(line) then [StripCR(line)[|DATA_PREFIX|..]] else []) + rest;
            var after := PartsSoFar(AddLine(acc, line)) + rest;
            && (before == [] <==> after == [])
            && (before != [] ==> JoinLF(before) == JoinLF(after))
  {
    hide JoinLF, StripCR;
    if DATA_PREFIX <= StripCR(line) && acc.Some? {
      var payload := StripCR(line)[|DATA_PREFIX|..];
      assert [acc.value] + [payload] + rest == [acc.value, payload] + rest;
      JoinTwo(acc.value, payload, rest);
    } else if DATA_PREFIX <= StripCR(line) {
      var payload := StripCR(line)[|DATA_PREFIX|..];
      assert [] + [payload] + rest == [payload] + rest;
    } else {
      assert PartsSoFar(acc) + [] + rest == PartsSoFar(acc) + rest;
    }
  }

  lemma JoinTwo(a: seq<Byte>, b: seq<Byte>, rest: seq<seq<Byte>>)
    ensures JoinLF([a, b] + rest) == JoinLF([a + [LF] + b] + rest)
  {
    assert ([a, b] + rest)[1..] == [b] + rest;
    if rest != [] {
      assert ([b] + rest)[1..] == rest && ([a + [LF] + b] + rest)[1..] == rest;
      assert a + [LF] + (b + [LF] + JoinLF(rest)) == a + [LF] + b + [LF] + JoinLF(rest);
    }
  }

  /** An event's data is the payloads of its data lines, joined by line feeds. */
  lemma EventDataIsJoinedPayloads(event: seq<Byte>)
    ensures var parts := Payloads(SplitLF(event));
            EventData(event) == if parts == [] then None else Some(JoinLF(parts))
  {
    AddLinesJoins(None, SplitLF(event));
    assert [] + Payloads(SplitLF(event)) == Payloads(SplitLF(event));
  }

  // ---- The two buffers ----

  /** Bytes not yet ended by a line feed, and the lines of the event being collected. */
  datatype Buffers = Buffers(pending: seq<Byte>, current: seq<Byte>)

  /** Where draining stops, the frames found on the way, and whether an event failed to decode. */
  datatype Fed<F> = Fed(buffers: Buffers, frames: seq<F>, failed: bool)

  function Prepend<F>(frames: seq<F>, fed: Fed<F>): Fed<F> {
    fed.(frames := frames + fed.frames)
  }

  function Drain<F>(b: Buffers, decode: JsonDecoder<F>): Fed<F>
    decreases |b.pending|
  {
    var i := FirstLF(b.pending);
    if i == |b.pending| then Fed(b, [], false)
    else
      var line := StripCR(b.pending[..i]);
      var rest := b.pending[i + 1..];
      if line != [] then Drain(Buffers(rest, b.current + line + [LF]), decode)
      else if b.current == [] then Drain(Buffers(rest, []), decode)
      else
        var r := DecodeEvent(b.current, decode);
        if r.Failure? then Fed(Buffers(rest, b.current), [], true)
        else Prepend(r.value, Drain(Buffers(rest, []), decode))
  }

  function Feed<F>(b: Buffers, bytes: seq<Byte>, decode: JsonDecoder<F>): Fed<F> {
    Drain(b.(pending := b.pending + bytes), decode)
  }

  function FinishBuffers<F>(b: Buffers, decode: JsonDecoder<F>): Result<seq<F>, JsonError> {
    if b.current + b.pending == [] then Success([]) else DecodeEvent(b.current + b.pending, decode)
  }

  lemma PrependTwice<F>(a: seq<F>, b: seq<F>, fed: Fed<F>)
    ensures Prepend(a + b, fed) == Prepend(a, Prepend(b, fed))
    ensures Prepend(a, fed.(frames := [])) == fed.(frames := a)
    ensures Prepend([], fed) == fed
  {
    assert a + b + fed.frames == a + (b + fed.frames);
    assert a + [] == a;
    assert [] + fed.frames == fed.frames;
  }

  lemma DrainUnfolds<F>(b: Buffers, decode: JsonDecoder<F>)
    ensures var i := FirstLF(b.pending);
            if i == |b.pending| then Drain(b, decode) == Fed(b, [], false)
            else
              var line := StripCR(b.pending[..i]);
              var rest := b.pending[i + 1..];
              if line != [] then Drain(b, decode) == Drain(Buffers(rest, b.current + line + [LF]), decode)
              else if b.current == [] then Drain(b, decode) == Drain(Buffers(rest, []), decode)
              else if DecodeEvent(b.current, decode).Failure? then Drain(b, decode) == Fed(Buffers(rest, b.current), [], true)
              else Drain(b, decode) == Prepend(DecodeEvent(b.current, decode).value, Drain(Buffers(rest, []), decode))
  {
    hide DecodeEvent, FirstLF, StripCR, Prepend;
  }

  class SseFrameDecoder<F> {
    var pending: seq<Byte>
    var current: seq<Byte>
    const decode: JsonDecoder<F>

    ghost function View(): Buffers
      reads this
    {
      Buffers(pending, current)
    }

    constructor (decode: JsonDecoder<F>)
      ensures View() == Buffers([], []) && this.decode == decode
    {
      pending, current := [], [];
      this.decode := decode;
    }

    method Push(bytes: seq<Byte>) returns (r: Result<seq<F>, JsonError>)
      modifies this
      ensures var fed := Feed(old(View()), bytes, decode);
              && View() == fed.buffers
              && r == if fed.failed then Failure(JsonError) else Success(fed.frames)
    {
      var frames: seq<F> := [];
      pending := pending + bytes;
      ghost var fed := Drain(View(), decode);
      PrependTwice([], [], fed);
      hide DecodeEvent, FirstLF, StripCR, Prepend, Drain;
      while FirstLF(pending) < |pending|
        invariant Prepend(frames, Drain(View(), decode)) == fed
        decreases |pending|
      {
        ghost var before := frames;
        ghost var now := View();
        DrainUnfolds(now, decode);
        var newline := FirstLF(pending);
        var line := StripCR(pending[..newline]);
        pending := pending[newline + 1..];
        if line == [] {
          if current != [] {
            var r' := DecodeSseEvent(current, decode, frames);
            if r'.Failure? {
              PrependTwice(before, [], Drain(now, decode));
              return Failure(JsonError);
            }
            PrependTwice(before, DecodeEvent(current, decode).value, Drain(Buffers(pending, []), decode));
            frames := r'.value;
            current := [];
          }
        } else {
          current := current + line + [LF];
        }
      }
      DrainUnfolds(View(), decode);
      PrependTwice(frames, [], Drain(View(), decode));
      return Success(frames);
    }

    method Finish() returns (r: Result<seq<F>, JsonError>)
      ensures r == FinishBuffers(View(), decode)
    {
      var last := current;
      if pending != [] {
        last := last + pending;
      }
      assert current + [] == current;
      if last != [] {
        r := DecodeSseEvent(last, decode, []);
        assert r.Success? ==> [] + DecodeEvent(last, decode).value == DecodeEvent(last, decode).value;
      } else {
        r := Success([]);
      }
    }
  }

  /** The whole body at once. */
  function ParseFrames<F>(body: seq<Byte>, decode: JsonDecoder<F>): Result<seq<F>, JsonError> {
    var fed := Feed(Buffers([], []), body, decode);
    if fed.failed then Failure(JsonError)
    else
      var last := FinishBuffers(fed.buffers, decode);
      if last.Failure? then Failure(JsonError) else Success(fed.frames + last.value)
  }

  method ParseSseFrames<F>(body: seq<Byte>, decode: JsonDecoder<F>) returns (r: Result<seq<F>, JsonError>)
    ensures r == ParseFrames(body, decode)
  {
    var decoder := new SseFrameDecoder(decode);
    var frames := decoder.Push(body);
    if frames.Failure? {
      return Failure(JsonError);
    }
    var last := decoder.Finish();
    if last.Failure? {
      return Failure(JsonError);
    }
    return Success(frames.value + last.value);
  }
}
