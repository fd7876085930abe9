/** `GET /job/attach` end to end: the resume offset, the reader, the printed stream and the client's decoder. */
module Attach {
  import opened Prelude
  import opened ReplayLog
  import opened JobModel
  import S = LogStreaming
  import opened SseDecoder
  import W = SseStream

  // ---- Sequence numbers as text ----

  predicate IsDigit(c: char) {
    '0' <= c <= '9'
  }

  function DigitsValue(s: string): Option<nat> {
    if s == [] then Some(0)
    else
      var (front, last) := (s[..|s| - 1], s[|s| - 1]);
      var high := DigitsValue(front);
      if high.None? || !IsDigit(last) then None else Some(10 * high.value + (last as int - '0' as int))
  }

  /** Parsing a 64-bit number: digits, perhaps behind a plus sign, and no more than the type holds. */
  function ParseU64(s: string): Option<nat> {
    var digits := if s != [] && s[0] == '+' then s[1..] else s;
    if digits == [] then None
    else
      var v := DigitsValue(digits);
      if v.None? || v.value > U64_MAX then None else v
  }

  function ToDecimal(n: nat): (s: string)
    ensures s != []
    ensures forall c | c in s :: IsDigit(c)
  {
    (if n < 10 then [] else ToDecimal(n / 10)) + [(n % 10 + '0' as int) as char]
  }

  lemma {:induction false} DecimalRoundTrip(n: nat)
    ensures DigitsValue(ToDecimal(n)) == Some(n)
  {
    var s := ToDecimal(n);
    assert s[|s| - 1] == (n % 10 + '0' as int) as char;
    if n >= 10 {
      DecimalRoundTrip(n / 10);
      assert s[..|s| - 1] == ToDecimal(n / 10);
    }
  }

  /** The `Last-Event-ID` header replaces `from_offset` when it parses, and is used as it stands. */
  function ResumeOffset(lastEventId: Option<string>, fromOffset: U64): nat {
    if lastEventId.Some? && ParseU64(lastEventId.value).Some? then ParseU64(lastEventId.value).value else fromOffset
  }

  /** Sending back the id of a frame resumes at that frame itself, not behind it. */
  lemma HeaderResumesAtTheFrame(k: U64, fromOffset: U64)
    ensures ResumeOffset(Some(ToDecimal(k)), fromOffset) == k
  {
    DecimalRoundTrip(k);
    assert ToDecimal(k)[0] in ToDecimal(k);
  }

  /** The stream as the server writes it: its events carry the given frames, comments may stand between. */
  ghost predicate Prints(body: seq<Byte>, frames: seq<LogEventFrame>, decode: JsonDecoder<LogEventFrame>) {
    exists blocks: seq<W.Block<LogEventFrame>> ::
      && W.PrintBlocks(blocks) == body && W.FramesIn(blocks) == frames
      && forall block | block in blocks :: W.Printable(block, decode)
  }

  lemma PrintedIsDecoded(chunks: seq<seq<Byte>>, frames: seq<LogEventFrame>, decode: JsonDecoder<LogEventFrame>)
    requires Prints(W.Concat(chunks), frames, decode)
    ensures W.StreamDecode(Buffers([], []), chunks, decode) == W.Decoded(frames, true)
  {
    var blocks: seq<W.Block<LogEventFrame>> :|
      && W.PrintBlocks(blocks) == W.Concat(chunks) && W.FramesIn(blocks) == frames
      && forall block | block in blocks :: W.Printable(block, decode);
    W.PrintedStreamRoundTrips(blocks, chunks, decode);
  }

  lemma DigitsUnfold(front: string, last: char)
    ensures DigitsValue(front + [last]) ==
            if DigitsValue(front).None? || !IsDigit(last) then None
            else Some(10 * DigitsValue(front).value + (last as int - '0' as int))
  {
    assert (front + [last])[..|front|] == front;
  }

  lemma PrintUnfolds(n: nat, digit: char)
    requires IsDigit(digit)
    ensures ToDecimal(10 * n + (digit as int - '0' as int)) == (if n == 0 then [] else ToDecimal(n)) + [digit]
  {
    var m := 10 * n + (digit as int - '0' as int);
    assert m / 10 == n && m % 10 == digit as int - '0' as int;
    assert m < 10 <==> n == 0;
  }

  /** Digits that do not start with a needless zero are the print of their value. */
  lemma {:induction false} DigitsArePrinted(s: string)
    requires s != [] && DigitsValue(s).Some? && (s[0] != '0' || |s| == 1)
    ensures ToDecimal(DigitsValue(s).value) == s
    ensures DigitsValue(s).value > 0 || s[0] == '0'
    decreases |s|
  {
    var (front, last) := (s[..|s| - 1], s[|s| - 1]);
    assert s == front + [last];
    NoDigits();
    hide DigitsValue, ToDecimal;
    DigitsUnfold(front, last);
    PrintUnfolds(DigitsValue(front).value, last);
    if front == [] {
      assert [] + [last] == s;
    } else {
      assert front[0] == s[0];
      DigitsArePrinted(front);
    }
  }

  lemma NoDigits()
    ensures DigitsValue([]) == Some(0)
  {
  }

  /** The text of a header without the plus sign it may start with. */
  function Unsigned(text: string): string {
    if text != [] && text[0] == '+' then text[1..] else text
  }

  /** A 64-bit number is digits that stay in range, perhaps behind a plus sign, and is the number they print. */
  lemma ParseU64Exactly(text: string)
    ensures var digits := Unsigned(text);
            ParseU64(text).Some? <==>
              digits != [] && (forall c | c in digits :: IsDigit(c)) && DigitsValue(digits).Some? && DigitsValue(digits).value <= U64_MAX
    ensures ParseU64(text).Some? && Unsigned(text)[0] != '0' ==> ToDecimal(ParseU64(text).value) == Unsigned(text)
  {
    var digits := Unsigned(text);
    DigitsValueExactly(digits);
    if digits != [] && DigitsValue(digits).Some? {
      hide DigitsValue, ToDecimal;
      if digits[0] != '0' {
        DigitsArePrinted(digits);
      }
    }
  }

  lemma {:induction false} DigitsValueExactly(s: string)
    ensures DigitsValue(s).Some? <==> forall c | c in s :: IsDigit(c)
  {
    if s != [] {
      var (front, last) := (s[..|s| - 1], s[|s| - 1]);
      assert s == front + [last];
      DigitsValueExactly(front);
    }
  }

  /** The query's offset counts exactly when there is no header, or one that is not a 64-bit number. */
  lemma ResumeOffsetExactly(lastEventId: Option<string>, fromOffset: U64)
    ensures lastEventId.None? ==> ResumeOffset(lastEventId, fromOffset) == fromOffset
    ensures lastEventId.Some? && ParseU64(lastEventId.value).None? ==> ResumeOffset(lastEventId, fromOffset) == fromOffset
    ensures lastEventId.Some? && ParseU64(lastEventId.value).Some? && Unsigned(lastEventId.value)[0] != '0' ==>
              ToDecimal(ResumeOffset(lastEventId, fromOffset)) == Unsigned(lastEventId.value)
  {
    if lastEventId.Some? {
      ParseU64Exactly(lastEventId.value);
    }
  }

  /**
    Attaching with any header and query, in any reachable state, and running on: once the stream has finished, the
    client, however the body is chunked, has the whole log from the resume offset on.
   */
  lemma ClientReceivesTheLog(s: S.Stream, lastEventId: Option<string>, fromOffset: U64, steps: seq<S.Step>,
                             chunks: seq<seq<Byte>>, decode: JsonDecoder<LogEventFrame>)
    requires S.Reachable(s) && S.Run(s, [S.Attach(ResumeOffset(lastEventId, fromOffset))] + steps).Some?
    requires var s' := S.Run(s, [S.Attach(ResumeOffset(lastEventId, fromOffset))] + steps).value;
             var i := |s.readers|;
             && i < |s'.readers| && s'.readers[i].phase.Ended?
             && Prints(W.Concat(chunks), s'.readers[i].delivered, decode)
    ensures var s' := S.Run(s, [S.Attach(ResumeOffset(lastEventId, fromOffset))] + steps).value;
            W.StreamDecode(Buffers([], []), chunks, decode) ==
            W.Decoded(FramesOf(s.jobId, Since(s'.log.events, ResumeOffset(lastEventId, fromOffset))), true)
  {
    S.ReachableIsInv(s);
    S.AttachDeliversFromTheOffset(s, ResumeOffset(lastEventId, fromOffset), steps);
    hide S.Run, S.Inv, Prints;
    var s' := S.Run(s, [S.Attach(ResumeOffset(lastEventId, fromOffset))] + steps).value;
    PrintedIsDecoded(chunks, s'.readers[|s.readers|].delivered, decode);
  }

  /** The offset of a reattachment behind frame `k`: by query, or by sending the frame's id back in the header. */
  function ReattachOffset(byHeader: bool, k: U64, fromOffset: U64): nat
    requires k < U64_MAX
  {
    if byHeader then ResumeOffset(Some(ToDecimal(k)), fromOffset) else ResumeOffset(None, k + 1)
  }

  /**
    Reattaching over the wire after the frames up to `k`: with `from_offset` `k + 1` the client ends up with
    the uninterrupted stream; with `Last-Event-ID` `k` it does so after dropping exactly one repeated frame.
   */
  lemma ReattachOverTheWire(s: S.Stream, i: nat, seen: seq<LogEventFrame>, k: U64, byHeader: bool, fromOffset: U64,
                            steps: seq<S.Step>, chunks: seq<seq<Byte>>, decode: JsonDecoder<LogEventFrame>)
    requires S.Reachable(s) && i < |s.readers|
    requires seen != [] && seen <= s.readers[i].delivered && seen[|seen| - 1].seqNo == k < U64_MAX
    requires S.Run(s, [S.Attach(ReattachOffset(byHeader, k, fromOffset))] + steps).Some?
    requires var s' := S.Run(s, [S.Attach(ReattachOffset(byHeader, k, fromOffset))] + steps).value;
             var j := |s.readers|;
             && j < |s'.readers| && s'.readers[j].phase.Ended?
             && Prints(W.Concat(chunks), s'.readers[j].delivered, decode)
    ensures var s' := S.Run(s, [S.Attach(ReattachOffset(byHeader, k, fromOffset))] + steps).value;
            var got := W.StreamDecode(Buffers([], []), chunks, decode);
            var whole := FramesOf(s.jobId, Since(s'.log.events, s.readers[i].start));
            && got.ok
            && (!byHeader ==> seen + got.frames == whole)
            && (byHeader ==>
                  && got.frames != [] && got.frames[0] == seen[|seen| - 1]
                  && seen + got.frames[1..] == whole)
  {
    HeaderResumesAtTheFrame(k, fromOffset);
    var offset := ReattachOffset(byHeader, k, fromOffset);
    var all := [S.Attach(offset)] + steps;
    S.ReachableIsInv(s);
    S.AttachDeliversFromTheOffset(s, offset, steps);
    S.RunKeepsReader(s, all, i);
    S.RunReaches(s, all);
    hide S.Run, S.Inv, S.Reachable, Prints, ToDecimal;
    var s' := S.Run(s, all).value;
    PrintedIsDecoded(chunks, s'.readers[|s.readers|].delivered, decode);
    S.ResumeIsSeamless(s', i, |s.readers|, seen, k);
  }
}
