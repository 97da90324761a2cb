/** The incremental reader of `data:` lines over a streaming response body. */
module ServerSentEvents {
  import opened Text
  import opened Wrappers

  const NEWLINE := '\n'
  const PREFIX := "data:"
  const DONE := "[DONE]"

  datatype Error = NoBody

  // ---- The batch form ----

  /** The payload of a `data:` line, or `None` for any other line. */
  function SseData(line: string): Option<string> {
    if PREFIX <= line then Some(TrimStart(line[|PREFIX|..])) else None
  }

  function PayloadOf(line: string): Option<string> {
    SseData(TrimEnd(line))
  }

  predicate IsDone(lines: seq<string>) {
    lines != [] && (PayloadOf(lines[0]) == Some(DONE) || IsDone(lines[1..]))
  }

  /** The payloads of the lines before the first `[DONE]`. */
  function Payloads(lines: seq<string>): seq<string> {
    if lines == [] then []
    else match PayloadOf(lines[0])
      case None => Payloads(lines[1..])
      case Some(payload) => if payload == DONE then [] else [payload] + Payloads(lines[1..])
  }

  /** What a reader that had the whole text at once would deliver. */
  function Batch(text: string): seq<string> {
    Payloads(Split(text, NEWLINE))
  }

  /** The lines of `text` whose newline has arrived. */
  function Finished(text: string): seq<string> {
    var lines := Split(text, NEWLINE);
    lines[..|lines| - 1]
  }

  function Concat(chunks: seq<string>): string {
    if chunks == [] then "" else Concat(chunks[..|chunks| - 1]) + chunks[|chunks| - 1]
  }

  function Terminated(lines: seq<string>): string {
    if lines == [] then "" else lines[0] + [NEWLINE] + Terminated(lines[1..])
  }

  // ---- How the batch form splits up ----

  lemma {:induction false} Regroup(a: string, b: string, i: nat)
    requires i < |b|
    ensures a + b == a + b[..i] + [b[i]] + b[i + 1..]
  {
  }

  lemma {:induction false} TerminatedAppend(lines: seq<string>, line: string)
    ensures Terminated(lines + [line]) == Terminated(lines) + line + [NEWLINE]
  {
    if lines == [] {
      assert [line][1..] == [];
    } else {
      assert (lines + [line])[1..] == lines[1..] + [line];
      TerminatedAppend(lines[1..], line);
    }
  }

  lemma {:induction false} SplitTerminated(lines: seq<string>, rest: string)
    requires Lacks(lines, NEWLINE)
    ensures Split(Terminated(lines) + rest, NEWLINE) == lines + Split(rest, NEWLINE)
  {
    if lines == [] {
      assert Terminated(lines) + rest == rest;
    } else {
      SplitTerminated(lines[1..], rest);
      var tail := Terminated(lines[1..]) + rest;
      assert Terminated(lines) + rest == lines[0] + [NEWLINE] + tail;
      SplitFirst(lines[0], NEWLINE, tail);
    }
  }

  lemma {:induction false} PayloadsAppend(lines: seq<string>, more: seq<string>)
    ensures Payloads(lines + more)
         == if IsDone(lines) then Payloads(lines) else Payloads(lines) + Payloads(more)
    ensures IsDone(lines + more) <==> IsDone(lines) || IsDone(more)
  {
    if lines == [] {
      assert lines + more == more;
    } else {
      assert (lines + more)[1..] == lines[1..] + more;
      PayloadsAppend(lines[1..], more);
    }
  }

  lemma {:induction false} OneLine(line: string)
    ensures IsDone([line]) <==> PayloadOf(line) == Some(DONE)
    ensures Payloads([line])
         == if PayloadOf(line).None? || IsDone([line]) then [] else [PayloadOf(line).value]
  {
    assert [line][1..] == [];
  }

  /** What is settled once some lines are complete, whatever text follows them. */
  lemma {:induction false} BatchAfter(lines: seq<string>, rest: string)
    requires Lacks(lines, NEWLINE)
    ensures Batch(Terminated(lines) + rest)
         == if IsDone(lines) then Payloads(lines) else Payloads(lines) + Batch(rest)
  {
    SplitTerminated(lines, rest);
    PayloadsAppend(lines, Split(rest, NEWLINE));
  }

  lemma {:induction false} ConcatSplit(chunks: seq<string>, n: nat)
    requires n <= |chunks|
    ensures Concat(chunks) == Concat(chunks[..n]) + Concat(chunks[n..])
  {
    if n == |chunks| {
      assert chunks[..n] == chunks;
    } else {
      var k := |chunks| - 1;
      ConcatSplit(chunks[..k], n);
      assert chunks[..k][..n] == chunks[..n] && chunks[..k][n..] == chunks[n..][..k - n];
    }
  }

  // ---- The reader ----

  /** How far the reader has got: the lines it has taken off, those delivered, and the rest. */
  ghost predicate Reading(read: string, lines: seq<string>, buffer: string, payloads: seq<string>) {
    && Lacks(lines, NEWLINE) && !IsDone(lines)
    && read == Terminated(lines) + buffer
    && payloads == Payloads(lines)
  }

  /** `delivered[k]` payloads are out once chunk `k` is read: those of the lines finished by then. */
  ghost predicate Prompt(chunks: seq<string>, payloads: seq<string>, delivered: seq<nat>) {
    && |delivered| <= |chunks|
    && forall k | 0 <= k < |delivered| ::
         && delivered[k] <= |payloads|
         && payloads[..delivered[k]] == Payloads(Finished(Concat(chunks[..k + 1])))
  }

  /** Chunk `k` completes a `[DONE]` line. */
  ghost predicate StopsAt(chunks: seq<string>, k: nat) {
    k < |chunks| && IsDone(Finished(Concat(chunks[..k + 1])))
  }

  lemma {:induction false} TakesLine(
      read: string, lines: seq<string>, buffer: string, payloads: seq<string>, newline: nat)
    requires Reading(read, lines, buffer, payloads)
    requires newline < |buffer| && buffer[newline] == NEWLINE && NEWLINE !in buffer[..newline]
    ensures var payload := PayloadOf(buffer[..newline]); var taken := lines + [buffer[..newline]];
      && Lacks(taken, NEWLINE) && read == Terminated(taken) + buffer[newline + 1..]
      && if payload == Some(DONE) then IsDone(taken) && Payloads(taken) == payloads
         else Reading(read, taken, buffer[newline + 1..],
                      if payload.Some? then payloads + [payload.value] else payloads)
  {
    var line := buffer[..newline];
    TerminatedAppend(lines, line);
    Regroup(Terminated(lines), buffer, newline);
    OneLine(line);
    PayloadsAppend(lines, [line]);
  }

  lemma {:induction false} HasFinished(
      read: string, lines: seq<string>, buffer: string, payloads: seq<string>)
    requires Reading(read, lines, buffer, payloads) && NEWLINE !in buffer
    ensures Finished(read) == lines
  {
    SplitTerminated(lines, buffer);
  }

  /** The inner loop: delivers the payloads of the complete lines in the buffer, until `[DONE]`. */
  method TakeLines(pending: string, before: seq<string>, ghost read: string, ghost taken: seq<string>)
    returns (buffer: string, payloads: seq<string>, done: bool, ghost lines: seq<string>)
    requires Reading(read, taken, pending, before)
    ensures before <= payloads
    ensures !done ==> Reading(read, lines, buffer, payloads) && NEWLINE !in buffer
    ensures done ==> Lacks(lines, NEWLINE) && IsDone(lines) && read == Terminated(lines) + buffer
    ensures payloads == Payloads(lines)
  {
    buffer, payloads, done, lines := pending, before, false, taken;
    var newline := IndexOf(buffer, NEWLINE);
    while newline != -1
      invariant newline == IndexOf(buffer, NEWLINE)
      invariant Reading(read, lines, buffer, payloads) && before <= payloads
      decreases |buffer|
    {
      TakesLine(read, lines, buffer, payloads, newline);
      var line := TrimEnd(buffer[..newline]);
      lines := lines + [buffer[..newline]];
      buffer := buffer[newline + 1..];
      var payload := SseData(line);
      if payload.Some? {
        if payload.value == DONE {
          done := true;
          return;
        }
        payloads := payloads + [payload.value];
      }
      newline := IndexOf(buffer, NEWLINE);
    }
  }

  /** Delivers exactly what the batch form does, however the text is cut into chunks, and delivers
      each payload with the chunk that completes its line. Reading stops early only at `[DONE]`. */
  method SseDataLines(body: Option<seq<string>>)
    returns (result: Result<seq<string>, Error>, ghost delivered: seq<nat>)
    ensures body.None? <==> result == Err(NoBody)
    ensures body.Some? ==> result == Ok(Batch(Concat(body.value)))
    ensures body.Some? ==> Prompt(body.value, result.value, delivered)
    ensures body.Some? ==> |delivered| == |body.value| || StopsAt(body.value, |delivered|)
  {
    delivered := [];
    if body.None? { return Err(NoBody), []; }
    var chunks := body.value;
    var buffer, payloads, done := "", [], false;
    ghost var lines := [];
    for i := 0 to |chunks|
      invariant Between(chunks, i, lines, buffer, payloads, delivered)
    {
      ghost var before := payloads;
      NextChunk(chunks, i, lines, buffer, payloads);
      buffer, payloads, done, lines :=
        TakeLines(buffer + chunks[i], payloads, Concat(chunks[..i + 1]), lines);
      PromptGrows(chunks, before, payloads, delivered);
      if done {
        DoneEarly(chunks, i, lines, buffer);
        return Ok(payloads), delivered;
      }
      ChunkDone(chunks, i, lines, buffer, payloads, delivered);
      delivered := delivered + [|payloads|];
    }
    LastLine(chunks, lines, buffer, payloads, delivered);
    var payload := SseData(TrimEnd(buffer));
    if payload.Some? && payload.value != DONE {
      payloads := payloads + [payload.value];
    }
    return Ok(payloads), delivered;
  }

  /** Chunks `..i` have been read and every complete line in them taken. */
  ghost predicate Between(
      chunks: seq<string>, i: nat, lines: seq<string>, buffer: string, payloads: seq<string>,
      delivered: seq<nat>)
  {
    && |delivered| == i <= |chunks|
    && Reading(Concat(chunks[..i]), lines, buffer, payloads) && NEWLINE !in buffer
    && Prompt(chunks, payloads, delivered)
  }

  lemma {:induction false} ChunkDone(
      chunks: seq<string>, i: nat, lines: seq<string>, buffer: string, payloads: seq<string>,
      delivered: seq<nat>)
    requires |delivered| == i < |chunks| && Prompt(chunks, payloads, delivered)
    requires Reading(Concat(chunks[..i + 1]), lines, buffer, payloads) && NEWLINE !in buffer
    ensures Between(chunks, i + 1, lines, buffer, payloads, delivered + [|payloads|])
  {
    HasFinished(Concat(chunks[..i + 1]), lines, buffer, payloads);
    assert payloads[..|payloads|] == payloads;
  }

  lemma {:induction false} NextChunk(
      chunks: seq<string>, i: nat, lines: seq<string>, buffer: string, payloads: seq<string>)
    requires i < |chunks| && Reading(Concat(chunks[..i]), lines, buffer, payloads)
    ensures Reading(Concat(chunks[..i + 1]), lines, buffer + chunks[i], payloads)
  {
    assert chunks[..i + 1][..i] == chunks[..i];
    assert Terminated(lines) + buffer + chunks[i] == Terminated(lines) + (buffer + chunks[i]);
  }

  lemma {:induction false} LastLine(
      chunks: seq<string>, lines: seq<string>, buffer: string, payloads: seq<string>, delivered: seq<nat>)
    requires Between(chunks, |chunks|, lines, buffer, payloads, delivered)
    ensures var payload := PayloadOf(buffer);
      var all := if payload.None? || payload == Some(DONE) then payloads else payloads + [payload.value];
      Batch(Concat(chunks)) == all && Prompt(chunks, all, delivered)
  {
    assert chunks[..|chunks|] == chunks;
    BatchAfter(lines, buffer);
    OneLine(buffer);
    PromptGrows(chunks, payloads, Batch(Concat(chunks)), delivered);
  }

  lemma {:induction false} PromptGrows(
      chunks: seq<string>, before: seq<string>, payloads: seq<string>, delivered: seq<nat>)
    requires Prompt(chunks, before, delivered) && before <= payloads
    ensures Prompt(chunks, payloads, delivered)
  {
    assert forall n | 0 <= n <= |before| :: payloads[..n] == before[..n];
  }

  lemma {:induction false} StaysDone(lines: seq<string>, buffer: string)
    requires Lacks(lines, NEWLINE) && IsDone(lines)
    ensures IsDone(Finished(Terminated(lines) + buffer))
  {
    SplitTerminated(lines, buffer);
    var pieces := Split(buffer, NEWLINE);
    assert (lines + pieces)[..|lines + pieces| - 1] == lines + pieces[..|pieces| - 1];
    PayloadsAppend(lines, pieces[..|pieces| - 1]);
  }

  lemma {:induction false} DoneEarly(chunks: seq<string>, i: nat, lines: seq<string>, buffer: string)
    requires i < |chunks| && Lacks(lines, NEWLINE) && IsDone(lines)
    requires Concat(chunks[..i + 1]) == Terminated(lines) + buffer
    ensures Batch(Concat(chunks)) == Payloads(lines)
    ensures StopsAt(chunks, i)
  {
    StaysDone(lines, buffer);
    ConcatSplit(chunks, i + 1);
    BatchStays(lines, buffer, Concat(chunks[i + 1..]));
  }

  lemma {:induction false} BatchStays(lines: seq<string>, buffer: string, rest: string)
    requires Lacks(lines, NEWLINE) && IsDone(lines)
    ensures Batch(Terminated(lines) + buffer + rest) == Payloads(lines)
  {
    assert Terminated(lines) + buffer + rest == Terminated(lines) + (buffer + rest);
    BatchAfter(lines, buffer + rest);
  }

  // ---- A stream and its reader ----

  /** A payload a `data:` line can carry. */
  predicate Carries(payload: string) {
    NEWLINE !in payload && payload != "[DONE]" && Trimmed(payload)
  }

  /** The lines a vendor sends for an event: some other line, such as its name, its payload, and a
      blank line. */
  function Event(other: string, payload: string): seq<string> {
    [other, "data: " + payload + "\r", "\r"]
  }

  function Wire(other: string, payloads: seq<string>): seq<string> {
    if payloads == [] then [] else Event(other, payloads[0]) + Wire(other, payloads[1..])
  }

  /** `line` is `data:` and the payload between spaces, or none. */
  ghost predicate Frames(line: string, payload: string) {
    "data:" <= line && Pads(line[5..], payload)
  }

  /** A line has a payload exactly when it is framed so, and then it is that payload. */
  lemma {:induction false} PayloadExact(line: string, payload: string)
    ensures PayloadOf(line) == Some(payload) <==> Frames(line, payload)
  {
    if PREFIX <= line {
      var rest := line[|PREFIX|..];
      assert line == PREFIX + rest;
      TrimEndAppend(PREFIX, rest);
      assert (PREFIX + TrimEnd(rest))[|PREFIX|..] == TrimEnd(rest);
      TrimEitherWay(rest);
      TrimExact(rest, payload);
    } else {
      OtherLine(line);
    }
  }

  lemma {:induction false} DataLine(gap: string, payload: string, tail: string)
    requires AllSpace(gap) && AllSpace(tail) && Trimmed(payload)
    ensures PayloadOf("data:" + gap + payload + tail) == Some(payload)
  {
    var line := "data:" + gap + payload + tail;
    assert line[5..] == gap + payload + tail;
    PayloadExact(line, payload);
  }

  /** The sentinel, however it is spaced. */
  lemma {:induction false} DoneLine(line: string)
    requires Frames(line, "[DONE]")
    ensures PayloadOf(line) == Some(DONE)
  {
    PayloadExact(line, "[DONE]");
  }

  lemma {:induction false} OtherLine(line: string)
    requires !(PREFIX <= line)
    ensures PayloadOf(line) == None
  {
    TrimEndPrefix(line);
  }

  lemma {:induction false} Surrounded(before: string, line: string, after: string)
    requires PayloadOf(before) == None && PayloadOf(after) == None && PayloadOf(line).Some?
    requires PayloadOf(line).value != DONE
    ensures var lines := [before, line, after];
      !IsDone(lines) && Payloads(lines) == [PayloadOf(line).value]
  {
    OneLine(before);
    OneLine(line);
    OneLine(after);
    PayloadsAppend([before], [line]);
    PayloadsAppend([before] + [line], [after]);
    assert [before, line, after] == [before] + [line] + [after];
  }

  lemma {:induction false} EventDelivers(other: string, payload: string)
    requires NEWLINE !in other && PayloadOf(other) == None && Carries(payload)
    ensures Lacks(Event(other, payload), NEWLINE) && !IsDone(Event(other, payload))
    ensures Payloads(Event(other, payload)) == [payload]
  {
    OtherLine("\r");
    DataLine(" ", payload, "\r");
    assert "data:" + " " + payload + "\r" == "data: " + payload + "\r";
    Surrounded(other, "data: " + payload + "\r", "\r");
  }

  lemma {:induction false} WireDelivers(other: string, payloads: seq<string>)
    requires NEWLINE !in other && PayloadOf(other) == None
    requires forall i | 0 <= i < |payloads| :: Carries(payloads[i])
    ensures var wire := Wire(other, payloads);
      Lacks(wire, NEWLINE) && !IsDone(wire) && Payloads(wire) == payloads
  {
    if payloads != [] {
      EventDelivers(other, payloads[0]);
      WireDelivers(other, payloads[1..]);
      PayloadsAppend(Event(other, payloads[0]), Wire(other, payloads[1..]));
    }
  }

  lemma {:induction false} EndsAt(lines: seq<string>, last: string, after: string)
    requires Lacks(lines, NEWLINE) && NEWLINE !in last && !IsDone(lines)
    requires PayloadOf(last) == Some(DONE)
    ensures Batch(Terminated(lines + [last]) + after) == Payloads(lines)
  {
    OneLine(last);
    PayloadsAppend(lines, [last]);
    BatchAfter(lines + [last], after);
  }

  /** Everything a vendor sends before `[DONE]` comes out, in order and unchanged, and nothing after
      it does. */
  lemma {:induction false} StreamRoundTrip(other: string, payloads: seq<string>, last: string, after: string)
    requires NEWLINE !in other && PayloadOf(other) == None
    requires forall i | 0 <= i < |payloads| :: Carries(payloads[i])
    requires NEWLINE !in last && Frames(last, "[DONE]")
    ensures Batch(Terminated(Wire(other, payloads))) == payloads
    ensures Batch(Terminated(Wire(other, payloads) + [last]) + after) == payloads
  {
    WireDelivers(other, payloads);
    NothingFollows(Wire(other, payloads));
    DoneLine(last);
    EndsAt(Wire(other, payloads), last, after);
  }

  lemma {:induction false} NothingFollows(lines: seq<string>)
    requires Lacks(lines, NEWLINE)
    ensures Batch(Terminated(lines)) == Payloads(lines)
  {
    BatchAfter(lines, "");
    assert Terminated(lines) + "" == Terminated(lines);
    OneLine("");
    assert TrimEnd("") == "";
  }
}
