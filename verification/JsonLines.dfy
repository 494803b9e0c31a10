/** Framing a byte stream into newline-terminated messages (`read_json_lines`)
    and the matching writer (`write_message`). */
module JsonLines {
  import opened Base

  datatype Message = Line(bytes: Bytes) | TooLarge | Transport | Eof

  /** How the source ends: closed, or with a read error. */
  datatype Ending = Closed | Failed

  const LF: byte := 10
  const CR: byte := 13

  predicate IsFirstNewline(bytes: Bytes, i: nat) {
    i < |bytes| && bytes[i] == LF && forall k :: 0 <= k < i ==> bytes[k] != LF
  }

  lemma {:induction false} FirstNewlineExists(bytes: Bytes, i: nat)
    requires i < |bytes| && bytes[i] == LF
    ensures exists k: nat :: k < |bytes| && IsFirstNewline(bytes, k)
  {
    if !IsFirstNewline(bytes, i) {
      var k: nat :| k < i && bytes[k] == LF;
      FirstNewlineExists(bytes, k);
    }
  }

  /** The first newline, if there is one. */
  function FindNewline(bytes: Bytes): (r: Option<nat>)
    ensures r.Some? ==> r.value < |bytes|
  {
    if exists k: nat :: k < |bytes| && IsFirstNewline(bytes, k) then
      var k: nat :| k < |bytes| && IsFirstNewline(bytes, k);
      Some(k)
    else None
  }

  lemma NewlineIs(bytes: Bytes, i: nat)
    requires IsFirstNewline(bytes, i)
    ensures FindNewline(bytes) == Some(i)
  {
  }

  lemma NoNewline(bytes: Bytes)
    ensures FindNewline(bytes).None? <==> LF !in bytes
  {
    if LF in bytes {
      var i: nat :| i < |bytes| && bytes[i] == LF;
      FirstNewlineExists(bytes, i);
    }
  }

  function Trimmed(line: Bytes): (r: Bytes)
    ensures r == [] || r[|r| - 1] !in {LF, CR}
  {
    if line != [] && line[|line| - 1] in {LF, CR} then Trimmed(line[..|line| - 1]) else line
  }

  function LineMessages(line: Bytes): seq<Message> {
    if Trimmed(line) == [] then [] else [Line(Trimmed(line))]
  }

  /** The meaning of a whole input: its newline-terminated lines, trimmed and
      without empty ones, up to the first one over the bound or the end of the
      input, where an unfinished line is dropped. */
  function Frames(input: Bytes, ending: Ending, maximum: nat): (r: seq<Message>)
    decreases |input|
  {
    match FindNewline(input)
    case None =>
      if |input| > maximum then [TooLarge] else [if ending.Closed? then Eof else Transport]
    case Some(i) =>
      if i + 1 > maximum then [TooLarge]
      else LineMessages(input[..i + 1]) + Frames(input[i + 1..], ending, maximum)
  }

  /** What arrives when the receiver goes away after some messages. */
  function Delivered(messages: seq<Message>, hangup: Option<nat>): (r: seq<Message>) {
    if hangup.Some? && hangup.value < |messages| then messages[..hangup.value] else messages
  }

  /** An unfinished line already over the bound settles the outcome. */
  lemma OverlongLine(input: Bytes, line: Bytes, rest: Bytes, ending: Ending, maximum: nat)
    requires LF !in line && |line| > maximum && input == line + rest
    ensures Frames(input, ending, maximum) == [TooLarge]
  {
    if FindNewline(input).Some? {
      var k := FindNewline(input).value;
      assert forall j :: 0 <= j < |line| ==> input[j] in line;
      assert k >= |line|;
    }
  }

  /** One complete line at the front of the input. */
  lemma CompleteLine(input: Bytes, line: Bytes, chunk: Bytes, rest: Bytes, i: nat, after: Bytes,
                     ending: Ending, maximum: nat)
    requires LF !in line && FindNewline(chunk) == Some(i)
    requires input == line + (chunk + rest) && after == chunk[i + 1..] + rest
    ensures Frames(input, ending, maximum)
         == if |line| + i + 1 > maximum then [TooLarge]
            else LineMessages(line + chunk[..i + 1]) + Frames(after, ending, maximum)
  {
    NewlineAcross(input, line, chunk, rest, i);
    NewlineIs(input, |line| + i);
    CutLine(line, chunk, rest, i);
  }

  lemma NewlineAcross(input: Bytes, line: Bytes, chunk: Bytes, rest: Bytes, i: nat)
    requires LF !in line && IsFirstNewline(chunk, i) && input == line + (chunk + rest)
    ensures IsFirstNewline(input, |line| + i)
  {
    forall k | 0 <= k < |line| + i ensures input[k] != LF {
      assert input[k] == if k < |line| then line[k] else chunk[k - |line|];
    }
  }

  lemma CutLine(line: Bytes, chunk: Bytes, rest: Bytes, i: nat)
    requires i < |chunk|
    ensures (line + (chunk + rest))[..|line| + i + 1] == line + chunk[..i + 1]
    ensures (line + (chunk + rest))[|line| + i + 1..] == chunk[i + 1..] + rest
  {
  }

  lemma Regroup(line: Bytes, chunk: Bytes, rest: Bytes)
    ensures line + (chunk + rest) == line + chunk + rest == line + chunk + ([] + rest)
    ensures LF !in line && LF !in chunk ==> LF !in line + chunk
  {
    assert [] + rest == rest;
  }

  lemma AtLineStart(chunk: Bytes, rest: Bytes)
    ensures chunk + rest == [] + (chunk + rest)
  {
  }

  lemma JoinedNext(chunks: seq<Bytes>, next: nat)
    requires next < |chunks|
    ensures Joined(chunks[next..]) == chunks[next] + Joined(chunks[next + 1..])
  {
    assert chunks[next..][1..] == chunks[next + 1..];
  }

  class Channel {
    var received: seq<Message>
    const hangup: Option<nat>

    constructor (hangup: Option<nat>)
      ensures received == [] && this.hangup == hangup
    {
      received := [];
      this.hangup := hangup;
    }

    /** Fails once the receiver is gone. */
    method Send(message: Message) returns (ok: bool)
      modifies this
      ensures ok == !(hangup.Some? && hangup.value <= |old(received)|)
      ensures received == if ok then old(received) + [message] else old(received)
    {
      ok := !(hangup.Some? && hangup.value <= |received|);
      if ok {
        received := received + [message];
      }
    }
  }

  /** `read_json_lines`: however the bytes are cut into non-empty chunks, the
      messages are the frames of the whole input, as far as they are received. */
  method ReadJsonLines(chunks: seq<Bytes>, ending: Ending, maximum: nat, sender: Channel)
    requires [] !in chunks && sender.received == []
    modifies sender
    ensures sender.received == Delivered(Frames(Joined(chunks), ending, maximum), sender.hangup)
  {
    var available: Bytes, next: nat, line: Bytes := [], 0, [];
    ghost var todo, later := Joined(chunks), Joined(chunks);
    ghost var whole := Frames(todo, ending, maximum);
    assert chunks[0..] == chunks;
    while true
      invariant next <= |chunks| && LF !in line && |line| <= maximum
      invariant sender.hangup.Some? ==> |sender.received| <= sender.hangup.value
      invariant later == Joined(chunks[next..]) && todo == line + (available + later)
      invariant sender.received + Frames(todo, ending, maximum) == whole
      decreases |chunks| - next, |available|
    {
      if available == [] {
        if next == |chunks| {
          NoNewline(todo);
          Finish(sender, if ending.Closed? then Eof else Transport, whole);
          return;
        }
        JoinedNext(chunks, next);
        AtLineStart(chunks[next], Joined(chunks[next + 1..]));
        available, next, later := chunks[next], next + 1, Joined(chunks[next + 1..]);
      }
      NoNewline(available);
      match FindNewline(available)
      case None =>
        Regroup(line, available, later);
        if |line| + |available| > maximum {
          OverlongLine(todo, line + available, later, ending, maximum);
          Finish(sender, TooLarge, whole);
          return;
        }
        line := line + available;
        available := [];
      case Some(i) =>
        ghost var after := available[i + 1..] + later;
        CompleteLine(todo, line, available, later, i, after, ending, maximum);
        if |line| + i + 1 > maximum {
          Finish(sender, TooLarge, whole);
          return;
        }
        line := line + available[..i + 1];
        available := available[i + 1..];
        todo := after;
        var ok := SendLine(sender, line, Frames(after, ending, maximum), whole);
        if !ok {
          return;
        }
        line := [];
        AtLineStart(available, later);
    }
  }

  /** Trims a complete line and sends it unless nothing is left of it. */
  method SendLine(sender: Channel, line: Bytes, ghost later: seq<Message>, ghost whole: seq<Message>)
    returns (ok: bool)
    requires sender.received + (LineMessages(line) + later) == whole
    requires sender.hangup.Some? ==> |sender.received| <= sender.hangup.value
    modifies sender
    ensures ok ==> sender.received + later == whole
    ensures ok ==> (sender.hangup.Some? ==> |sender.received| <= sender.hangup.value)
    ensures !ok ==> sender.received == Delivered(whole, sender.hangup)
  {
    var trimmed := Trim(line);
    if trimmed == [] {
      return true;
    }
    ok := sender.Send(Line(trimmed));
  }

  /** The last message; its delivery is not checked. */
  method Finish(sender: Channel, message: Message, ghost whole: seq<Message>)
    requires sender.received + [message] == whole
    requires sender.hangup.Some? ==> |sender.received| <= sender.hangup.value
    modifies sender
    ensures sender.received == Delivered(whole, sender.hangup)
  {
    var _ := sender.Send(message);
  }

  method Trim(text: Bytes) returns (line: Bytes)
    ensures line == Trimmed(text)
  {
    line := text;
    while line != [] && line[|line| - 1] in {LF, CR}
      invariant Trimmed(line) == Trimmed(text)
      decreases |line|
    {
      line := line[..|line| - 1];
    }
  }

  // --------------------------------------------------------------------- writer

  /** `write_message`: the encoded value and a newline, if they fit. */
  function Written(message: Bytes, maximum: nat): (r: Option<Bytes>) {
    if |message| + 1 > maximum then None else Some(message + [LF])
  }

  /** Encoded JSON is never empty, never ends in white space and holds no raw newline. */
  predicate Encoded(message: Bytes) {
    message != [] && LF !in message && message[|message| - 1] != CR
  }

  function Wire(messages: seq<Bytes>, maximum: nat): Bytes
    requires forall m :: m in messages ==> Written(m, maximum).Some?
  {
    if messages == [] then []
    else Written(messages[0], maximum).value + Wire(messages[1..], maximum)
  }

  function Lines(messages: seq<Bytes>): seq<Message> {
    if messages == [] then [] else [Line(messages[0])] + Lines(messages[1..])
  }

  /** The reader gives back exactly the messages that were written. */
  lemma {:induction false} WrittenIsRead(messages: seq<Bytes>, maximum: nat)
    requires forall m :: m in messages ==> Encoded(m) && Written(m, maximum).Some?
    ensures Frames(Wire(messages, maximum), Closed, maximum) == Lines(messages) + [Eof]
    decreases |messages|
  {
    if messages != [] {
      var m, rest := messages[0], Wire(messages[1..], maximum);
      WrittenIsRead(messages[1..], maximum);
      ReadOne(m, rest, maximum);
    } else {
      NoNewline([]);
    }
  }

  lemma ReadOne(m: Bytes, rest: Bytes, maximum: nat)
    requires Encoded(m) && |m| + 1 <= maximum
    ensures Frames(m + [LF] + rest, Closed, maximum) == [Line(m)] + Frames(rest, Closed, maximum)
  {
    NewlineIs([LF], 0);
    Regroup(m, [LF], rest);
    CompleteLine(m + [LF] + rest, m, [LF], rest, 0, rest, Closed, maximum);
    assert [LF][..1] == [LF];
    TrimmedEncoded(m);
  }

  lemma TrimmedEncoded(m: Bytes)
    requires Encoded(m)
    ensures Trimmed(m + [LF]) == m
  {
    assert (m + [LF])[..|m + [LF]| - 1] == m;
    assert m[|m| - 1] in m;
  }

  // ------------------------------------------------------- what an input spells out

  /** Trimming takes newlines and returns off the end, and nothing else. */
  lemma {:induction false} TrimmedExactly(line: Bytes)
    ensures Trimmed(line) <= line && forall k :: |Trimmed(line)| <= k < |line| ==> line[k] == LF || line[k] == CR
  {
    if line != [] && line[|line| - 1] in {LF, CR} {
      TrimmedExactly(line[..|line| - 1]);
    }
  }

  /** Lines, each with its newline. */
  function Terminated(lines: seq<Bytes>): Bytes {
    if lines == [] then [] else lines[0] + [LF] + Terminated(lines[1..])
  }

  /** A message for every line that is not blank. */
  function Messages(lines: seq<Bytes>): seq<Message> {
    if lines == [] then []
    else (if Trimmed(lines[0]) == [] then [] else [Line(Trimmed(lines[0]))]) + Messages(lines[1..])
  }

  lemma TrimmedLine(line: Bytes)
    ensures Trimmed(line + [LF]) == Trimmed(line)
  {
    assert (line + [LF])[..|line + [LF]| - 1] == line;
  }

  lemma LineFirst(line: Bytes, rest: Bytes, ending: Ending, maximum: nat)
    requires LF !in line
    ensures Frames(line + [LF] + rest, ending, maximum)
            == if |line| + 1 > maximum then [TooLarge]
               else (if Trimmed(line) == [] then [] else [Line(Trimmed(line))]) + Frames(rest, ending, maximum)
  {
    NewlineIs([LF], 0);
    Regroup(line, [LF], rest);
    CompleteLine(line + [LF] + rest, line, [LF], rest, 0, rest, ending, maximum);
    assert [LF][..1] == [LF];
    TrimmedLine(line);
  }

  lemma LineStep(lines: seq<Bytes>, tail: Bytes, rest: Bytes, ending: Ending, maximum: nat)
    requires lines != [] && LF !in lines[0] && |lines[0]| + 1 <= maximum && rest == Terminated(lines[1..]) + tail
    requires Frames(rest, ending, maximum) == Messages(lines[1..]) + Frames(tail, ending, maximum)
    ensures Frames(Terminated(lines) + tail, ending, maximum) == Messages(lines) + Frames(tail, ending, maximum)
  {
    var first, more := lines[0] + [LF], Terminated(lines[1..]);
    LineFirst(lines[0], rest, ending, maximum);
    Regroup(first, more, tail);
    assert Terminated(lines) + tail == first + rest;
  }

  lemma {:induction false} LinesFirst(lines: seq<Bytes>, tail: Bytes, ending: Ending, maximum: nat)
    requires forall line :: line in lines ==> LF !in line && |line| + 1 <= maximum
    ensures Frames(Terminated(lines) + tail, ending, maximum) == Messages(lines) + Frames(tail, ending, maximum)
    decreases |lines|
  {
    if lines == [] {
      assert Terminated(lines) + tail == tail;
    } else {
      LinesFirst(lines[1..], tail, ending, maximum);
      LineStep(lines, tail, Terminated(lines[1..]) + tail, ending, maximum);
    }
  }

  /** Every input is some lines and an unfinished one. The reader reports the lines that are
      not blank, in order, then the end; the unfinished line is dropped, or reported when it
      alone is over the bound. */
  lemma FramesExactly(lines: seq<Bytes>, partial: Bytes, ending: Ending, maximum: nat)
    requires LF !in partial && forall line :: line in lines ==> LF !in line && |line| + 1 <= maximum
    ensures Frames(Terminated(lines) + partial, ending, maximum)
            == Messages(lines) + [if |partial| > maximum then TooLarge else if ending.Closed? then Eof else Transport]
  {
    LinesFirst(lines, partial, ending, maximum);
    NoNewline(partial);
  }

  /** A line over the bound ends the reading after the lines before it. */
  lemma OverlongStops(lines: seq<Bytes>, line: Bytes, rest: Bytes, ending: Ending, maximum: nat)
    requires LF !in line && |line| + 1 > maximum
    requires forall before :: before in lines ==> LF !in before && |before| + 1 <= maximum
    ensures Frames(Terminated(lines) + (line + [LF] + rest), ending, maximum) == Messages(lines) + [TooLarge]
  {
    LinesFirst(lines, line + [LF] + rest, ending, maximum);
    LineFirst(line, rest, ending, maximum);
  }
}
