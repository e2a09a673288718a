/** The terminal-output collector of `Client._collectData`: a state machine
    whose only state is the text buffered since the last response. Each chunk
    read from the sftp terminal is classified by its ending: a password prompt
    raises a password event and is not buffered, a command prompt completes a
    response (the whole buffer split on carriage returns) and empties the
    buffer, and anything else is buffered silently. */
module Collector {
  import opened JsStrings

  const PasswordPrompt: string := "password: "
  const CommandPrompt: string := "sftp> "
  /** The terminal's line terminator, the argument of `split`. */
  const LineEnd: char := '\r'

  /** What one chunk makes the collector emit. */
  datatype Event = NoEvent | Password | Response(lines: seq<string>)

  /** The collector's state after a chunk, with the event it emitted. */
  datatype Transition = Transition(event: Event, buffer: string)

  /** A chunk that completes a response: the password test comes first. */
  predicate IsPromptChunk(chunk: string) {
    !EndsWith(chunk, PasswordPrompt) && EndsWith(chunk, CommandPrompt)
  }

  /** The two prompts never end the same chunk, so the order of the tests
      never decides an outcome. */
  lemma PromptsExclusive(chunk: string)
    ensures EndsWith(chunk, PasswordPrompt) ==> !EndsWith(chunk, CommandPrompt)
    ensures IsPromptChunk(chunk) <==> EndsWith(chunk, CommandPrompt)
  {
    if EndsWith(chunk, PasswordPrompt) {
      var tail := chunk[|chunk| - |CommandPrompt|..];
      assert tail[4] == chunk[|chunk| - 2] == ':';
      assert tail != CommandPrompt;
    }
  }

  /** One call of the collector on `chunk` with `buffer` already held. */
  function Step(buffer: string, chunk: string): Transition {
    if EndsWith(chunk, PasswordPrompt) then
      Transition(Password, buffer)
    else if EndsWith(chunk, CommandPrompt) then
      Transition(Response(Split(buffer + chunk, LineEnd)), "")
    else
      Transition(NoEvent, buffer + chunk)
  }

  /** What one chunk does: a password event exactly for a chunk ending in the
      password prompt, leaving the buffer alone; a response exactly for a
      prompt chunk, emptying the buffer, whose lines join back to the old
      buffer and the chunk, hold no line terminator, are never empty and end
      with the prompt; otherwise no event, and the chunk is buffered. */
  lemma StepSpec(buffer: string, chunk: string)
    ensures var r := Step(buffer, chunk);
      (r.event.Password? <==> EndsWith(chunk, PasswordPrompt)) &&
      (r.event.Response? <==> IsPromptChunk(chunk)) &&
      (r.event.Password? ==> r.buffer == buffer) &&
      (r.event.NoEvent? ==> r.buffer == buffer + chunk) &&
      (r.event.Response? ==>
        r.buffer == "" &&
        |r.event.lines| >= 1 &&
        Join(r.event.lines, LineEnd) == buffer + chunk &&
        (forall k :: 0 <= k < |r.event.lines| ==> LineEnd !in r.event.lines[k]) &&
        EndsWith(r.event.lines[|r.event.lines| - 1], CommandPrompt))
  {
    if IsPromptChunk(chunk) {
      var all := buffer + chunk;
      JoinSplit(all, LineEnd);
      SplitSeparatorFree(all, LineEnd);
      assert EndsWith(all, CommandPrompt) by {
        assert all[|all| - |CommandPrompt|..] == chunk[|chunk| - |CommandPrompt|..];
      }
      SplitLastEndsWith(all, CommandPrompt, LineEnd);
    }
  }

  /** The buffer one step leaves, whatever event it raises. */
  lemma StepBuffer(held: string, chunk: string)
    ensures Step(held, chunk).buffer ==
      if IsPromptChunk(chunk) then "" else held + (if EndsWith(chunk, PasswordPrompt) then "" else chunk)
  {
    PromptsExclusive(chunk);
  }

  /** The events of a run, one per chunk fed, and the buffer it leaves. */
  datatype Trace = Trace(events: seq<Event>, buffer: string)

  /** Feeding `chunks` one after another to a collector holding `buffer`. */
  function Run(buffer: string, chunks: seq<string>): (t: Trace)
    ensures |t.events| == |chunks|
    decreases |chunks|
  {
    if |chunks| == 0 then Trace([], buffer)
    else
      var before := Run(buffer, chunks[..|chunks| - 1]);
      var step := Step(before.buffer, chunks[|chunks| - 1]);
      Trace(before.events + [step.event], step.buffer)
  }

  /** The text the collector keeps from `chunks`: every chunk that is not a
      password prompt, in order. */
  function Kept(chunks: seq<string>): string
    decreases |chunks|
  {
    if |chunks| == 0 then ""
    else
      var last := chunks[|chunks| - 1];
      Kept(chunks[..|chunks| - 1]) + (if EndsWith(last, PasswordPrompt) then "" else last)
  }

  /** The index of the last chunk that completes a response, or -1. */
  function LastPrompt(chunks: seq<string>): (i: int)
    ensures -1 <= i < |chunks|
    ensures i >= 0 ==> IsPromptChunk(chunks[i])
    decreases |chunks|
  {
    if |chunks| == 0 then -1
    else if IsPromptChunk(chunks[|chunks| - 1]) then |chunks| - 1
    else LastPrompt(chunks[..|chunks| - 1])
  }

  /** Only a stream with a command prompt in it has a last prompt. */
  lemma {:induction false} NoLastPrompt(chunks: seq<string>)
    requires forall k :: 0 <= k < |chunks| ==> !IsPromptChunk(chunks[k])
    ensures LastPrompt(chunks) == -1
    decreases |chunks|
  {
    var n := |chunks|;
    if n > 0 {
      var front := chunks[..n - 1];
      assert forall k :: 0 <= k < |front| ==> front[k] == chunks[k];
      NoLastPrompt(front);
      assert !IsPromptChunk(chunks[n - 1]);
    }
  }

  /** How many chunks complete a response. */
  function PromptCount(chunks: seq<string>): nat
    decreases |chunks|
  {
    if |chunks| == 0 then 0
    else PromptCount(chunks[..|chunks| - 1]) + (if IsPromptChunk(chunks[|chunks| - 1]) then 1 else 0)
  }

  /** How many events are responses. */
  function ResponseCount(events: seq<Event>): nat
    decreases |events|
  {
    if |events| == 0 then 0
    else ResponseCount(events[..|events| - 1]) + (if events[|events| - 1].Response? then 1 else 0)
  }

  /** A run is the run of its prefix followed by the next step: the i-th
      event is what the i-th chunk produces from the buffer left by the
      chunks before it. */
  lemma {:induction false} RunPrefix(buffer: string, chunks: seq<string>, i: nat)
    requires i < |chunks|
    ensures Run(buffer, chunks[..i + 1]).events == Run(buffer, chunks).events[..i + 1]
    ensures Run(buffer, chunks).events[i] == Step(Run(buffer, chunks[..i]).buffer, chunks[i]).event
    ensures Run(buffer, chunks[..i + 1]).buffer == Step(Run(buffer, chunks[..i]).buffer, chunks[i]).buffer
    decreases |chunks|
  {
    var n := |chunks|;
    assert chunks[..i + 1][..i] == chunks[..i];
    if i + 1 < n {
      var front := chunks[..n - 1];
      RunPrefix(buffer, front, i);
      assert front[..i + 1] == chunks[..i + 1];
      assert front[..i] == chunks[..i];
      assert Run(buffer, chunks).events == Run(buffer, front).events + [Step(Run(buffer, front).buffer, chunks[n - 1]).event];
    } else {
      assert chunks[..i + 1] == chunks;
    }
  }

  /** The i-th event of a run is what the i-th chunk makes of the buffer
      the earlier chunks left. */
  lemma EventAt(buffer: string, chunks: seq<string>, i: nat)
    requires i < |chunks|
    ensures Run(buffer, chunks).events[i] == Step(Run(buffer, chunks[..i]).buffer, chunks[i]).event
  {
    RunPrefix(buffer, chunks, i);
  }

  /** Kept text grows by one chunk unless that chunk is a password prompt. */
  lemma KeptSnoc(front: seq<string>, chunk: string)
    ensures Kept(front + [chunk]) == Kept(front) + (if EndsWith(chunk, PasswordPrompt) then "" else chunk)
  {
    assert (front + [chunk])[..|front|] == front;
  }

  /** Nothing is lost: the buffer holds everything kept since the last
      response, or, if there was none, the initial buffer and everything
      kept since the start. */
  lemma {:induction false} RunBuffer(buffer: string, chunks: seq<string>)
    ensures Run(buffer, chunks).buffer == Pending(buffer, chunks)
    decreases |chunks|
  {
    if |chunks| > 0 {
      var front := chunks[..|chunks| - 1];
      var last := chunks[|chunks| - 1];
      RunBuffer(buffer, front);
      assert Run(buffer, chunks).buffer == Step(Run(buffer, front).buffer, last).buffer;
      PendingSnoc(buffer, front, last);
      assert front + [last] == chunks;
    }
  }

  /** The text kept since the last response, or, if there was none, the
      initial buffer and everything kept. */
  function Pending(buffer: string, chunks: seq<string>): string {
    var j := LastPrompt(chunks);
    if j < 0 then buffer + Kept(chunks) else Kept(chunks[j + 1..])
  }

  /** One more chunk moves the pending text as one step moves the buffer. */
  lemma PendingSnoc(buffer: string, front: seq<string>, last: string)
    ensures Pending(buffer, front + [last]) == Step(Pending(buffer, front), last).buffer
  {
    StepBuffer(Pending(buffer, front), last);
    LastPromptSnoc(front, last);
    if IsPromptChunk(last) {
      assert (front + [last])[|front| + 1..] == [];
    } else if LastPrompt(front) < 0 {
      PendingSnocFirst(buffer, front, last);
    } else {
      KeptSinceSnoc(front, last, LastPrompt(front) + 1);
    }
  }

  lemma PendingSnocFirst(buffer: string, front: seq<string>, last: string)
    requires !IsPromptChunk(last) && LastPrompt(front) < 0
    ensures Pending(buffer, front + [last]) ==
      Pending(buffer, front) + (if EndsWith(last, PasswordPrompt) then "" else last)
  {
    LastPromptSnoc(front, last);
    KeptSnoc(front, last);
  }

  lemma LastPromptSnoc(front: seq<string>, last: string)
    ensures LastPrompt(front + [last]) == if IsPromptChunk(last) then |front| else LastPrompt(front)
  {
    assert (front + [last])[..|front|] == front;
  }

  lemma KeptSinceSnoc(front: seq<string>, last: string, from: nat)
    requires from <= |front|
    ensures Kept((front + [last])[from..]) == Kept(front[from..]) + (if EndsWith(last, PasswordPrompt) then "" else last)
  {
    assert (front + [last])[from..] == front[from..] + [last];
    KeptSnoc(front[from..], last);
  }

  /** The buffer the collector holds just before the chunk at index i. */
  lemma BufferBefore(buffer: string, chunks: seq<string>, i: nat)
    requires i < |chunks| && !EndsWith(chunks[i], PasswordPrompt)
    ensures Run(buffer, chunks[..i]).buffer + chunks[i] == SincePrevious(buffer, chunks, i)
  {
    var front := chunks[..i];
    RunBuffer(buffer, front);
    var j := LastPrompt(front);
    assert chunks[..i + 1] == front + [chunks[i]];
    KeptSnoc(front, chunks[i]);
    if j >= 0 {
      assert chunks[j + 1..i + 1] == front[j + 1..] + [chunks[i]];
      KeptSnoc(front[j + 1..], chunks[i]);
    }
  }

  /** The chunk at index i raises a response exactly when it ends in the
      command prompt (and not in the password prompt), and a password event
      exactly when it ends in the password prompt. */
  lemma ResponsesAtPrompts(buffer: string, chunks: seq<string>, i: nat)
    requires i < |chunks|
    ensures Run(buffer, chunks).events[i].Response? <==> IsPromptChunk(chunks[i])
    ensures Run(buffer, chunks).events[i].Password? <==> EndsWith(chunks[i], PasswordPrompt)
  {
    var held := Run(buffer, chunks[..i]).buffer;
    EventAt(buffer, chunks, i);
    StepSpec(held, chunks[i]);
  }

  /** `lines` is a complete response for `text`: not empty, ending with the
      command prompt, and joining back to `text` with carriage returns. */
  predicate Reassembles(lines: seq<string>, text: string) {
    |lines| >= 1 && EndsWith(lines[|lines| - 1], CommandPrompt) && Join(lines, LineEnd) == text
  }

  /** The non-password chunks kept from just after the previous response up
      to and including chunk i; with no earlier response, the initial buffer
      and every chunk kept up to i. */
  function SincePrevious(buffer: string, chunks: seq<string>, i: nat): string
    requires i < |chunks|
  {
    var j := LastPrompt(chunks[..i]);
    if j < 0 then buffer + Kept(chunks[..i + 1]) else Kept(chunks[j + 1..i + 1])
  }

  /** A prompt chunk on top of `held` raises a response that reassembles
      `held` and the chunk. */
  lemma PromptStep(held: string, chunk: string, expected: string)
    requires IsPromptChunk(chunk) && held + chunk == expected
    ensures Step(held, chunk).event.Response?
    ensures Reassembles(Step(held, chunk).event.lines, expected)
  {
    StepSpec(held, chunk);
  }

  /** The round trip of a response: the lines of the response raised by a
      prompt chunk are never empty, the last one ends with the prompt, and
      joined with carriage returns they give back exactly the kept chunks
      since the previous response, this prompt chunk included. */
  lemma ResponseRoundTrip(buffer: string, chunks: seq<string>, i: nat)
    requires i < |chunks| && IsPromptChunk(chunks[i])
    ensures Run(buffer, chunks).events[i].Response?
    ensures Reassembles(Run(buffer, chunks).events[i].lines, SincePrevious(buffer, chunks, i))
  {
    var held := Run(buffer, chunks[..i]).buffer;
    BufferBefore(buffer, chunks, i);
    PromptStep(held, chunks[i], SincePrevious(buffer, chunks, i));
    EventAt(buffer, chunks, i);
  }

  /** Each chunk raises at most one event, and over any run the number of
      responses is the number of chunks ending in the command prompt. */
  lemma {:induction false} ResponsesMatchPrompts(buffer: string, chunks: seq<string>)
    ensures |Run(buffer, chunks).events| == |chunks|
    ensures ResponseCount(Run(buffer, chunks).events) == PromptCount(chunks)
    decreases |chunks|
  {
    var n := |chunks|;
    if n > 0 {
      var front := chunks[..n - 1];
      ResponsesMatchPrompts(buffer, front);
      StepSpec(Run(buffer, front).buffer, chunks[n - 1]);
      var events := Run(buffer, chunks).events;
      assert events[..n - 1] == Run(buffer, front).events;
    }
  }

  /** A stream without a command prompt raises no response and the buffer
      retains all accumulated text. */
  lemma QuietRun(buffer: string, chunks: seq<string>)
    requires forall k :: 0 <= k < |chunks| ==> !IsPromptChunk(chunks[k])
    ensures forall k :: 0 <= k < |chunks| ==> !Run(buffer, chunks).events[k].Response?
    ensures Run(buffer, chunks).buffer == buffer + Kept(chunks)
  {
    RunBuffer(buffer, chunks);
    NoLastPrompt(chunks);
    assert Pending(buffer, chunks) == buffer + Kept(chunks);
    forall k | 0 <= k < |chunks| ensures !Run(buffer, chunks).events[k].Response? {
      ResponsesAtPrompts(buffer, chunks, k);
    }
  }
}
