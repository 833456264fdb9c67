/** One upload session with the socket replaced by its observable results:
    how the connection attempt ended, the scripted replies of the device
    (reply `k` answers the `k`-th request; a reply that is missing, or a
    transport exception, reads as the empty reply), and the presses of the
    abort button (the abort flag, once set, stays set for the session).
    A session is recorded as the steps whose requests it sent; the bytes
    of each are given by `Protocol.Request`. */
module Session {
  import opened Wrappers
  import opened Binary
  import opened Text
  import opened Protocol

  /** How connecting to port 8899 of the device ended. */
  datatype Connection = Connected | ResolveError | TimeoutError | OtherError

  datatype Outcome = Done | Failed(message: string) | Aborted

  /** The steps whose requests were sent, in order, and how the session ended. */
  datatype Trace = Trace(sent: seq<Step>, outcome: Outcome)

  /** The number of requests before the first part. */
  const OpeningLength: nat := 3

  function ConnectMessage(c: Connection): string
    requires !c.Connected?
  {
    match c
    case ResolveError => "Connection failed: Check IP address."
    case TimeoutError => "Connection failed: Timeout."
    case OtherError => "Connection failed."
  }

  /** The reply to request number `k`. */
  function Response(responses: seq<string>, k: nat): string
  {
    if k < |responses| then responses[k] else ""
  }

  /** How the device judges the requests: the verdict on `s` when it was
      sent as request number `k` (`None` for an accepting reply). */
  type Judge = (nat, Step) -> Option<string>

  /** The verdicts of a device that gives the scripted replies. */
  function Replies(responses: seq<string>): (judge: Judge)
  {
    (k: nat, s: Step) => Verdict(s, Response(responses, k))
  }

  /** The value of the abort flag at its `k`-th read: set once the button
      was pressed at or before that read. */
  predicate AbortSeen(aborts: seq<bool>, k: nat)
  {
    exists j | 0 <= j < |aborts| && j <= k :: aborts[j]
  }

  datatype Exchanged = Exchanged(sent: seq<Step>, failure: Option<string>)

  /** Sends the steps one after the other, the first as request number
      `first`, and stops at the first step the device does not accept. */
  function Exchange(steps: seq<Step>, judge: Judge, first: nat): (r: Exchanged)
    ensures |steps| > 0 ==> 0 < |r.sent|
    ensures |r.sent| <= |steps|
    ensures r.failure.None? ==> |r.sent| == |steps|
    decreases |steps|
  {
    if |steps| == 0 then Exchanged([], None)
    else
      match judge(first, steps[0])
      case Some(message) => Exchanged([steps[0]], Some(message))
      case None =>
        var rest := Exchange(steps[1..], judge, first + 1);
        Exchanged([steps[0]] + rest.sent, rest.failure)
  }

  /** The chunk loop from part `count` on, as the upload routine writes
      it: at the loop head the abort flag is read (read number `count`);
      the slice at byte 4096 * count is taken; an empty slice ends the loop
      without sending; otherwise its part is sent and judged, and the loop
      goes on only after a full 4096-byte slice. `flagReads` counts the
      flag reads. */
  datatype Uploaded = Uploaded(sent: seq<Step>, failure: Option<string>, flagReads: nat)

  function Upload(payload: Bytes, judge: Judge, aborts: seq<bool>, count: nat): (r: Uploaded)
    requires ChunkSize * count <= |payload|
    ensures count < r.flagReads
    ensures r.failure.Some? ==> 0 < |r.sent|
    decreases |payload| - ChunkSize * count
  {
    if AbortSeen(aborts, count) then Uploaded([], None, count + 1)
    else
      var data := Slice(payload, count);
      if |data| == 0 then Uploaded([], None, count + 1)
      else
        var part := Part(count, data);
        match judge(OpeningLength + count, part)
        case Some(message) => Uploaded([part], Some(message), count + 1)
        case None =>
          if |data| == ChunkSize then
            var rest := Upload(payload, judge, aborts, count + 1);
            Uploaded([part] + rest.sent, rest.failure, rest.flagReads)
          else Uploaded([part], None, count + 1)
  }

  /** How a connected session ends, given how its opening exchanges, its
      chunk loop and its closing exchanges went: the chunk loop runs only
      after an accepted opening, the closing exchanges only after a chunk
      loop that neither failed nor finds the abort flag set afterwards. */
  function Conclude(start: Exchanged, upload: Uploaded, finish: Exchanged, aborts: seq<bool>): Trace
  {
    if start.failure.Some? then Trace(start.sent, Failed(start.failure.value))
    else
      var sent := start.sent + upload.sent;
      if upload.failure.Some? then Trace(sent, Failed(upload.failure.value))
      else if AbortSeen(aborts, upload.flagReads) then Trace(sent, Aborted)
      else Trace(sent + finish.sent, if finish.failure.Some? then Failed(finish.failure.value) else Done)
  }

  /** The session once connected, for the given opening and closing
      commands. The closing exchanges are answered from the reply after the
      last part's; they take place only when `Conclude` says so. */
  function Dialogue(opening: seq<Step>, payload: Bytes, closing: seq<Step>,
                    judge: Judge, aborts: seq<bool>): Trace
  {
    var start := Exchange(opening, judge, 0);
    var upload := Upload(payload, judge, aborts, 0);
    var finish := Exchange(closing, judge, |start.sent| + |upload.sent|);
    Conclude(start, upload, finish, aborts)
  }

  /** The whole session: connect, then the dialogue of the plan. */
  function Run(connection: Connection, payload: Bytes, name: string,
               responses: seq<string>, aborts: seq<bool>): (t: Trace)
    ensures 0 < |t.sent| <==> connection.Connected?
    ensures t.outcome.Done? ==> |t.sent| >= |Opening(payload, name)| + |Closing(name)|
  {
    if !connection.Connected? then Trace([], Failed(ConnectMessage(connection)))
    else Dialogue(Opening(payload, name), payload, Closing(name), Replies(responses), aborts)
  }

  /** A run of exchanges whose replies all accept sends every step. */
  lemma {:induction false} ExchangeCompletes(steps: seq<Step>, judge: Judge, first: nat)
    requires forall j | 0 <= j < |steps| :: judge(first + j, steps[j]).None?
    ensures Exchange(steps, judge, first) == Exchanged(steps, None)
    decreases |steps|
  {
    if |steps| > 0 {
      assert judge(first + 0, steps[0]).None?;
      var rest := steps[1..];
      forall j | 0 <= j < |rest|
        ensures judge(first + 1 + j, rest[j]).None?
      {
        assert judge(first + (j + 1), steps[j + 1]).None?;
      }
      ExchangeCompletes(rest, judge, first + 1);
      assert [steps[0]] + rest == steps;
    }
  }

  /** A run of exchanges stops at the first reply that is not accepted:
      that step is the last one sent and its message ends the run. */
  lemma {:induction false} ExchangeStopsAt(steps: seq<Step>, judge: Judge, first: nat, k: nat)
    requires k < |steps|
    requires forall j | 0 <= j < k :: judge(first + j, steps[j]).None?
    requires judge(first + k, steps[k]).Some?
    ensures Exchange(steps, judge, first)
         == Exchanged(steps[..k + 1], judge(first + k, steps[k]))
    decreases k
  {
    if k > 0 {
      assert judge(first + 0, steps[0]).None?;
      var rest := steps[1..];
      forall j | 0 <= j < k - 1
        ensures judge(first + 1 + j, rest[j]).None?
      {
        assert judge(first + (j + 1), steps[j + 1]).None?;
      }
      assert rest[k - 1] == steps[k];
      assert first + 1 + (k - 1) == first + k;
      ExchangeStopsAt(rest, judge, first + 1, k - 1);
      assert [steps[0]] + rest[..k] == steps[..k + 1];
    }
  }

  /** The command exchanges of the routine: each command is sent, an empty
      reply ends the run with the step's error message, a reply without the
      step's prefix ends it with the step's failure message. */
  method SendCommands(steps: seq<Step>, responses: seq<string>, first: nat)
    returns (sent: seq<Step>, failure: Option<string>)
    requires forall i | 0 <= i < |steps| :: steps[i].Command?
    ensures Exchanged(sent, failure) == Exchange(steps, Replies(responses), first)
  {
    var judge := Replies(responses);
    sent := [];
    var k := 0;
    while k < |steps|
      invariant 0 <= k <= |steps|
      invariant sent == steps[..k]
      invariant forall j | 0 <= j < k :: judge(first + j, steps[j]).None?
    {
      var step := steps[k];
      sent := sent + [step];
      assert sent == steps[..k + 1];
      var res := Response(responses, first + k);
      if res != "" {
        if !(step.reply <= res) {
          ExchangeStopsAt(steps, judge, first, k);
          return sent, Some(step.failed);
        }
      } else {
        ExchangeStopsAt(steps, judge, first, k);
        return sent, Some(step.error);
      }
      k := k + 1;
    }
    assert steps[..k] == steps;
    ExchangeCompletes(steps, judge, first);
    failure := None;
  }

  /** The loop's progress so far followed by the rest of the loop. */
  function SentBefore(sent: seq<Step>, rest: Uploaded): Uploaded
  {
    Uploaded(sent + rest.sent, rest.failure, rest.flagReads)
  }

  /** The routine's check of the reply to a part: an empty reply is an
      error, a reply mentioning "error" is a failure. */
  method CheckPart(index: nat, data: Bytes, response: string) returns (failure: Option<string>)
    ensures failure == Verdict(Part(index, data), response)
    ensures failure.None? <==> response != "" && !(exists i :: OccursAt(response, "error", i))
    ensures failure.Some? ==>
      failure.value == "Part " + Decimal(index) + (if response == "" then " error." else " failed.")
  {
    ContainsIff(response, "error");
    if response != "" {
      if Contains(response, "error") {
        return Some("Part " + Decimal(index) + " failed.");
      }
      return None;
    }
    return Some("Part " + Decimal(index) + " error.");
  }

  /** One turn of the chunk loop, at a head where the abort flag is clear,
      after the loop has sent `parts`: what the whole loop comes to when
      the turn ends it, and what is left of it when it goes on. */
  lemma ChunkTurn(payload: Bytes, judge: Judge, aborts: seq<bool>, count: nat, parts: seq<Step>)
    requires ChunkSize * count <= |payload| && !AbortSeen(aborts, count)
    requires Upload(payload, judge, aborts, 0) == SentBefore(parts, Upload(payload, judge, aborts, count))
    ensures var data := Slice(payload, count);
      var part := Part(count, data);
      var verdict := judge(OpeningLength + count, part);
      var whole := Upload(payload, judge, aborts, 0);
      && (|data| == 0 ==> whole == Uploaded(parts, None, count + 1))
      && (|data| > 0 && verdict.Some? ==> whole == Uploaded(parts + [part], verdict, count + 1))
      && (0 < |data| < ChunkSize && verdict.None? ==> whole == Uploaded(parts + [part], None, count + 1))
      && (|data| == ChunkSize && verdict.None? ==>
            whole == SentBefore(parts + [part], Upload(payload, judge, aborts, count + 1)))
  {
    var data := Slice(payload, count);
    if |data| == 0 {
      assert parts + [] == parts;
    } else if |data| == ChunkSize && judge(OpeningLength + count, Part(count, data)).None? {
      var rest := Upload(payload, judge, aborts, count + 1).sent;
      assert parts + ([Part(count, data)] + rest) == parts + [Part(count, data)] + rest;
    }
  }

  /** The chunk loop of the routine, `while bytesRead == 4096 and not
      abort`, with the parts it sends, the failure that stopped it, and
      the number of times it read the abort flag. */
  method SendParts(payload: Bytes, responses: seq<string>, aborts: seq<bool>)
    returns (parts: seq<Step>, failure: Option<string>, flagReads: nat)
    ensures Uploaded(parts, failure, flagReads) == Upload(payload, Replies(responses), aborts, 0)
  {
    var judge := Replies(responses);
    parts := [];
    var startByte := 0;
    var bytesRead := ChunkSize;
    var count := 0;
    flagReads := 0;
    while bytesRead == ChunkSize && !AbortSeen(aborts, flagReads)
      invariant startByte == ChunkSize * count
      invariant bytesRead == ChunkSize ==> startByte <= |payload| && flagReads == count
      invariant bytesRead == ChunkSize ==>
        Upload(payload, judge, aborts, 0) == SentBefore(parts, Upload(payload, judge, aborts, count))
      invariant bytesRead != ChunkSize ==>
        Upload(payload, judge, aborts, 0) == Uploaded(parts, None, flagReads)
      decreases if bytesRead == ChunkSize then |payload| + ChunkSize + 1 - startByte else 0
    {
      ChunkTurn(payload, judge, aborts, count, parts);
      flagReads := flagReads + 1;
      var data := payload[startByte .. Min(startByte + ChunkSize, |payload|)];
      assert data == Slice(payload, count);
      bytesRead := |data|;
      if bytesRead > 0 {
        parts := parts + [Part(count, data)];
        var verdict := CheckPart(count, data, Response(responses, OpeningLength + count));
        assert verdict == judge(OpeningLength + count, Part(count, data));
        if verdict.Some? {
          return parts, verdict, flagReads;
        }
        count := count + 1;
        startByte := startByte + ChunkSize;
      }
    }
    if bytesRead == ChunkSize {
      // the read of the flag that stopped the loop
      flagReads := flagReads + 1;
    }
    failure := None;
  }

  /** The upload routine once connected: the opening commands, the chunk
      loop, one more read of the abort flag, then the closing commands. */
  method Converse(opening: seq<Step>, payload: Bytes, closing: seq<Step>,
                  responses: seq<string>, aborts: seq<bool>) returns (trace: Trace)
    requires forall i | 0 <= i < |opening| :: opening[i].Command?
    requires forall i | 0 <= i < |closing| :: closing[i].Command?
    ensures trace == Dialogue(opening, payload, closing, Replies(responses), aborts)
  {
    var started, failure := SendCommands(opening, responses, 0);
    if failure.Some? {
      return Trace(started, Failed(failure.value));
    }
    var parts, partFailure, flagReads := SendParts(payload, responses, aborts);
    var sent := started + parts;
    if partFailure.Some? {
      return Trace(sent, Failed(partFailure.value));
    }
    if AbortSeen(aborts, flagReads) {
      return Trace(sent, Aborted);
    }
    var finished, closeFailure := SendCommands(closing, responses, |started| + |parts|);
    sent := sent + finished;
    if closeFailure.Some? {
      return Trace(sent, Failed(closeFailure.value));
    }
    return Trace(sent, Done);
  }

  /** The upload routine: connect, and on success converse with the
      device. It sends exactly what `Run` describes; a failed connection
      sends nothing. */
  method SendFile(connection: Connection, payload: Bytes, name: string,
                  responses: seq<string>, aborts: seq<bool>) returns (trace: Trace)
    ensures trace == Run(connection, payload, name, responses, aborts)
    ensures !connection.Connected? ==> trace == Trace([], Failed(ConnectMessage(connection)))
  {
    match connection {
      case ResolveError => return Trace([], Failed("Connection failed: Check IP address."));
      case TimeoutError => return Trace([], Failed("Connection failed: Timeout."));
      case OtherError => return Trace([], Failed("Connection failed."));
      case Connected =>
    }
    trace := Converse(Opening(payload, name), payload, Closing(name), responses, aborts);
  }
}
