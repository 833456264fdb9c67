/** The exchanges of one upload, in the order the device expects them:
    three opening commands, one frame per 4096-byte chunk of the payload,
    and two closing commands. Each exchange is a request and the rule that
    judges the device's reply. */
module Protocol {
  import opened Wrappers
  import opened Binary
  import opened Text
  import FrameCodec

  const ChunkSize: nat := FrameCodec.ChunkSize

  /** The largest payload whose part indices all fit the 4-byte index field. */
  const MaxPayload: nat := ChunkSize * U32Limit

  /** A command with the reply prefix that accepts it and the two messages
      for a reply without that prefix and for no reply; or a data part. */
  datatype Step =
    | Command(text: string, reply: string, failed: string, error: string)
    | Part(index: nat, data: Bytes)

  /** The device file: the name cut to 32 characters, with extension `.g`,
      in the user directory. */
  function DevicePath(name: string): (p: string)
    ensures |p| == 8 + Min(32, |name|) + 2
    ensures p[..8] == "0:/user/" && p[|p| - 2..] == ".g"
    ensures p[8..|p| - 2] == name[..Min(32, |name|)]
  {
    "0:/user/" + name[..Min(32, |name|)] + ".g"
  }

  const Initialize: Step := Command("~M601 S1", "CMD M601 Received.\r\nControl Success.",
    "Printer initialization failed.", "Printer initialization error.")

  const StartUpload: Step := Command("~M650", "CMD M650 Received.\r\nX:",
    "Start upload failed.", "Start upload error.")

  function CreateFile(length: nat, name: string): Step
  {
    Command("~M28 " + Decimal(length) + " " + DevicePath(name), "CMD M28 Received.\r\nWriting to file:",
      "Create file failed.", "Create file error.")
  }

  const SaveFile: Step := Command("~M29", "CMD M29 Received.\r\nDone saving file.",
    "Saving file failed.", "Saving file error.")

  function StartPrint(name: string): Step
  {
    Command("~M23 " + DevicePath(name), "CMD M23 Received.\r\nFile opened:",
      "Start print failed. Try to start it manually.", "Start print error. Try to start it manually.")
  }

  /** The consecutive slices of at most 4096 bytes the payload is sent in. */
  function Chunks(payload: Bytes): (r: seq<Bytes>)
    ensures |r| == (|payload| + ChunkSize - 1) / ChunkSize
    ensures forall i | 0 <= i < |r| :: 0 < |r[i]| <= ChunkSize
    decreases |payload|
  {
    if |payload| == 0 then []
    else if |payload| <= ChunkSize then [payload]
    else [payload[..ChunkSize]] + Chunks(payload[ChunkSize..])
  }

  /** The slice of the payload starting at byte `ChunkSize * i`, Python's
      `payload[start:start + 4096]` (which stops at the end of the payload). */
  function Slice(payload: Bytes, i: nat): Bytes
    requires ChunkSize * i <= |payload|
  {
    payload[ChunkSize * i .. Min(ChunkSize * i + ChunkSize, |payload|)]
  }

  /** There are ceil(n / 4096) chunks, and chunk `i` is the slice at byte
      4096 * i. */
  lemma {:induction false} ChunkLayout(payload: Bytes)
    ensures |Chunks(payload)| == (|payload| + ChunkSize - 1) / ChunkSize
    ensures forall i | 0 <= i < |Chunks(payload)| ::
      ChunkSize * i < |payload| && Chunks(payload)[i] == Slice(payload, i)
    decreases |payload|
  {
    if |payload| > ChunkSize {
      var rest := payload[ChunkSize..];
      ChunkLayout(rest);
      var r := Chunks(payload);
      forall i | 0 < i < |r|
        ensures ChunkSize * i < |payload| && r[i] == Slice(payload, i)
      {
        assert r[i] == Chunks(rest)[i - 1];
        assert ChunkSize * (i - 1) < |rest| && ChunkSize * i == ChunkSize * (i - 1) + ChunkSize;
        assert Slice(rest, i - 1) == Slice(payload, i);
      }
    }
  }

  function Concat(chunks: seq<Bytes>): Bytes
  {
    if |chunks| == 0 then [] else chunks[0] + Concat(chunks[1..])
  }

  /** The chunks, put back together, are the payload. */
  lemma {:induction false} ChunksConcat(payload: Bytes)
    ensures Concat(Chunks(payload)) == payload
    decreases |payload|
  {
    if |payload| > ChunkSize {
      ChunksConcat(payload[ChunkSize..]);
      assert payload == payload[..ChunkSize] + payload[ChunkSize..];
    } else if |payload| > 0 {
      assert Chunks(payload)[1..] == [];
    }
  }

  /** The boundary cases of the chunk count. */
  lemma ChunkCounts(payload: Bytes)
    ensures |payload| == 0 ==> |Chunks(payload)| == 0
    ensures |payload| == ChunkSize ==> |Chunks(payload)| == 1
    ensures |payload| == ChunkSize + 1 ==> |Chunks(payload)| == 2
  {
    ChunkLayout(payload);
  }

  /** Part `i` carries chunk `i`. */
  function Parts(payload: Bytes): (r: seq<Step>)
    ensures |r| == |Chunks(payload)|
  {
    var chunks := Chunks(payload);
    seq(|chunks|, i requires 0 <= i < |chunks| => Part(i, chunks[i]))
  }

  function Opening(payload: Bytes, name: string): seq<Step>
  {
    [Initialize, StartUpload, CreateFile(|payload|, name)]
  }

  function Closing(name: string): seq<Step>
  {
    [SaveFile, StartPrint(name)]
  }

  /** Every exchange of a complete upload, in order. */
  function Plan(payload: Bytes, name: string): seq<Step>
  {
    Opening(payload, name) + Parts(payload) + Closing(name)
  }

  /** A step that can be put on the wire: a part whose index fits the
      index field and whose data fits a chunk. */
  predicate Sendable(s: Step)
  {
    s.Part? ==> s.index < U32Limit && |s.data| <= ChunkSize
  }

  /** A command on the wire: its text and CR LF, UTF-8 encoded. */
  function Line(text: string): Bytes
  {
    Utf8(text + "\r\n")
  }

  /** The bytes of a step's request: the command with CR LF, or the frame. */
  function Request(s: Step): Bytes
    requires Sendable(s)
  {
    match s
    case Command(text, _, _, _) => Line(text)
    case Part(index, data) => FrameCodec.Encode(index, data)
  }

  /** The requests of the steps, in order. */
  function Requests(steps: seq<Step>): (r: seq<Bytes>)
    requires forall i | 0 <= i < |steps| :: Sendable(steps[i])
    ensures |r| == |steps|
    ensures forall i | 0 <= i < |steps| :: r[i] == Request(steps[i])
  {
    seq(|steps|, i requires 0 <= i < |steps| => Request(steps[i]))
  }

  /** The judgement of a reply: `None` accepts it, `Some(message)` ends the
      upload with that message. */
  function Verdict(s: Step, response: string): (r: Option<string>)
    ensures response == "" ==> r.Some?
    ensures s.Part? ==> (r.None? <==> response != "" && !(exists i :: OccursAt(response, "error", i)))
  {
    ContainsIff(response, "error");
    match s
    case Command(_, reply, failed, error) =>
      if response != "" then (if reply <= response then None else Some(failed)) else Some(error)
    case Part(index, _) =>
      if response != "" then
        (if Contains(response, "error") then Some("Part " + Decimal(index) + " failed.") else None)
      else Some("Part " + Decimal(index) + " error.")
  }

  /** A command needs a non-empty reply starting with its prefix, and names
      its error message for no reply and its failure message otherwise; a
      part needs a non-empty reply in which "error" occurs nowhere, and
      names its index in the message. */
  lemma VerdictRules(s: Step, response: string)
    ensures response == "" ==> Verdict(s, response).Some?
    ensures s.Command? ==> (Verdict(s, response).None? <==> response != "" && s.reply <= response)
    ensures s.Command? && Verdict(s, response).Some? ==>
      Verdict(s, response).value == (if response == "" then s.error else s.failed)
    ensures s.Part? ==>
      (Verdict(s, response).None? <==> response != "" && !(exists i :: OccursAt(response, "error", i)))
    ensures s.Part? && Verdict(s, response).Some? ==>
      Verdict(s, response).value == "Part " + Decimal(s.index) + (if response == "" then " error." else " failed.")
  {
    ContainsIff(response, "error");
  }

  predicate Accepts(s: Step, response: string)
  {
    Verdict(s, response).None?
  }

  /** With a payload of at most `MaxPayload` bytes every step of the plan
      can be sent. */
  lemma PlanSendable(payload: Bytes, name: string)
    requires |payload| <= MaxPayload
    ensures forall i | 0 <= i < |Plan(payload, name)| :: Sendable(Plan(payload, name)[i])
  {
    ChunkLayout(payload);
    var plan := Plan(payload, name);
    var parts := Parts(payload);
    forall i | 0 <= i < |plan|
      ensures Sendable(plan[i])
    {
      if 3 <= i < 3 + |parts| {
        assert plan[i] == parts[i - 3];
      }
    }
  }

  /** The bytes of every request of a complete upload, in order. */
  function Wire(payload: Bytes, name: string): (r: seq<Bytes>)
    requires |payload| <= MaxPayload
    ensures |r| == |Plan(payload, name)|
  {
    PlanSendable(payload, name);
    Requests(Plan(payload, name))
  }

  /** A complete upload begins with `~M601 S1`, `~M650` and
      `~M28 <length> 0:/user/<name>.g` on the wire. */
  lemma WireOpening(payload: Bytes, name: string)
    requires |payload| <= MaxPayload
    ensures var r := Wire(payload, name);
      && |r| == 5 + |Chunks(payload)|
      && r[0] == Line("~M601 S1")
      && r[1] == Line("~M650")
      && r[2] == Line("~M28 " + Decimal(|payload|) + " " + DevicePath(name))
  {
    var plan := Plan(payload, name);
    assert plan[0] == Initialize && plan[1] == StartUpload && plan[2] == CreateFile(|payload|, name);
  }

  /** A complete upload ends with `~M29` and `~M23 0:/user/<name>.g` on
      the wire. */
  lemma WireClosing(payload: Bytes, name: string)
    requires |payload| <= MaxPayload
    ensures var r := Wire(payload, name);
      && |r| >= 2
      && r[|r| - 2] == Line("~M29")
      && r[|r| - 1] == Line("~M23 " + DevicePath(name))
  {
    var plan := Plan(payload, name);
    assert plan[|plan| - 2] == SaveFile && plan[|plan| - 1] == StartPrint(name);
  }

  /** Chunk `i` on the wire: its frame is request `3 + i`. */
  lemma FrameOnWire(payload: Bytes, name: string, i: nat)
    requires |payload| <= MaxPayload
    requires i < |Chunks(payload)|
    ensures i < U32Limit && 3 + i < |Wire(payload, name)|
    ensures Wire(payload, name)[3 + i] == FrameCodec.Encode(i, Chunks(payload)[i])
  {
    var plan := Plan(payload, name);
    PlanSendable(payload, name);
    assert plan[3 + i] == Parts(payload)[i] == Part(i, Chunks(payload)[i]);
    assert Sendable(plan[3 + i]);
  }
}
