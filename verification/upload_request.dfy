/** The entry point of an upload request: the guard against a missing file
    name and against a second request while a transfer runs, and the
    payload handed to the transfer, the filtered G-code encoded as UTF-8.
    A missing G-code list counts as an empty one. */
module UploadRequest {
  import opened Wrappers
  import opened Binary
  import Text
  import LineFilter
  import Protocol

  /** What a transfer is started with. */
  datatype Job = Job(payload: Bytes, name: string)

  /** The request is refused exactly when the file name is missing or
      empty or a transfer is already running; otherwise the transfer gets
      the kept lines of the G-code, each ended by a newline, as UTF-8. */
  method RequestWrite(fileName: Option<string>, transferring: bool, gcodes: seq<string>)
    returns (job: Option<Job>)
    ensures job.None? <==> fileName.None? || fileName.value == "" || transferring
    ensures job.Some? ==>
      job.value == Job(Text.Utf8(LineFilter.Filtered(gcodes)), fileName.value)
  {
    if fileName.None? || fileName.value == "" || transferring {
      return None;
    }
    var toSend := LineFilter.Filter(gcodes);
    return Some(Job(Text.Utf8(toSend), fileName.value));
  }

  /** The example G-code `;comment`, `G1 X1`, a blank line, `G1 Y2`: the
      payload is the 12 bytes of `G1 X1\nG1 Y2\n`, sent as one part whose
      reported length is 12. */
  lemma ExamplePayload(text: string)
    requires text == ";comment\nG1 X1\n\nG1 Y2\n"
    ensures var payload := Text.Utf8(LineFilter.Filtered([text]));
      && |payload| == 12
      && Protocol.Chunks(payload) == [payload]
  {
    LineFilter.FilterExample(text);
    var filtered := "G1 X1\nG1 Y2\n";
    assert Text.IsAscii(filtered);
  }
}
