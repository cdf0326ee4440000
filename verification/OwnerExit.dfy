/** Deciding, from the owner's pipe, whether the owner said goodbye or was lost. */
module OwnerExit {
  import opened Common

  /** The sixty-four byte read buffer. */
  const BUFFER: nat := 64

  /** `pmux-rmux-owner-graceful-v1` and a newline. */
  const FRAME: seq<Byte> :=
    [112, 109, 117, 120, 45, 114, 109, 117, 120, 45, 111, 119, 110, 101, 114, 45,
     103, 114, 97, 99, 101, 102, 117, 108, 45, 118, 49, 10]

  /** The frame is this line of text. */
  lemma FrameIsText()
    ensures var text := "pmux-rmux-owner-graceful-v1\n";
            |FRAME| == |text| && forall k :: 0 <= k < |FRAME| ==> FRAME[k] as int == text[k] as int
  {
    var text := "pmux-rmux-owner-graceful-v1\n";
    assert text[0] == 'p' && text[27] == '\n';
  }

  datatype Exit = Graceful | Lost

  function ClassifyOwnerExit(payload: seq<Byte>, overflowed: bool): Exit {
    if !overflowed && payload == FRAME then Graceful else Lost
  }

  /** However the operating system splits the stream, the owner's exit is graceful
      exactly when the bytes before the end of the stream are the frame. The kept
      payload never outgrows the frame. */
  method WaitForOwnerExit(chunks: seq<seq<Byte>>) returns (exit: Exit)
    requires forall k :: 0 <= k < |chunks| ==> 0 < |chunks[k]| <= BUFFER
    ensures exit == Graceful <==> Flatten(chunks) == FRAME
  {
    var payload: seq<Byte> := [];
    var overflowed := false;
    assert chunks[..0] == [];
    for k := 0 to |chunks|
      invariant |payload| <= |FRAME|
      invariant !overflowed ==> payload == Flatten(chunks[..k])
      invariant overflowed ==> |Flatten(chunks[..k])| > |FRAME|
    {
      assert chunks[..k + 1] == chunks[..k] + [chunks[k]];
      FlattenAppend(chunks[..k], chunks[k]);
      if |payload| + |chunks[k]| <= |FRAME| {
        payload := payload + chunks[k];
      } else {
        overflowed := true;
      }
    }
    assert chunks[..|chunks|] == chunks;
    exit := ClassifyOwnerExit(payload, overflowed);
  }
}
