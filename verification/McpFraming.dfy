/** Newline-delimited frames over a stream that arrives in arbitrary buffers
    (the stdio transport of the Model Context Protocol, version 2025-11-25). */
module McpFraming {
  import opened Common

  const LF: Byte := 10
  const CR: Byte := 13
  const MAX_FRAME_BYTES: nat := 8 * 1024 * 1024

  datatype FrameRead = Eof | Frame(bytes: seq<Byte>) | TooLarge

  // ---- the specification on the plain stream ----

  /** The stream split at every newline: one piece more than there are newlines. */
  function Split(stream: seq<Byte>): (pieces: seq<seq<Byte>>)
    ensures pieces != []
  {
    if stream == [] then [[]]
    else
      var rest := Split(stream[1..]);
      if stream[0] == LF then [[]] + rest else [[stream[0]] + rest[0]] + rest[1..]
  }

  function Join(pieces: seq<seq<Byte>>): seq<Byte>
    requires pieces != []
  {
    if |pieces| == 1 then pieces[0] else pieces[0] + [LF] + Join(pieces[1..])
  }

  function StripCr(content: seq<Byte>): seq<Byte> {
    if content != [] && content[|content| - 1] == CR then content[..|content| - 1] else content
  }

  function Classify(content: seq<Byte>, terminated: bool): FrameRead {
    if |content| > MAX_FRAME_BYTES then TooLarge
    else Frame(if terminated then StripCr(content) else content)
  }

  /** What each piece is worth. The last piece has no newline behind it; empty,
      it is only the end of the stream. */
  function FramesOf(pieces: seq<seq<Byte>>): seq<FrameRead>
    requires pieces != []
  {
    if |pieces| == 1 then (if pieces[0] == [] then [] else [Classify(pieces[0], false)])
    else [Classify(pieces[0], true)] + FramesOf(pieces[1..])
  }

  predicate NoNewline(s: seq<Byte>) {
    forall k :: 0 <= k < |s| ==> s[k] != LF
  }

  /** `k` is where the first newline is, or the end when there is none. */
  predicate FirstAt(s: seq<Byte>, k: nat) {
    k <= |s| && NoNewline(s[..k]) && (k < |s| ==> s[k] == LF)
  }

  lemma {:induction false} FirstExists(s: seq<Byte>) returns (k: nat)
    ensures FirstAt(s, k)
  {
    if s == [] || s[0] == LF {
      k := 0;
    } else {
      k := FirstExists(s[1..]);
      k := k + 1;
      assert s[..k] == [s[0]] + s[1..][..k - 1];
    }
  }

  ghost function NewlineAt(s: seq<Byte>): (k: nat)
    ensures FirstAt(s, k)
  {
    assert exists k: nat :: FirstAt(s, k) by { var k := FirstExists(s); }
    var k: nat :| FirstAt(s, k);
    k
  }

  /** One frame of a stream, and what is left of the stream. */
  ghost function NextFrame(stream: seq<Byte>): (FrameRead, seq<Byte>) {
    var k := NewlineAt(stream);
    if k < |stream| then (Classify(stream[..k], true), stream[k + 1..])
    else if stream == [] then (Eof, [])
    else (Classify(stream, false), [])
  }

  lemma {:induction false} SplitJoin(stream: seq<Byte>)
    ensures Join(Split(stream)) == stream
    ensures forall k :: 0 <= k < |Split(stream)| ==> NoNewline(Split(stream)[k])
  {
    if stream != [] {
      SplitJoin(stream[1..]);
      var rest := Split(stream[1..]);
      assert stream == [stream[0]] + stream[1..];
      if stream[0] == LF {
        assert Split(stream)[1..] == rest;
      } else if |rest| > 1 {
        assert Split(stream)[1..] == rest[1..];
      }
    }
  }

  lemma {:induction false} SplitAtFirst(stream: seq<Byte>, k: nat)
    requires FirstAt(stream, k)
    ensures Split(stream) == if k < |stream| then [stream[..k]] + Split(stream[k + 1..]) else [stream]
  {
    if k > 0 {
      var tail := stream[1..];
      assert stream[..k][0] == stream[0];
      assert tail[..k - 1] == stream[..k][1..];
      SplitAtFirst(tail, k - 1);
      assert stream == [stream[0]] + tail;
      if k < |stream| {
        assert stream[..k] == [stream[0]] + tail[..k - 1];
        assert tail[k..] == stream[k + 1..];
      }
    } else if stream != [] {
      assert stream[..0] == [];
    }
  }

  // ---- the reader ----

  /** What is still to come, in the buffers it will come in; `stream` is the same
      bytes without the cuts. */
  class BufReader {
    var buffers: seq<seq<Byte>>
    ghost var stream: seq<Byte>

    ghost predicate Valid()
      reads this
    {
      stream == Flatten(buffers) && forall k :: 0 <= k < |buffers| ==> buffers[k] != []
    }

    constructor (buffers: seq<seq<Byte>>)
      requires forall k :: 0 <= k < |buffers| ==> buffers[k] != []
      ensures Valid() && stream == Flatten(buffers)
    {
      this.buffers := buffers;
      stream := Flatten(buffers);
    }

    method FillBuf() returns (available: seq<Byte>)
      requires Valid()
      ensures available <= stream && (available == [] <==> stream == [])
      ensures available == if buffers == [] then [] else buffers[0]
    {
      available := if buffers == [] then [] else buffers[0];
    }

    method Consume(amount: nat)
      requires Valid() && buffers != [] && amount <= |buffers[0]|
      modifies this
      ensures Valid() && stream == old(stream)[amount..]
    {
      var left := buffers[0][amount..];
      assert stream[amount..] == left + Flatten(buffers[1..]);
      stream := stream[amount..];
      if left == [] {
        buffers := buffers[1..];
      } else {
        assert ([left] + buffers[1..])[1..] == buffers[1..];
        buffers := [left] + buffers[1..];
      }
    }
  }

  method Position(available: seq<Byte>) returns (k: nat)
    ensures FirstAt(available, k)
  {
    k := 0;
    while k < |available| && available[k] != LF
      invariant k <= |available| && NoNewline(available[..k])
    {
      assert available[..k + 1] == available[..k] + [available[k]];
      k := k + 1;
    }
  }

  lemma FirstNewline(s: seq<Byte>, k: nat)
    requires FirstAt(s, k)
    ensures NewlineAt(s) == k
  {
    var m := NewlineAt(s);
    assert forall j :: 0 <= j < k ==> s[j] == s[..k][j];
    assert forall j :: 0 <= j < m ==> s[j] == s[..m][j];
  }

  lemma FrameAtNewline(line: seq<Byte>, rest: seq<Byte>)
    requires NoNewline(line)
    ensures NextFrame(line + [LF] + rest) == (Classify(line, true), rest)
  {
    var stream := line + [LF] + rest;
    assert stream[..|line|] == line && stream[|line| + 1..] == rest;
    FirstNewline(stream, |line|);
  }

  lemma FrameAtEnd(stream: seq<Byte>)
    requires NoNewline(stream)
    ensures NextFrame(stream) == (if stream == [] then Eof else Classify(stream, false), [])
  {
    assert stream[..|stream|] == stream;
    FirstNewline(stream, |stream|);
  }

  /** The next buffer's share of the line. */
  method TakePart(reader: BufReader) returns (part: seq<Byte>, terminated: bool)
    requires reader.Valid() && reader.stream != []
    modifies reader
    ensures reader.Valid() && NoNewline(part)
    ensures old(reader.stream) == part + (if terminated then [LF] else []) + reader.stream
    ensures part != [] || terminated
  {
    var available := reader.FillBuf();
    ghost var stream := reader.stream;
    var newline := Position(available);
    part := available[..newline];
    terminated := newline < |available|;
    var consumed := if terminated then newline + 1 else |available|;
    assert available[..consumed] == part + if terminated then [LF] else [];
    assert stream[..consumed] == available[..consumed];
    reader.Consume(consumed);
  }

  lemma Regroup(line: seq<Byte>, part: seq<Byte>, end: seq<Byte>, rest: seq<Byte>)
    ensures line + (part + end + rest) == line + part + end + rest
    ensures end == [] ==> line + part + end + rest == line + part + rest
  {
  }

  /** The frame buffer holds the line read so far, or nothing once it is too large. */
  predicate Keeps(frame: seq<Byte>, tooLarge: bool, line: seq<Byte>) {
    (tooLarge <==> |line| > MAX_FRAME_BYTES) && frame == if tooLarge then [] else line
  }

  method Extend(frame: seq<Byte>, tooLarge: bool, part: seq<Byte>, ghost line: seq<Byte>)
    returns (longer: seq<Byte>, over: bool)
    requires Keeps(frame, tooLarge, line)
    ensures Keeps(longer, over, line + part)
  {
    longer, over := frame, tooLarge;
    if !tooLarge {
      if |frame| + |part| > MAX_FRAME_BYTES {
        longer, over := [], true;
      } else {
        longer := frame + part;
      }
    }
  }

  /** However the stream is cut into buffers, one call yields the next frame of
      the plain stream and leaves the reader behind it. `held` is the most the
      frame buffer ever held. */
  method ReadMcpFrame(reader: BufReader) returns (result: FrameRead, ghost held: nat)
    requires reader.Valid()
    modifies reader
    ensures reader.Valid()
    ensures (result, reader.stream) == NextFrame(old(reader.stream))
    ensures held <= MAX_FRAME_BYTES
  {
    var frame: seq<Byte> := [];
    var tooLarge := false;
    held := 0;
    ghost var line: seq<Byte> := [];
    while true
      invariant reader.Valid()
      invariant old(reader.stream) == line + reader.stream && NoNewline(line)
      invariant Keeps(frame, tooLarge, line)
      invariant |frame| <= held <= MAX_FRAME_BYTES
      decreases |reader.stream|
    {
      var available := reader.FillBuf();
      if available == [] {
        assert old(reader.stream) == line;
        FrameAtEnd(line);
        if tooLarge {
          return TooLarge, held;
        } else if frame == [] {
          return Eof, held;
        } else {
          return Frame(frame), held;
        }
      }
      var part, terminated := TakePart(reader);
      frame, tooLarge := Extend(frame, tooLarge, part, line);
      held := if |frame| > held then |frame| else held;
      Regroup(line, part, if terminated then [LF] else [], reader.stream);
      line := line + part;
      if terminated {
        FrameAtNewline(line, reader.stream);
        if tooLarge {
          return TooLarge, held;
        }
        return Frame(StripCr(frame)), held;
      }
    }
  }

  /** Reading to the end gives exactly the frames of the newline-split stream,
      whatever the buffers were. */
  method ReadAll(reader: BufReader) returns (frames: seq<FrameRead>)
    requires reader.Valid()
    modifies reader
    ensures frames == FramesOf(Split(old(reader.stream)))
    ensures reader.Valid() && reader.stream == []
  {
    frames := [];
    ghost var start := reader.stream;
    while true
      invariant reader.Valid()
      invariant FramesOf(Split(start)) == frames + FramesOf(Split(reader.stream))
      decreases |reader.stream|
    {
      ghost var stream := reader.stream;
      var result, _ := ReadMcpFrame(reader);
      if result == Eof {
        return;
      }
      NextFrameStep(stream);
      frames := frames + [result];
    }
  }

  lemma FramesCons(piece: seq<Byte>, rest: seq<seq<Byte>>)
    requires rest != []
    ensures FramesOf([piece] + rest) == [Classify(piece, true)] + FramesOf(rest)
  {
    assert ([piece] + rest)[1..] == rest;
  }

  lemma NextFrameStep(stream: seq<Byte>)
    requires stream != []
    ensures var (frame, rest) := NextFrame(stream);
            && frame != Eof && |rest| < |stream|
            && FramesOf(Split(stream)) == [frame] + FramesOf(Split(rest))
  {
    var k := NewlineAt(stream);
    SplitAtFirst(stream, k);
    PiecesStep(stream, k, Split(stream));
  }

  lemma PiecesStep(stream: seq<Byte>, k: nat, pieces: seq<seq<Byte>>)
    requires stream != [] && k <= |stream|
    requires pieces == if k < |stream| then [stream[..k]] + Split(stream[k + 1..]) else [stream]
    ensures FramesOf(pieces)
            == if k < |stream| then [Classify(stream[..k], true)] + FramesOf(Split(stream[k + 1..]))
               else [Classify(stream, false)] + FramesOf(Split([]))
  {
    if k < |stream| {
      FramesCons(stream[..k], Split(stream[k + 1..]));
    } else {
      assert Split([]) == [[]] && FramesOf([[]]) == [];
    }
  }

  // ---- what a writer sends, a reader gets ----

  predicate Sendable(payload: seq<Byte>) {
    && NoNewline(payload) && |payload| <= MAX_FRAME_BYTES
    && (payload != [] ==> payload[|payload| - 1] != CR)
  }

  function Sent(payloads: seq<seq<Byte>>): seq<Byte> {
    if payloads == [] then [] else payloads[0] + [LF] + Sent(payloads[1..])
  }

  lemma {:induction false} RoundTrip(payloads: seq<seq<Byte>>)
    requires forall k :: 0 <= k < |payloads| ==> Sendable(payloads[k])
    ensures FramesOf(Split(Sent(payloads)))
            == seq(|payloads|, k requires 0 <= k < |payloads| => Frame(payloads[k]))
  {
    if payloads != [] {
      var stream, first := Sent(payloads), payloads[0];
      RoundTrip(payloads[1..]);
      FirstNewline(stream, |first|) by { assert stream[..|first|] == first; }
      assert stream[|first| + 1..] == Sent(payloads[1..]);
      assert stream[..|first|] == first;
      NextFrameStep(stream);
    }
  }

  /** What a line is worth, byte for byte: without its line end, CR LF or LF, when it
      fits; and nothing is stripped from an unterminated end of the stream. */
  lemma LineIsFrame(line: seq<Byte>, rest: seq<Byte>)
    requires NoNewline(line)
    ensures |line| < 8_388_608 ==> NextFrame(line + [CR, LF] + rest) == (Frame(line), rest)
    ensures |line| <= 8_388_608 && (line == [] || line[|line| - 1] != CR) ==>
              NextFrame(line + [LF] + rest) == (Frame(line), rest)
    ensures |line| > 8_388_608 ==> NextFrame(line + [LF] + rest) == (TooLarge, rest)
    ensures 0 < |line| <= 8_388_608 ==> NextFrame(line) == (Frame(line), [])
    ensures |line| > 8_388_608 ==> NextFrame(line) == (TooLarge, [])
  {
    FrameAtNewline(line, rest);
    FrameAtEnd(line);
    ReturnedLine(line, rest);
  }

  lemma ReturnedLine(line: seq<Byte>, rest: seq<Byte>)
    requires NoNewline(line)
    ensures NextFrame(line + [CR, LF] + rest)
            == (if |line| < MAX_FRAME_BYTES then Frame(line) else TooLarge, rest)
  {
    var returned := line + [CR];
    assert returned[..|returned| - 1] == line && returned[|returned| - 1] == CR;
    assert line + [CR, LF] + rest == returned + [LF] + rest;
    FrameAtNewline(returned, rest);
  }

  function SentWithReturn(payloads: seq<seq<Byte>>): seq<Byte> {
    if payloads == [] then [] else payloads[0] + [CR, LF] + SentWithReturn(payloads[1..])
  }

  /** A sender that ends its lines in CR LF is read back too, whatever its payloads
      end in. */
  lemma {:induction false} RoundTripWithReturn(payloads: seq<seq<Byte>>)
    requires forall k :: 0 <= k < |payloads| ==> NoNewline(payloads[k]) && |payloads[k]| < MAX_FRAME_BYTES
    ensures FramesOf(Split(SentWithReturn(payloads)))
            == seq(|payloads|, k requires 0 <= k < |payloads| => Frame(payloads[k]))
  {
    if payloads != [] {
      RoundTripWithReturn(payloads[1..]);
      LineIsFrame(payloads[0], SentWithReturn(payloads[1..]));
      NextFrameStep(SentWithReturn(payloads));
    }
  }

  /** The carriage return counts towards the limit: a line of exactly the limit
      ended by CR LF is refused although the same line ended by LF is not. */
  lemma CarriageReturnCounts(line: seq<Byte>)
    requires |line| == MAX_FRAME_BYTES && NoNewline(line) && line[|line| - 1] != CR
    ensures NextFrame(line + [LF]).0 == Frame(line)
    ensures NextFrame(line + [CR, LF]).0 == TooLarge
  {
    var short, long := line + [LF], line + [CR, LF];
    assert short[..|line|] == line && long[..|line| + 1] == line + [CR];
    FirstNewline(short, |line|);
    FirstNewline(long, |line| + 1);
  }

  lemma {:induction false} FrameOfPiece(pieces: seq<seq<Byte>>, k: nat)
    requires k < |pieces|
    ensures |FramesOf(pieces)| == |pieces| - if pieces[|pieces| - 1] == [] then 1 else 0
    ensures k < |FramesOf(pieces)| ==> FramesOf(pieces)[k] == Classify(pieces[k], k + 1 < |pieces|)
    decreases |pieces|
  {
    if |pieces| > 1 {
      FrameOfPiece(pieces[1..], if k == 0 then 0 else k - 1);
    }
  }

  /** Which lines are refused although their content, without the dropped carriage
      return, fits: exactly the terminated lines of one byte more than the limit
      that end in CR. Every other refused line is too large in itself. */
  lemma CarriageReturnRefusesIff(stream: seq<Byte>, k: nat)
    requires k < |FramesOf(Split(stream))|
    ensures k < |Split(stream)|
    ensures var line := Split(stream)[k];
            var terminated := k + 1 < |Split(stream)|;
            var content := if terminated then StripCr(line) else line;
            FramesOf(Split(stream))[k] == TooLarge && |content| <= MAX_FRAME_BYTES <==>
            terminated && |line| == MAX_FRAME_BYTES + 1 && line[|line| - 1] == CR
  {
    var pieces := Split(stream);
    FrameOfPiece(pieces, 0);
    FrameOfPiece(pieces, k);
  }
}
