/** Wire format of the host/guest protocol (spawnr-protocol). */
module Frames {
  import opened Bytes
  import opened Outcomes

  const MAX_CONTROL_FRAME: nat := 8 * 1024 * 1024

  datatype StreamKind = Stdin | Stdout | Stderr | Resize | Signal | Exit {
    function Code(): byte {
      match this
      case Stdin => 0
      case Stdout => 1
      case Stderr => 2
      case Resize => 3
      case Signal => 4
      case Exit => 5
    }
  }

  /** `StreamKind::try_from`. */
  function KindOf(code: byte): Option<StreamKind> {
    if code == 0 then Some(Stdin)
    else if code == 1 then Some(Stdout)
    else if code == 2 then Some(Stderr)
    else if code == 3 then Some(Resize)
    else if code == 4 then Some(Signal)
    else if code == 5 then Some(Exit)
    else None
  }

  datatype Frame = Frame(kind: StreamKind, payload: Blob)

  predicate Sendable(f: Frame) {
    |f.payload| <= MAX_CONTROL_FRAME
  }

  function Encode(f: Frame): (b: Blob)
    requires Sendable(f)
    ensures |b| == 5 + |f.payload|
  {
    [f.kind.Code()] + BigEndian(|f.payload|) + f.payload
  }

  predicate AllSendable(frames: seq<Frame>) {
    forall i :: 0 <= i < |frames| ==> Sendable(frames[i])
  }

  function EncodeAll(frames: seq<Frame>): Blob
    requires AllSendable(frames)
  {
    if frames == [] then [] else Encode(frames[0]) + EncodeAll(frames[1..])
  }

  lemma Associative(a: Blob, b: Blob, c: Blob)
    ensures a + b + c == a + (b + c)
  {
  }

  lemma {:induction false} EncodeAllAppend(a: seq<Frame>, b: seq<Frame>)
    requires AllSendable(a) && AllSendable(b)
    ensures AllSendable(a + b) && EncodeAll(a + b) == EncodeAll(a) + EncodeAll(b)
  {
    if a == [] {
      assert a + b == b && EncodeAll(b) == [] + EncodeAll(b);
    } else {
      EncodeAllAppend(a[1..], b);
      assert (a + b)[1..] == a[1..] + b;
      Associative(Encode(a[0]), EncodeAll(a[1..]), EncodeAll(b));
    }
  }

  lemma EncodeAllOneMore(frames: seq<Frame>, f: Frame)
    requires AllSendable(frames) && Sendable(f)
    ensures AllSendable(frames + [f]) && EncodeAll(frames + [f]) == EncodeAll(frames) + Encode(f)
  {
    EncodeAllAppend(frames, [f]);
    assert EncodeAll([f]) == Encode(f) + [];
  }

  /** What `read_stream_frame` makes of the bytes on a stream: a frame, an end of the
      stream before the frame is complete, or a frame it refuses. */
  datatype Reading = Got(frame: Frame, rest: Blob) | Incomplete | Refused

  function ReadFrame(s: Blob): (r: Reading)
    ensures r.Got? ==> |r.rest| < |s|
  {
    if |s| < 5 then
      Incomplete
    else
      var kind, length := KindOf(s[0]), FromBigEndian(s[1..5]);
      if kind.None? || length > MAX_CONTROL_FRAME then
        Refused
      else if |s| < 5 + length then
        Incomplete
      else
        Got(Frame(kind.value, s[5..5 + length]), s[5 + length..])
  }

  /** A written frame is read back, whatever follows it. */
  lemma FrameRoundTrip(f: Frame, rest: Blob)
    requires Sendable(f)
    ensures ReadFrame(Encode(f) + rest) == Got(f, rest)
  {
    var s := Encode(f) + rest;
    BigEndianRoundTrip(|f.payload|);
    assert s[1..5] == BigEndian(|f.payload|);
    assert s[5..5 + |f.payload|] == f.payload;
    assert s[5 + |f.payload|..] == rest;
  }

  /** Nothing but the encoding of a frame is read as that frame. */
  lemma ReadFrameIsExact(s: Blob)
    ensures ReadFrame(s).Got? ==> Sendable(ReadFrame(s).frame) && s == Encode(ReadFrame(s).frame) + ReadFrame(s).rest
  {
    if ReadFrame(s).Got? {
      var f := ReadFrame(s).frame;
      BigEndianInjective(s[1..5]);
      assert s == [s[0]] + s[1..5] + s[5..5 + |f.payload|] + s[5 + |f.payload|..];
      assert Encode(f) == [s[0]] + s[1..5] + s[5..5 + |f.payload|];
    }
  }

  /** What has been decided about a beginning of the stream stands, whatever arrives later:
      a frame read is that frame, and a frame refused stays refused. */
  lemma ReadFrameIsStable(s: Blob, more: Blob)
    ensures ReadFrame(s).Refused? ==> ReadFrame(s + more).Refused?
    ensures ReadFrame(s).Got? ==> ReadFrame(s + more) == Got(ReadFrame(s).frame, ReadFrame(s).rest + more)
  {
    if |s| >= 5 {
      var length := FromBigEndian(s[1..5]);
      assert (s + more)[1..5] == s[1..5];
      if |s| >= 5 + length {
        assert (s + more)[5..5 + length] == s[5..5 + length];
        assert (s + more)[5 + length..] == s[5 + length..] + more;
      }
    }
  }

  /** The frames read until the stream ends or a frame is refused, and what is left. */
  function ReadAll(s: Blob): (seq<Frame>, Blob)
    decreases |s|
  {
    match ReadFrame(s)
    case Got(frame, rest) => var tail := ReadAll(rest); ([frame] + tail.0, tail.1)
    case _ => ([], s)
  }

  /** The encoding of `frames` put in front of `tail`, one frame at a time. */
  function Stacked(frames: seq<Frame>, tail: Blob): Blob
    requires AllSendable(frames)
  {
    if frames == [] then tail else Encode(frames[0]) + Stacked(frames[1..], tail)
  }

  lemma {:induction false} StackedIsEncoded(frames: seq<Frame>, tail: Blob)
    requires AllSendable(frames)
    ensures Stacked(frames, tail) == EncodeAll(frames) + tail
  {
    if frames == [] {
      assert EncodeAll(frames) + tail == tail;
    } else {
      StackedIsEncoded(frames[1..], tail);
      Associative(Encode(frames[0]), EncodeAll(frames[1..]), tail);
    }
  }

  lemma {:induction false} ReadAllOfStacked(frames: seq<Frame>, partial: Blob)
    requires AllSendable(frames) && ReadFrame(partial).Incomplete?
    ensures ReadAll(Stacked(frames, partial)) == (frames, partial)
  {
    if frames != [] {
      ReadAllOfStacked(frames[1..], partial);
      FrameRoundTrip(frames[0], Stacked(frames[1..], partial));
      assert [frames[0]] + frames[1..] == frames;
    }
  }

  /** A stream that breaks off inside a frame. */
  lemma ReadAllOfEncoded(frames: seq<Frame>, partial: Blob)
    requires AllSendable(frames) && ReadFrame(partial).Incomplete?
    ensures ReadAll(EncodeAll(frames) + partial) == (frames, partial)
  {
    StackedIsEncoded(frames, partial);
    ReadAllOfStacked(frames, partial);
  }

  lemma PartIsIncomplete(f: Frame, n: nat)
    requires Sendable(f) && n < |Encode(f)|
    ensures ReadFrame(Encode(f)[..n]).Incomplete?
  {
    if n >= 5 {
      BigEndianRoundTrip(|f.payload|);
      assert Encode(f)[1..5] == BigEndian(|f.payload|);
      assert Encode(f)[..n][1..5] == Encode(f)[1..5];
    }
  }

  /** A connection. A write stops short only if the connection is gone for good, which does
      not happen to one that is `reliable`. */
  class Stream {
    var sent: Blob
    var broken: bool
    const reliable: bool

    constructor (reliable: bool)
      ensures sent == [] && !broken && this.reliable == reliable
    {
      sent, broken := [], false;
      this.reliable := reliable;
    }

    method WriteAll(data: Blob) returns (o: Outcome<()>)
      modifies this
      ensures o.Ok? <==> !broken
      ensures o.Ok? ==> !old(broken) && sent == old(sent) + data
      ensures !o.Ok? ==> o.Err? && old(sent) <= sent <= old(sent) + data
      ensures old(broken) ==> sent == old(sent)
      ensures reliable && !old(broken) ==> o.Ok?
    {
      var n: int := *;
      if broken || (n < 0 && !reliable) {
        broken := true;
        return Err;
      }
      if 0 <= n < |data| && !reliable {
        sent, broken := sent + data[..n], true;
        return Err;
      }
      sent := sent + data;
      return Ok(());
    }

    /** `write_stream_frame`: three writes. */
    method WriteFrame(f: Frame) returns (o: Outcome<()>)
      modifies this
      ensures !Sendable(f) ==> o.Err? && sent == old(sent) && broken == old(broken)
      ensures o.Ok? ==> Sendable(f) && !broken && sent == old(sent) + Encode(f)
      ensures !o.Ok? && Sendable(f) ==> o.Err? && broken && old(sent) <= sent <= old(sent) + Encode(f)
      ensures Sendable(f) && reliable && !old(broken) ==> o.Ok?
    {
      if |f.payload| > MAX_CONTROL_FRAME {
        return Err;
      }
      ghost var start, length := sent, BigEndian(|f.payload|);
      assert start + [f.kind.Code()] + length + f.payload == start + Encode(f);
      var _ :- WriteAll([f.kind.Code()]);
      var _ :- WriteAll(BigEndian(|f.payload|));
      o := WriteAll(f.payload);
    }
  }

  // Control messages

  datatype Control = Message(data: Blob, rest: Blob) | ControlIncomplete | Oversized

  /** `write_json` of a value whose JSON is `data`. */
  function WriteControl(data: Blob): Option<Blob> {
    if |data| > MAX_CONTROL_FRAME then None else Some(BigEndian(|data|) + data)
  }

  /** `read_json` up to the JSON decoding. An oversized frame is refused from its length
      alone. */
  function ReadControl(s: Blob): Control {
    if |s| < 4 then
      ControlIncomplete
    else
      var length := FromBigEndian(s[..4]);
      if length > MAX_CONTROL_FRAME then
        Oversized
      else if |s| < 4 + length then
        ControlIncomplete
      else
        Message(s[4..4 + length], s[4 + length..])
  }

  /** A control message that can be written is read back; what follows it, stream frames
      for instance, is left alone. */
  lemma ControlRoundTrip(data: Blob, rest: Blob)
    ensures WriteControl(data).Some? <==> |data| <= MAX_CONTROL_FRAME
    ensures WriteControl(data).Some? ==> ReadControl(WriteControl(data).value + rest) == Message(data, rest)
  {
    if |data| <= MAX_CONTROL_FRAME {
      var s := BigEndian(|data|) + data + rest;
      BigEndianRoundTrip(|data|);
      assert s[..4] == BigEndian(|data|);
      assert s[4..4 + |data|] == data && s[4 + |data|..] == rest;
    }
  }
}
