/**
 * The checksum layer instantiated with a one-byte field holding the sum of the bytes modulo 256, wrapped around the terminal
 * payload layer (which reads every byte it is given into the message and writes
 * the message's bytes verbatim).
 */
module ChecksumExample {
  import opened ChecksumLayer
  import FieldCodec
  import ChecksumOptions

  /** Sum of the bytes; the layer's cast to a one-byte field takes it modulo 256. */
  function ByteSum(bytes: seq<byte>): int {
    if bytes == [] then 0 else ByteSum(bytes[..|bytes| - 1]) + bytes[|bytes| - 1] as int
  }

  /** A checksum layer whose field is `width` bytes, most significant first. */
  function BigEndianLayer(width: nat, calculator: seq<byte> -> int, opts: seq<ChecksumOptions.Opt>): Layer
    requires ChecksumOptions.Accepted(opts)
  {
    NewLayer(width, calculator, (v: nat) => FieldCodec.Encode(width, v), FieldCodec.Decode, opts)
  }

  /** A big-endian field of positive width meets everything the layer asks of its field. */
  lemma BigEndianLayerValid(width: nat, calculator: seq<byte> -> int, opts: seq<ChecksumOptions.Opt>)
    requires width > 0 && ChecksumOptions.Accepted(opts)
    ensures BigEndianLayer(width, calculator, opts).Valid()
    ensures BigEndianLayer(width, calculator, opts).RoundTrips()
  {
    var l := BigEndianLayer(width, calculator, opts);
    forall v: nat | v < l.Bound() ensures l.decode(l.encode(v)) == v {
      FieldCodec.DecodeEncode(width, v);
    }
    forall b: seq<byte> | |b| == width ensures l.decode(b) < l.Bound() && l.encode(l.decode(b)) == b {
      FieldCodec.EncodeDecode(b);
    }
  }

  /** The terminal payload layer's read: every byte it is given becomes the message. */
  function PayloadRead(msg: Message, window: seq<byte>): InnerRead {
    InnerRead(Success, |window|, Populated(window), None)
  }

  /** The terminal payload layer's write: the message's bytes, if they fit. */
  function PayloadWrite(msg: Message, budget: nat): InnerWrite {
    var bytes := if msg.Populated? then msg.contents else [];
    if |bytes| <= budget then InnerWrite(Success, bytes) else InnerWrite(BufferOverflow, [])
  }

  /** The terminal payload layer has nothing to update. */
  function PayloadUpdate(region: seq<byte>): InnerUpdate {
    InnerUpdate(Success, region, |region|)
  }

  lemma PayloadLayerInBudget()
    ensures ReaderInBudget(PayloadRead) && WriterInBudget(PayloadWrite) && UpdaterInPlace(PayloadUpdate)
  {
  }

  /** An inner reader that takes only the first byte it is given (if any). */
  function FirstByteRead(msg: Message, window: seq<byte>): InnerRead {
    var n := if window == [] then 0 else 1;
    InnerRead(Success, n, Populated(window[..n]), None)
  }

  /** The one-byte sum layer, default (verify-after-read) or verify-before-read. */
  function SumLayer(beforeRead: bool): (l: Layer)
    ensures l.width == 1 && l.verifyBeforeRead == beforeRead
  {
    var opts := if beforeRead then [ChecksumOptions.Bundle([ChecksumOptions.EmptyOption, ChecksumOptions.VerifyBeforeRead])] else [];
    assert ChecksumOptions.Flatten(opts) == if beforeRead then [ChecksumOptions.EmptyOption, ChecksumOptions.VerifyBeforeRead] else [] by {
      if beforeRead {
        assert ChecksumOptions.Flatten([ChecksumOptions.VerifyBeforeRead]) == [ChecksumOptions.VerifyBeforeRead];
      }
    }
    BigEndianLayer(1, ByteSum, opts)
  }

  lemma SumLayerValid(beforeRead: bool)
    ensures SumLayer(beforeRead).Valid() && SumLayer(beforeRead).RoundTrips()
  {
    var opts := if beforeRead then [ChecksumOptions.Bundle([ChecksumOptions.EmptyOption, ChecksumOptions.VerifyBeforeRead])] else [];
    BigEndianLayerValid(1, ByteSum, opts);
  }

  lemma SumOfExample()
    ensures SumLayer(false).Checksum([1, 2, 3]) == 6 && SumLayer(true).Checksum([1, 2, 3]) == 6
    ensures SumLayer(false).encode(6) == [6] && SumLayer(true).encode(6) == [6]
  {
    assert ByteSum([1, 2, 3]) == 6 by {
      assert [1, 2, 3][..2] == [1, 2] && [1, 2][..1] == [1] && [1][..0] == [];
    }
  }

  /** Writing the payload [1, 2, 3] in one pass gives [1, 2, 3, 6]. */
  method EncodeExample() returns (st: Status, wire: seq<byte>)
    ensures st == Success && wire == [1, 2, 3, 6]
  {
    var layer := SumLayer(false);
    SumLayerValid(false);
    PayloadLayerInBudget();
    SumOfExample();
    var buf := new byte[4];
    var iter, field;
    st, iter, field := WriteRandomAccess(layer, buf, 0, 4, 0, Populated([1, 2, 3]), PayloadWrite);
    wire := buf[..];
  }

  /** Writing [1, 2, 3] through an append-only cursor emits a zero placeholder and
      asks for an update; the update pass then leaves [1, 2, 3, 6]. */
  method TwoPassExample() returns (st1: Status, emitted: seq<byte>, st2: Status, wire: seq<byte>)
    ensures st1 == UpdateRequired && emitted == [1, 2, 3, 0]
    ensures st2 == Success && wire == [1, 2, 3, 6]
  {
    var layer := SumLayer(false);
    SumLayerValid(false);
    PayloadLayerInBudget();
    SumOfExample();
    assert layer.encode(0) == [0];
    st1, emitted := WriteOutput(layer, 4, 0, Populated([1, 2, 3]), PayloadWrite);
    var buf := new byte[4];
    Put(buf, 0, emitted);
    assert buf[..] == [1, 2, 3, 0];
    assert buf[0..4][..3] == [1, 2, 3];
    var iter, field;
    st2, iter, field := EvalUpdate(layer, buf, 0, 4, 0, PayloadUpdate);
    wire := buf[..];
  }

  /** Reading [1, 2, 3, 6] under either policy gives back the payload [1, 2, 3]. */
  method DecodeExample(beforeRead: bool) returns (res: ReadOutcome)
    ensures res.status == Success && res.iter == 4 && res.msg == Populated([1, 2, 3])
  {
    var layer := SumLayer(beforeRead);
    SumLayerValid(beforeRead);
    PayloadLayerInBudget();
    SumOfExample();
    var buf := new byte[4];
    buf[0], buf[1], buf[2], buf[3] := 1, 2, 3, 6;
    assert buf[..][0..4] == Framed(layer, [1, 2, 3]);
    ghost var shown;
    res, shown := EvalRead(layer, buf, 0, 4, 0, Empty, PayloadRead);
    FrameReadsBack(layer, buf[..], 0, [1, 2, 3], 0, Empty, PayloadRead, res);
  }

  /** Reading [1, 2, 3, 7] under either policy is rejected with the message reset;
      only verify-after-read has shown [1, 2, 3] to the payload layer. */
  method CorruptedExample(beforeRead: bool) returns (res: ReadOutcome, ghost shown: Option<seq<byte>>)
    ensures res.status == ProtocolError && res.msg == Empty
    ensures beforeRead ==> shown == None
    ensures !beforeRead ==> shown == Some([1, 2, 3])
  {
    var layer := SumLayer(beforeRead);
    SumLayerValid(beforeRead);
    PayloadLayerInBudget();
    SumOfExample();
    var buf := new byte[4];
    buf[0], buf[1], buf[2], buf[3] := 1, 2, 3, 7;
    assert buf[..][0..4] == [1, 2, 3] + [7];
    assert buf[..][0..3] == [1, 2, 3];
    res, shown := EvalRead(layer, buf, 0, 4, 0, Empty, PayloadRead);
    CorruptFieldRejected(layer, buf[..], 0, [1, 2, 3], [7], 0, Empty, PayloadRead, res);
  }

  /** The frame [1, 2, 3, 6] with its last byte cut off: [1, 2, 3] is itself the
      frame of [1, 2] (1 + 2 == 3), so either policy accepts it as that shorter
      payload; the layer cannot tell that a byte is missing. */
  method TruncatedExample(beforeRead: bool) returns (res: ReadOutcome)
    ensures res.status == Success && res.iter == 3 && res.msg == Populated([1, 2])
  {
    var layer := SumLayer(beforeRead);
    SumLayerValid(beforeRead);
    PayloadLayerInBudget();
    assert ByteSum([1, 2]) == 3 by {
      assert [1, 2][..1] == [1] && [1][..0] == [];
    }
    assert layer.encode(3) == [3];
    var buf := new byte[3];
    buf[0], buf[1], buf[2] := 1, 2, 3;
    assert buf[..][0..3] == Framed(layer, [1, 2]);
    ghost var shown;
    res, shown := EvalRead(layer, buf, 0, 3, 0, Empty, PayloadRead);
    FrameReadsBack(layer, buf[..], 0, [1, 2], 0, Empty, PayloadRead, res);
  }

  /** With an inner reader that consumes fewer than `size - W` bytes the policies
      part: on [1, 2, 3, 6] verify-before-read checks 6 against [1, 2, 3] and
      accepts, verify-after-read checks the byte 2 behind the one consumed byte
      against [1] and rejects. */
  lemma PoliciesDifferExample(before: ReadOutcome, after: ReadOutcome)
    requires ReadOutcomeOf(SumLayer(true), [1, 2, 3, 6], 0, 4, 0, Empty, FirstByteRead, before)
    requires ReadOutcomeOf(SumLayer(false), [1, 2, 3, 6], 0, 4, 0, Empty, FirstByteRead, after)
    ensures before.status == Success && before.iter == 4 && before.msg == Populated([1])
    ensures after.status == ProtocolError && after.iter == 2 && after.msg == Empty
  {
    var data: seq<byte> := [1, 2, 3, 6];
    SumLayerValid(true);
    SumLayerValid(false);
    SumOfExample();
    assert ByteSum([1]) == 1 by {
      assert [1][..0] == [];
    }
    assert data[0..3] == [1, 2, 3] && data[3..4] == [6];
    assert data[0..1] == [1] && data[1..2] == [2];
    assert [1, 2, 3][..1] == [1];
  }

  /** An empty region is shorter than the field: `NotEnoughData`, nothing moves. */
  method ShortInputExample() returns (res: ReadOutcome)
    ensures res == ReadOutcome(NotEnoughData, 0, 0, Empty, Untouched)
  {
    var layer := SumLayer(false);
    SumLayerValid(false);
    PayloadLayerInBudget();
    var buf := new byte[0];
    ghost var shown;
    res, shown := EvalRead(layer, buf, 0, 0, 0, Empty, PayloadRead);
  }
}
