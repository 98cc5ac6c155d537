/**
 * The checksum protocol layer: one "field + delegate" stage of a layered
 * binary codec. It wraps the inner layers, appends a fixed-width checksum
 * field after the bytes they write, and verifies that field after the bytes
 * they read.
 *
 * The caller's buffer is an `array<byte>` and a cursor is an index into it.
 * What the C++ passes by reference (the cursor, the checksum field, the
 * message and the missing-size slot) comes back as out-parameters. The inner
 * layers are function values whose budget contracts are preconditions here.
 */
module ChecksumLayer {
  import FieldCodec
  type byte = FieldCodec.byte
  import ChecksumOptions

  /** Outcome of one layer operation; exactly one is returned per call. */
  datatype Status = Success | NotEnoughData | ProtocolError | BufferOverflow | UpdateRequired

  datatype Option<T> = None | Some(value: T)

  /** The message the inner layers populate on read; `Empty` is what a reset leaves. */
  datatype Message = Empty | Populated(contents: seq<byte>)

  /**
   * The caller's missing-size slot after a read: untouched, written by the inner
   * layers, or written by this layer for its own field (with the number of bytes
   * that were still available; the exact count is left to the layer base).
   */
  datatype Missing = Untouched | FromInner(count: nat) | ForChecksumField(available: nat)

  /**
   * One checksum layer: the width W of its field (`min_length() == max_length()`),
   * the checksum calculator, the field's W-byte encoding, and the read policy.
   */
  datatype Layer = Layer(
    width: nat,
    calculator: seq<byte> -> int,
    encode: nat -> seq<byte>,
    decode: seq<byte> -> nat,
    verifyBeforeRead: bool)
  {
    /** Number of values of the field's value type. */
    function Bound(): nat {
      FieldCodec.Pow256(width)
    }

    /** The field is integral and of fixed width: every value of its type is
        written in exactly `width` bytes. */
    ghost predicate Valid() {
      && width > 0
      && (forall v: nat {:trigger encode(v)} | v < Bound() :: |encode(v)| == width)
    }

    /** The field's decoding inverts its encoding, in both directions, on the
        values of its type and the `width`-byte strings. */
    ghost predicate RoundTrips() {
      && (forall v: nat {:trigger decode(encode(v))} | v < Bound() :: decode(encode(v)) == v)
      && (forall b: seq<byte> {:trigger decode(b)} | |b| == width :: decode(b) < Bound() && encode(decode(b)) == b)
    }

    /** The `static_cast` of a calculator result to the field's unsigned value type:
        it keeps the value modulo 256^W, so values of the type pass unchanged. */
    function Cast(x: int): (r: nat)
      ensures r < Bound()
      ensures (x - r) % Bound() == 0
      ensures 0 <= x < Bound() ==> r == x
    {
      var q := x / Bound();
      ModOfMultiple(q, Bound());
      assert x - x % Bound() == q * Bound();
      assert 0 <= x < Bound() ==> q == 0 by {
        if 0 <= x < Bound() { QuotientOfSmall(x, Bound()); }
      }
      x % Bound()
    }

    /** The field value the layer expects for `bytes`. */
    function Checksum(bytes: seq<byte>): (r: nat)
      ensures r < Bound()
    {
      Cast(calculator(bytes))
    }
  }

  /** A multiple of `b` leaves no remainder. */
  lemma ModOfMultiple(k: int, b: int)
    requires b > 0
    ensures (k * b) % b == 0
  {
    var d, m := (k * b) / b, (k * b) % b;
    assert (k - d) * b == m;
    MultipleInRange(k - d, b);
  }

  /** The only multiple of `b` strictly between `-b` and `b` is 0. */
  lemma MultipleInRange(k: int, b: int)
    requires b > 0 && -b < k * b < b
    ensures k == 0
  {
  }

  /** A value of `[0, b)` has quotient 0. */
  lemma QuotientOfSmall(x: int, b: int)
    requires 0 <= x < b
    ensures x / b == 0
  {
    var q := x / b;
    assert q * b == x - x % b;
    MultipleInRange(q, b);
  }

  /** A layer whose read policy is selected by its option list, as `verify_tag` is. */
  function NewLayer(width: nat, calculator: seq<byte> -> int, encode: nat -> seq<byte>, decode: seq<byte> -> nat,
                    opts: seq<ChecksumOptions.Opt>): (l: Layer)
    requires ChecksumOptions.Accepted(opts)
    ensures l.width == width && l.calculator == calculator && l.encode == encode && l.decode == decode
    ensures l.verifyBeforeRead <==> ChecksumOptions.VerifyBeforeRead in ChecksumOptions.Flatten(opts)
  {
    Layer(width, calculator, encode, decode, ChecksumOptions.HasVerifyBeforeRead(opts))
  }

  /** `s` with `bytes` written over it from index `at` on. */
  function Splice(s: seq<byte>, at: nat, bytes: seq<byte>): (r: seq<byte>)
    requires at + |bytes| <= |s|
    ensures |r| == |s|
  {
    s[..at] + bytes + s[at + |bytes|..]
  }

  /** The wire layout the layer contributes: the inner bytes, then their checksum field. */
  function Framed(layer: Layer, payload: seq<byte>): (r: seq<byte>)
    requires layer.Valid()
    ensures |r| == |payload| + layer.width
    ensures r[..|payload|] == payload
    ensures r[|payload|..] == layer.encode(layer.Checksum(payload))
  {
    payload + layer.encode(layer.Checksum(payload))
  }

  /** Writes `bytes` through a random-access cursor at `at`, one byte at a time. */
  method Put(buf: array<byte>, at: nat, bytes: seq<byte>)
    requires at + |bytes| <= buf.Length
    modifies buf
    ensures buf[..] == Splice(old(buf[..]), at, bytes)
  {
    for i := 0 to |bytes|
      invariant forall k | 0 <= k < buf.Length ::
        buf[k] == if at <= k < at + i then bytes[k - at] else old(buf[k])
    {
      buf[at + i] := bytes[i];
    }
    ghost var s := Splice(old(buf[..]), at, bytes);
    assert forall k | 0 <= k < buf.Length :: buf[k] == s[k];
  }

  // ---------------------------------------------------------------- read

  /** What an inner reader reports: its status, the bytes it consumed from the
      cursor, the message it leaves and the missing size it wrote, if any. */
  datatype InnerRead = InnerRead(status: Status, consumed: nat, msg: Message, missing: Option<nat>)

  /** The inner layers' read, given the incoming message and the bytes within its budget. */
  type Reader = (Message, seq<byte>) -> InnerRead

  /** The inner reader never consumes more than the bytes it was given. */
  ghost predicate ReaderInBudget(inner: Reader) {
    forall msg, window {:trigger inner(msg, window)} :: inner(msg, window).consumed <= |window|
  }

  function MissingOf(r: InnerRead): Missing {
    if r.missing.Some? then FromInner(r.missing.value) else Untouched
  }

  /** Status, final cursor, checksum field, message and missing-size slot after a read. */
  datatype ReadOutcome = ReadOutcome(status: Status, iter: nat, field: nat, msg: Message, missing: Missing)

  /**
   * Verify-before-read on the `size` bytes of `data` at `pos`: the field is taken
   * from the last W of them and compared with the checksum of the leading
   * `size - W`; only on a match does the inner reader run, over those same bytes.
   */
  ghost predicate VerifyBeforeReadOutcome(layer: Layer, data: seq<byte>, pos: nat, size: nat,
                                          msg: Message, inner: Reader, res: ReadOutcome)
    requires layer.width <= size && pos + size <= |data|
  {
    var payload := data[pos..pos + size - layer.width];
    var stored := layer.decode(data[pos + size - layer.width..pos + size]);
    if stored != layer.Checksum(payload) then
      res == ReadOutcome(ProtocolError, pos, stored, Empty, Untouched)
    else
      var r := inner(msg, payload);
      res == ReadOutcome(r.status, if r.status == Success then pos + size else pos + r.consumed,
                         stored, r.msg, MissingOf(r))
  }

  /** The bytes verify-before-read hands to the inner reader: none when the
      field does not match, else the `size - W` bytes before the field. */
  ghost function ShownBeforeRead(layer: Layer, data: seq<byte>, pos: nat, size: nat): Option<seq<byte>>
    requires layer.width <= size && pos + size <= |data|
  {
    var payload := data[pos..pos + size - layer.width];
    if layer.decode(data[pos + size - layer.width..pos + size]) != layer.Checksum(payload) then None
    else Some(payload)
  }

  /**
   * Verify-after-read on the `size` bytes of `data` at `pos`: the inner reader
   * runs first over `size - W` bytes; its `NotEnoughData` and `ProtocolError` pass
   * through untouched. Otherwise the field that follows the consumed bytes is
   * compared with the checksum of exactly those bytes.
   */
  ghost predicate VerifyAfterReadOutcome(layer: Layer, data: seq<byte>, pos: nat, size: nat,
                                         field: nat, msg: Message, inner: Reader, res: ReadOutcome)
    requires layer.width <= size && pos + size <= |data|
  {
    var window := data[pos..pos + size - layer.width];
    var r := inner(msg, window);
    var end := pos + r.consumed;
    if r.status == NotEnoughData || r.status == ProtocolError then
         res == ReadOutcome(r.status, end, field, r.msg, MissingOf(r))
       else
         // the field always fits behind what the inner reader consumed
         && end + layer.width <= pos + size
         && var stored := layer.decode(data[end..end + layer.width]);
            if stored == layer.Checksum(data[pos..end]) then
              res == ReadOutcome(r.status, end + layer.width, stored, r.msg, MissingOf(r))
            else
              res == ReadOutcome(ProtocolError, end + layer.width, stored, Empty, MissingOf(r))
  }

  /** A read of `size` bytes: a region shorter than the field is rejected before
      anything else happens; otherwise the layer's policy decides. */
  ghost predicate ReadOutcomeOf(layer: Layer, data: seq<byte>, pos: nat, size: nat,
                                field: nat, msg: Message, inner: Reader, res: ReadOutcome)
    requires pos + size <= |data|
  {
    if size < layer.width then
      res == ReadOutcome(NotEnoughData, pos, field, msg, Untouched)
    else if layer.verifyBeforeRead then
      VerifyBeforeReadOutcome(layer, data, pos, size, msg, inner, res)
    else
      VerifyAfterReadOutcome(layer, data, pos, size, field, msg, inner, res)
  }

  /** The bytes a read hands to the inner reader (`None`: it never runs). */
  ghost function Shown(layer: Layer, data: seq<byte>, pos: nat, size: nat): Option<seq<byte>>
    requires pos + size <= |data|
  {
    if size < layer.width then None
    else if layer.verifyBeforeRead then ShownBeforeRead(layer, data, pos, size)
    else Some(data[pos..pos + size - layer.width])
  }

  /** `eval_read`: rejects a region shorter than the field, else runs the layer's policy. */
  method EvalRead(layer: Layer, buf: array<byte>, pos: nat, size: nat, field: nat, msg: Message, inner: Reader)
    returns (res: ReadOutcome, ghost shown: Option<seq<byte>>)
    requires layer.Valid() && ReaderInBudget(inner)
    requires pos + size <= buf.Length && field < layer.Bound()
    ensures size < layer.width ==> res == ReadOutcome(NotEnoughData, pos, field, msg, Untouched)
    ensures ReadOutcomeOf(layer, buf[..], pos, size, field, msg, inner, res)
    ensures shown == Shown(layer, buf[..], pos, size)
  {
    if size < layer.width {
      return ReadOutcome(NotEnoughData, pos, field, msg, Untouched), None;
    }
    if layer.verifyBeforeRead {
      res, shown := VerifyRead(layer, buf, pos, size, field, msg, inner);
    } else {
      res, shown := ReadVerify(layer, buf, pos, size, field, msg, inner);
    }
  }

  /** `verify_read`, the verify-before-read policy. */
  method VerifyRead(layer: Layer, buf: array<byte>, pos: nat, size: nat, field: nat, msg: Message, inner: Reader)
    returns (res: ReadOutcome, ghost shown: Option<seq<byte>>)
    requires layer.Valid() && ReaderInBudget(inner)
    requires layer.width <= size && pos + size <= buf.Length && field < layer.Bound()
    ensures VerifyBeforeReadOutcome(layer, buf[..], pos, size, msg, inner, res)
    ensures shown == ShownBeforeRead(layer, buf[..], pos, size)
  {
    var toIter := pos + (size - layer.width);
    var len := toIter - pos;
    // the field is read from exactly its own width, so it always has enough bytes
    var stored := layer.decode(buf[toIter..toIter + layer.width]);
    var checksum := layer.calculator(buf[pos..pos + len]);
    if stored != layer.Cast(checksum) {
      return ReadOutcome(ProtocolError, pos, stored, Empty, Untouched), None;
    }
    var window := buf[pos..pos + (size - layer.width)];
    var r := inner(msg, window);
    shown := Some(window);
    var iter := pos + r.consumed;
    if r.status == Success {
      iter := toIter + layer.width;
    }
    res := ReadOutcome(r.status, iter, stored, r.msg, MissingOf(r));
  }

  /** `read_verify`, the verify-after-read policy (the default). */
  method ReadVerify(layer: Layer, buf: array<byte>, pos: nat, size: nat, field: nat, msg: Message, inner: Reader)
    returns (res: ReadOutcome, ghost shown: Option<seq<byte>>)
    requires layer.Valid() && ReaderInBudget(inner)
    requires layer.width <= size && pos + size <= buf.Length && field < layer.Bound()
    ensures VerifyAfterReadOutcome(layer, buf[..], pos, size, field, msg, inner, res)
    ensures shown == Some(buf[pos..pos + size - layer.width])
  {
    var window := buf[pos..pos + (size - layer.width)];
    var r := inner(msg, window);
    shown := Some(window);
    var iter: nat := pos + r.consumed;
    var missing := MissingOf(r);
    if r.status == NotEnoughData || r.status == ProtocolError {
      return ReadOutcome(r.status, iter, field, r.msg, missing), shown;
    }
    var len: nat := iter - pos;
    var remSize: nat := size - len;
    if remSize < layer.width {
      // the field cannot be read: report it and reset the message
      return ReadOutcome(NotEnoughData, iter, field, Empty, ForChecksumField(remSize)), shown;
    }
    var stored := layer.decode(buf[iter..iter + layer.width]);
    iter := iter + layer.width;
    var checksum := layer.calculator(buf[pos..pos + len]);
    if stored != layer.Cast(checksum) {
      return ReadOutcome(ProtocolError, iter, stored, Empty, missing), shown;
    }
    res := ReadOutcome(r.status, iter, stored, r.msg, missing);
  }

  // ---------------------------------------------------------------- write

  /** What an inner writer reports: its status and the bytes it produced at the cursor. */
  datatype InnerWrite = InnerWrite(status: Status, bytes: seq<byte>)

  /** The inner layers' write, given the message and the number of bytes it may produce. */
  type Writer = (Message, nat) -> InnerWrite

  /** The inner writer never produces more bytes than it was allowed. */
  ghost predicate WriterInBudget(inner: Writer) {
    forall msg, budget {:trigger inner(msg, budget)} :: |inner(msg, budget).bytes| <= budget
  }

  /** `field.write(iter, size)` for the fixed-width field, through a random-access cursor. */
  method WriteField(layer: Layer, buf: array<byte>, at: nat, avail: nat, value: nat) returns (st: Status)
    requires layer.Valid() && value < layer.Bound() && at + avail <= buf.Length
    modifies buf
    ensures st == (if avail < layer.width then BufferOverflow else Success)
    ensures st == Success ==> buf[..] == Splice(old(buf[..]), at, layer.encode(value))
    ensures st != Success ==> buf[..] == old(buf[..])
  {
    if avail < layer.width {
      return BufferOverflow;
    }
    Put(buf, at, layer.encode(value));
    return Success;
  }

  /** The field computed over the `len` bytes just written from `from` on, and
      written right behind them if `remSize` leaves room for it. */
  method WriteChecksum(layer: Layer, buf: array<byte>, from: nat, len: nat, remSize: nat)
    returns (st: Status, field': nat)
    requires layer.Valid() && from + len + remSize <= buf.Length
    modifies buf
    ensures field' == layer.Checksum(old(buf[from..from + len]))
    ensures st == (if remSize < layer.width then BufferOverflow else Success)
    ensures st == Success ==> buf[..] == Splice(old(buf[..]), from + len, layer.encode(field'))
    ensures st != Success ==> buf[..] == old(buf[..])
  {
    field' := layer.Cast(layer.calculator(buf[from..from + len]));
    st := WriteField(layer, buf, from + len, remSize, field');
  }

  /**
   * `write_internal_random_access`: the inner layers write first; if they left at
   * least W bytes of room, the field follows their bytes in the same pass, holding
   * either their checksum or, when they still need an update pass, its old value.
   */
  method WriteRandomAccess(layer: Layer, buf: array<byte>, pos: nat, size: nat, field: nat, msg: Message,
                           inner: Writer)
    returns (st: Status, iter: nat, field': nat)
    requires layer.Valid() && WriterInBudget(inner)
    requires pos + size <= buf.Length && field < layer.Bound()
    modifies buf
    ensures var w := inner(msg, size);
      if w.status != Success && w.status != UpdateRequired then
        st == w.status && iter == pos + |w.bytes| && field' == field
        && buf[..] == Splice(old(buf[..]), pos, w.bytes)
      else if size - |w.bytes| < layer.width then
        st == BufferOverflow && iter == pos + |w.bytes| && field' == field
        && buf[..] == Splice(old(buf[..]), pos, w.bytes)
      else if w.status == UpdateRequired then
        st == UpdateRequired && iter == pos + |w.bytes| + layer.width && field' == field
        && buf[..] == Splice(old(buf[..]), pos, w.bytes + layer.encode(field))
      else
        st == Success && iter == pos + |w.bytes| + layer.width && field' == layer.Checksum(w.bytes)
        && buf[..] == Splice(old(buf[..]), pos, Framed(layer, w.bytes))
  {
    ghost var before := buf[..];
    var w := inner(msg, size);
    Put(buf, pos, w.bytes);
    iter := pos + |w.bytes|;
    field' := field;
    if w.status != Success && w.status != UpdateRequired {
      return w.status, iter, field';
    }
    var len := iter - pos;
    var remSize := size - len;
    if remSize < layer.width {
      return BufferOverflow, iter, field';
    }
    ghost var afterInner := buf[..];
    if w.status == UpdateRequired {
      var _ := WriteField(layer, buf, iter, remSize, field');
      SpliceTwice(before, pos, w.bytes, layer.encode(field'));
      return UpdateRequired, iter + layer.width, field';
    }
    assert buf[pos..pos + len] == w.bytes;
    st, field' := WriteChecksum(layer, buf, pos, len, remSize);
    SpliceTwice(before, pos, w.bytes, layer.encode(field'));
    iter := iter + layer.width;
  }

  /** Writing `a` and then `b` right behind it is writing `a + b`. */
  lemma SpliceTwice(s: seq<byte>, at: nat, a: seq<byte>, b: seq<byte>)
    requires at + |a| + |b| <= |s|
    ensures Splice(Splice(s, at, a), at + |a|, b) == Splice(s, at, a + b)
  {
    var t := Splice(s, at, a);
    assert t[..at + |a|] == s[..at] + a;
    assert t[at + |a| + |b|..] == s[at + |a| + |b|..];
  }

  /**
   * `write_internal_output`, for an append-only cursor: the inner layers get W
   * bytes less, then the field is appended holding its current (placeholder)
   * value. `emitted` is what went through the cursor. Unless the inner write
   * failed, the answer is `UpdateRequired`: the checksum is finalised by an
   * update pass.
   */
  method WriteOutput(layer: Layer, size: nat, field: nat, msg: Message, inner: Writer)
    returns (st: Status, emitted: seq<byte>)
    requires layer.Valid() && WriterInBudget(inner)
    requires layer.width <= size && field < layer.Bound()
    ensures |emitted| <= size
    ensures var w := inner(msg, size - layer.width);
      if w.status != Success && w.status != UpdateRequired then
        st == w.status && emitted == w.bytes
      else
        st == UpdateRequired && emitted == w.bytes + layer.encode(field)
  {
    var w := inner(msg, size - layer.width);
    emitted := w.bytes;
    if w.status != Success && w.status != UpdateRequired {
      return w.status, emitted;
    }
    emitted := emitted + layer.encode(field);
    st := UpdateRequired;
  }

  // ---------------------------------------------------------------- update

  /** What an inner updater reports: its status, its region after the update and
      how far it advanced the cursor. */
  datatype InnerUpdate = InnerUpdate(status: Status, region: seq<byte>, advanced: nat)

  /** The inner layers' update over the region they wrote earlier. */
  type Updater = seq<byte> -> InnerUpdate

  /** The inner updater rewrites its region in place, and on success it has
      advanced over all of it. */
  ghost predicate UpdaterInPlace(inner: Updater) {
    forall region {:trigger inner(region)} ::
      && |inner(region).region| == |region|
      && inner(region).advanced <= |region|
      && (inner(region).status == Success ==> inner(region).advanced == |region|)
  }

  /** Running the updater over its own output changes nothing more. */
  ghost predicate UpdaterIdempotent(inner: Updater) {
    forall region {:trigger inner(inner(region).region)} ::
      inner(region).status == Success ==> inner(inner(region).region) == inner(region)
  }

  /** What an update pass leaves: its status, the `|region|` bytes of the frame
      and how far the cursor advanced. */
  datatype UpdateResult = UpdateResult(status: Status, frame: seq<byte>, advanced: nat)

  /**
   * The update pass on a region: the inner status, the inner region followed by
   * the field (which on success holds the checksum of the updated inner region),
   * and how far the cursor got.
   */
  function Updated(layer: Layer, region: seq<byte>, inner: Updater): (r: UpdateResult)
    requires layer.Valid() && UpdaterInPlace(inner) && layer.width <= |region|
    ensures |r.frame| == |region|
  {
    var n := |region| - layer.width;
    var u := inner(region[..n]);
    if u.status != Success then UpdateResult(u.status, u.region + region[n..], u.advanced)
    else UpdateResult(Success, Framed(layer, u.region), |region|)
  }

  /** An update pass relays the inner status. On success the region becomes a
      well-formed frame of its updated inner bytes and the cursor ends behind it;
      on failure the field bytes are left as they were and the cursor stops
      where the inner updater stopped, before the field. */
  lemma UpdatedFrames(layer: Layer, region: seq<byte>, inner: Updater)
    requires layer.Valid() && UpdaterInPlace(inner) && layer.width <= |region|
    ensures var r := Updated(layer, region, inner);
      var n := |region| - layer.width;
      && r.status == inner(region[..n]).status
      && r.frame[..n] == inner(region[..n]).region
      && (r.status == Success ==> r.frame == Framed(layer, r.frame[..n]) && r.advanced == |region|)
      && (r.status != Success ==> r.frame[n..] == region[n..] && r.advanced == inner(region[..n]).advanced <= n)
  {
    var n := |region| - layer.width;
    var u := inner(region[..n]);
    if u.status != Success {
      assert (u.region + region[n..])[..n] == u.region;
      assert (u.region + region[n..])[n..] == region[n..];
    } else {
      assert Framed(layer, u.region)[..n] == u.region;
    }
  }

  /** `eval_update`: the inner update over `size - W` bytes, then the field
      recomputed over exactly those bytes and written in the last W. */
  method EvalUpdate(layer: Layer, buf: array<byte>, pos: nat, size: nat, field: nat, inner: Updater)
    returns (st: Status, iter: nat, field': nat)
    requires layer.Valid() && UpdaterInPlace(inner)
    requires layer.width <= size && pos + size <= buf.Length && field < layer.Bound()
    modifies buf
    ensures var r := Updated(layer, old(buf[pos..pos + size]), inner);
      && st == r.status
      && buf[..] == Splice(old(buf[..]), pos, r.frame)
      && iter == pos + r.advanced
      && (st == Success ==> field' == layer.Checksum(r.frame[..size - layer.width]))
      && (st != Success ==> field' == field)
  {
    ghost var before := buf[..];
    ghost var region := buf[pos..pos + size];
    var n := size - layer.width;
    assert region[..n] == buf[pos..pos + n];
    var u := inner(buf[pos..pos + n]);
    Put(buf, pos, u.region);
    iter := pos + u.advanced;
    field' := field;
    if u.status != Success {
      UpdateFailureBytes(layer, before, pos, region, inner, u);
      return u.status, iter, field';
    }
    var len := iter - pos;
    assert len == n == |u.region|;
    var remSize := size - len;
    SpliceRead(before, pos, u.region);
    assert buf[pos..pos + len] == u.region;
    st, field' := WriteChecksum(layer, buf, pos, len, remSize);
    iter := iter + layer.width;
    UpdateSuccessBytes(layer, before, pos, region, inner, u, buf[..], field');
  }

  /** The bytes just written are read back. */
  lemma SpliceRead(s: seq<byte>, at: nat, bytes: seq<byte>)
    requires at + |bytes| <= |s|
    ensures Splice(s, at, bytes)[at..at + |bytes|] == bytes
  {
  }

  /** A failed inner update leaves its region written and the field as it was. */
  lemma UpdateFailureBytes(layer: Layer, before: seq<byte>, pos: nat, region: seq<byte>, inner: Updater,
                           u: InnerUpdate)
    requires layer.Valid() && UpdaterInPlace(inner)
    requires layer.width <= |region| && pos + |region| <= |before| && region == before[pos..pos + |region|]
    requires u == inner(region[..|region| - layer.width]) && u.status != Success
    ensures Updated(layer, region, inner) == UpdateResult(u.status, u.region + region[|region| - layer.width..], u.advanced)
    ensures Splice(before, pos, u.region) == Splice(before, pos, Updated(layer, region, inner).frame)
  {
    SpliceTail(before, pos, |region|, u.region);
  }

  /** A successful inner update followed by the checksum of its region, written
      right behind it, is the update pass's frame. */
  lemma UpdateSuccessBytes(layer: Layer, before: seq<byte>, pos: nat, region: seq<byte>, inner: Updater,
                           u: InnerUpdate, after: seq<byte>, field: nat)
    requires layer.Valid() && UpdaterInPlace(inner)
    requires layer.width <= |region| && pos + |region| <= |before|
    requires u == inner(region[..|region| - layer.width]) && u.status == Success
    requires field == layer.Checksum(u.region)
    requires after == Splice(Splice(before, pos, u.region), pos + |u.region|, layer.encode(field))
    ensures var r := Updated(layer, region, inner);
      && r.status == Success && r.advanced == |region|
      && after == Splice(before, pos, r.frame)
      && field == layer.Checksum(r.frame[..|region| - layer.width])
  {
    var framed := u.region + layer.encode(field);
    assert Framed(layer, u.region) == framed;
    assert framed[..|region| - layer.width] == u.region;
    SpliceTwice(before, pos, u.region, layer.encode(field));
  }

  /** Writing the first bytes of a region is writing the whole region with its
      old tail kept. */
  lemma SpliceTail(s: seq<byte>, at: nat, size: nat, head: seq<byte>)
    requires |head| <= size && at + size <= |s|
    ensures Splice(s, at, head) == Splice(s, at, head + s[at..at + size][|head|..])
  {
    var n := |head|;
    SpliceTwice(s, at, head, s[at..at + size][n..]);
    assert s[at..at + size][n..] == Splice(s, at, head)[at + n..at + size];
    SpliceKeeps(Splice(s, at, head), at + n, size - n);
  }

  /** Writing back the bytes that are already there changes nothing. */
  lemma SpliceKeeps(s: seq<byte>, at: nat, k: nat)
    requires at + k <= |s|
    ensures Splice(s, at, s[at..at + k]) == s
  {
    assert s[..at] + s[at..at + k] + s[at + k..] == s;
  }

  // ---------------------------------------------------------------- properties

  /**
   * When the inner reader consumes exactly the `size - W` bytes before the
   * field, both policies accept the same inputs and end in the same state.
   * On an intact field they report the same status, message and missing size,
   * and the same cursor unless the inner reader failed with another status
   * (see `PoliciesCursorGap`). On a corrupted field verify-before-read rejects
   * and resets the message without running the inner reader; verify-after-read
   * does the same unless the inner reader itself returned `NotEnoughData` or
   * `ProtocolError`, which pass through.
   */
  lemma PoliciesAgree(layer: Layer, data: seq<byte>, pos: nat, size: nat, field: nat, msg: Message,
                      inner: Reader, before: ReadOutcome, after: ReadOutcome)
    requires layer.width <= size && pos + size <= |data|
    requires VerifyBeforeReadOutcome(layer, data, pos, size, msg, inner, before)
    requires VerifyAfterReadOutcome(layer, data, pos, size, field, msg, inner, after)
    requires inner(msg, data[pos..pos + size - layer.width]).consumed == size - layer.width
    ensures before.status == Success <==> after.status == Success
    ensures before.status == Success ==> before == after
    ensures var payload := data[pos..pos + size - layer.width];
      var r := inner(msg, payload);
      layer.decode(data[pos + size - layer.width..pos + size]) != layer.Checksum(payload) ==>
        && before.status == ProtocolError && before.msg == Empty
        && ShownBeforeRead(layer, data, pos, size) == None
        && (r.status != NotEnoughData && r.status != ProtocolError ==>
              after.status == ProtocolError && after.msg == Empty)
    ensures var payload := data[pos..pos + size - layer.width];
      layer.decode(data[pos + size - layer.width..pos + size]) == layer.Checksum(payload) ==>
        && before.status == after.status && before.msg == after.msg && before.missing == after.missing
        && (before.status == Success || before.status == NotEnoughData || before.status == ProtocolError ==>
              before.iter == after.iter)
    ensures before.field == layer.decode(data[pos + size - layer.width..pos + size])
    ensures var r := inner(msg, data[pos..pos + size - layer.width]);
      r.status == NotEnoughData || r.status == ProtocolError ==> after.field == field
  {
    var n := size - layer.width;
    assert data[pos + n..pos + n + layer.width] == data[pos + size - layer.width..pos + size];
  }

  /**
   * The cursors part when the inner reader fails with a status other than
   * `NotEnoughData` or `ProtocolError` on an intact field: verify-before-read
   * leaves the cursor where the inner reader stopped, verify-after-read reads
   * the field behind it, W bytes further on.
   */
  lemma PoliciesCursorGap(layer: Layer, data: seq<byte>, pos: nat, size: nat, field: nat, msg: Message,
                          inner: Reader, before: ReadOutcome, after: ReadOutcome)
    requires layer.width <= size && pos + size <= |data|
    requires VerifyBeforeReadOutcome(layer, data, pos, size, msg, inner, before)
    requires VerifyAfterReadOutcome(layer, data, pos, size, field, msg, inner, after)
    requires inner(msg, data[pos..pos + size - layer.width]).consumed == size - layer.width
    requires layer.decode(data[pos + size - layer.width..pos + size])
             == layer.Checksum(data[pos..pos + size - layer.width])
    requires before.status != Success && before.status != NotEnoughData && before.status != ProtocolError
    ensures before.status == after.status
    ensures before.iter == pos + size - layer.width && after.iter == pos + size
  {
    var n := size - layer.width;
    assert data[pos + n..pos + n + layer.width] == data[pos + size - layer.width..pos + size];
  }

  /**
   * Reading a frame the layer wrote: the inner bytes followed by their checksum
   * field are accepted under either policy, the cursor ends behind the field and
   * the message is what the inner reader produced.
   */
  lemma FrameReadsBack(layer: Layer, data: seq<byte>, pos: nat, payload: seq<byte>, field: nat,
                       msg: Message, inner: Reader, res: ReadOutcome)
    requires layer.Valid() && layer.RoundTrips()
    requires pos + |payload| + layer.width <= |data|
    requires data[pos..pos + |payload| + layer.width] == Framed(layer, payload)
    requires inner(msg, payload).status == Success && inner(msg, payload).consumed == |payload|
    requires ReadOutcomeOf(layer, data, pos, |payload| + layer.width, field, msg, inner, res)
    ensures res.status == Success && res.iter == pos + |payload| + layer.width
    ensures res.msg == inner(msg, payload).msg && res.field == layer.Checksum(payload)
    ensures Shown(layer, data, pos, |payload| + layer.width) == Some(payload)
  {
    var size := |payload| + layer.width;
    var frame := Framed(layer, payload);
    assert data[pos..pos + |payload|] == frame[..|payload|] == payload;
    assert data[pos + |payload|..pos + size] == frame[|payload|..];
  }

  /**
   * A checksum field that is not the encoding of the checksum of the bytes
   * before it is rejected under either policy, with the message reset, as long
   * as the inner reader accepts those bytes. Verify-before-read never shows the
   * bytes to the inner reader; verify-after-read has shown them to it once.
   */
  lemma CorruptFieldRejected(layer: Layer, data: seq<byte>, pos: nat, payload: seq<byte>, stored: seq<byte>,
                             field: nat, msg: Message, inner: Reader, res: ReadOutcome)
    requires layer.Valid() && layer.RoundTrips()
    requires |stored| == layer.width && stored != layer.encode(layer.Checksum(payload))
    requires pos + |payload| + layer.width <= |data|
    requires data[pos..pos + |payload| + layer.width] == payload + stored
    requires inner(msg, payload).consumed == |payload|
    requires inner(msg, payload).status != NotEnoughData && inner(msg, payload).status != ProtocolError
    requires ReadOutcomeOf(layer, data, pos, |payload| + layer.width, field, msg, inner, res)
    ensures res.status == ProtocolError && res.msg == Empty
    ensures layer.verifyBeforeRead ==> Shown(layer, data, pos, |payload| + layer.width) == None
    ensures !layer.verifyBeforeRead ==> Shown(layer, data, pos, |payload| + layer.width) == Some(payload)
  {
    var size := |payload| + layer.width;
    var c := layer.Checksum(payload);
    var frame := data[pos..pos + size];
    assert frame[..|payload|] == payload && frame[|payload|..] == stored;
    assert data[pos..pos + size - layer.width] == payload;
    assert data[pos + size - layer.width..pos + size] == stored;
    assert layer.encode(layer.decode(stored)) == stored;
    assert layer.decode(stored) != c;
    if layer.verifyBeforeRead {
      assert VerifyBeforeReadOutcome(layer, data, pos, size, msg, inner, res);
    } else {
      assert VerifyAfterReadOutcome(layer, data, pos, size, field, msg, inner, res);
    }
  }

  /**
   * The two write paths agree: the bytes a sequential write emits (the inner
   * bytes, then a placeholder field), finalised by an update pass whose inner
   * updater leaves those bytes alone, are the frame a random-access write
   * produces in one pass.
   */
  lemma WritePathsAgree(layer: Layer, payload: seq<byte>, placeholder: nat, inner: Updater)
    requires layer.Valid() && UpdaterInPlace(inner) && placeholder < layer.Bound()
    requires inner(payload) == InnerUpdate(Success, payload, |payload|)
    ensures Updated(layer, payload + layer.encode(placeholder), inner)
            == UpdateResult(Success, Framed(layer, payload), |payload| + layer.width)
  {
    var region := payload + layer.encode(placeholder);
    assert region[..|region| - layer.width] == payload;
  }

  /**
   * Update is idempotent on finished frames: with an idempotent inner updater,
   * after a successful first pass a second pass over the bytes it left
   * reproduces its status, bytes and cursor.
   */
  lemma UpdateIdempotent(layer: Layer, region: seq<byte>, inner: Updater)
    requires layer.Valid() && UpdaterInPlace(inner) && UpdaterIdempotent(inner)
    requires layer.width <= |region|
    ensures var once := Updated(layer, region, inner);
      once.status == Success ==> Updated(layer, once.frame, inner) == once
  {
    var n := |region| - layer.width;
    var once := Updated(layer, region, inner);
    if once.status == Success {
      var u := inner(region[..n]);
      assert once.frame == Framed(layer, u.region);
      assert once.frame[..n] == u.region;
    }
  }

  /**
   * On a frame that is already final, an update pass whose inner updater leaves
   * its bytes alone reports success and leaves every byte as it was.
   */
  lemma UpdateKeepsFinalFrame(layer: Layer, payload: seq<byte>, inner: Updater)
    requires layer.Valid() && UpdaterInPlace(inner)
    requires inner(payload) == InnerUpdate(Success, payload, |payload|)
    ensures Updated(layer, Framed(layer, payload), inner)
            == UpdateResult(Success, Framed(layer, payload), |payload| + layer.width)
  {
    var frame := Framed(layer, payload);
    assert frame[..|frame| - layer.width] == payload;
  }
}
