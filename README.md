# Checksum layer of a layered binary codec

This project models the checksum protocol layer of a binary wire-protocol codec,
together with the compile-time option fold that selects its read policy.

The codec is a chain of "field + delegate" layers. The checksum layer wraps the
inner layers and owns one fixed-width field of W bytes:

- **Read** checks that field against a checksum of the bytes the inner layers read.
  There are two policies. Verify-after-read is the default: the inner layers read
  first, then the field behind their bytes is compared with the checksum of exactly
  those bytes. Verify-before-read compares the last W bytes of the region with the
  checksum of the leading `size - W` bytes, and runs the inner layers only on a match.
- **Write** appends the field behind the inner layers' bytes. Through a random-access
  cursor this is one pass. Through an append-only cursor, the layer writes a
  placeholder and answers `UpdateRequired`.
- **Update** is the second pass. It recomputes the checksum over the inner region
  and overwrites the field in place.

Files:

- `checksum_options.dfy` (module `ChecksumOptions`): the option list as a sequence of
  `Opt` tokens. `HasVerifyBeforeRead` is the recursive fold. The lemmas cover empty
  options, bundles spliced in place and order independence.
- `checksum_layer.dfy` (module `ChecksumLayer`): the layer.
  - The buffer is an `array<byte>`, where `byte` is the integers 0 to 255, and a cursor is an index into it.
  - What the C++ passes by reference comes back as out-parameters: the cursor, the
    checksum field, the message and the missing-size slot.
  - The inner reader, writer and updater are function values. Their contracts are
    predicates in the preconditions: they stay within the bytes they are given, and
    the updater works in place.
  - The checksum calculator is an uninterpreted function stored in the `Layer`. Its
    result is cast to the field's value type modulo `256^W`.
  - The field's encoding is also a function stored in the `Layer`. `Valid()` requires
    that it writes W bytes, and `RoundTrips()` that decoding inverts it.
  - Each read policy is specified by a predicate on the outcome
    (`VerifyBeforeReadOutcome`, `VerifyAfterReadOutcome`).
  - The update pass is specified by the function `Updated`. Its `UpdateResult` holds the status, the new bytes of the region and the cursor advance.
  - The random-access write and the update change the array in place, and their
    postconditions state the whole new array. The sequential write returns the bytes
    it emits.
- `field_codec.dfy` (module `FieldCodec`): a big-endian unsigned W-byte encoding,
  proved to round-trip both ways. It shows that the layer's hypotheses on its field
  can be met.
- `checksum_example.dfy` (module `ChecksumExample`): the layer with a one-byte
  sum-mod-256 field around a terminal payload layer. It works through the
  encode, decode, corruption and two-pass cases for the payload `[1, 2, 3]`.

The two read policies checksum different ranges:

- verify-before-read checksums the leading `size - W` bytes;
- verify-after-read checksums the bytes the inner reader consumed.

They are guaranteed to agree only when the inner reader consumes exactly `size - W`
bytes. `PoliciesAgree` proves the agreement under that hypothesis.
Even then the agreement is not complete, when the field is intact and the inner
reader fails:

- On `NotEnoughData` or `ProtocolError` from the inner reader, verify-before-read
  returns the stored field value, which it has already read. Verify-after-read never
  reads the field and returns the caller's value unchanged.
- On any other inner failure (such as `BufferOverflow`), the cursors end W bytes
  apart (`PoliciesCursorGap`). Verify-before-read moves the cursor only on success
  (lines 240-241). Verify-after-read reads the field behind the consumed bytes
  (lines 260 and 278).

`ChecksumExample.PoliciesDifferExample` shows an inner reader that consumes fewer
bytes, on which one policy accepts and the other rejects.

## Model

| member | source | states |
|---|---|---|
| `ChecksumOptions.HasVerifyBeforeRead` | include/nil/network/marshalling/protocol/detail/checksum_layer_options_parser.hpp:38-60 | Defined only for lists of supported options. The flag is true exactly when `VerifyBeforeRead` occurs in the flattened list. |
| `ChecksumOptions.Flatten` | include/nil/network/marshalling/protocol/detail/checksum_layer_options_parser.hpp:58-60 | Replacing each tuple bundle by its members, recursively, leaves no bundle in the list. |
| `ChecksumOptions.EmptyListIsAfterRead` | include/nil/network/marshalling/protocol/detail/checksum_layer_options_parser.hpp:41-45 | The empty option list gives `false`, the verify-after-read default. |
| `ChecksumOptions.HeadVerifyBeforeRead` | include/nil/network/marshalling/protocol/detail/checksum_layer_options_parser.hpp:47-52 | A list headed by `VerifyBeforeRead` gives `true`, whatever accepted tail follows. |
| `ChecksumOptions.EmptyOptionIgnored` | include/nil/network/marshalling/protocol/detail/checksum_layer_options_parser.hpp:54-56 | Inserting an `empty_option` anywhere in the list does not change the flag. |
| `ChecksumOptions.BundleSpliced` | include/nil/network/marshalling/protocol/detail/checksum_layer_options_parser.hpp:58-60 | A bundle anywhere in the list gives the same flag as its members spliced in its place. |
| `ChecksumOptions.OrderIrrelevant` | include/nil/network/marshalling/protocol/detail/checksum_layer_options_parser.hpp:38-60 | The flag of `a + b` is the flag of `b + a`, and it is the disjunction of the flags of `a` and `b`. |
| `ChecksumLayer.NewLayer` | include/nil/network/marshalling/protocol/checksum_layer.hpp:213-217 | The layer uses verify-before-read exactly when the flattened option list contains that option. |
| `ChecksumLayer.Layer.Cast` | include/nil/network/marshalling/protocol/checksum_layer.hpp:51-53 | The calculator's result is truncated to the field's unsigned value type: the result lies below `256^W`, differs from the calculator's value by a multiple of `256^W`, and equals it when it already lies in `[0, 256^W)`. |
| `ChecksumLayer.Framed` | include/nil/network/marshalling/protocol/checksum_layer.hpp:318-322 | The wire layout is the inner bytes followed by the W-byte encoding of the cast checksum of exactly those bytes. |
| `ChecksumLayer.EvalRead` | include/nil/network/marshalling/protocol/checksum_layer.hpp:126-140 | If `size < W`: `NotEnoughData`, cursor, field, message and missing size unchanged, inner reader not run. Otherwise the outcome is that of the configured policy. |
| `ChecksumLayer.VerifyRead` | include/nil/network/marshalling/protocol/checksum_layer.hpp:219-245 | The field is read at `size - W` and compared with the checksum of the leading `size - W` bytes. Mismatch: message reset, `ProtocolError`, cursor unmoved, inner reader never run. Match: the inner status; the cursor is at `pos + size` on inner success, else where the inner reader stopped. |
| `ChecksumLayer.ReadVerify` | include/nil/network/marshalling/protocol/checksum_layer.hpp:247-279 | Inner reader runs on `size - W` bytes. Its `NotEnoughData`/`ProtocolError` pass through with the message untouched and no checksum work. Otherwise the field behind the consumed bytes is compared with their checksum. Mismatch: message reset, `ProtocolError`. Match: the inner status. The cursor is at `pos + len + W` in both cases. |
| `ChecksumLayer.WriteRandomAccess` | include/nil/network/marshalling/protocol/checksum_layer.hpp:293-323 | Inner failure: passed through. Fewer than W bytes left: `BufferOverflow`. Inner `UpdateRequired`: the unchanged field follows, `UpdateRequired`. Otherwise the field becomes the checksum of exactly the inner bytes and the buffer holds `Framed` of them. Nothing outside `[pos, iter)` changes. |
| `ChecksumLayer.WriteOutput` | include/nil/network/marshalling/protocol/checksum_layer.hpp:325-338 | The inner writer gets `size - W` bytes. Its failure passes through. Otherwise the placeholder field is appended and the answer is `UpdateRequired`, even after inner success. At most `size` bytes are emitted. |
| `ChecksumLayer.UpdatedFrames` | include/nil/network/marshalling/protocol/checksum_layer.hpp:188-204 | The update pass relays the inner updater's status. In both cases the first `size - W` bytes of the region are the inner updater's bytes. On success the region is `Framed` of those bytes and the cursor ends behind the field. On failure the field bytes are untouched and the cursor stops where the inner updater stopped, before the field. |
| `ChecksumLayer.EvalUpdate` | include/nil/network/marshalling/protocol/checksum_layer.hpp:187-204 | Status, new region and cursor are those of `Updated` on the old region; every byte outside the region is unchanged. On success the field holds the checksum of the updated inner bytes; on failure it is unchanged. |
| `ChecksumLayer.WriteChecksum` | include/nil/network/marshalling/protocol/checksum_layer.hpp:318-322 | The field becomes the cast checksum of the `len` bytes just written. If at least W bytes remain, its encoding is written right behind them and the status is `Success`; otherwise `BufferOverflow` and the buffer is unchanged. |
| `ChecksumLayer.PoliciesAgree` | include/nil/network/marshalling/protocol/checksum_layer.hpp:219-279 | If the inner reader consumes exactly `size - W` bytes, both policies succeed on the same inputs with identical outcomes. On a bad field verify-before-read rejects and resets the message without running the inner reader. Verify-after-read also rejects with the message reset, unless the inner reader itself returned `NotEnoughData` or `ProtocolError`, whose status then passes through unreset. On an intact field both report the same status, message and missing size, and the same cursor when the inner status is `Success`, `NotEnoughData` or `ProtocolError`. Verify-before-read always returns the stored field value; verify-after-read returns the caller's field unchanged on inner `NotEnoughData`/`ProtocolError`. |
| `ChecksumLayer.PoliciesCursorGap` | include/nil/network/marshalling/protocol/checksum_layer.hpp:239-278 | On an intact field with an inner failure other than `NotEnoughData`/`ProtocolError`, both policies report that status. Verify-before-read leaves the cursor at `pos + size - W`, and verify-after-read moves it to `pos + size`. |
| `ChecksumLayer.FrameReadsBack` | include/nil/network/marshalling/protocol/checksum_layer.hpp:219-279 | Reading back a `Framed` payload succeeds under either policy. The cursor ends behind the field and the message is the inner reader's. |
| `ChecksumLayer.CorruptFieldRejected` | include/nil/network/marshalling/protocol/checksum_layer.hpp:231-236 | A field other than the encoded checksum of the bytes before it gives `ProtocolError` with the message reset. Verify-before-read never ran the inner reader; verify-after-read ran it once. |
| `ChecksumLayer.WritePathsAgree` | include/nil/network/marshalling/protocol/checksum_layer.hpp:318-320 | Sequential write (inner bytes + placeholder) followed by an update pass that keeps those bytes gives exactly the one-pass random-access frame. |
| `ChecksumLayer.UpdateIdempotent` | include/nil/network/marshalling/protocol/checksum_layer.hpp:188-204 | With an idempotent inner updater, after a successful first pass a second pass reproduces its status, bytes and cursor. |
| `ChecksumLayer.UpdateKeepsFinalFrame` | include/nil/network/marshalling/protocol/checksum_layer.hpp:196-202 | Updating an already final frame, with an inner updater that keeps its bytes, succeeds and changes no byte. |
| `FieldCodec.DecodeEncode` | include/nil/network/marshalling/protocol/checksum_layer.hpp:207-211 | Every value below `256^W` survives writing and reading the fixed-width field. |
| `FieldCodec.EncodeDecode` | include/nil/network/marshalling/protocol/checksum_layer.hpp:207-211 | Every W-byte string is the encoding of its decoded value. |
| `ChecksumExample.BigEndianLayerValid` | include/nil/network/marshalling/protocol/checksum_layer.hpp:207-211 | A big-endian integral field of positive fixed width meets the layer's `Valid()` and `RoundTrips()`. |
| `ChecksumExample.EncodeExample` | include/nil/network/marshalling/protocol/checksum_layer.hpp:293-323 | Writing `[1, 2, 3]` with a one-byte byte-sum field gives `Success` and `[1, 2, 3, 6]`. |
| `ChecksumExample.TwoPassExample` | include/nil/network/marshalling/protocol/checksum_layer.hpp:325-338 | The sequential write emits `[1, 2, 3, 0]` with `UpdateRequired`; the update pass then leaves `[1, 2, 3, 6]`. |
| `ChecksumExample.DecodeExample` | include/nil/network/marshalling/protocol/checksum_layer.hpp:247-279 | Reading `[1, 2, 3, 6]` under either policy succeeds with message `[1, 2, 3]` and the cursor at 4. |
| `ChecksumExample.CorruptedExample` | include/nil/network/marshalling/protocol/checksum_layer.hpp:219-237 | Reading `[1, 2, 3, 7]` gives `ProtocolError` and an empty message under either policy. Only verify-after-read showed `[1, 2, 3]` to the payload layer. |
| `ChecksumExample.TruncatedExample` | include/nil/network/marshalling/protocol/checksum_layer.hpp:219-279 | `[1, 2, 3, 6]` without its last byte is read under either policy as the frame of `[1, 2]`: `Success`, cursor at 3, message `[1, 2]`. |
| `ChecksumExample.PoliciesDifferExample` | include/nil/network/marshalling/protocol/checksum_layer.hpp:219-279 | On `[1, 2, 3, 6]`, with an inner reader that takes one byte, verify-before-read succeeds with the cursor at 4. Verify-after-read checks the byte behind that one against its checksum and gives `ProtocolError` with the message reset and the cursor at 2. |
| `ChecksumExample.ShortInputExample` | include/nil/network/marshalling/protocol/checksum_layer.hpp:134-136 | An empty region gives `NotEnoughData` with nothing changed. |

## Left out

- The iterator-category dispatch of `eval_write` (`write_internal`, lines 340-350) is not modelled as a member. The caller calls `WriteRandomAccess` for a random-access cursor and `WriteOutput` for an append-only one.
- The `static_assert`s (random-access read iterator, integral field, fixed length) are preconditions: the read takes an array, and the field must satisfy `Layer.Valid()`.
- `ReadVerify`: the branch for a checksum field that does not fit behind the inner bytes is in the body (lines 259-268: the missing size is written for the field, the message is reset, the field's status is returned). It is unreachable: the inner reader is given `size - W` bytes and stays within them, so at least W bytes always remain. `VerifyAfterReadOutcome` states that the field always fits.
- `VerifyRead`: the field read at `size - W` always has its W bytes, so its failure branch (lines 227-229) has no counterpart.
- `ChecksumLayer.Layer.Cast`: the cast targets an unsigned value type exactly W bytes wide. A signed value type, or one wider than the serialised length, is not modelled.
- `update_missing_size` and `reset_msg` belong to the layer base, which is not part of this model. A reset yields `Message.Empty`. The missing-size slot records who wrote it, and for the checksum field how many bytes were available; the count itself is not computed.
- The field codec's byte order belongs to the field type. The layer only uses the abstract `encode`/`decode` and the two round trips. `FieldCodec` is one instance of it.
- The checksum calculator `TCalc` is an uninterpreted `seq<byte> -> int`. Only the one-byte sum is given concretely, in `ChecksumExample`.
- The inner layers are function values, so side effects beyond their reported results are not modelled. The ghost out-parameter `shown` stands for "the inner reader ran, on these bytes". Its value is the ghost function `Shown`: `None` when the region is too short, or when verify-before-read finds a mismatch; otherwise the `size - W` bytes before the field.
- `size - W` in update and in the sequential write is unsigned arithmetic in the source. The model requires `size >= W` instead of modelling wrap-around.
- `MARSHALLING_ASSERT` checks are inner-layer contracts: `ReaderInBudget`, `WriterInBudget` and `UpdaterInPlace`. The last says a successful update advances exactly `size - W`.
- The defaulted constructors and assignment operators (lines 78-94) have no behaviour.
- The peer layers (length prefix, id dispatch, sync marker, transport metadata) and the message factory are not part of this model. A minimal terminal payload layer appears only as the inner layer of `ChecksumExample`.
- Exact missing size for truncated frames is not stated. The layer alone cannot detect truncation: a truncated frame can be accepted as the frame of a shorter payload (`ChecksumExample.TruncatedExample`). Reporting `NotEnoughData` with an exact missing size needs an inner layer that knows its own length.
- `ChecksumLayer.EvalRead`: on a region shorter than the field the code returns `NotEnoughData` at lines 134-136 without writing the missing size, although the comment at lines 124-125 says it is written exactly when the result is `NotEnoughData`. The model follows the code: the slot stays `Untouched`.
