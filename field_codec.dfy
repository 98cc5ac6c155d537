/**
 * A fixed-width unsigned integral field of `width` bytes, the shape the checksum
 * layer requires of its field (integral, `min_length() == max_length()`).
 *
 * The checksum layer itself treats the field's encoding as abstract: it only
 * needs a W-byte encoding whose decoding is its inverse in both directions.
 * This module gives one such encoding (most significant byte first) and proves
 * both round trips, so that hypothesis can be met.
 */
module FieldCodec {

  /** One octet of the wire buffer. */
  newtype byte = x: int | 0 <= x < 256

  /** Number of distinct values of a `width`-byte unsigned field, 256^width. */
  function Pow256(width: nat): (r: nat)
    ensures r >= 1
  {
    if width == 0 then 1 else 256 * Pow256(width - 1)
  }

  /** Serialises `v` in `width` bytes, most significant byte first; higher bits are dropped. */
  function Encode(width: nat, v: nat): (r: seq<byte>)
    ensures |r| == width
  {
    if width == 0 then [] else Encode(width - 1, v / 256) + [(v % 256) as byte]
  }

  /** Reads an unsigned value from its bytes, most significant byte first. */
  function Decode(bytes: seq<byte>): (r: nat)
    ensures r < Pow256(|bytes|)
  {
    if bytes == [] then 0
    else
      var hi := Decode(bytes[..|bytes| - 1]);
      var lo := bytes[|bytes| - 1] as nat;
      assert hi * 256 + lo < Pow256(|bytes|) by {
        assert hi + 1 <= Pow256(|bytes| - 1);
        assert (hi + 1) * 256 <= Pow256(|bytes| - 1) * 256;
      }
      hi * 256 + lo
  }

  /** Every value of the field survives a write followed by a read. */
  lemma {:induction false} DecodeEncode(width: nat, v: nat)
    requires v < Pow256(width)
    ensures Decode(Encode(width, v)) == v
  {
    if width > 0 {
      var q, r := v / 256, v % 256;
      assert v == q * 256 + r;
      var e := Encode(width, v);
      assert e == Encode(width - 1, q) + [r as byte];
      assert e[..width - 1] == Encode(width - 1, q);
      assert q < Pow256(width - 1);
      DecodeEncode(width - 1, q);
      assert e[width - 1] as nat == r;
      assert Decode(e) == Decode(e[..width - 1]) * 256 + e[width - 1] as nat;
    }
  }

  /** Every byte pattern of the field's width is what writing its decoded value produces. */
  lemma {:induction false} EncodeDecode(bytes: seq<byte>)
    ensures Encode(|bytes|, Decode(bytes)) == bytes
    decreases |bytes|
  {
    if bytes != [] {
      var n := |bytes|;
      var hi := Decode(bytes[..n - 1]);
      var lo := bytes[n - 1] as nat;
      var v := hi * 256 + lo;
      assert Decode(bytes) == v;
      assert v / 256 == hi && v % 256 == lo;
      assert Encode(n, v) == Encode(n - 1, hi) + [lo as byte];
      EncodeDecode(bytes[..n - 1]);
      assert bytes == bytes[..n - 1] + [bytes[n - 1]];
    }
  }
}
