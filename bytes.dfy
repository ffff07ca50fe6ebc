/** Go's fixed-width unsigned integers and the big-endian 16-bit byte order of
    its encoding/binary package, which every part of the legacy codec uses. */
module Bytes {

  type uint8 = x: int | 0 <= x < 0x100
  type uint16 = x: int | 0 <= x < 0x1_0000
  type uint32 = x: int | 0 <= x < 0x1_0000_0000

  datatype Option<+T> = None | Some(value: T)

  /** binary.BigEndian.PutUint16: the high byte first, then the low byte. */
  function BE16(v: uint16): (r: seq<uint8>)
    ensures |r| == 2 && r[0] as int * 0x100 + r[1] == v
  {
    [v / 0x100, v % 0x100]
  }

  /** binary.BigEndian.Uint16 of the two bytes at offset i. */
  function Uint16At(b: seq<uint8>, i: nat): (v: uint16)
    requires i + 2 <= |b|
  {
    b[i] as int * 0x100 + b[i + 1]
  }

  /** The value read splits back into the two bytes it was read from. */
  lemma Uint16AtBytes(b: seq<uint8>, i: nat)
    requires i + 2 <= |b|
    ensures Uint16At(b, i) / 0x100 == b[i] && Uint16At(b, i) % 0x100 == b[i + 1]
  {
  }

  lemma BE16RoundTrip(v: uint16, rest: seq<uint8>)
    ensures Uint16At(BE16(v) + rest, 0) == v
  {
  }

  lemma Uint16AtShift(prefix: seq<uint8>, b: seq<uint8>, i: nat)
    requires i + 2 <= |b|
    ensures Uint16At(prefix + b, |prefix| + i) == Uint16At(b, i)
  {
    assert (prefix + b)[|prefix| + i] == b[i];
    assert (prefix + b)[|prefix| + i + 1] == b[i + 1];
  }

  /** Appending one piece more to what is already written keeps the written
      part followed by the rest equal to the whole. */
  lemma AppendStep(written: seq<uint8>, piece: seq<uint8>, rest: seq<uint8>, whole: seq<uint8>)
    requires written + (piece + rest) == whole
    ensures (written + piece) + rest == whole
  {
  }
}
