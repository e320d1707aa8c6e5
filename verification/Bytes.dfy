/** Bytes, 32-bit sequence numbers and the few sequence helpers every other module uses. */
module Bytes {

  type Byte = x: int | 0 <= x < 256

  const TWO32 := 0x1_0000_0000

  type U32 = x: int | 0 <= x < TWO32

  datatype Option<+T> = None | Some(value: T)

  /** Storing a sum in a `uint32_t`. */
  function Wrap32(x: nat): (r: U32)
    ensures x < TWO32 ==> r == x
    ensures TWO32 <= x < 2 * TWO32 ==> r == x - TWO32
  {
    x % TWO32
  }

  function Min(a: int, b: int): int {
    if a <= b then a else b
  }

  function Max(a: int, b: int): int {
    if a <= b then b else a
  }

  /** The bytes of a file that was read, or is to be written, in pieces. */
  function Flatten(chunks: seq<seq<Byte>>): seq<Byte> {
    if chunks == [] then [] else Flatten(chunks[..|chunks| - 1]) + chunks[|chunks| - 1]
  }

  lemma FlattenSnoc(chunks: seq<seq<Byte>>, k: nat)
    requires k < |chunks|
    ensures Flatten(chunks[..k + 1]) == Flatten(chunks[..k]) + chunks[k]
  {
    assert chunks[..k + 1][..k] == chunks[..k];
  }

  /** A prefix of the pieces is a prefix of the bytes. */
  lemma {:induction false} FlattenPrefix(chunks: seq<seq<Byte>>, k: nat)
    requires k <= |chunks|
    ensures Flatten(chunks[..k]) <= Flatten(chunks)
    decreases |chunks| - k
  {
    if k == |chunks| {
      assert chunks[..k] == chunks;
    } else {
      FlattenSnoc(chunks, k);
      FlattenPrefix(chunks, k + 1);
    }
  }
}
