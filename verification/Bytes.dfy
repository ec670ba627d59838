/** Bytes, machine integers and the few sequence facts that the byte-stream modules share. */
module Bytes {
  type Byte = b: int | 0 <= b < 0x100
  const NUL: Byte := 0

  type Int32 = i: int | -0x8000_0000 <= i < 0x8000_0000
  type UInt32 = u: int | 0 <= u < 0x1_0000_0000

  /** The concatenation of a list of chunks, in order. */
  function Flatten<T>(chunks: seq<seq<T>>): seq<T> {
    if chunks == [] then [] else chunks[0] + Flatten(chunks[1..])
  }

  lemma {:induction false} FlattenConcat<T>(a: seq<seq<T>>, b: seq<seq<T>>)
    ensures Flatten(a + b) == Flatten(a) + Flatten(b)
  {
    if a == [] {
      assert a + b == b;
    } else {
      assert (a + b)[1..] == a[1..] + b;
      FlattenConcat(a[1..], b);
    }
  }

  lemma FlattenAppend<T>(a: seq<seq<T>>, s: seq<T>)
    ensures Flatten(a + [s]) == Flatten(a) + s
  {
    FlattenConcat(a, [s]);
    assert Flatten([s]) == s + Flatten([]);
  }

  lemma Assoc<T>(x: seq<T>, y: seq<T>, z: seq<T>)
    ensures x + (y + z) == (x + y) + z
  {
  }

  lemma SamePrefix<T>(p: seq<T>, x: seq<T>, y: seq<T>)
    ensures p + x == p + y <==> x == y
  {
    assert (p + x)[|p|..] == x && (p + y)[|p|..] == y;
  }

  /** The four bytes of an `int` as a little-endian machine stores it. */
  function LittleEndian(i: Int32): (bs: seq<Byte>)
    ensures |bs| == 4
  {
    var u := if i < 0 then i + 0x1_0000_0000 else i;
    [u % 0x100, u / 0x100 % 0x100, u / 0x1_0000 % 0x100, u / 0x100_0000]
  }

  function FromLittleEndian(bs: seq<Byte>): Int32
    requires |bs| == 4
  {
    var b0: int, b1: int, b2: int, b3: int := bs[0], bs[1], bs[2], bs[3];
    var u := b0 + b1 * 0x100 + b2 * 0x1_0000 + b3 * 0x100_0000;
    if u >= 0x8000_0000 then u - 0x1_0000_0000 else u
  }

  lemma LittleEndianRoundTrip(i: Int32)
    ensures FromLittleEndian(LittleEndian(i)) == i
  {
    var u := if i < 0 then i + 0x1_0000_0000 else i;
    assert u % 0x100 + u / 0x100 * 0x100 == u;
    assert u / 0x100 % 0x100 + u / 0x1_0000 * 0x100 == u / 0x100;
    assert u / 0x1_0000 % 0x100 + u / 0x100_0000 * 0x100 == u / 0x1_0000;
  }
}
