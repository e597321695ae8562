/** Fixed-width integers of the C and C++ sources, their conversions, and the
    little-endian byte layout both machines use. */
module Words {
  type byte = x: int | 0 <= x < 0x100
  type uint32 = x: int | 0 <= x < 0x1_0000_0000
  type int32 = x: int | -0x8000_0000 <= x < 0x8000_0000

  const INT_MAX: int := 0x7FFF_FFFF

  /** Keeps the low 32 bits of a value and reads them as two's complement: the
      conversion to `int`, and the outcome of overflowing `int` arithmetic. */
  function Int32(x: int): (r: int32)
    ensures (r - x) % 0x1_0000_0000 == 0
    ensures -0x8000_0000 <= x < 0x8000_0000 ==> r == x
  {
    var low := x % 0x1_0000_0000;
    if low < 0x8000_0000 then low else low - 0x1_0000_0000
  }

  function Uint32(x: int): (r: uint32)
    ensures (r - x) % 0x1_0000_0000 == 0
    ensures 0 <= x < 0x1_0000_0000 ==> r == x
  {
    x % 0x1_0000_0000
  }

  /** C and C++ integer division: truncates toward zero. */
  function TruncatedDiv(x: int, y: int): int
    requires y > 0
  {
    if x >= 0 then x / y else -(-x / y)
  }

  /** Wrapping a `uint32_t` into `int` and back loses nothing, in either order. */
  lemma WrapRoundTrip(u: uint32, i: int32)
    ensures Uint32(Int32(u)) == u
    ensures Int32(Uint32(i)) == i
  {
  }

  /** The difference of two wrapped words is the true one exactly if that fits an `int`, whatever the words. */
  lemma WrappedDifference(start: uint32, stop: uint32)
    requires start <= stop
    ensures Int32(Int32(stop) - Int32(start)) == stop - start <==> stop - start <= INT_MAX
  {
  }

  lemma WrapsOnce(x: int, y: int)
    ensures Uint32(Uint32(x) + y) == Uint32(x + y)
  {
  }

  /** The four bytes of a word, least significant first. */
  function Bytes(w: uint32): (b: seq<byte>)
    ensures |b| == 4
  {
    [w % 0x100, w / 0x100 % 0x100, w / 0x1_0000 % 0x100, w / 0x100_0000]
  }

  function Word(b: seq<byte>): uint32
    requires |b| == 4
  {
    var b0: int, b1: int, b2: int, b3: int := b[0], b[1], b[2], b[3];
    b0 + 0x100 * b1 + 0x1_0000 * b2 + 0x100_0000 * b3
  }

  lemma WordOfBytes(w: uint32)
    ensures Word(Bytes(w)) == w
  {
    assert w / 0x1_0000 == w / 0x100 / 0x100;
    assert w / 0x100_0000 == w / 0x1_0000 / 0x100;
  }

  lemma BytesOfWord(b: seq<byte>)
    requires |b| == 4
    ensures Bytes(Word(b)) == b
  {
    var w := Word(b);
    var b1: int, b2: int, b3: int := b[1], b[2], b[3];
    assert w / 0x100 == b1 + 0x100 * b2 + 0x1_0000 * b3;
    assert w / 0x1_0000 == b2 + 0x100 * b3;
    assert w / 0x100_0000 == b3;
  }
}
