/** An option type, 32-bit unsigned values, bytes, and little-endian words in byte memory. */
module Machine {

  datatype Option<T> = None | Some(value: T)

  const TWO32 := 0x1_0000_0000

  type u32 = x: int | 0 <= x < 0x1_0000_0000
  type byte = x: int | 0 <= x < 256

  /** Unsigned 32-bit arithmetic: a result outside the range is moved into it by multiples of 2^32. */
  function Wrap(x: int): (r: u32)
    ensures 0 <= x < TWO32 ==> r == x
    decreases if x < 0 then TWO32 - x else x
  {
    if x < 0 then Wrap(x + TWO32) else if x >= TWO32 then Wrap(x - TWO32) else x
  }

  lemma {:induction false} WrapIsRemainder(x: int)
    ensures Wrap(x) == x % TWO32
    decreases if x < 0 then TWO32 - x else x
  {
    if x < 0 {
      SameRemainder(x);
      WrapIsRemainder(x + TWO32);
    } else if x >= TWO32 {
      SameRemainder(x - TWO32);
      WrapIsRemainder(x - TWO32);
    }
  }

  lemma SameRemainder(x: int)
    ensures (x + TWO32) % TWO32 == x % TWO32
  {
    var q := x / TWO32;
    assert x + TWO32 == (q + 1) * TWO32 + x % TWO32;
  }

  /** The four bytes of a word, least significant first. */
  function Bytes4(v: u32): (b: seq<byte>)
    ensures |b| == 4
  {
    [v % 256, v / 256 % 256, v / 65536 % 256, v / 16777216]
  }

  /** The number written by these bytes, least significant first. */
  function Value(bs: seq<byte>): nat {
    if bs == [] then 0 else bs[0] + 256 * Value(bs[1..])
  }

  function Word4(b0: byte, b1: byte, b2: byte, b3: byte): u32 {
    WordSum(b0, b1, b2, b3);
    Value([b0, b1, b2, b3])
  }

  lemma WordSum(b0: byte, b1: byte, b2: byte, b3: byte)
    ensures Value([b0, b1, b2, b3]) == b0 + 256 * b1 + 65536 * b2 + 16777216 * b3
  {
    assert [b3][1..] == [] && [b2, b3][1..] == [b3];
    assert [b1, b2, b3][1..] == [b2, b3] && [b0, b1, b2, b3][1..] == [b1, b2, b3];
    assert Value([b3]) == b3;
    assert Value([b2, b3]) == b2 + 256 * b3;
    assert Value([b1, b2, b3]) == b1 + 256 * b2 + 65536 * b3;
  }

  lemma WordOfBytes(v: u32)
    ensures var b := Bytes4(v); Word4(b[0], b[1], b[2], b[3]) == v
  {
    var b := Bytes4(v);
    WordSum(b[0], b[1], b[2], b[3]);
    var x, y := v / 256, v / 65536;
    assert x / 256 == y && y / 256 == v / 16777216;
    assert v == 256 * x + v % 256 && x == 256 * y + x % 256 && y == 256 * (y / 256) + y % 256;
  }

  /** Byte-addressed memory; a byte that was never written reads as 0. */
  type Memory = map<int, byte>

  function Peek(m: Memory, a: int): byte {
    if a in m then m[a] else 0
  }

  function Load32(m: Memory, a: int): u32 {
    Word4(Peek(m, a), Peek(m, a + 1), Peek(m, a + 2), Peek(m, a + 3))
  }

  function Store32(m: Memory, a: int, v: u32): (m': Memory)
    ensures forall x :: !(a <= x < a + 4) ==> Peek(m', x) == Peek(m, x)
  {
    var b := Bytes4(v);
    m[a := b[0]][a + 1 := b[1]][a + 2 := b[2]][a + 3 := b[3]]
  }

  lemma LoadStored(m: Memory, a: int, v: u32)
    ensures Load32(Store32(m, a, v), a) == v
  {
    WordOfBytes(v);
  }

  lemma LoadElsewhere(m: Memory, m': Memory, a: int)
    requires forall x :: a <= x < a + 4 ==> Peek(m', x) == Peek(m, x)
    ensures Load32(m', a) == Load32(m, a)
  {
  }
}
