// 32-bit words of the i386 layout and sums over sequences.
module Words {
  const WORD_MODULUS := 0x1_0000_0000

  type Word = w: int | 0 <= w < WORD_MODULUS

  type Byte = b: int | 0 <= b < 256

  /** What a C `int` holds after being assigned the mathematical value `x`. */
  function Int32(x: int): (r: int)
    ensures -0x8000_0000 <= r < 0x8000_0000
    ensures -0x8000_0000 <= x < 0x8000_0000 ==> r == x
  {
    (x + 0x8000_0000) % WORD_MODULUS - 0x8000_0000
  }

  /** What a C `uint32_t` or `size_t` holds after being assigned `x`. */
  function Uint32(x: int): (r: Word)
  {
    x % WORD_MODULUS
  }

  lemma ModCongruent(a: int, b: int, k: int)
    requires a == b + k * WORD_MODULUS
    ensures a % WORD_MODULUS == b % WORD_MODULUS
  {
  }

  lemma Int32Absorbs(x: int, y: int)
    ensures Int32(Int32(x) + y) == Int32(x + y)
  {
    var k := (Int32(x) - x) / WORD_MODULUS;
    ModCongruent(Int32(x) + y + 0x8000_0000, x + y + 0x8000_0000, k);
  }

  lemma Int32Wraps(x: int) returns (k: int)
    ensures Int32(x) == x + k * WORD_MODULUS
  {
    k := -((x + 0x8000_0000) / WORD_MODULUS);
  }

  lemma Uint32Absorbs(x: int, y: int)
    ensures Uint32(Uint32(x) + y) == Uint32(x + y)
    ensures Uint32(x + Int32(y)) == Uint32(x + y)
  {
    ModCongruent(Uint32(x) + y, x + y, (Uint32(x) - x) / WORD_MODULUS);
    ModCongruent(x + Int32(y), x + y, (Int32(y) - y) / WORD_MODULUS);
  }

  /** Arithmetic in 32 bits is exact whenever the mathematical result fits. */
  lemma Int32Exact(x: int)
    ensures Int32(x) == x <==> -0x8000_0000 <= x < 0x8000_0000
  {
  }

  /** The bytes of a word in memory order. */
  function WordBytes(w: Word): (r: seq<Byte>)
    ensures |r| == 4
  {
    [w % 256, w / 256 % 256, w / 65536 % 256, w / 16777216]
  }

  function BytesWord(b: seq<Byte>): (w: Word)
    requires |b| == 4
  {
    b[0] as int + 256 * b[1] as int + 65536 * b[2] as int + 16777216 * b[3] as int
  }

  lemma WordRoundTrip(w: Word)
    ensures BytesWord(WordBytes(w)) == w
    ensures var b := WordBytes(w); w == b[0] as int + 256 * b[1] as int + 65536 * b[2] as int + 16777216 * b[3] as int
  {
    var q := w / 256;
    var r := q / 256;
    assert w == 256 * q + w % 256 && q == 256 * r + q % 256 && r == 256 * (r / 256) + r % 256;
    assert w / 65536 == r && w / 16777216 == r / 256;
  }
}
