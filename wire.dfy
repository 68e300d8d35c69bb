/** Byte-level vocabulary of the pigpio socket protocol: bytes, 16- and 32-bit
    unsigned words in the little-endian layout that `struct.pack('I', ...)` and
    `struct.unpack('HHII', ...)` produce on the daemon's (little-endian) hosts,
    and the reinterpretation of an unsigned 32-bit word as a two's-complement
    value (`u2i`). */
module Wire {

  type byte = x: int | 0 <= x < 0x100
  type u16 = x: int | 0 <= x < 0x1_0000
  type u32 = x: int | 0 <= x < 0x1_0000_0000
  type i32 = x: int | -0x8000_0000 <= x < 0x8000_0000

  const TWO_32: int := 0x1_0000_0000

  /** The four bytes of `struct.pack('I', x)`, least significant first. */
  function Word(x: u32): (b: seq<byte>)
    ensures |b| == 4
  {
    [x % 0x100, x / 0x100 % 0x100, x / 0x1_0000 % 0x100, x / 0x100_0000]
  }

  /** The unsigned 32-bit word stored at b[i..i+4]. */
  function WordAt(b: seq<byte>, i: nat): (x: u32)
    requires i + 4 <= |b|
  {
    var b0, b1, b2, b3: int := b[i], b[i + 1], b[i + 2], b[i + 3];
    b0 + 0x100 * b1 + 0x1_0000 * b2 + 0x100_0000 * b3
  }

  /** The unsigned 16-bit half-word stored at b[i..i+2]. */
  function HalfAt(b: seq<byte>, i: nat): (x: u16)
    requires i + 2 <= |b|
  {
    var b0, b1: int := b[i], b[i + 1];
    b0 + 0x100 * b1
  }

  /** The two bytes of `struct.pack('H', x)`, least significant first. */
  function Half(x: u16): (b: seq<byte>)
    ensures |b| == 2
  {
    [x % 0x100, x / 0x100]
  }

  /** Reading back a packed half-word gives the half-word. */
  lemma HalfRoundTrip(x: u16)
    ensures HalfAt(Half(x), 0) == x
  {
  }

  /** Reading back a packed word gives the word. */
  lemma WordRoundTrip(x: u32)
    ensures WordAt(Word(x), 0) == x
  {
    var b := Word(x);
    assert x == x % 0x100 + 0x100 * (x / 0x100);
    assert x / 0x100 == x / 0x100 % 0x100 + 0x100 * (x / 0x1_0000);
    assert x / 0x1_0000 == x / 0x1_0000 % 0x100 + 0x100 * (x / 0x100_0000);
  }

  /** Packing the word read at i reproduces those four bytes: every 4-byte
      group is the encoding of exactly one word. */
  lemma WordAtRoundTrip(b: seq<byte>, i: nat)
    requires i + 4 <= |b|
    ensures Word(WordAt(b, i)) == b[i..i + 4]
  {
    var x := WordAt(b, i);
    var b1, b2, b3: int := b[i + 1], b[i + 2], b[i + 3];
    assert x / 0x100 == b1 + 0x100 * b2 + 0x1_0000 * b3;
    assert x / 0x1_0000 == b2 + 0x100 * b3;
    assert x / 0x100_0000 == b3;
  }

  /** Packing is injective. */
  lemma WordInjective(x: u32, y: u32)
    requires Word(x) == Word(y)
    ensures x == y
  {
    WordRoundTrip(x);
    WordRoundTrip(y);
  }

  /** `b''.join(struct.pack('I', w) for w in ws)`. */
  function Words(ws: seq<u32>): (b: seq<byte>)
    ensures |b| == 4 * |ws|
  {
    if ws == [] then [] else Words(ws[..|ws| - 1]) + Word(ws[|ws| - 1])
  }

  /** The k-th word of a packed sequence is found at byte offset 4k. */
  lemma {:induction false} WordsAt(ws: seq<u32>, k: nat)
    requires k < |ws|
    ensures WordAt(Words(ws), 4 * k) == ws[k]
  {
    var init := ws[..|ws| - 1];
    if k == |ws| - 1 {
      assert Words(ws)[4 * k..4 * k + 4] == Word(ws[k]);
      WordRoundTrip(ws[k]);
    } else {
      WordsAt(init, k);
      assert Words(ws)[4 * k..4 * k + 4] == Words(init)[4 * k..4 * k + 4];
    }
  }

  /** The packing of a concatenation is the concatenation of the packings. */
  lemma {:induction false} WordsAppend(a: seq<u32>, b: seq<u32>)
    ensures Words(a + b) == Words(a) + Words(b)
  {
    if b == [] {
      assert a + b == a;
    } else {
      var init := b[..|b| - 1];
      assert (a + b)[..|a + b| - 1] == a + init;
      WordsAppend(a, init);
    }
  }

  /** `u2i`: the two's-complement reading of an unsigned 32-bit word. The
      source computes `uint32 | ~mask` when bit 31 is set; for a word below
      2^32 that OR with -2^32 is the same as subtracting 2^32. */
  function U2i(x: u32): (v: i32)
    ensures (v - x) % TWO_32 == 0
    ensures 0 <= v <==> x < 0x8000_0000
  {
    if x >= 0x8000_0000 then x - TWO_32 else x
  }

  /** The unsigned word that carries the signed value v (what the daemon puts
      on the wire for a negative result). */
  function I2u(v: i32): (x: u32)
    ensures (x - v) % TWO_32 == 0
  {
    if v < 0 then v + TWO_32 else v
  }

  /** A signed 32-bit value congruent to x modulo 2^32 is unique, so the two
      ensures of U2i pin its value down. */
  lemma U2iUnique(x: u32, v: i32)
    requires (v - x) % TWO_32 == 0
    ensures v == U2i(x)
  {
    var d := v - x;
    assert -2 * TWO_32 < d < TWO_32;
  }

  /** U2i and I2u are inverse bijections between u32 and i32. */
  lemma U2iI2u(v: i32, x: u32)
    ensures U2i(I2u(v)) == v
    ensures I2u(U2i(x)) == x
  {
  }

  /** The examples of the `u2i` documentation. */
  lemma U2iExamples()
    ensures U2i(4294967272) == -24
    ensures U2i(37) == 37
  {
  }
}
