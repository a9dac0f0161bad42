/** Bytes and 32-bit words as the hash code handles them: C's unsigned arithmetic wraps, so words are
    bit-vectors, and a word in memory depends on the byte order of the host. */
module Words {
  type Byte = b: int | 0 <= b < 256
  type Word = bv32

  /** Rotate left, as the `rol` macro and MD5STEP write it. */
  function Rol(w: Word, n: Word): Word
    requires 0 < n < 32
  {
    (w << n) | (w >> (32 - n))
  }

  /** The word whose most significant byte is `b0`. */
  function Pack(b0: bv8, b1: bv8, b2: bv8, b3: bv8): Word {
    (b0 as Word << 24) | (b1 as Word << 16) | (b2 as Word << 8) | (b3 as Word)
  }

  /** A byte kept as a number, as a bit-vector. */
  function Bits(b: Byte): bv8 {
    b as bv8
  }

  /** Word number `i` of `s`, most significant byte first. */
  function BigWord(s: seq<Byte>, i: nat): Word
    requires 4 * i + 4 <= |s|
  {
    Pack(Bits(s[4 * i]), Bits(s[4 * i + 1]), Bits(s[4 * i + 2]), Bits(s[4 * i + 3]))
  }

  /** Word number `i` of `s`, least significant byte first. */
  function LittleWord(s: seq<Byte>, i: nat): Word
    requires 4 * i + 4 <= |s|
  {
    Pack(Bits(s[4 * i + 3]), Bits(s[4 * i + 2]), Bits(s[4 * i + 1]), Bits(s[4 * i]))
  }

  /** Byte `k` of a word, the most significant one first. */
  function ByteOfWord(w: Word, k: nat): Byte
    requires k < 4
  {
    ((if k == 0 then w >> 24 else if k == 1 then w >> 16 else if k == 2 then w >> 8 else w) & 255) as int
  }

  lemma ShiftsAdd(b0: bv8, b1: bv8, b2: bv8, b3: bv8, w: Word)
    requires w == (b0 as bv32 << 24) | (b1 as bv32 << 16) | (b2 as bv32 << 8) | (b3 as bv32)
    ensures w as int == 0x100_0000 * (b0 as int) + 0x1_0000 * (b1 as int) + 0x100 * (b2 as int) + b3 as int
  {
  }

  lemma PackIs(b0: bv8, b1: bv8, b2: bv8, b3: bv8)
    ensures Pack(b0, b1, b2, b3) as int
         == 0x100_0000 * (b0 as int) + 0x1_0000 * (b1 as int) + 0x100 * (b2 as int) + b3 as int
  {
    ShiftsAdd(b0, b1, b2, b3, Pack(b0, b1, b2, b3));
  }

  lemma {:induction false} BitsOf(b: Byte) returns (v: bv8)
    ensures v as int == b
    decreases b
  {
    if b == 0 {
      v := 0;
    } else {
      v := BitsOf(b - 1);
      NextBits(v);
      v := v + 1;
    }
  }

  lemma NextBits(v: bv8)
    requires v as int < 255
    ensures (v + 1) as int == v as int + 1
  {
    assert v < 255;
  }

  lemma BackToBits(v: bv8)
    ensures (v as int) as bv8 == v
  {
  }

  lemma BitsAre(b: Byte)
    ensures Bits(b) as int == b
  {
    var v := BitsOf(b);
    BackToBits(v);
  }

  /** The two ways to read a word. */
  lemma BigWordReads(s: seq<Byte>, i: nat)
    requires 4 * i + 4 <= |s|
    ensures BigWord(s, i) as int
         == 0x100_0000 * (s[4 * i] as int) + 0x1_0000 * (s[4 * i + 1] as int) + 0x100 * (s[4 * i + 2] as int)
            + s[4 * i + 3] as int
  {
    hide Pack, Bits;
    BitsAre(s[4 * i]);
    BitsAre(s[4 * i + 1]);
    BitsAre(s[4 * i + 2]);
    BitsAre(s[4 * i + 3]);
    PackIs(Bits(s[4 * i]), Bits(s[4 * i + 1]), Bits(s[4 * i + 2]), Bits(s[4 * i + 3]));
  }

  lemma LittleWordReads(s: seq<Byte>, i: nat)
    requires 4 * i + 4 <= |s|
    ensures LittleWord(s, i) as int
         == s[4 * i] as int + 0x100 * (s[4 * i + 1] as int) + 0x1_0000 * (s[4 * i + 2] as int)
            + 0x100_0000 * (s[4 * i + 3] as int)
  {
    hide Pack, Bits;
    BitsAre(s[4 * i]);
    BitsAre(s[4 * i + 1]);
    BitsAre(s[4 * i + 2]);
    BitsAre(s[4 * i + 3]);
    PackIs(Bits(s[4 * i + 3]), Bits(s[4 * i + 2]), Bits(s[4 * i + 1]), Bits(s[4 * i]));
  }

  /** The four bytes of a word are its base-256 digits, the most significant one first. */
  lemma WordOfBytes(w: Word)
    ensures w as int
         == 0x100_0000 * (ByteOfWord(w, 0) as int) + 0x1_0000 * (ByteOfWord(w, 1) as int)
            + 0x100 * (ByteOfWord(w, 2) as int) + ByteOfWord(w, 3) as int
  {
    var b0, b1, b2, b3 := Unpack(w);
    BytesBack(b0, b1, b2, b3);
    hide Pack, ByteOfWord;
    PackIs(b0, b1, b2, b3);
  }

  lemma Unpack(w: Word) returns (b0: bv8, b1: bv8, b2: bv8, b3: bv8)
    ensures w == Pack(b0, b1, b2, b3)
  {
    b0, b1, b2, b3 := ((w >> 24) & 255) as bv8, ((w >> 16) & 255) as bv8, ((w >> 8) & 255) as bv8, (w & 255) as bv8;
  }

  lemma BytesBack(b0: bv8, b1: bv8, b2: bv8, b3: bv8)
    ensures var w := Pack(b0, b1, b2, b3);
            && ByteOfWord(w, 0) == b0 as int && ByteOfWord(w, 1) == b1 as int
            && ByteOfWord(w, 2) == b2 as int && ByteOfWord(w, 3) == b3 as int
  {
  }

  /** The value a host reads when it looks at the same memory as a `uint32_t`. */
  function NativeWord(bigEndian: bool, s: seq<Byte>, i: nat): Word
    requires 4 * i + 4 <= |s|
  {
    if bigEndian then BigWord(s, i) else LittleWord(s, i)
  }

  /** Byte `k` of a 32-bit number, the most significant one first. */
  function ByteOf(n: nat, k: nat): Byte
    requires k < 4
  {
    (if k == 0 then n / 0x100_0000 else if k == 1 then n / 0x1_0000 else if k == 2 then n / 0x100 else n) % 256
  }

  /** They are its base-256 digits. */
  lemma NumberOfBytes(n: nat)
    requires n < 0x1_0000_0000
    ensures n == 0x100_0000 * (ByteOf(n, 0) as int) + 0x1_0000 * (ByteOf(n, 1) as int) + 0x100 * (ByteOf(n, 2) as int)
                 + ByteOf(n, 3) as int
  {
    InSteps(n);
    var q := n / 0x100;
    var p := q / 0x100;
    assert n == 0x100 * q + n % 256 && q == 0x100 * p + q % 256 && p == 0x100 * (p / 0x100) + p % 256;
    assert p / 0x100 < 256;
  }

  lemma InSteps(n: nat)
    ensures n / 0x1_0000 == n / 0x100 / 0x100 && n / 0x100_0000 == n / 0x100 / 0x100 / 0x100
  {
    var q := n / 0x100;
    var p := q / 0x100;
    assert n == 0x1_0000 * p + (0x100 * (q % 0x100) + n % 0x100);
    assert n == 0x100_0000 * (p / 0x100) + (0x1_0000 * (p % 0x100) + 0x100 * (q % 0x100) + n % 0x100);
  }

  lemma EightBehind(front: seq<Byte>, a: seq<Byte>, b: seq<Byte>)
    requires |a| == |b| == 4
    ensures var p, n := front + a + b, |front|;
            && |p| == n + 8 && p[..n] == front
            && p[n] == a[0] && p[n + 1] == a[1] && p[n + 2] == a[2] && p[n + 3] == a[3]
            && p[n + 4] == b[0] && p[n + 5] == b[1] && p[n + 6] == b[2] && p[n + 7] == b[3]
  {
  }

  const WordSize := 0x1_0000_0000

  /** The high and the low word are a count modulo 2^64. */
  lemma TwoWords(bits: nat)
    ensures HighWord(bits) * 0x1_0000_0000 + LowWord(bits) == bits % 0x1_0000_0000_0000_0000
    ensures HighWord(bits) < 0x1_0000_0000 && LowWord(bits) < 0x1_0000_0000
  {
    var q, r := bits / WordSize, bits % WordSize;
    Remainder(bits, q / WordSize, q % WordSize * WordSize + r);
  }

  lemma Remainder(n: nat, q: nat, r: nat)
    requires n == 0x1_0000_0000_0000_0000 * q + r && r < 0x1_0000_0000_0000_0000
    ensures n % 0x1_0000_0000_0000_0000 == r
  {
  }

  /** A bit count modulo 2^64 as its high and low 32-bit words. */
  function HighWord(bits: nat): nat { bits / WordSize % WordSize }
  function LowWord(bits: nat): nat { bits % WordSize }

  /** A list of chunks put together. */
  function Concat(chunks: seq<seq<Byte>>): seq<Byte> {
    if chunks == [] then [] else Concat(chunks[..|chunks| - 1]) + chunks[|chunks| - 1]
  }

  lemma ConcatNext(chunks: seq<seq<Byte>>, i: nat)
    requires i < |chunks|
    ensures Concat(chunks[..i + 1]) == Concat(chunks[..i]) + chunks[i]
  {
    assert chunks[..i + 1][..i] == chunks[..i];
  }
}
