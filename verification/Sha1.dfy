/** SHA-1 as FIPS 180-4 defines it: an 80-word schedule, the round function of section 6.1.2 and a fold of the
    compression function over the padded message. */
module Sha1Spec {
  import opened Words
  import opened BlockHash

  datatype State = State(a: Word, b: Word, c: Word, d: Word, e: Word)

  const Initial := State(0x67452301, 0xEFCDAB89, 0x98BADCFE, 0x10325476, 0xC3D2E1F0)

  function Ch(x: Word, y: Word, z: Word): Word { (x & y) ^ (!x & z) }
  function Parity(x: Word, y: Word, z: Word): Word { x ^ y ^ z }
  function Maj(x: Word, y: Word, z: Word): Word { (x & y) ^ (x & z) ^ (y & z) }

  function F(t: nat, x: Word, y: Word, z: Word): Word {
    if t < 20 then Ch(x, y, z) else if t < 40 then Parity(x, y, z) else if t < 60 then Maj(x, y, z) else Parity(x, y, z)
  }

  function K(t: nat): Word {
    if t < 20 then 0x5A827999 else if t < 40 then 0x6ED9EBA1 else if t < 60 then 0x8F1BBCDC else 0xCA62C1D6
  }

  /** Word `t` of the message schedule. */
  function W(block: seq<Byte>, t: nat): Word
    requires |block| == 64
  {
    if t < 16 then BigWord(block, t)
    else Rol(W(block, t - 3) ^ W(block, t - 8) ^ W(block, t - 14) ^ W(block, t - 16), 1)
  }

  function T(a: Word, f: Word, e: Word, k: Word, w: Word): Word {
    Rol(a, 5) + f + e + k + w
  }

  function Round(s: State, t: nat, w: Word): State {
    State(T(s.a, F(t, s.b, s.c, s.d), s.e, K(t), w), s.a, Rol(s.b, 30), s.c, s.d)
  }

  function Rounds(h: State, block: seq<Byte>, t: nat): State
    requires |block| == 64
  {
    if t == 0 then h else Round(Rounds(h, block, t - 1), t - 1, W(block, t - 1))
  }

  function Add(h: State, s: State): State {
    State(h.a + s.a, h.b + s.b, h.c + s.c, h.d + s.d, h.e + s.e)
  }

  function Compress(h: State, block: Block): State {
    Add(h, Rounds(h, block, 80))
  }

  function BigBytes(n: nat): seq<Byte> {
    seq(4, k requires 0 <= k < 4 => ByteOf(n, k))
  }

  /** Section 5.1.1: a one bit, then zeros up to 448 mod 512 bits, then the bit count in 64 bits, high word first. */
  function Pad(m: seq<Byte>): (p: seq<Byte>)
    ensures |p| % 64 == 0
  {
    m + [0x80] + seq(Zeros(|m|), _ => 0) + BigBytes(HighWord(8 * |m|)) + BigBytes(LowWord(8 * |m|))
  }

  /** The last eight bytes of the padded message, read most significant first, are the number of bits modulo 2^64. */
  lemma LengthAtEnd(m: seq<Byte>)
    ensures var p := Pad(m);
            var n := |p| - 8;
            && |m| + 1 <= n < |m| + 65 && |p| % 64 == 0
            && p[..|m|] == m && p[|m|] == 0x80 && (forall i :: |m| < i < n ==> p[i] == 0)
            && (0x100_0000 * (p[n] as int) + 0x1_0000 * (p[n + 1] as int) + 0x100 * (p[n + 2] as int) + p[n + 3] as int)
               * 0x1_0000_0000
               + 0x100_0000 * (p[n + 4] as int) + 0x1_0000 * (p[n + 5] as int) + 0x100 * (p[n + 6] as int)
               + p[n + 7] as int
               == 8 * |m| % 0x1_0000_0000_0000_0000
  {
    var high, low := HighWord(8 * |m|), LowWord(8 * |m|);
    TwoWords(8 * |m|);
    NumberOfBytes(high);
    NumberOfBytes(low);
    var front := m + [0x80] + seq(Zeros(|m|), _ => 0);
    EightBehind(front, BigBytes(high), BigBytes(low));
    hide HighWord, LowWord, ByteOf, Zeros;
    assert Pad(m) == front + BigBytes(high) + BigBytes(low);
  }

  function Bytes(w: Word): seq<Byte> {
    seq(4, k requires 0 <= k < 4 => ByteOfWord(w, k))
  }

  function Digest(s: State): (d: seq<Byte>)
    ensures |d| == 20
  {
    Bytes(s.a) + Bytes(s.b) + Bytes(s.c) + Bytes(s.d) + Bytes(s.e)
  }

  function Hash(m: seq<Byte>): seq<Byte> {
    Digest(Fold(Compress, Initial, Pad(m)))
  }
}

/** The incremental SHA-1 of istb_mongoose.c. */
module Sha1 {
  import opened Words
  import opened BlockHash
  import opened Sha1Spec

  // The rewritten boolean functions of the macros R0..R4.

  lemma ChooseForm(w: Word, x: Word, y: Word)
    ensures (w & (x ^ y)) ^ y == Ch(w, x, y)
  {
  }

  lemma MajorityForm(w: Word, x: Word, y: Word)
    ensures ((w | x) & y) | (w & x) == Maj(w, x, y)
  {
  }

  /** blk0's two rotations under byte masks turn a little-endian load into a big-endian one. */
  function Swap(v: Word): Word {
    (Rol(v, 24) & 0xFF00FF00) | (Rol(v, 8) & 0x00FF00FF)
  }

  lemma SwapPacks(b0: bv8, b1: bv8, b2: bv8, b3: bv8)
    ensures Swap(Pack(b3, b2, b1, b0)) == Pack(b0, b1, b2, b3)
  {
  }

  /** Words `t - 16 .. t` of the schedule, each in slot `index & 15`; before round 16 the slots from `t` on still
      hold the words as the host loaded them. */
  ghost predicate Window(bigEndian: bool, l: seq<Word>, block: seq<Byte>, t: nat) {
    && |l| == 16 && |block| == 64
    && (forall j: nat :: t <= j < 16 ==> l[j] == NativeWord(bigEndian, block, j))
    && (forall j: nat :: t - 16 <= j < t ==> l[j % 16] == W(block, j))
  }

  lemma LoadWord(bigEndian: bool, block: seq<Byte>, i: nat)
    requires 4 * i + 4 <= |block|
    ensures (if bigEndian then NativeWord(bigEndian, block, i) else Swap(NativeWord(bigEndian, block, i)))
            == BigWord(block, i)
  {
    hide Pack, Swap;
    if !bigEndian {
      SwapPacks(Bits(block[4 * i]), Bits(block[4 * i + 1]), Bits(block[4 * i + 2]), Bits(block[4 * i + 3]));
    }
  }

  method Blk0(bigEndian: bool, l: array<Word>, i: nat, ghost block: seq<Byte>) returns (w: Word)
    requires i < 16 && Window(bigEndian, l[..], block, i)
    modifies l
    ensures w == W(block, i) && Window(bigEndian, l[..], block, i + 1)
  {
    hide NativeWord, BigWord, Swap;
    LoadWord(bigEndian, block, i);
    if !bigEndian {
      l[i] := Swap(l[i]);
    }
    w := l[i];
  }

  method Blk(bigEndian: bool, l: array<Word>, i: nat, ghost block: seq<Byte>) returns (w: Word)
    requires 16 <= i && Window(bigEndian, l[..], block, i)
    modifies l
    ensures w == W(block, i) && Window(bigEndian, l[..], block, i + 1)
  {
    hide Rol, BigWord;
    assert (i + 13) % 16 == (i - 3) % 16 && (i + 8) % 16 == (i - 8) % 16;
    assert (i + 2) % 16 == (i - 14) % 16 && i % 16 == (i - 16) % 16;
    w := Rol(l[(i + 13) % 16] ^ l[(i + 8) % 16] ^ l[(i + 2) % 16] ^ l[i % 16], 1);
    assert w == W(block, i);
    hide W;
    l[i % 16] := w;
    OtherSlots(i);
  }

  /** Sixteen words in a row have different slots. */
  lemma OtherSlots(i: nat)
    ensures forall j: nat :: i - 15 <= j < i ==> j % 16 != i % 16
  {
  }

  /** The macros' choice and majority functions, and their sum. */
  function Choice(w: Word, x: Word, y: Word): Word { (w & (x ^ y)) ^ y }
  function Majority(w: Word, x: Word, y: Word): Word { ((w | x) & y) | (w & x) }
  function Added(z: Word, f: Word, b: Word, k: Word, v: Word): Word { z + (f + b + k + Rol(v, 5)) }

  lemma FormIsF(i: nat, w: Word, x: Word, y: Word)
    ensures F(i, w, x, y) ==
              if i < 20 then Choice(w, x, y) else if 40 <= i < 60 then Majority(w, x, y) else Parity(w, x, y)
  {
    ChooseForm(w, x, y);
    MajorityForm(w, x, y);
  }

  /** What a macro adds up, with the boolean function `f`, the schedule word `b` and the constant `k`, is a round. */
  lemma RoundOf(v: Word, w: Word, x: Word, y: Word, z: Word, i: nat, f: Word, b: Word, k: Word)
    requires f == F(i, w, x, y) && k == K(i)
    ensures State(Added(z, f, b, k, v), v, Rol(w, 30), x, y) == Round(State(v, w, x, y, z), i, b)
  {
    hide Rol, F, K;
    SumOrder(z, f, b, k, v);
  }

  lemma SumOrder(z: Word, f: Word, b: Word, k: Word, v: Word)
    ensures z + (f + b + k + Rol(v, 5)) == T(v, f, z, k, b)
  {
  }

  // The macros R0..R4. Each updates its last register and its second one, so the state after it reads off the registers
  // in rotated order.

  method R0(bigEndian: bool, l: array<Word>, v: Word, w: Word, x: Word, y: Word, z: Word, i: nat,
            ghost h: State, ghost block: seq<Byte>)
    returns (z': Word, w': Word)
    requires i < 16 && Window(bigEndian, l[..], block, i)
    requires State(v, w, x, y, z) == Rounds(h, block, i)
    modifies l
    ensures Window(bigEndian, l[..], block, i + 1)
    ensures State(z', v, w', x, y) == Rounds(h, block, i + 1)
  {
    var b := Blk0(bigEndian, l, i, block);
    FormIsF(i, w, x, y);
    hide Rol, F, T, Round, Window, Choice, Majority, Parity, Added;
    RoundOf(v, w, x, y, z, i, Choice(w, x, y), b, 0x5A827999);
    z' := Added(z, Choice(w, x, y), b, 0x5A827999, v);
    w' := Rol(w, 30);
  }

  method R1(bigEndian: bool, l: array<Word>, v: Word, w: Word, x: Word, y: Word, z: Word, i: nat,
            ghost h: State, ghost block: seq<Byte>)
    returns (z': Word, w': Word)
    requires 16 <= i < 20 && Window(bigEndian, l[..], block, i)
    requires State(v, w, x, y, z) == Rounds(h, block, i)
    modifies l
    ensures Window(bigEndian, l[..], block, i + 1)
    ensures State(z', v, w', x, y) == Rounds(h, block, i + 1)
  {
    var b := Blk(bigEndian, l, i, block);
    FormIsF(i, w, x, y);
    hide Rol, F, T, Round, Window, Choice, Majority, Parity, Added;
    RoundOf(v, w, x, y, z, i, Choice(w, x, y), b, 0x5A827999);
    z' := Added(z, Choice(w, x, y), b, 0x5A827999, v);
    w' := Rol(w, 30);
  }

  method R2(bigEndian: bool, l: array<Word>, v: Word, w: Word, x: Word, y: Word, z: Word, i: nat,
            ghost h: State, ghost block: seq<Byte>)
    returns (z': Word, w': Word)
    requires 20 <= i < 40 && Window(bigEndian, l[..], block, i)
    requires State(v, w, x, y, z) == Rounds(h, block, i)
    modifies l
    ensures Window(bigEndian, l[..], block, i + 1)
    ensures State(z', v, w', x, y) == Rounds(h, block, i + 1)
  {
    var b := Blk(bigEndian, l, i, block);
    FormIsF(i, w, x, y);
    hide Rol, F, T, Round, Window, Choice, Majority, Parity, Added;
    RoundOf(v, w, x, y, z, i, Parity(w, x, y), b, 0x6ED9EBA1);
    z' := Added(z, Parity(w, x, y), b, 0x6ED9EBA1, v);
    w' := Rol(w, 30);
  }

  method R3(bigEndian: bool, l: array<Word>, v: Word, w: Word, x: Word, y: Word, z: Word, i: nat,
            ghost h: State, ghost block: seq<Byte>)
    returns (z': Word, w': Word)
    requires 40 <= i < 60 && Window(bigEndian, l[..], block, i)
    requires State(v, w, x, y, z) == Rounds(h, block, i)
    modifies l
    ensures Window(bigEndian, l[..], block, i + 1)
    ensures State(z', v, w', x, y) == Rounds(h, block, i + 1)
  {
    var b := Blk(bigEndian, l, i, block);
    FormIsF(i, w, x, y);
    hide Rol, F, T, Round, Window, Choice, Majority, Parity, Added;
    RoundOf(v, w, x, y, z, i, Majority(w, x, y), b, 0x8F1BBCDC);
    z' := Added(z, Majority(w, x, y), b, 0x8F1BBCDC, v);
    w' := Rol(w, 30);
  }

  method R4(bigEndian: bool, l: array<Word>, v: Word, w: Word, x: Word, y: Word, z: Word, i: nat,
            ghost h: State, ghost block: seq<Byte>)
    returns (z': Word, w': Word)
    requires 60 <= i < 80 && Window(bigEndian, l[..], block, i)
    requires State(v, w, x, y, z) == Rounds(h, block, i)
    modifies l
    ensures Window(bigEndian, l[..], block, i + 1)
    ensures State(z', v, w', x, y) == Rounds(h, block, i + 1)
  {
    var b := Blk(bigEndian, l, i, block);
    FormIsF(i, w, x, y);
    hide Rol, F, T, Round, Window, Choice, Majority, Parity, Added;
    RoundOf(v, w, x, y, z, i, Parity(w, x, y), b, 0xCA62C1D6);
    z' := Added(z, Parity(w, x, y), b, 0xCA62C1D6, v);
    w' := Rol(w, 30);
  }

  function StateOf(s: seq<Word>): State
    requires |s| == 5
  {
    State(s[0], s[1], s[2], s[3], s[4])
  }

  // The 80 macro calls as the source writes them out, in eight parts.

  method Rounds0(bigEndian: bool, l: array<Word>, s: State, ghost h: State, ghost block: seq<Byte>)
    returns (r: State)
    requires Window(bigEndian, l[..], block, 0) && s == Rounds(h, block, 0)
    modifies l
    ensures Window(bigEndian, l[..], block, 10) && r == Rounds(h, block, 10)
  {
    hide Rounds, Window;
    var a, b, c, d, e := s.a, s.b, s.c, s.d, s.e;
    e, b := R0(bigEndian, l, a, b, c, d, e, 0, h, block);
    d, a := R0(bigEndian, l, e, a, b, c, d, 1, h, block);
    c, e := R0(bigEndian, l, d, e, a, b, c, 2, h, block);
    b, d := R0(bigEndian, l, c, d, e, a, b, 3, h, block);
    a, c := R0(bigEndian, l, b, c, d, e, a, 4, h, block);
    e, b := R0(bigEndian, l, a, b, c, d, e, 5, h, block);
    d, a := R0(bigEndian, l, e, a, b, c, d, 6, h, block);
    c, e := R0(bigEndian, l, d, e, a, b, c, 7, h, block);
    b, d := R0(bigEndian, l, c, d, e, a, b, 8, h, block);
    a, c := R0(bigEndian, l, b, c, d, e, a, 9, h, block);
    r := State(a, b, c, d, e);
  }

  method Rounds10(bigEndian: bool, l: array<Word>, s: State, ghost h: State, ghost block: seq<Byte>)
    returns (r: State)
    requires Window(bigEndian, l[..], block, 10) && s == Rounds(h, block, 10)
    modifies l
    ensures Window(bigEndian, l[..], block, 20) && r == Rounds(h, block, 20)
  {
    hide Rounds, Window;
    var a, b, c, d, e := s.a, s.b, s.c, s.d, s.e;
    e, b := R0(bigEndian, l, a, b, c, d, e, 10, h, block);
    d, a := R0(bigEndian, l, e, a, b, c, d, 11, h, block);
    c, e := R0(bigEndian, l, d, e, a, b, c, 12, h, block);
    b, d := R0(bigEndian, l, c, d, e, a, b, 13, h, block);
    a, c := R0(bigEndian, l, b, c, d, e, a, 14, h, block);
    e, b := R0(bigEndian, l, a, b, c, d, e, 15, h, block);
    d, a := R1(bigEndian, l, e, a, b, c, d, 16, h, block);
    c, e := R1(bigEndian, l, d, e, a, b, c, 17, h, block);
    b, d := R1(bigEndian, l, c, d, e, a, b, 18, h, block);
    a, c := R1(bigEndian, l, b, c, d, e, a, 19, h, block);
    r := State(a, b, c, d, e);
  }

  method Rounds20(bigEndian: bool, l: array<Word>, s: State, ghost h: State, ghost block: seq<Byte>)
    returns (r: State)
    requires Window(bigEndian, l[..], block, 20) && s == Rounds(h, block, 20)
    modifies l
    ensures Window(bigEndian, l[..], block, 30) && r == Rounds(h, block, 30)
  {
    hide Rounds, Window;
    var a, b, c, d, e := s.a, s.b, s.c, s.d, s.e;
    e, b := R2(bigEndian, l, a, b, c, d, e, 20, h, block);
    d, a := R2(bigEndian, l, e, a, b, c, d, 21, h, block);
    c, e := R2(bigEndian, l, d, e, a, b, c, 22, h, block);
    b, d := R2(bigEndian, l, c, d, e, a, b, 23, h, block);
    a, c := R2(bigEndian, l, b, c, d, e, a, 24, h, block);
    e, b := R2(bigEndian, l, a, b, c, d, e, 25, h, block);
    d, a := R2(bigEndian, l, e, a, b, c, d, 26, h, block);
    c, e := R2(bigEndian, l, d, e, a, b, c, 27, h, block);
    b, d := R2(bigEndian, l, c, d, e, a, b, 28, h, block);
    a, c := R2(bigEndian, l, b, c, d, e, a, 29, h, block);
    r := State(a, b, c, d, e);
  }

  method Rounds30(bigEndian: bool, l: array<Word>, s: State, ghost h: State, ghost block: seq<Byte>)
    returns (r: State)
    requires Window(bigEndian, l[..], block, 30) && s == Rounds(h, block, 30)
    modifies l
    ensures Window(bigEndian, l[..], block, 40) && r == Rounds(h, block, 40)
  {
    hide Rounds, Window;
    var a, b, c, d, e := s.a, s.b, s.c, s.d, s.e;
    e, b := R2(bigEndian, l, a, b, c, d, e, 30, h, block);
    d, a := R2(bigEndian, l, e, a, b, c, d, 31, h, block);
    c, e := R2(bigEndian, l, d, e, a, b, c, 32, h, block);
    b, d := R2(bigEndian, l, c, d, e, a, b, 33, h, block);
    a, c := R2(bigEndian, l, b, c, d, e, a, 34, h, block);
    e, b := R2(bigEndian, l, a, b, c, d, e, 35, h, block);
    d, a := R2(bigEndian, l, e, a, b, c, d, 36, h, block);
    c, e := R2(bigEndian, l, d, e, a, b, c, 37, h, block);
    b, d := R2(bigEndian, l, c, d, e, a, b, 38, h, block);
    a, c := R2(bigEndian, l, b, c, d, e, a, 39, h, block);
    r := State(a, b, c, d, e);
  }

  method Rounds40(bigEndian: bool, l: array<Word>, s: State, ghost h: State, ghost block: seq<Byte>)
    returns (r: State)
    requires Window(bigEndian, l[..], block, 40) && s == Rounds(h, block, 40)
    modifies l
    ensures Window(bigEndian, l[..], block, 50) && r == Rounds(h, block, 50)
  {
    hide Rounds, Window;
    var a, b, c, d, e := s.a, s.b, s.c, s.d, s.e;
    e, b := R3(bigEndian, l, a, b, c, d, e, 40, h, block);
    d, a := R3(bigEndian, l, e, a, b, c, d, 41, h, block);
    c, e := R3(bigEndian, l, d, e, a, b, c, 42, h, block);
    b, d := R3(bigEndian, l, c, d, e, a, b, 43, h, block);
    a, c := R3(bigEndian, l, b, c, d, e, a, 44, h, block);
    e, b := R3(bigEndian, l, a, b, c, d, e, 45, h, block);
    d, a := R3(bigEndian, l, e, a, b, c, d, 46, h, block);
    c, e := R3(bigEndian, l, d, e, a, b, c, 47, h, block);
    b, d := R3(bigEndian, l, c, d, e, a, b, 48, h, block);
    a, c := R3(bigEndian, l, b, c, d, e, a, 49, h, block);
    r := State(a, b, c, d, e);
  }

  method Rounds50(bigEndian: bool, l: array<Word>, s: State, ghost h: State, ghost block: seq<Byte>)
    returns (r: State)
    requires Window(bigEndian, l[..], block, 50) && s == Rounds(h, block, 50)
    modifies l
    ensures Window(bigEndian, l[..], block, 60) && r == Rounds(h, block, 60)
  {
    hide Rounds, Window;
    var a, b, c, d, e := s.a, s.b, s.c, s.d, s.e;
    e, b := R3(bigEndian, l, a, b, c, d, e, 50, h, block);
    d, a := R3(bigEndian, l, e, a, b, c, d, 51, h, block);
    c, e := R3(bigEndian, l, d, e, a, b, c, 52, h, block);
    b, d := R3(bigEndian, l, c, d, e, a, b, 53, h, block);
    a, c := R3(bigEndian, l, b, c, d, e, a, 54, h, block);
    e, b := R3(bigEndian, l, a, b, c, d, e, 55, h, block);
    d, a := R3(bigEndian, l, e, a, b, c, d, 56, h, block);
    c, e := R3(bigEndian, l, d, e, a, b, c, 57, h, block);
    b, d := R3(bigEndian, l, c, d, e, a, b, 58, h, block);
    a, c := R3(bigEndian, l, b, c, d, e, a, 59, h, block);
    r := State(a, b, c, d, e);
  }

  method Rounds60(bigEndian: bool, l: array<Word>, s: State, ghost h: State, ghost block: seq<Byte>)
    returns (r: State)
    requires Window(bigEndian, l[..], block, 60) && s == Rounds(h, block, 60)
    modifies l
    ensures Window(bigEndian, l[..], block, 70) && r == Rounds(h, block, 70)
  {
    hide Rounds, Window;
    var a, b, c, d, e := s.a, s.b, s.c, s.d, s.e;
    e, b := R4(bigEndian, l, a, b, c, d, e, 60, h, block);
    d, a := R4(bigEndian, l, e, a, b, c, d, 61, h, block);
    c, e := R4(bigEndian, l, d, e, a, b, c, 62, h, block);
    b, d := R4(bigEndian, l, c, d, e, a, b, 63, h, block);
    a, c := R4(bigEndian, l, b, c, d, e, a, 64, h, block);
    e, b := R4(bigEndian, l, a, b, c, d, e, 65, h, block);
    d, a := R4(bigEndian, l, e, a, b, c, d, 66, h, block);
    c, e := R4(bigEndian, l, d, e, a, b, c, 67, h, block);
    b, d := R4(bigEndian, l, c, d, e, a, b, 68, h, block);
    a, c := R4(bigEndian, l, b, c, d, e, a, 69, h, block);
    r := State(a, b, c, d, e);
  }

  method Rounds70(bigEndian: bool, l: array<Word>, s: State, ghost h: State, ghost block: seq<Byte>)
    returns (r: State)
    requires Window(bigEndian, l[..], block, 70) && s == Rounds(h, block, 70)
    modifies l
    ensures Window(bigEndian, l[..], block, 80) && r == Rounds(h, block, 80)
  {
    hide Rounds, Window;
    var a, b, c, d, e := s.a, s.b, s.c, s.d, s.e;
    e, b := R4(bigEndian, l, a, b, c, d, e, 70, h, block);
    d, a := R4(bigEndian, l, e, a, b, c, d, 71, h, block);
    c, e := R4(bigEndian, l, d, e, a, b, c, 72, h, block);
    b, d := R4(bigEndian, l, c, d, e, a, b, 73, h, block);
    a, c := R4(bigEndian, l, b, c, d, e, a, 74, h, block);
    e, b := R4(bigEndian, l, a, b, c, d, e, 75, h, block);
    d, a := R4(bigEndian, l, e, a, b, c, d, 76, h, block);
    c, e := R4(bigEndian, l, d, e, a, b, c, 77, h, block);
    b, d := R4(bigEndian, l, c, d, e, a, b, 78, h, block);
    a, c := R4(bigEndian, l, b, c, d, e, a, 79, h, block);
    r := State(a, b, c, d, e);
  }

  method AllRounds(bigEndian: bool, l: array<Word>, h: State, ghost block: seq<Byte>) returns (r: State)
    requires Window(bigEndian, l[..], block, 0)
    modifies l
    ensures r == Rounds(h, block, 80)
  {
    hide Window;
    r := h;
    r := Rounds0(bigEndian, l, r, h, block);
    r := Rounds10(bigEndian, l, r, h, block);
    r := Rounds20(bigEndian, l, r, h, block);
    r := Rounds30(bigEndian, l, r, h, block);
    r := Rounds40(bigEndian, l, r, h, block);
    r := Rounds50(bigEndian, l, r, h, block);
    r := Rounds60(bigEndian, l, r, h, block);
    r := Rounds70(bigEndian, l, r, h, block);
  }

  method Transform(bigEndian: bool, state: array<Word>, buffer: seq<Byte>)
    requires state.Length == 5 && |buffer| == 64
    modifies state
    ensures StateOf(state[..]) == Compress(old(StateOf(state[..])), buffer)
  {
    var l := new Word[16](j requires 0 <= j < 16 => NativeWord(bigEndian, buffer, j));
    var h := StateOf(state[..]);
    var r := AllRounds(bigEndian, l, h, buffer);
    var sum := Add(h, r);
    state[0], state[1], state[2], state[3], state[4] := sum.a, sum.b, sum.c, sum.d, sum.e;
  }

  lemma DigestAt(state: seq<Word>, i: nat)
    requires |state| == 5 && i < 20
    ensures |Digest(StateOf(state))| == 20 && Digest(StateOf(state))[i] == ByteOfWord(state[i / 4], i % 4)
  {
    hide ByteOfWord;
  }

  class Context {
    const bigEndian: bool
    const state: array<Word>
    const buffer: array<Byte>
    var count0: nat
    var count1: nat
    ghost var message: seq<Byte>

    ghost predicate Valid()
      reads this, state, buffer
    {
      && state.Length == 5 && buffer.Length == 64
      && Counted(count0, count1, |message|)
      && Absorbed(Compress, Initial, StateOf(state[..]), buffer[..], message)
    }

    /** SHA1Init */
    constructor (bigEndian: bool)
      ensures Valid() && message == [] && fresh(state) && fresh(buffer)
    {
      this.bigEndian := bigEndian;
      state := new Word[] [0x67452301, 0xEFCDAB89, 0x98BADCFE, 0x10325476, 0xC3D2E1F0];
      buffer := new Byte[64](_ => 0);
      count0, count1 := 0, 0;
      message := [];
    }

    /** The counter part of SHA1Update: two words, with the carry found by comparison. */
    method Count(len: nat)
      requires len < WordSize && Counted(count0, count1, |message|)
      modifies `count0, `count1
      ensures Counted(count0, count1, |message| + len)
    {
      CarryCounts(|message|, len, count0, count1);
      var j := count0;
      count0 := (count0 + 8 * len % WordSize) % WordSize;
      if count0 < j {
        count1 := (count1 + 1) % WordSize;
      }
      count1 := (count1 + len / 0x2000_0000) % WordSize;
    }

    /** The whole blocks of `data` from `from` on; `n` blocks of `total` are folded before. */
    method Blocks(data: seq<Byte>, from: nat, ghost total: seq<Byte>, ghost n: nat) returns (i: nat, ghost m: nat)
      requires state.Length == 5 && from <= |data| <= |total| && total[|total| - |data|..] == data
      requires 64 * n == |total| - |data| + from && StateOf(state[..]) == FoldTo(Compress, Initial, total, n)
      modifies state
      ensures i <= |data| < i + 64 && 64 * m == |total| - |data| + i
      ensures StateOf(state[..]) == FoldTo(Compress, Initial, total, m)
    {
      hide Compress, FoldTo, StateOf;
      i, m := from, n;
      while i + 63 < |data|
        invariant 64 * m == |total| - |data| + i && i <= |data|
        invariant StateOf(state[..]) == FoldTo(Compress, Initial, total, m)
      {
        assert data[i..i + 64] == total[64 * m..64 * m + 64];
        FoldBlock(Compress, Initial, total, m);
        Transform(bigEndian, state, data[i..i + 64]);
        i, m := i + 64, m + 1;
      }
    }

    /** The buffering part of SHA1Update, from buffer position `start`. */
    method Absorb(data: seq<Byte>, start: nat)
      requires state.Length == 5 && buffer.Length == 64
      requires Absorbed(Compress, Initial, StateOf(state[..]), buffer[..], message)
      requires start == |message| - |message| / 64 * 64
      modifies state, buffer
      ensures Absorbed(Compress, Initial, StateOf(state[..]), buffer[..], message + data)
    {
      hide Compress, FoldTo, StateOf, Absorbed;
      var i, j := 0, start;
      ghost var total := message + data;
      ghost var n := |message| / 64;
      AbsorbedAt(Compress, Initial, StateOf(state[..]), buffer[..], message, n);
      FoldPrefix(Compress, Initial, message, data, n);
      if j + |data| > 63 {
        i := FirstBlock(data, j, n);
        i, n := Blocks(data, i, total, n + 1);
        j := 0;
      }
      CopyIn(buffer, j, data[i..]);
      AbsorbedAt(Compress, Initial, StateOf(state[..]), buffer[..], total, n);
    }

    /** The front of the chunk completes the block that was begun. */
    method FirstBlock(data: seq<Byte>, j: nat, ghost n: nat) returns (i: nat)
      requires state.Length == 5 && buffer.Length == 64 && 64 * n + j == |message| && j < 64 <= j + |data|
      requires StateOf(state[..]) == FoldTo(Compress, Initial, message + data, n) && buffer[..j] == message[64 * n..]
      modifies state, buffer
      ensures i == 64 - j && StateOf(state[..]) == FoldTo(Compress, Initial, message + data, n + 1)
    {
      hide Compress, FoldTo, StateOf;
      i := 64 - j;
      BlockCompleted(message, data, n, j);
      CopyIn(buffer, j, data[..i]);
      assert buffer[..] == message[64 * n..] + data[..i];
      FoldBlock(Compress, Initial, message + data, n);
      Transform(bigEndian, state, buffer[..]);
    }

    /** SHA1Update. From 2^32 - 63 bytes on, `j + len` and `i + 63` would wrap in C. */
    method Update(data: seq<Byte>)
      requires Valid() && |data| + 63 < WordSize
      modifies this, state, buffer
      ensures Valid() && message == old(message) + data
    {
      var j := count0 / 8 % 64;
      BufferedCount(|message|, count0, count1);
      Count(|data|);
      Absorb(data, j);
      message := message + data;
    }

    /** The padding loop of SHA1Final: one byte at a time until 448 mod 512 bits are in. */
    method AppendPadding()
      requires Valid()
      modifies this, state, buffer
      ensures Valid() && message == old(message) + [0x80] + seq(Zeros(old(|message|)), _ => 0)
    {
      hide Absorbed, Counted;
      ghost var m := message;
      Update([0x80]);
      BufferedCount(|message|, count0, count1);
      ghost var zeros := 0;
      while count0 / 8 % 64 != 56
        invariant Valid() && message == m + [0x80] + seq(zeros, _ => 0)
        invariant count0 / 8 % 64 == |message| % 64 && zeros <= Zeros(|m|)
        decreases Zeros(|m|) - zeros
      {
        Update([0]);
        BufferedCount(|message|, count0, count1);
        zeros := zeros + 1;
      }
    }

    method WriteDigest() returns (digest: seq<Byte>)
      requires state.Length == 5
      ensures digest == Digest(StateOf(state[..]))
    {
      hide ByteOfWord, Digest, StateOf;
      digest := [];
      for i := 0 to 20
        invariant digest == Digest(StateOf(state[..]))[..i]
      {
        DigestAt(state[..], i);
        digest := digest + [ByteOfWord(state[i / 4], i % 4)];
      }
    }

    /** SHA1Final */
    method Final() returns (digest: seq<Byte>)
      requires Valid()
      modifies this, state, buffer
      ensures digest == Hash(old(message))
    {
      hide Digest, ByteOf, Absorbed, Fold, Zeros;
      ghost var m := message;
      var c0, c1 := count0, count1;
      var finalcount := seq(8, i requires 0 <= i < 8 => ByteOf(if i >= 4 then c0 else c1, i % 4));
      assert finalcount == BigBytes(c1) + BigBytes(c0);
      AppendPadding();
      Update(finalcount);
      assert message == Pad(m);
      Flushed(Compress, Initial, StateOf(state[..]), buffer[..], message);
      digest := WriteDigest();
    }
  }

  /** Init, one Update per chunk, Final: how the message is cut makes no difference, nor does the host's byte order. */
  method HashChunks(bigEndian: bool, chunks: seq<seq<Byte>>) returns (digest: seq<Byte>)
    requires forall c :: c in chunks ==> |c| + 63 < WordSize
    ensures digest == Hash(Concat(chunks))
  {
    var context := new Context(bigEndian);
    for i := 0 to |chunks|
      invariant context.Valid() && fresh(context) && fresh(context.state) && fresh(context.buffer)
      invariant context.message == Concat(chunks[..i])
    {
      ConcatNext(chunks, i);
      context.Update(chunks[i]);
    }
    assert chunks[..|chunks|] == chunks;
    digest := context.Final();
  }
}
