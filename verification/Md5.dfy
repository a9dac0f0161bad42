/** MD5 as RFC 1321 defines it, sections 3.1 to 3.5: 64 operations driven by tables. */
module Md5Spec {
  import opened Words
  import opened BlockHash

  datatype State = State(a: Word, b: Word, c: Word, d: Word)

  const Initial := State(0x67452301, 0xefcdab89, 0x98badcfe, 0x10325476)

  function F(x: Word, y: Word, z: Word): Word { (x & y) | (!x & z) }
  function G(x: Word, y: Word, z: Word): Word { (x & z) | (y & !z) }
  function H(x: Word, y: Word, z: Word): Word { x ^ y ^ z }
  function I(x: Word, y: Word, z: Word): Word { y ^ (x | !z) }

  function Mix(i: nat, x: Word, y: Word, z: Word): Word {
    if i < 16 then F(x, y, z) else if i < 32 then G(x, y, z) else if i < 48 then H(x, y, z) else I(x, y, z)
  }

  /** The word of the block that operation `i` uses. */
  function K(i: nat): (k: nat)
    ensures k < 16
  {
    (if i < 16 then i else if i < 32 then 5 * i + 1 else if i < 48 then 3 * i + 5 else 7 * i) % 16
  }

  function Quarter(i: nat, w: Word, x: Word, y: Word, z: Word): Word {
    if i % 4 == 0 then w else if i % 4 == 1 then x else if i % 4 == 2 then y else z
  }

  /** The rotation of operation `i`. */
  function S(i: nat): (s: Word)
    ensures 0 < s < 32
  {
    if i < 16 then Quarter(i, 7, 12, 17, 22)
    else if i < 32 then Quarter(i, 5, 9, 14, 20)
    else if i < 48 then Quarter(i, 4, 11, 16, 23)
    else Quarter(i, 6, 10, 15, 21)
  }

  /** T[i + 1] of section 3.4: the integer part of 4294967296 times abs(sin(i + 1)). */
  function Sine(i: nat): Word {
    if i < 16 then Sine1(i) else if i < 32 then Sine2(i) else if i < 48 then Sine3(i) else Sine4(i)
  }

  function Sine1(i: nat): Word {
    if i < 4 then Quarter(i, 0xd76aa478, 0xe8c7b756, 0x242070db, 0xc1bdceee)
    else if i < 8 then Quarter(i, 0xf57c0faf, 0x4787c62a, 0xa8304613, 0xfd469501)
    else if i < 12 then Quarter(i, 0x698098d8, 0x8b44f7af, 0xffff5bb1, 0x895cd7be)
    else Quarter(i, 0x6b901122, 0xfd987193, 0xa679438e, 0x49b40821)
  }

  function Sine2(i: nat): Word {
    if i < 20 then Quarter(i, 0xf61e2562, 0xc040b340, 0x265e5a51, 0xe9b6c7aa)
    else if i < 24 then Quarter(i, 0xd62f105d, 0x02441453, 0xd8a1e681, 0xe7d3fbc8)
    else if i < 28 then Quarter(i, 0x21e1cde6, 0xc33707d6, 0xf4d50d87, 0x455a14ed)
    else Quarter(i, 0xa9e3e905, 0xfcefa3f8, 0x676f02d9, 0x8d2a4c8a)
  }

  function Sine3(i: nat): Word {
    if i < 36 then Quarter(i, 0xfffa3942, 0x8771f681, 0x6d9d6122, 0xfde5380c)
    else if i < 40 then Quarter(i, 0xa4beea44, 0x4bdecfa9, 0xf6bb4b60, 0xbebfbc70)
    else if i < 44 then Quarter(i, 0x289b7ec6, 0xeaa127fa, 0xd4ef3085, 0x04881d05)
    else Quarter(i, 0xd9d4d039, 0xe6db99e5, 0x1fa27cf8, 0xc4ac5665)
  }

  function Sine4(i: nat): Word {
    if i < 52 then Quarter(i, 0xf4292244, 0x432aff97, 0xab9423a7, 0xfc93a039)
    else if i < 56 then Quarter(i, 0x655b59c3, 0x8f0ccc92, 0xffeff47d, 0x85845dd1)
    else if i < 60 then Quarter(i, 0x6fa87e4f, 0xfe2ce6e0, 0xa3014314, 0x4e0811a1)
    else Quarter(i, 0xf7537e82, 0xbd3af235, 0x2ad7d2bb, 0xeb86d391)
  }

  /** The new value of the register that an operation changes. */
  function NewWord(a: Word, b: Word, f: Word, x: Word, t: Word, s: Word): Word
    requires 0 < s < 32
  {
    b + Rol(a + f + x + t, s)
  }

  /** One operation; naming the changed register `b` and shifting the others keeps one formula for all sixteen. */
  function Operation(s: State, i: nat, x: seq<Word>): State
    requires i < 64 && |x| == 16
  {
    State(s.d, NewWord(s.a, s.b, Mix(i, s.b, s.c, s.d), x[K(i)], Sine(i), S(i)), s.b, s.c)
  }

  function Operations(h: State, x: seq<Word>, i: nat): State
    requires i <= 64 && |x| == 16
  {
    if i == 0 then h else Operation(Operations(h, x, i - 1), i - 1, x)
  }

  function Add(h: State, s: State): State {
    State(h.a + s.a, h.b + s.b, h.c + s.c, h.d + s.d)
  }

  function CompressWords(h: State, x: seq<Word>): State
    requires |x| == 16
  {
    Add(h, Operations(h, x, 64))
  }

  function Compress(h: State, block: Block): State {
    CompressWords(h, seq(16, i requires 0 <= i < 16 => LittleWord(block, i)))
  }

  function LittleBytes(n: nat): seq<Byte> {
    seq(4, k requires 0 <= k < 4 => ByteOf(n, 3 - k))
  }

  /** Sections 3.1 and 3.2: a one bit, zeros up to 448 mod 512 bits, then the bit count in 64 bits, low word first. */
  function Pad(m: seq<Byte>): (p: seq<Byte>)
    ensures |p| % 64 == 0
  {
    m + [0x80] + seq(Zeros(|m|), _ => 0) + LittleBytes(LowWord(8 * |m|)) + LittleBytes(HighWord(8 * |m|))
  }

  /** The last eight bytes of the padded message, read least significant first, are the number of bits modulo 2^64. */
  lemma LengthAtEnd(m: seq<Byte>)
    ensures var p := Pad(m);
            var n := |p| - 8;
            && |m| + 1 <= n < |m| + 65 && |p| % 64 == 0
            && p[..|m|] == m && p[|m|] == 0x80 && (forall i :: |m| < i < n ==> p[i] == 0)
            && 0x100_0000 * (p[n + 3] as int) + 0x1_0000 * (p[n + 2] as int) + 0x100 * (p[n + 1] as int) + p[n] as int
               + (0x100_0000 * (p[n + 7] as int) + 0x1_0000 * (p[n + 6] as int) + 0x100 * (p[n + 5] as int)
                  + p[n + 4] as int)
                 * 0x1_0000_0000
               == 8 * |m| % 0x1_0000_0000_0000_0000
  {
    var high, low := HighWord(8 * |m|), LowWord(8 * |m|);
    TwoWords(8 * |m|);
    NumberOfBytes(high);
    NumberOfBytes(low);
    var front := m + [0x80] + seq(Zeros(|m|), _ => 0);
    EightBehind(front, LittleBytes(low), LittleBytes(high));
    hide HighWord, LowWord, ByteOf, Zeros;
    assert Pad(m) == front + LittleBytes(low) + LittleBytes(high);
  }

  function Bytes(w: Word): seq<Byte> {
    seq(4, k requires 0 <= k < 4 => ByteOfWord(w, 3 - k))
  }

  function Digest(s: State): (d: seq<Byte>)
    ensures |d| == 16
  {
    Bytes(s.a) + Bytes(s.b) + Bytes(s.c) + Bytes(s.d)
  }

  function Hash(m: seq<Byte>): seq<Byte> {
    Digest(Fold(Compress, Initial, Pad(m)))
  }
}

/** The incremental MD5 of istb_mongoose.c. */
module Md5 {
  import opened Words
  import opened BlockHash
  import opened Md5Spec

  /** The macros F1..F4. */
  function F1(x: Word, y: Word, z: Word): Word { z ^ (x & (y ^ z)) }
  function F2(x: Word, y: Word, z: Word): Word { F1(z, x, y) }
  function F3(x: Word, y: Word, z: Word): Word { x ^ y ^ z }
  function F4(x: Word, y: Word, z: Word): Word { y ^ (x | !z) }

  function Form(f: nat, x: Word, y: Word, z: Word): Word {
    if f == 1 then F1(x, y, z) else if f == 2 then F2(x, y, z) else if f == 3 then F3(x, y, z) else F4(x, y, z)
  }

  lemma Select(x: Word, y: Word, z: Word)
    ensures z ^ (x & (y ^ z)) == (x & y) | (!x & z)
  {
  }

  lemma F1IsF(x: Word, y: Word, z: Word)
    ensures F1(x, y, z) == F(x, y, z)
  {
    Select(x, y, z);
  }

  lemma F2IsG(x: Word, y: Word, z: Word)
    ensures F2(x, y, z) == G(x, y, z)
  {
    hide F1;
    F1IsF(z, x, y);
    assert (z & x) | (!z & y) == (x & z) | (y & !z);
  }

  lemma FormIsMix(i: nat, x: Word, y: Word, z: Word)
    requires i < 64
    ensures Form(i / 16 + 1, x, y, z) == Mix(i, x, y, z)
  {
    hide F1, F2, F, G;
    F1IsF(x, y, z);
    F2IsG(x, y, z);
  }

  lemma StepSum(w: Word, x: Word, f: Word, m: Word, t: Word, s: Word)
    requires 0 < s < 32
    ensures Rol(w + (f + (m + t)), s) + x == NewWord(w, x, f, m, t, s)
  {
    hide Rol;
    assert w + (f + (m + t)) == w + f + m + t;
  }

  /** MD5STEP on register `w`; the registers after it read off as (z, w, x, y). */
  method Step(f: nat, w: Word, x: Word, y: Word, z: Word, m: Word, t: Word, s: Word,
              ghost i: nat, ghost h: State, ghost words: seq<Word>)
    returns (w': Word)
    requires i < 64 && |words| == 16 && State(w, x, y, z) == Operations(h, words, i)
    requires f == i / 16 + 1 && m == words[K(i)] && t == Sine(i) && s == S(i)
    ensures State(z, w', x, y) == Operations(h, words, i + 1)
  {
    hide Rol, Form, Mix, NewWord, Sine, S, K;
    var g := Form(f, x, y, z);
    w' := Rol(w + (g + (m + t)), s) + x;
    StepSum(w, x, g, m, t, s);
    FormIsMix(i, x, y, z);
  }

  method Steps0(x: seq<Word>, r: State, ghost h: State) returns (r': State)
    requires |x| == 16 && r == Operations(h, x, 0)
    ensures r' == Operations(h, x, 8)
  {
    hide Operations;
    var a, b, c, d := r.a, r.b, r.c, r.d;
    a := Step(1, a, b, c, d, x[0], 0xd76aa478, 7, 0, h, x);
    d := Step(1, d, a, b, c, x[1], 0xe8c7b756, 12, 1, h, x);
    c := Step(1, c, d, a, b, x[2], 0x242070db, 17, 2, h, x);
    b := Step(1, b, c, d, a, x[3], 0xc1bdceee, 22, 3, h, x);
    a := Step(1, a, b, c, d, x[4], 0xf57c0faf, 7, 4, h, x);
    d := Step(1, d, a, b, c, x[5], 0x4787c62a, 12, 5, h, x);
    c := Step(1, c, d, a, b, x[6], 0xa8304613, 17, 6, h, x);
    b := Step(1, b, c, d, a, x[7], 0xfd469501, 22, 7, h, x);
    r' := State(a, b, c, d);
  }

  method Steps8(x: seq<Word>, r: State, ghost h: State) returns (r': State)
    requires |x| == 16 && r == Operations(h, x, 8)
    ensures r' == Operations(h, x, 16)
  {
    hide Operations;
    var a, b, c, d := r.a, r.b, r.c, r.d;
    a := Step(1, a, b, c, d, x[8], 0x698098d8, 7, 8, h, x);
    d := Step(1, d, a, b, c, x[9], 0x8b44f7af, 12, 9, h, x);
    c := Step(1, c, d, a, b, x[10], 0xffff5bb1, 17, 10, h, x);
    b := Step(1, b, c, d, a, x[11], 0x895cd7be, 22, 11, h, x);
    a := Step(1, a, b, c, d, x[12], 0x6b901122, 7, 12, h, x);
    d := Step(1, d, a, b, c, x[13], 0xfd987193, 12, 13, h, x);
    c := Step(1, c, d, a, b, x[14], 0xa679438e, 17, 14, h, x);
    b := Step(1, b, c, d, a, x[15], 0x49b40821, 22, 15, h, x);
    r' := State(a, b, c, d);
  }

  method Steps16(x: seq<Word>, r: State, ghost h: State) returns (r': State)
    requires |x| == 16 && r == Operations(h, x, 16)
    ensures r' == Operations(h, x, 24)
  {
    hide Operations;
    var a, b, c, d := r.a, r.b, r.c, r.d;
    a := Step(2, a, b, c, d, x[1], 0xf61e2562, 5, 16, h, x);
    d := Step(2, d, a, b, c, x[6], 0xc040b340, 9, 17, h, x);
    c := Step(2, c, d, a, b, x[11], 0x265e5a51, 14, 18, h, x);
    b := Step(2, b, c, d, a, x[0], 0xe9b6c7aa, 20, 19, h, x);
    a := Step(2, a, b, c, d, x[5], 0xd62f105d, 5, 20, h, x);
    d := Step(2, d, a, b, c, x[10], 0x02441453, 9, 21, h, x);
    c := Step(2, c, d, a, b, x[15], 0xd8a1e681, 14, 22, h, x);
    b := Step(2, b, c, d, a, x[4], 0xe7d3fbc8, 20, 23, h, x);
    r' := State(a, b, c, d);
  }

  method Steps24(x: seq<Word>, r: State, ghost h: State) returns (r': State)
    requires |x| == 16 && r == Operations(h, x, 24)
    ensures r' == Operations(h, x, 32)
  {
    hide Operations;
    var a, b, c, d := r.a, r.b, r.c, r.d;
    a := Step(2, a, b, c, d, x[9], 0x21e1cde6, 5, 24, h, x);
    d := Step(2, d, a, b, c, x[14], 0xc33707d6, 9, 25, h, x);
    c := Step(2, c, d, a, b, x[3], 0xf4d50d87, 14, 26, h, x);
    b := Step(2, b, c, d, a, x[8], 0x455a14ed, 20, 27, h, x);
    a := Step(2, a, b, c, d, x[13], 0xa9e3e905, 5, 28, h, x);
    d := Step(2, d, a, b, c, x[2], 0xfcefa3f8, 9, 29, h, x);
    c := Step(2, c, d, a, b, x[7], 0x676f02d9, 14, 30, h, x);
    b := Step(2, b, c, d, a, x[12], 0x8d2a4c8a, 20, 31, h, x);
    r' := State(a, b, c, d);
  }

  method Steps32(x: seq<Word>, r: State, ghost h: State) returns (r': State)
    requires |x| == 16 && r == Operations(h, x, 32)
    ensures r' == Operations(h, x, 40)
  {
    hide Operations;
    var a, b, c, d := r.a, r.b, r.c, r.d;
    a := Step(3, a, b, c, d, x[5], 0xfffa3942, 4, 32, h, x);
    d := Step(3, d, a, b, c, x[8], 0x8771f681, 11, 33, h, x);
    c := Step(3, c, d, a, b, x[11], 0x6d9d6122, 16, 34, h, x);
    b := Step(3, b, c, d, a, x[14], 0xfde5380c, 23, 35, h, x);
    a := Step(3, a, b, c, d, x[1], 0xa4beea44, 4, 36, h, x);
    d := Step(3, d, a, b, c, x[4], 0x4bdecfa9, 11, 37, h, x);
    c := Step(3, c, d, a, b, x[7], 0xf6bb4b60, 16, 38, h, x);
    b := Step(3, b, c, d, a, x[10], 0xbebfbc70, 23, 39, h, x);
    r' := State(a, b, c, d);
  }

  method Steps40(x: seq<Word>, r: State, ghost h: State) returns (r': State)
    requires |x| == 16 && r == Operations(h, x, 40)
    ensures r' == Operations(h, x, 48)
  {
    hide Operations;
    var a, b, c, d := r.a, r.b, r.c, r.d;
    a := Step(3, a, b, c, d, x[13], 0x289b7ec6, 4, 40, h, x);
    d := Step(3, d, a, b, c, x[0], 0xeaa127fa, 11, 41, h, x);
    c := Step(3, c, d, a, b, x[3], 0xd4ef3085, 16, 42, h, x);
    b := Step(3, b, c, d, a, x[6], 0x04881d05, 23, 43, h, x);
    a := Step(3, a, b, c, d, x[9], 0xd9d4d039, 4, 44, h, x);
    d := Step(3, d, a, b, c, x[12], 0xe6db99e5, 11, 45, h, x);
    c := Step(3, c, d, a, b, x[15], 0x1fa27cf8, 16, 46, h, x);
    b := Step(3, b, c, d, a, x[2], 0xc4ac5665, 23, 47, h, x);
    r' := State(a, b, c, d);
  }

  method Steps48(x: seq<Word>, r: State, ghost h: State) returns (r': State)
    requires |x| == 16 && r == Operations(h, x, 48)
    ensures r' == Operations(h, x, 56)
  {
    hide Operations;
    var a, b, c, d := r.a, r.b, r.c, r.d;
    a := Step(4, a, b, c, d, x[0], 0xf4292244, 6, 48, h, x);
    d := Step(4, d, a, b, c, x[7], 0x432aff97, 10, 49, h, x);
    c := Step(4, c, d, a, b, x[14], 0xab9423a7, 15, 50, h, x);
    b := Step(4, b, c, d, a, x[5], 0xfc93a039, 21, 51, h, x);
    a := Step(4, a, b, c, d, x[12], 0x655b59c3, 6, 52, h, x);
    d := Step(4, d, a, b, c, x[3], 0x8f0ccc92, 10, 53, h, x);
    c := Step(4, c, d, a, b, x[10], 0xffeff47d, 15, 54, h, x);
    b := Step(4, b, c, d, a, x[1], 0x85845dd1, 21, 55, h, x);
    r' := State(a, b, c, d);
  }

  method Steps56(x: seq<Word>, r: State, ghost h: State) returns (r': State)
    requires |x| == 16 && r == Operations(h, x, 56)
    ensures r' == Operations(h, x, 64)
  {
    hide Operations;
    var a, b, c, d := r.a, r.b, r.c, r.d;
    a := Step(4, a, b, c, d, x[8], 0x6fa87e4f, 6, 56, h, x);
    d := Step(4, d, a, b, c, x[15], 0xfe2ce6e0, 10, 57, h, x);
    c := Step(4, c, d, a, b, x[6], 0xa3014314, 15, 58, h, x);
    b := Step(4, b, c, d, a, x[13], 0x4e0811a1, 21, 59, h, x);
    a := Step(4, a, b, c, d, x[4], 0xf7537e82, 6, 60, h, x);
    d := Step(4, d, a, b, c, x[11], 0xbd3af235, 10, 61, h, x);
    c := Step(4, c, d, a, b, x[2], 0x2ad7d2bb, 15, 62, h, x);
    b := Step(4, b, c, d, a, x[9], 0xeb86d391, 21, 63, h, x);
    r' := State(a, b, c, d);
  }

  function StateOf(s: seq<Word>): State
    requires |s| == 4
  {
    State(s[0], s[1], s[2], s[3])
  }

  method Transform(buf: array<Word>, x: seq<Word>)
    requires buf.Length == 4 && |x| == 16
    modifies buf
    ensures StateOf(buf[..]) == CompressWords(old(StateOf(buf[..])), x)
  {
    var h := StateOf(buf[..]);
    assert h == Operations(h, x, 0);
    hide Operations;
    var r := Steps0(x, h, h);
    r := Steps8(x, r, h);
    r := Steps16(x, r, h);
    r := Steps24(x, r, h);
    r := Steps32(x, r, h);
    r := Steps40(x, r, h);
    r := Steps48(x, r, h);
    r := Steps56(x, r, h);
    var sum := Add(h, r);
    buf[0], buf[1], buf[2], buf[3] := sum.a, sum.b, sum.c, sum.d;
  }

  /** Word `i` of `a` has the bytes of word `i` of `b` in reverse order. */
  ghost predicate Mirrored(a: seq<Byte>, b: seq<Byte>, i: nat)
    requires 4 * i + 4 <= |a| == |b|
  {
    a[4 * i] == b[4 * i + 3] && a[4 * i + 1] == b[4 * i + 2] && a[4 * i + 2] == b[4 * i + 1] && a[4 * i + 3] == b[4 * i]
  }

  /** byteReverse: on a big-endian host, storing the little-endian value of each word puts its bytes back in
      reverse order; on a little-endian host nothing happens. */
  method ByteReverse(bigEndian: bool, a: array<Byte>, longs: nat)
    requires 4 * longs <= a.Length
    modifies a
    ensures if bigEndian then forall i: nat :: i < longs ==> Mirrored(a[..], old(a[..]), i) else a[..] == old(a[..])
    ensures a[4 * longs..] == old(a[4 * longs..])
  {
    if bigEndian {
      for n := 0 to longs
        invariant forall j: nat :: 4 * n <= j < a.Length ==> a[j] == old(a[j])
        invariant forall i: nat :: i < n ==> Mirrored(a[..], old(a[..]), i)
      {
        var p := 4 * n;
        ghost var before := a[..];
        a[p], a[p + 1], a[p + 2], a[p + 3] := a[p + 3], a[p + 2], a[p + 1], a[p];
        forall i: nat | i < n
          ensures Mirrored(a[..], old(a[..]), i)
        {
          assert Mirrored(before, old(a[..]), i);
        }
      }
    }
  }

  lemma SliceWord(a: seq<Byte>, i: nat)
    requires 4 * i + 4 <= |a|
    ensures a[4 * i..4 * i + 4] == [a[4 * i], a[4 * i + 1], a[4 * i + 2], a[4 * i + 3]]
  {
  }

  lemma MirroredWord(bigEndian: bool, a: seq<Byte>, b: seq<Byte>, i: nat)
    requires 4 * i + 4 <= |a| == |b|
    requires if bigEndian then Mirrored(a, b, i) else a[4 * i..4 * i + 4] == b[4 * i..4 * i + 4]
    ensures NativeWord(bigEndian, a, i) == LittleWord(b, i)
  {
    hide Pack;
    if !bigEndian {
      SliceWord(a, i);
      SliceWord(b, i);
    }
  }

  /** A word of the state as the host holds it in memory. */
  function WordMemory(bigEndian: bool, w: Word): (m: seq<Byte>)
    ensures |m| == 4
  {
    seq(4, k requires 0 <= k < 4 => ByteOfWord(w, if bigEndian then k else 3 - k))
  }

  /** A 32-bit number as the host stores it. */
  function NativeBytes(bigEndian: bool, n: nat): (b: seq<Byte>)
    ensures |b| == 4
  {
    if bigEndian then [ByteOf(n, 0), ByteOf(n, 1), ByteOf(n, 2), ByteOf(n, 3)]
    else [ByteOf(n, 3), ByteOf(n, 2), ByteOf(n, 1), ByteOf(n, 0)]
  }

  lemma LittleBytesListed(n: nat)
    ensures LittleBytes(n) == [ByteOf(n, 3), ByteOf(n, 2), ByteOf(n, 1), ByteOf(n, 0)]
  {
    hide ByteOf;
  }

  lemma StoredWord(bigEndian: bool, a: seq<Byte>, b: seq<Byte>, i: nat, n: nat)
    requires 4 * i + 4 <= |a| == |b|
    requires a[4 * i..4 * i + 4] == NativeBytes(bigEndian, n) && b[4 * i..4 * i + 4] == LittleBytes(n)
    ensures NativeWord(bigEndian, a, i) == LittleWord(b, i)
  {
    hide Pack, ByteOf, LittleBytes;
    LittleBytesListed(n);
    SliceWord(a, i);
    SliceWord(b, i);
  }

  lemma TransformsBlock(h: State, block: Block)
    ensures CompressWords(h, seq(16, i requires 0 <= i < 16 => LittleWord(block, i))) == Compress(h, block)
  {
  }

  lemma LastWords(x: seq<Byte>, y: seq<Byte>, z: seq<Byte>)
    requires |x| == 56 && |y| == 4 == |z|
    ensures (x + y + z)[56..60] == y && (x + y + z)[60..64] == z && (x + y + z)[..56] == x
  {
  }

  /** What MD5Transform sees after the counter words went into a byte-reversed buffer. */
  lemma FinalWords(bigEndian: bool, bytes: seq<Byte>, reversed: seq<Byte>, was: seq<Byte>, block: seq<Byte>,
                   n0: nat, n1: nat)
    requires |bytes| == |reversed| == |was| == |block| == 64
    requires if bigEndian then forall i: nat :: i < 14 ==> Mirrored(reversed, was, i) else reversed == was
    requires bytes == reversed[..56] + NativeBytes(bigEndian, n0) + NativeBytes(bigEndian, n1)
    requires block == was[..56] + LittleBytes(n0) + LittleBytes(n1)
    ensures seq(16, i requires 0 <= i < 16 => NativeWord(bigEndian, bytes, i))
         == seq(16, i requires 0 <= i < 16 => LittleWord(block, i))
  {
    hide LittleWord, NativeWord, NativeBytes, ByteOf;
    forall i | 0 <= i < 16
      ensures NativeWord(bigEndian, bytes, i) == LittleWord(block, i)
    {
      if i < 14 {
        assert bigEndian ==> Mirrored(reversed, was, i);
        MirroredWord(bigEndian, bytes, block, i);
      } else if i == 14 {
        LastWords(reversed[..56], NativeBytes(bigEndian, n0), NativeBytes(bigEndian, n1));
        LastWords(was[..56], LittleBytes(n0), LittleBytes(n1));
        StoredWord(bigEndian, bytes, block, 14, n0);
      } else {
        LastWords(reversed[..56], NativeBytes(bigEndian, n0), NativeBytes(bigEndian, n1));
        LastWords(was[..56], LittleBytes(n0), LittleBytes(n1));
        StoredWord(bigEndian, bytes, block, 15, n1);
      }
    }
  }

  lemma WordFromMemory(bigEndian: bool, w: Word, was: seq<Byte>, digest: seq<Byte>, i: nat)
    requires i < 4 && |was| == |digest| == 16 && was[4 * i..4 * i + 4] == WordMemory(bigEndian, w)
    requires if bigEndian then Mirrored(digest, was, i) else digest == was
    ensures digest[4 * i..4 * i + 4] == Bytes(w)
  {
    WordListed(bigEndian, w);
    hide ByteOfWord, WordMemory, Bytes;
    SliceWord(digest, i);
    SliceWord(was, i);
  }

  lemma WordListed(bigEndian: bool, w: Word)
    ensures Bytes(w) == [ByteOfWord(w, 3), ByteOfWord(w, 2), ByteOfWord(w, 1), ByteOfWord(w, 0)]
    ensures WordMemory(bigEndian, w) ==
              if bigEndian then [ByteOfWord(w, 0), ByteOfWord(w, 1), ByteOfWord(w, 2), ByteOfWord(w, 3)]
              else [ByteOfWord(w, 3), ByteOfWord(w, 2), ByteOfWord(w, 1), ByteOfWord(w, 0)]
  {
    hide ByteOfWord;
  }

  lemma DigestFromMemory(bigEndian: bool, s: seq<Word>, was: seq<Byte>, digest: seq<Byte>)
    requires |s| == 4 && |was| == |digest| == 16
    requires was == WordMemory(bigEndian, s[0]) + WordMemory(bigEndian, s[1])
                    + WordMemory(bigEndian, s[2]) + WordMemory(bigEndian, s[3])
    requires if bigEndian then forall i: nat :: i < 4 ==> Mirrored(digest, was, i) else digest == was
    ensures digest == Digest(StateOf(s))
  {
    hide WordMemory, Bytes, Mirrored;
    FourWords(WordMemory(bigEndian, s[0]), WordMemory(bigEndian, s[1]),
              WordMemory(bigEndian, s[2]), WordMemory(bigEndian, s[3]));
    WordFromMemory(bigEndian, s[0], was, digest, 0);
    WordFromMemory(bigEndian, s[1], was, digest, 1);
    WordFromMemory(bigEndian, s[2], was, digest, 2);
    WordFromMemory(bigEndian, s[3], was, digest, 3);
    InFours(digest);
  }

  lemma FourWords(a: seq<Byte>, b: seq<Byte>, c: seq<Byte>, d: seq<Byte>)
    requires |a| == |b| == |c| == |d| == 4
    ensures var s := a + b + c + d; s[0..4] == a && s[4..8] == b && s[8..12] == c && s[12..16] == d
  {
  }

  lemma InFours(s: seq<Byte>)
    requires |s| == 16
    ensures s == s[0..4] + s[4..8] + s[8..12] + s[12..16]
  {
  }

  class Context {
    const bigEndian: bool
    const buf: array<Word>
    const input: array<Byte>
    var bits0: nat
    var bits1: nat
    ghost var message: seq<Byte>

    ghost predicate Shape()
      reads this
    {
      buf.Length == 4 && input.Length == 64
    }

    ghost predicate Valid()
      reads this, buf, input
    {
      && Shape()
      && Counted(bits0, bits1, |message|)
      && Absorbed(Compress, Initial, StateOf(buf[..]), input[..], message)
    }

    /** MD5Init */
    constructor (bigEndian: bool)
      ensures Valid() && message == [] && fresh(buf) && fresh(input)
    {
      this.bigEndian := bigEndian;
      buf := new Word[] [0x67452301, 0xefcdab89, 0x98badcfe, 0x10325476];
      input := new Byte[64](_ => 0);
      bits0, bits1 := 0, 0;
      message := [];
    }

    method Count(len: nat)
      requires len < WordSize && Counted(bits0, bits1, |message|)
      modifies `bits0, `bits1
      ensures Counted(bits0, bits1, |message| + len)
    {
      CarryCounts(|message|, len, bits0, bits1);
      var t := bits0;
      bits0 := (t + 8 * len % WordSize) % WordSize;
      if bits0 < t {
        bits1 := (bits1 + 1) % WordSize;
      }
      bits1 := (bits1 + len / 0x2000_0000) % WordSize;
    }

    /** byteReverse on the whole buffer, then MD5Transform. */
    method TransformInput()
      requires Shape()
      modifies buf, input
      ensures StateOf(buf[..]) == Compress(old(StateOf(buf[..])), old(input[..]))
    {
      hide LittleWord, NativeWord, CompressWords;
      ghost var block := input[..];
      ByteReverse(bigEndian, input, 16);
      var bytes := input[..];
      var words := seq(16, i requires 0 <= i < 16 => NativeWord(bigEndian, bytes, i));
      forall i | 0 <= i < 16
        ensures words[i] == LittleWord(block, i)
      {
        MirroredWord(bigEndian, bytes, block, i);
      }
      assert words == seq(16, i requires 0 <= i < 16 => LittleWord(block, i));
      Transform(buf, words);
    }

    /** The copying and transforming part of MD5Update, from buffer position `t`. */
    method Absorb(data: seq<Byte>, t: nat)
      requires Shape() && t == |message| - |message| / 64 * 64
      requires Absorbed(Compress, Initial, StateOf(buf[..]), input[..], message)
      modifies buf, input
      ensures Absorbed(Compress, Initial, StateOf(buf[..]), input[..], message + data)
    {
      hide Compress, FoldTo, StateOf, Absorbed;
      ghost var total := message + data;
      ghost var n := |message| / 64;
      AbsorbedAt(Compress, Initial, StateOf(buf[..]), input[..], message, n);
      FoldPrefix(Compress, Initial, message, data, n);
      var i := 0;
      if t != 0 {
        i := 64 - t;
        if |data| < i {
          CopyIn(input, t, data);
          AbsorbedAt(Compress, Initial, StateOf(buf[..]), input[..], total, n);
          return;
        }
        BlockCompleted(message, data, n, t);
        CopyIn(input, t, data[..i]);
        assert input[..] == message[64 * n..] + data[..i];
        FoldBlock(Compress, Initial, total, n);
        TransformInput();
        n := n + 1;
      }
      i, n := Blocks(data, i, total, n);
      CopyIn(input, 0, data[i..]);
      AbsorbedAt(Compress, Initial, StateOf(buf[..]), input[..], total, n);
    }

    /** The whole blocks of `data` from `from` on; `n` blocks of `total` are folded before. */
    method Blocks(data: seq<Byte>, from: nat, ghost total: seq<Byte>, ghost n: nat) returns (i: nat, ghost m: nat)
      requires Shape() && from <= |data| <= |total| && total[|total| - |data|..] == data
      requires 64 * n == |total| - |data| + from && StateOf(buf[..]) == FoldTo(Compress, Initial, total, n)
      modifies buf, input
      ensures i <= |data| < i + 64 && 64 * m == |total| - |data| + i
      ensures StateOf(buf[..]) == FoldTo(Compress, Initial, total, m)
    {
      hide Compress, FoldTo, StateOf;
      i, m := from, n;
      while |data| - i >= 64
        invariant 64 * m == |total| - |data| + i && i <= |data|
        invariant StateOf(buf[..]) == FoldTo(Compress, Initial, total, m)
      {
        CopyIn(input, 0, data[i..i + 64]);
        assert input[..] == total[64 * m..64 * m + 64];
        FoldBlock(Compress, Initial, total, m);
        TransformInput();
        i, m := i + 64, m + 1;
      }
    }

    /** MD5Update */
    method Update(data: seq<Byte>)
      requires Valid() && |data| < WordSize
      modifies this, buf, input
      ensures Valid() && message == old(message) + data
    {
      hide Absorbed, Counted, StateOf, Compress;
      var t := bits0 / 8 % 64;
      BufferedCount(|message|, bits0, bits1);
      Count(|data|);
      Absorb(data, t);
      message := message + data;
    }

    /** No room for the length words: the block is closed, and a new one started with zeros. */
    method CloseBlock(count: nat, ghost m: seq<Byte>, ghost n: nat)
      requires Shape() && count < 64 && 64 * n + 64 <= |m|
      requires input[..count + 1] + seq(63 - count, _ => 0) == m[64 * n..64 * n + 64]
      requires StateOf(buf[..]) == FoldTo(Compress, Initial, m, n)
      modifies buf, input
      ensures StateOf(buf[..]) == FoldTo(Compress, Initial, m, n + 1) && input[..56] == seq(56, _ => 0)
    {
      hide Compress, FoldTo, StateOf;
      CopyIn(input, count + 1, seq(63 - count, _ => 0));
      assert input[..] == m[64 * n..64 * n + 64];
      FoldBlock(Compress, Initial, m, n);
      TransformInput();
      CopyIn(input, 0, seq(56, _ => 0));
    }

    /** Where the padding goes: behind the message in the same block, or into that one and the next. */
    lemma PadTail(message: seq<Byte>, z: nat, n: nat, count: nat)
      requires |message| == 64 * n + count && count < 64 && z == if count < 56 then 55 - count else 119 - count
      ensures var m := message + ([0x80] + seq(z, _ => 0));
              if count < 56 then |m| == 64 * n + 56 && m[64 * n..] == message[64 * n..] + [0x80] + seq(55 - count, _ => 0)
              else |m| == 64 * n + 120 && m[64 * n + 64..] == seq(56, _ => 0)
    {
    }

    /** The two finalisation branches, up to the length words: with fewer than 8 bytes left after the 0x80 byte the
        block is closed and a zero block started. */
    method PadInput(count: nat)
      requires Shape() && count == |message| - |message| / 64 * 64
      requires Absorbed(Compress, Initial, StateOf(buf[..]), input[..], message)
      modifies buf, input
      ensures var m := message + [0x80] + seq(Zeros(|message|), _ => 0);
              Absorbed(Compress, Initial, StateOf(buf[..]), input[..], m) && |m| % 64 == 56
    {
      hide Compress, FoldTo, StateOf, Absorbed, Zeros;
      ghost var n := |message| / 64;
      ghost var z := Zeros(|message|);
      ZerosBehind(n, count);
      PadTail(message, z, n, count);
      ghost var tail := [0x80] + seq(z, _ => 0);
      ghost var m := message + tail;
      assert m == message + [0x80] + seq(z, _ => 0);
      AbsorbedAt(Compress, Initial, StateOf(buf[..]), input[..], message, n);
      FoldPrefix(Compress, Initial, message, tail, n);
      input[count] := 0x80;
      var left := 63 - count;
      if left < 8 {
        BlockCompleted(message, tail, n, count);
        assert input[..count + 1] + seq(left, _ => 0) == message[64 * n..] + tail[..64 - count];
        CloseBlock(count, m, n);
        n := n + 1;
      } else {
        CopyIn(input, count + 1, seq(left - 8, _ => 0));
      }
      AbsorbedAt(Compress, Initial, StateOf(buf[..]), input[..], m, n);
    }

    /** MD5Final's last block: the two counter words are stored natively, after the rest has been byte-reversed. */
    method FinalBlock(ghost m: seq<Byte>)
      requires Shape() && |m| % 64 == 56 && Absorbed(Compress, Initial, StateOf(buf[..]), input[..], m)
      modifies buf, input
      ensures StateOf(buf[..]) == Fold(Compress, Initial, m + LittleBytes(bits0) + LittleBytes(bits1))
    {
      hide Compress, FoldTo, LittleWord, NativeWord, CompressWords, StateOf, Absorbed, NativeBytes, ByteOf;
      ghost var n := |m| / 64;
      ghost var total := m + (LittleBytes(bits0) + LittleBytes(bits1));
      assert total == m + LittleBytes(bits0) + LittleBytes(bits1);
      AbsorbedAt(Compress, Initial, StateOf(buf[..]), input[..], m, n);
      FoldPrefix(Compress, Initial, m, LittleBytes(bits0) + LittleBytes(bits1), n);
      FoldBlock(Compress, Initial, total, n);
      ghost var was := input[..];
      ByteReverse(bigEndian, input, 14);
      ghost var reversed := input[..];
      CopyIn(input, 56, NativeBytes(bigEndian, bits0));
      CopyIn(input, 60, NativeBytes(bigEndian, bits1));
      FinalWords(bigEndian, input[..], reversed, was, total[64 * n..64 * n + 64], bits0, bits1);
      var bytes := input[..];
      TransformsBlock(StateOf(buf[..]), total[64 * n..64 * n + 64]);
      Transform(buf, seq(16, i requires 0 <= i < 16 => NativeWord(bigEndian, bytes, i)));
      FoldWhole(Compress, Initial, total, n + 1);
    }

    /** The state as the host holds it in memory, byte-reversed where the host is big-endian. */
    method WriteDigest() returns (digest: seq<Byte>)
      requires Shape()
      ensures digest == Digest(StateOf(buf[..]))
    {
      hide WordMemory, Digest;
      var s := buf[..];
      var was := WordMemory(bigEndian, s[0]) + WordMemory(bigEndian, s[1])
        + WordMemory(bigEndian, s[2]) + WordMemory(bigEndian, s[3]);
      var memory := new Byte[16](k requires 0 <= k < 16 => was[k]);
      assert memory[..] == was;
      ByteReverse(bigEndian, memory, 4);
      digest := memory[..];
      DigestFromMemory(bigEndian, s, was, digest);
    }

    /** MD5Final */
    method Final() returns (digest: seq<Byte>)
      requires Valid()
      modifies buf, input
      ensures digest == Hash(message)
    {
      hide Digest, Absorbed, Fold, Zeros;
      BufferedCount(|message|, bits0, bits1);
      PadInput(bits0 / 8 % 64);
      FinalBlock(message + [0x80] + seq(Zeros(|message|), _ => 0));
      digest := WriteDigest();
    }
  }

  const HexDigits := "0123456789abcdef"

  function Hex(bytes: seq<Byte>): string {
    if bytes == [] then [] else Hex(bytes[..|bytes| - 1]) + HexByte(bytes[|bytes| - 1])
  }

  function HexByte(b: Byte): string {
    [HexDigits[b / 16], HexDigits[b % 16]]
  }

  /** Two digits a byte, the high one first. */
  lemma {:induction false} HexDigitsOf(bytes: seq<Byte>, i: nat)
    requires i < |bytes|
    ensures |Hex(bytes)| == 2 * |bytes|
    ensures Hex(bytes)[2 * i] == "0123456789abcdef"[bytes[i] / 16]
    ensures Hex(bytes)[2 * i + 1] == "0123456789abcdef"[bytes[i] % 16]
  {
    HexLength(bytes);
    HexLength(bytes[..|bytes| - 1]);
    if i < |bytes| - 1 {
      HexDigitsOf(bytes[..|bytes| - 1], i);
    }
  }

  lemma {:induction false} HexLength(bytes: seq<Byte>)
    ensures |Hex(bytes)| == 2 * |bytes|
  {
    if bytes != [] {
      HexLength(bytes[..|bytes| - 1]);
    }
  }

  /** bin2str */
  method BinToStr(p: seq<Byte>) returns (to: string)
    ensures to == Hex(p)
  {
    to := [];
    for i := 0 to |p|
      invariant to == Hex(p[..i])
    {
      assert p[..i + 1][..i] == p[..i];
      to := to + [HexDigits[p[i] / 16], HexDigits[p[i] % 16]];
    }
    assert p[..|p|] == p;
  }

  /** mg_md5: the digest, in hexadecimal, of a list of strings taken together. */
  method MgMd5(bigEndian: bool, strings: seq<seq<Byte>>) returns (buf: string)
    requires forall p :: p in strings ==> |p| < WordSize
    ensures buf == Hex(Hash(Concat(strings)))
  {
    var ctx := new Context(bigEndian);
    for i := 0 to |strings|
      invariant ctx.Valid() && fresh(ctx) && fresh(ctx.buf) && fresh(ctx.input)
      invariant ctx.message == Concat(strings[..i])
    {
      ConcatNext(strings, i);
      ctx.Update(strings[i]);
    }
    assert strings[..|strings|] == strings;
    var hash := ctx.Final();
    buf := BinToStr(hash);
  }
}
