/** What the two hash contexts share: the 64-bit bit count kept in two words, the 64-byte buffer, and the fold of a
    compression function over whole blocks. */
module BlockHash {
  import opened Words

  type Block = b: seq<Byte> | |b| == 64 witness seq(64, _ => 0)

  lemma Quotient(n: int, q: int, r: int)
    requires n == q * WordSize + r && 0 <= r < WordSize
    ensures n / WordSize == q && n % WordSize == r
  {
  }

  lemma DropMultiple(t: int, x: int)
    ensures (t * WordSize + x) % WordSize == x % WordSize
  {
    Quotient(t * WordSize + x, t + x / WordSize, x % WordSize);
  }

  /** Carry by comparison: the low word alone. */
  lemma CarryLow(bytes: nat, len: nat, c0: nat) returns (carry: nat, sum: nat)
    requires c0 == 8 * bytes % WordSize && len < WordSize
    ensures sum == (c0 + 8 * len % WordSize) % WordSize && carry == if sum < c0 then 1 else 0
    ensures 8 * (bytes + len) == (8 * bytes / WordSize + len / 0x2000_0000 + carry) * WordSize + sum
  {
    var h, l := len / 0x2000_0000, 8 * (len % 0x2000_0000);
    Quotient(8 * len, h, l);
    carry := if c0 + l >= WordSize then 1 else 0;
    sum := c0 + l - carry * WordSize;
    Quotient(c0 + l, carry, sum);
  }

  /** Adding `len` bytes to a 64-bit bit count kept as two 32-bit words. */
  lemma CarryCounts(bytes: nat, len: nat, c0: nat, c1: nat)
    requires Counted(c0, c1, bytes) && len < WordSize
    ensures var sum := (c0 + 8 * len % WordSize) % WordSize;
            var carried := if sum < c0 then (c1 + 1) % WordSize else c1;
            Counted(sum, (carried + len / 0x2000_0000) % WordSize, bytes + len)
  {
    var carry, sum := CarryLow(bytes, len, c0);
    var q, h := 8 * bytes / WordSize, len / 0x2000_0000;
    Quotient(8 * (bytes + len), q + h + carry, sum);
    CarryHigh(q, c1, carry, h);
  }

  /** The high word takes the carry and the high part, modulo 2^32. */
  lemma CarryHigh(q: nat, c1: nat, carry: nat, h: nat)
    requires c1 == q % WordSize && carry <= 1
    ensures (if carry == 1 then (c1 + 1) % WordSize else c1) + h >= 0
    ensures ((if carry == 1 then (c1 + 1) % WordSize else c1) + h) % WordSize == (q + h + carry) % WordSize
  {
    DropMultiple(q / WordSize, c1 + h + carry);
    DropMultiple(if c1 + carry >= WordSize then 1 else 0, (c1 + carry) % WordSize + h);
  }

  lemma BufferedCount(bytes: nat, c0: nat, c1: nat)
    requires Counted(c0, c1, bytes)
    ensures c0 / 8 % 64 == bytes % 64
  {
    var q := 8 * bytes / WordSize;
    var r := bytes - q * 0x2000_0000;
    assert c0 == 8 * r;
    assert bytes == 64 * (q * 0x80_0000 + r / 64) + r % 64;
  }

  /** `count[1]:count[0]` is the number of message bits modulo 2^64. */
  ghost predicate Counted(c0: nat, c1: nat, bytes: nat) {
    c0 == LowWord(8 * bytes) && c1 == HighWord(8 * bytes)
  }

  /** The number of zero bytes between the 0x80 byte and the eight length bytes of an `n`-byte message. */
  function Zeros(n: nat): (z: nat)
    ensures z < 64 && (n + 1 + z) % 64 == 56
  {
    (n + 72) / 64 * 64 - n - 9
  }

  lemma ZerosBehind(n: nat, count: nat)
    requires count < 64
    ensures Zeros(64 * n + count) == if count < 56 then 55 - count else 119 - count
  {
  }

  /** The state after folding `f` over the blocks of `s`. */
  function Fold<S>(f: (S, Block) -> S, init: S, s: seq<Byte>): S
    requires |s| % 64 == 0
  {
    if s == [] then init else f(Fold(f, init, s[..|s| - 64]), s[|s| - 64..])
  }

  /** The state after the first `n` blocks of `total`. */
  function FoldTo<S>(f: (S, Block) -> S, init: S, total: seq<Byte>, n: nat): S
    requires 64 * n <= |total|
  {
    Fold(f, init, total[..64 * n])
  }

  lemma FoldPrefix<S>(f: (S, Block) -> S, init: S, message: seq<Byte>, data: seq<Byte>, n: nat)
    requires 64 * n <= |message|
    ensures FoldTo(f, init, message + data, n) == FoldTo(f, init, message, n)
  {
    assert (message + data)[..64 * n] == message[..64 * n];
  }

  lemma FoldBlock<S>(f: (S, Block) -> S, init: S, total: seq<Byte>, n: nat)
    requires 64 * n + 64 <= |total|
    ensures FoldTo(f, init, total, n + 1) == f(FoldTo(f, init, total, n), total[64 * n..64 * n + 64])
  {
    var k := 64 * n;
    assert total[..k + 64][..k] == total[..k];
    assert total[..k + 64][k..] == total[k..k + 64];
  }

  /** The whole blocks of `message` are folded into `state`; the rest waits at the start of the buffer. */
  ghost predicate Absorbed<S(!new)>(f: (S, Block) -> S, init: S, state: S, buffer: seq<Byte>, message: seq<Byte>) {
    var n := |message| / 64;
    && |buffer| == 64
    && state == FoldTo(f, init, message, n)
    && buffer[..|message| - 64 * n] == message[64 * n..]
  }

  lemma AbsorbedAt<S(!new)>(f: (S, Block) -> S, init: S, state: S, buffer: seq<Byte>, message: seq<Byte>, n: nat)
    requires |buffer| == 64 && 64 * n <= |message| < 64 * n + 64
    ensures Absorbed(f, init, state, buffer, message)
       <==> state == FoldTo(f, init, message, n) && buffer[..|message| - 64 * n] == message[64 * n..]
  {
    hide FoldTo;
    assert n == |message| / 64;
  }

  lemma FoldWhole<S>(f: (S, Block) -> S, init: S, total: seq<Byte>, n: nat)
    requires |total| == 64 * n
    ensures FoldTo(f, init, total, n) == Fold(f, init, total)
  {
    assert total[..64 * n] == total;
  }

  /** Once the message fills whole blocks nothing is left in the buffer. */
  lemma Flushed<S(!new)>(f: (S, Block) -> S, init: S, state: S, buffer: seq<Byte>, message: seq<Byte>)
    requires Absorbed(f, init, state, buffer, message) && |message| % 64 == 0
    ensures state == Fold(f, init, message)
  {
    assert message[..64 * (|message| / 64)] == message;
  }

  /** The block that the front of `data` completes. */
  lemma BlockCompleted(message: seq<Byte>, data: seq<Byte>, n: nat, j: nat)
    requires 64 * n + j == |message| && j < 64 <= j + |data|
    ensures (message + data)[64 * n..64 * n + 64] == message[64 * n..] + data[..64 - j]
  {
  }

  /** memcpy into a fixed array. */
  method CopyIn(a: array<Byte>, at: nat, data: seq<Byte>)
    requires at + |data| <= a.Length
    modifies a
    ensures a[..] == old(a[..at]) + data + old(a[at + |data|..])
  {
    forall k | 0 <= k < |data| {
      a[at + k] := data[k];
    }
  }
}
