/** The byte ring between the UDP thread and the segmenter. Every operation holds the lock from start to end, so an
    interleaving of the two threads is a sequence of operations. */
module Ring {
  import opened Words

  /** The size of a transport stream packet. */
  const PacketSize := 188

  /** The position `i` places after `p`, around the end. */
  function Slot(p: nat, i: nat, size: nat): (q: nat)
    requires p < size && i <= size
    ensures q < size
  {
    if p + i < size then p + i else p + i - size
  }

  /** How far `w` is after `r`. */
  function Gap(r: nat, w: nat, size: nat): (n: nat)
    requires r < size && w < size
    ensures n < size && w == Slot(r, n, size)
  {
    if w < r then w + size - r else w - r
  }

  /** The bytes from the read position up to the write position. */
  function Between(buf: seq<Byte>, r: nat, w: nat): seq<Byte>
    requires r < |buf| && w < |buf|
  {
    seq(Gap(r, w, |buf|), i requires 0 <= i < |buf| => buf[Slot(r, i, |buf|)])
  }

  /** What a write does to the queue of unread bytes: refused as a whole, appended as a whole, or - when it exactly
      fills the ring, so that the two positions meet - everything is lost. */
  function Put(q: seq<Byte>, data: seq<Byte>, size: nat): seq<Byte> {
    if |data| % PacketSize != 0 || |q| + |data| > size then q
    else if |q| + |data| < size then q + data
    else []
  }

  /** What a successful read of `amount` bytes leaves in the target, which held `before`: both parts of a read that
      wraps are copied to the start. */
  function Copied(buf: seq<Byte>, r: nat, amount: nat, before: seq<Byte>): seq<Byte>
    requires r < |buf| && amount < |buf| && |before| == amount
  {
    var toTail := |buf| - r;
    seq(amount, k requires 0 <= k < amount =>
      if k < amount - toTail then buf[k] else if k < toTail then buf[r + k] else before[k])
  }

  lemma Wraps(p: nat, len: nat, size: nat)
    requires p < size && len <= size
    ensures (p + len) % size == Slot(p, len, size)
  {
    if p + len >= size {
      ModuloOne(p + len - size, size);
    }
  }

  lemma ModuloOne(x: nat, size: nat)
    requires x < size
    ensures (size + x) % size == x
  {
  }

  /** Positions that start on packet boundaries stay there. */
  lemma PacketSlot(w: nat, len: nat, size: nat)
    requires w < size && len <= size && w % PacketSize == 0 && len % PacketSize == 0 && size % PacketSize == 0
    ensures Slot(w, len, size) % PacketSize == 0
  {
    var a, b, c := w / PacketSize, len / PacketSize, size / PacketSize;
    assert w + len == PacketSize * (a + b) && w + len - size == PacketSize * (a + b - c);
  }

  /** Each packet of `data`, written from position `w` on, lies in one piece. */
  ghost predicate PacketsWhole(buf: seq<Byte>, w: nat, data: seq<Byte>)
    requires w < |buf| && |data| <= |buf|
  {
    forall k: nat :: PacketSize * k + PacketSize <= |data| ==> PacketWhole(buf, w, data, k)
  }

  ghost predicate PacketWhole(buf: seq<Byte>, w: nat, data: seq<Byte>, k: nat)
    requires w < |buf| && PacketSize * k + PacketSize <= |data| <= |buf|
  {
    var p := Slot(w, PacketSize * k, |buf|);
    p + PacketSize <= |buf| && buf[p..p + PacketSize] == data[PacketSize * k..PacketSize * k + PacketSize]
  }

  lemma PacketsStayWhole(buf: seq<Byte>, w: nat, data: seq<Byte>)
    requires w < |buf| && |data| <= |buf| && w % PacketSize == 0 && |buf| % PacketSize == 0
    requires forall i :: 0 <= i < |data| ==> buf[Slot(w, i, |buf|)] == data[i]
    ensures PacketsWhole(buf, w, data)
  {
    forall k: nat | PacketSize * k + PacketSize <= |data|
      ensures PacketWhole(buf, w, data, k)
    {
      var at := PacketSize * k;
      var p := Slot(w, at, |buf|);
      PacketSlot(w, at, |buf|);
      RoomForPacket(p, |buf|);
      var stored, packet := buf[p..p + PacketSize], data[at..at + PacketSize];
      forall i | 0 <= i < PacketSize
        ensures stored[i] == packet[i]
      {
        assert Slot(w, at + i, |buf|) == p + i;
      }
    }
  }

  lemma RoomForPacket(p: nat, size: nat)
    requires p < size && p % PacketSize == 0 && size % PacketSize == 0
    ensures p + PacketSize <= size
  {
    var a, b := p / PacketSize, size / PacketSize;
    assert p == PacketSize * a && size == PacketSize * b;
  }

  lemma WriteQueue(buf: seq<Byte>, buf': seq<Byte>, r: nat, w: nat, data: seq<Byte>)
    requires |buf'| == |buf| && r < |buf| && w < |buf|
    requires |Between(buf, r, w)| + |data| <= |buf|
    requires forall i :: 0 <= i < |data| ==> buf'[Slot(w, i, |buf|)] == data[i]
    requires forall i :: 0 <= i < |Between(buf, r, w)| ==> buf'[Slot(r, i, |buf|)] == buf[Slot(r, i, |buf|)]
    ensures var q := Between(buf, r, w);
            Between(buf', r, Slot(w, |data|, |buf|)) == if |q| + |data| < |buf| then q + data else []
  {
    var q, size := Between(buf, r, w), |buf|;
    var q' := Between(buf', r, Slot(w, |data|, size));
    if |q| + |data| < size {
      assert |q'| == |q| + |data|;
      forall i | |q| <= i < |q'|
        ensures q'[i] == data[i - |q|]
      {
        assert Slot(r, i, size) == Slot(w, i - |q|, size);
      }
    }
  }

  lemma ReadQueue(buf: seq<Byte>, r: nat, w: nat, amount: nat)
    requires r < |buf| && w < |buf| && amount <= |Between(buf, r, w)|
    ensures Between(buf, Slot(r, amount, |buf|), w) == Between(buf, r, w)[amount..]
  {
  }

  class RingBuffer {
    const buf: array<Byte>
    var writePtr: nat
    var readPtr: nat

    ghost predicate Valid()
      reads this
    {
      && buf.Length > 0 && buf.Length % PacketSize == 0
      && writePtr < buf.Length && readPtr < buf.Length && writePtr % PacketSize == 0
    }

    function Available(): (n: nat)
      requires Valid()
      reads this
    {
      Gap(readPtr, writePtr, buf.Length)
    }

    function Contents(): (q: seq<Byte>)
      requires Valid()
      reads this, buf
      ensures |q| == Available()
    {
      Between(buf[..], readPtr, writePtr)
    }

    /** The empty ring. */
    constructor (length: nat)
      requires length > 0 && length % PacketSize == 0
      ensures Valid() && buf.Length == length && Contents() == [] && fresh(buf) && readPtr == 0 == writePtr
    {
      buf := new Byte[length](_ => 0);
      writePtr, readPtr := 0, 0;
    }

    /** One memcpy, or two around the end. */
    method StoreData(data: seq<Byte>)
      requires writePtr < buf.Length && |data| <= buf.Length
      modifies buf
      ensures forall i :: 0 <= i < |data| ==> buf[Slot(writePtr, i, buf.Length)] == data[i]
      ensures forall k :: 0 <= k < buf.Length && !(writePtr <= k < writePtr + |data|) && k >= writePtr + |data| - buf.Length
                ==> buf[k] == old(buf[k])
    {
      var toTail := buf.Length - writePtr;
      if toTail >= |data| {
        CopyIn(writePtr, data);
      } else {
        CopyIn(writePtr, data[..toTail]);
        CopyIn(0, data[toTail..]);
      }
    }

    method CopyIn(at: nat, data: seq<Byte>)
      requires at + |data| <= buf.Length
      modifies buf
      ensures forall k :: 0 <= k < buf.Length ==> buf[k] == if at <= k < at + |data| then data[k - at] else old(buf[k])
    {
      forall k | 0 <= k < |data| {
        buf[at + k] := data[k];
      }
    }

    /** iSTB_Buffer_write */
    method Write(data: seq<Byte>) returns (result: int)
      requires Valid()
      modifies this, buf
      ensures Valid()
      ensures Contents() == Put(old(Contents()), data, buf.Length)
      ensures result == if |data| % PacketSize == 0 && old(Available()) + |data| <= buf.Length then |data| else -1
      ensures result > 0 ==>
                |data| <= buf.Length && PacketsWhole(buf[..], if old(Available()) == 0 then 0 else old(writePtr), data)
      ensures var reset := |data| % PacketSize == 0 && old(Available()) == 0;
              && readPtr == (if reset then 0 else old(readPtr))
              && var w := if reset then 0 else old(writePtr);
                 writePtr == if result > 0 && |data| <= buf.Length then Slot(w, |data|, buf.Length) else w
    {
      if |data| % PacketSize != 0 {
        return -1;
      }
      var valid := Available();
      if valid == 0 {
        writePtr, readPtr := 0, 0;
      }
      if buf.Length - valid < |data| {
        return -1;
      }
      Append(data);
      result := |data|;
    }

    /** The copying and committing part of a write for which there is room. */
    method Append(data: seq<Byte>)
      requires Valid() && Available() + |data| <= buf.Length && |data| % PacketSize == 0
      modifies `writePtr, buf
      ensures Valid() && Contents() == Put(old(Contents()), data, buf.Length)
      ensures PacketsWhole(buf[..], old(writePtr), data) && writePtr == Slot(old(writePtr), |data|, buf.Length)
    {
      ghost var before := buf[..];
      StoreData(data);
      WriteQueue(before, buf[..], readPtr, writePtr, data);
      Wraps(writePtr, |data|, buf.Length);
      PacketSlot(writePtr, |data|, buf.Length);
      PacketsStayWhole(buf[..], writePtr, data);
      hide Slot, Between, Gap;
      writePtr := (writePtr + |data|) % buf.Length;
    }

    /** The one or two memcpy calls of a read; both have the same destination. */
    method CopyOut(target: array<Byte>, at: nat, amount: nat)
      requires readPtr < buf.Length && amount < buf.Length
      requires target != buf && at + amount <= target.Length
      modifies target
      ensures target[at..at + amount] == Copied(buf[..], readPtr, amount, old(target[at..at + amount]))
      ensures forall k :: 0 <= k < target.Length && !(at <= k < at + amount) ==> target[k] == old(target[k])
    {
      var toTail := buf.Length - readPtr;
      var toHead := amount - toTail;
      if toTail >= amount {
        forall k | 0 <= k < amount {
          target[at + k] := buf[readPtr + k];
        }
      } else {
        forall k | 0 <= k < toTail {
          target[at + k] := buf[readPtr + k];
        }
        forall k | 0 <= k < toHead {
          target[at + k] := buf[k];
        }
      }
    }

    /** iSTB_Buffer_read, into `target` from position `at`. */
    method Read(target: array<Byte>, at: nat, amount: nat) returns (result: int)
      requires Valid() && target != buf && at + amount <= target.Length
      modifies this, target
      ensures Valid() && writePtr == old(writePtr)
      ensures old(Available()) < amount ==> result == 0 && readPtr == old(readPtr) && target[..] == old(target[..])
      ensures old(Available()) >= amount ==>
                && result == amount && Contents() == old(Contents())[amount..]
                && readPtr == Slot(old(readPtr), amount, buf.Length)
                && target[at..at + amount] == Copied(buf[..], old(readPtr), amount, old(target[at..at + amount]))
      ensures forall k :: 0 <= k < target.Length && !(at <= k < at + amount) ==> target[k] == old(target[k])
    {
      if Available() < amount {
        return 0;
      }
      CopyOut(target, at, amount);
      ReadQueue(buf[..], readPtr, writePtr, amount);
      Wraps(readPtr, amount, buf.Length);
      readPtr := (readPtr + amount) % buf.Length;
      result := amount;
    }
  }

  /** iSTB_Buffer_create: no ring for a length that is not a number of packets. */
  method Create(length: nat) returns (ring: RingBuffer?)
    requires length > 0
    ensures ring == null <==> length % PacketSize != 0
    ensures ring != null ==> fresh(ring) && ring.Valid() && ring.buf.Length == length && ring.Contents() == []
  {
    if length % PacketSize != 0 {
      return null;
    }
    ring := new RingBuffer(length);
  }

  // Where the code is a queue, and where it is not.

  /** A write is appended exactly when it is whole packets and leaves room; it is refused exactly when it is not whole
      packets or there is no room for it; filling the ring loses everything. */
  lemma WriteExact(q: seq<Byte>, data: seq<Byte>, size: nat)
    requires |q| < size
    ensures Put(q, data, size) == q + data <==> data == [] || (|data| % 188 == 0 && |q| + |data| < size)
    ensures q != [] ==>
      (Put(q, data, size) == q <==> data == [] || |data| % 188 != 0 || |q| + |data| > size)
    ensures q != [] ==> (Put(q, data, size) == [] <==> |data| % 188 == 0 && |q| + |data| == size)
  {
    assert data != [] ==> |q + data| > |q|;
  }

  /** A read of `amount` bytes from position `r` delivers the first `amount` unread bytes, whatever the ring and the
      target hold, exactly when the read does not wrap. */
  lemma ReadExact(size: nat, r: nat, w: nat, amount: nat)
    requires r < size && w < size && amount <= Gap(r, w, size)
    ensures (forall buf: seq<Byte>, before: seq<Byte> :: |buf| == size && |before| == amount
               ==> Copied(buf, r, amount, before) == Between(buf, r, w)[..amount])
       <==> amount <= size - r
  {
    if amount > size - r {
      var buf: seq<Byte> := seq(size, k => if k == r then 1 else 0);
      var before: seq<Byte> := seq(amount, _ => 0);
      assert Copied(buf, r, amount, before)[0] == 0 && Between(buf, r, w)[..amount][0] == 1;
    }
  }

  /** The reader of main.c asks for a fixed amount at a time. When that amount divides the size, no read wraps: the
      read position stays a multiple of the amount, here the `b`-th. */
  lemma DividingNeverWraps(amount: nat, a: nat, b: nat)
    requires amount > 0 && b < a
    ensures amount * b < amount * a && amount <= amount * a - amount * b
    ensures Slot(amount * b, amount, amount * a) == amount * if b + 1 < a then b + 1 else 0
  {
    assert amount * a - amount * b == amount * (a - b);
    AtLeast(amount, a - b);
    assert amount * b + amount == amount * (b + 1);
    if b + 1 < a {
      AtLeast(amount, a - (b + 1));
      assert amount * a - amount * (b + 1) == amount * (a - (b + 1));
    }
  }

  lemma AtLeast(x: nat, k: nat)
    requires x > 0 && k > 0
    ensures x * k >= x > 0
  {
    assert x * k == x + x * (k - 1);
  }

  lemma StraightRead(buf: seq<Byte>, r: nat, w: nat, amount: nat, before: seq<Byte>)
    requires r < |buf| && w < |buf| && amount <= Gap(r, w, |buf|) && |before| == amount && amount <= |buf| - r
    ensures Copied(buf, r, amount, before) == Between(buf, r, w)[..amount]
  {
  }

  lemma Rejoin(a: seq<Byte>, b: seq<Byte>, c: seq<Byte>)
    ensures a + (b + c) == a + b + c
  {
  }

  datatype Op = PutOp(data: seq<Byte>) | GetOp(amount: nat)

  /** What a read of `amount` bytes hands out of the queue `q` when `toTail` bytes are left up to the end of the memory,
      into a target of zeros. */
  function Handed(q: seq<Byte>, toTail: nat, amount: nat): seq<Byte>
    requires amount <= |q|
  {
    seq(amount, k requires 0 <= k < amount =>
      if k < amount - toTail then q[toTail + k] else if k < toTail then q[k] else 0)
  }

  lemma CopiedIsHanded(buf: seq<Byte>, r: nat, w: nat, amount: nat, before: seq<Byte>)
    requires r < |buf| && w < |buf| && amount <= Gap(r, w, |buf|) && before == seq(amount, _ => 0)
    ensures Copied(buf, r, amount, before) == Handed(Between(buf, r, w), |buf| - r, amount)
  {
  }

  /** Positions and queue after some operations; what has been accepted; what has been handed out; and whether every
      accepted write left room and every read stayed clear of the end of the memory. The last can be told before each
      operation, from the positions and the amount. */
  datatype Play = Play(r: nat, w: nat, q: seq<Byte>, accepted: seq<Byte>, out: seq<Byte>, smooth: bool)

  function PlayOp(p: Play, op: Op, size: nat): Play
    requires p.r < size && p.w < size
  {
    match op
    case PutOp(data) =>
      if |data| % PacketSize != 0 then p
      else
        var reset := |p.q| == 0;
        var r, w := if reset then 0 else p.r, if reset then 0 else p.w;
        if |p.q| + |data| > size then p.(r := r, w := w)
        else Play(r, Slot(w, |data|, size), Put(p.q, data, size), p.accepted + data, p.out,
                  p.smooth && |p.q| + |data| < size)
    case GetOp(amount) =>
      if |p.q| < amount || amount > size then p
      else p.(r := Slot(p.r, amount, size), q := p.q[amount..], out := p.out + Handed(p.q, size - p.r, amount),
              smooth := p.smooth && amount <= size - p.r)
  }

  function PlayAll(ops: seq<Op>, size: nat): (p: Play)
    requires size > 0
    ensures p.r < size && p.w < size
  {
    if ops == [] then Play(0, 0, [], [], [], true)
    else PlayOp(PlayAll(ops[..|ops| - 1], size), ops[|ops| - 1], size)
  }

  /** Bytes handed out followed by unread bytes are the accepted bytes, in order. */
  lemma {:induction false} PlayIsQueue(ops: seq<Op>, size: nat)
    requires size > 0 && PlayAll(ops, size).smooth
    ensures var p := PlayAll(ops, size); p.out + p.q == p.accepted
  {
    hide PlayOp;
    if ops != [] {
      var p, op := PlayAll(ops[..|ops| - 1], size), ops[|ops| - 1];
      SmoothBefore(p, op, size);
      PlayIsQueue(ops[..|ops| - 1], size);
      OpIsQueue(p, op, size);
    }
  }

  lemma SmoothBefore(p: Play, op: Op, size: nat)
    requires p.r < size && p.w < size && PlayOp(p, op, size).smooth
    ensures p.smooth
  {
  }

  lemma OpIsQueue(p: Play, op: Op, size: nat)
    requires p.r < size && p.w < size && PlayOp(p, op, size).smooth && p.out + p.q == p.accepted
    ensures var p' := PlayOp(p, op, size); p'.out + p'.q == p'.accepted
  {
    match op
    case PutOp(data) => Rejoin(p.out, p.q, data);
    case GetOp(amount) =>
      if amount <= |p.q| && amount <= size {
        StraightHanded(p.q, size - p.r, amount);
        Rejoin(p.out, p.q[..amount], p.q[amount..]);
      }
  }

  lemma StraightHanded(q: seq<Byte>, toTail: nat, amount: nat)
    requires amount <= |q| && amount <= toTail
    ensures Handed(q, toTail, amount) == q[..amount] && q[..amount] + q[amount..] == q
  {
  }

  /** The ring is where the play is. */
  ghost predicate Plays(ring: RingBuffer, p: Play, size: nat)
    reads ring, ring.buf
  {
    && ring.Valid() && ring.buf.Length == size
    && ring.readPtr == p.r && ring.writePtr == p.w && ring.Contents() == p.q
  }

  /** Any interleaving of writes and reads, on an empty ring, follows PlayAll. */
  method Run(size: nat, ops: seq<Op>) returns (ring: RingBuffer, read: seq<Byte>)
    requires size > 0 && size % PacketSize == 0
    ensures Plays(ring, PlayAll(ops, size), size) && read == PlayAll(ops, size).out
  {
    ring := new RingBuffer(size);
    read := [];
    for n := 0 to |ops|
      invariant fresh(ring) && fresh(ring.buf)
      invariant Plays(ring, PlayAll(ops[..n], size), size) && read == PlayAll(ops[..n], size).out
    {
      hide Plays, PlayOp;
      assert ops[..n + 1][..n] == ops[..n];
      var part := RunOp(ring, ops[n], PlayAll(ops[..n], size), size);
      read := read + part;
    }
    assert ops[..|ops|] == ops;
  }

  method RunOp(ring: RingBuffer, op: Op, ghost p: Play, ghost size: nat) returns (part: seq<Byte>)
    requires p.r < size && p.w < size && Plays(ring, p, size)
    modifies ring, ring.buf
    ensures Plays(ring, PlayOp(p, op, size), size) && p.out + part == PlayOp(p, op, size).out
  {
    hide Handed;
    match op
    case PutOp(data) =>
      var result := ring.Write(data);
      part := [];
    case GetOp(amount) =>
      part := ReadPart(ring, amount);
  }

  /** A read into fresh memory. */
  method ReadPart(ring: RingBuffer, amount: nat) returns (part: seq<Byte>)
    requires ring.Valid()
    modifies ring
    ensures ring.Valid() && ring.writePtr == old(ring.writePtr)
    ensures amount > old(ring.Available()) ==>
              part == [] && ring.readPtr == old(ring.readPtr) && ring.Contents() == old(ring.Contents())
    ensures amount <= old(ring.Available()) ==>
              && ring.Contents() == old(ring.Contents())[amount..]
              && ring.readPtr == Slot(old(ring.readPtr), amount, ring.buf.Length)
              && part == Handed(old(ring.Contents()), ring.buf.Length - old(ring.readPtr), amount)
  {
    var target := new Byte[amount](_ => 0);
    ghost var r, before := ring.readPtr, target[..];
    ghost var available := ring.Available();
    assert before == seq(amount, _ => 0);
    var result := ring.Read(target, 0, amount);
    part := target[..result];
    if amount <= available {
      CopiedIsHanded(ring.buf[..], r, ring.writePtr, amount, before);
    }
  }

  // Runs.

  /** When all reads are for the same amount and it divides the size, no read of any run wraps. */
  lemma {:induction false} DividingReadsAreStraight(ops: seq<Op>, amount: nat, a: nat) returns (b: nat)
    requires amount > 0 && a > 0 && amount * a > 0
    requires forall i :: 0 <= i < |ops| && ops[i].GetOp? ==> ops[i].amount == amount
    ensures b < a && PlayAll(ops, amount * a).r == amount * b && amount <= amount * a - PlayAll(ops, amount * a).r
  {
    var size := amount * a;
    b := 0;
    if ops == [] {
      DividingNeverWraps(amount, a, 0);
    } else {
      var before := ops[..|ops| - 1];
      b := DividingReadsAreStraight(before, amount, a);
      var p, op := PlayAll(before, size), ops[|ops| - 1];
      DividingNeverWraps(amount, a, b);
      DividingNeverWraps(amount, a, 0);
      if op.PutOp? {
        b := if |op.data| % PacketSize == 0 && |p.q| == 0 then 0 else b;
      } else if amount <= |p.q| && amount <= size {
        b := if b + 1 < a then b + 1 else 0;
        DividingNeverWraps(amount, a, b);
      }
    }
  }

  function Gets(n: nat, amount: nat): seq<Op> {
    if n == 0 then [] else Gets(n - 1, amount) + [GetOp(amount)]
  }

  lemma {:induction false} ReadsInARow(ops: seq<Op>, n: nat, amount: nat, size: nat)
    requires size > 0 && n * amount <= |PlayAll(ops, size).q| && n * amount < size && amount <= size
    requires PlayAll(ops, size).r == 0 && PlayAll(ops, size).smooth
    ensures var p, p' := PlayAll(ops, size), PlayAll(ops + Gets(n, amount), size);
            p'.r == n * amount && p'.smooth && |p'.q| == |p.q| - n * amount
  {
    if n == 0 {
      assert ops + Gets(0, amount) == ops;
    } else {
      assert n * amount == (n - 1) * amount + amount;
      ReadsInARow(ops, n - 1, amount, size);
      assert (ops + Gets(n, amount))[..|ops + Gets(n, amount)| - 1] == ops + Gets(n - 1, amount);
    }
  }

  lemma PlayNext(ops: seq<Op>, op: Op, size: nat)
    requires size > 0
    ensures PlayAll(ops + [op], size) == PlayOp(PlayAll(ops, size), op, size)
  {
    assert (ops + [op])[..|ops|] == ops;
  }

  /** BF_RINGBUF_SIZE and the segmenter's READ_BUF_SIZE: a run in which the 23rd read wraps, and no operation before. */
  lemma ProgramReadsWrap(d1: seq<Byte>, d2: seq<Byte>, size: nat, amount: nat) returns (ops: seq<Op>)
    requires size == 188 * 1024 * 10 * 10 * 5 && amount == 4096 * 1024
    requires |d1| == size - 188 && |d2| == 188 * 2000
    ensures ops == [PutOp(d1)] + Gets(22, amount) + [PutOp(d2)]
    ensures PlayAll(ops, size).smooth && !PlayAll(ops + [GetOp(amount)], size).smooth
  {
    hide Put, Handed, Gets;
    var first := [PutOp(d1)];
    FirstPut(d1, size);
    ReadsInARow(first, 22, amount, size);
    ops := first + Gets(22, amount) + [PutOp(d2)];
    PlayNext(first + Gets(22, amount), PutOp(d2), size);
    PlayNext(ops, GetOp(amount), size);
    PutLength(PlayAll(first + Gets(22, amount), size).q, d2, size);
  }

  lemma FirstPut(d: seq<Byte>, size: nat)
    requires size > |d| && |d| % PacketSize == 0
    ensures var p := PlayAll([PutOp(d)], size); p.r == 0 && p.smooth && |p.q| == |d|
  {
    PlayNext([], PutOp(d), size);
    assert [] + [PutOp(d)] == [PutOp(d)];
  }

  lemma PutLength(q: seq<Byte>, d: seq<Byte>, size: nat)
    requires |d| % PacketSize == 0 && |q| + |d| < size
    ensures |Put(q, d, size)| == |q| + |d|
  {
  }

  // Which runs are right for all contents.

  predicate SameOp(a: Op, b: Op) {
    if a.PutOp? then b.PutOp? && |a.data| == |b.data| else a == b
  }

  /** The same operations, except for the contents of what is written. */
  predicate SameShape(a: seq<Op>, b: seq<Op>) {
    |a| == |b| && forall i :: 0 <= i < |a| ==> SameOp(a[i], b[i])
  }

  ghost predicate Alike(p: Play, p': Play) {
    && p.r == p'.r && p.w == p'.w && p.smooth == p'.smooth
    && |p.q| == |p'.q| && |p.accepted| == |p'.accepted| && |p.out| == |p'.out|
  }

  lemma {:induction false} ShapeDecides(a: seq<Op>, b: seq<Op>, size: nat)
    requires size > 0 && SameShape(a, b)
    ensures Alike(PlayAll(a, size), PlayAll(b, size))
  {
    if a != [] {
      ShapeDecides(a[..|a| - 1], b[..|b| - 1], size);
      hide PlayAll;
      PlayLast(a, size);
      PlayLast(b, size);
      assert SameOp(a[|a| - 1], b[|b| - 1]);
      OpAlike(PlayAll(a[..|a| - 1], size), PlayAll(b[..|b| - 1], size), a[|a| - 1], b[|b| - 1], size);
    }
  }

  lemma PlayLast(ops: seq<Op>, size: nat)
    requires size > 0 && ops != []
    ensures PlayAll(ops, size) == PlayOp(PlayAll(ops[..|ops| - 1], size), ops[|ops| - 1], size)
  {
  }

  lemma OpAlike(p: Play, p': Play, a: Op, b: Op, size: nat)
    requires p.r < size && p.w < size && Alike(p, p') && SameOp(a, b)
    ensures Alike(PlayOp(p, a, size), PlayOp(p', b, size))
  {
  }

  /** Zeros everywhere, except for one accepted byte: number `m`. */
  function Marked(ops: seq<Op>, m: nat, size: nat): seq<Op>
    requires size > 0
  {
    if ops == [] then []
    else
      var before, op := ops[..|ops| - 1], ops[|ops| - 1];
      var n := |PlayAll(before, size).accepted|;
      Marked(before, m, size) +
      [if op.PutOp? then PutOp(seq(|op.data|, k requires 0 <= k => if n + k == m then 1 else 0)) else op]
  }

  lemma {:induction false} MarkedShape(ops: seq<Op>, m: nat, size: nat)
    requires size > 0
    ensures SameShape(ops, Marked(ops, m, size))
  {
    if ops != [] {
      MarkedShape(ops[..|ops| - 1], m, size);
      var before := ops[..|ops| - 1];
      forall i | 0 <= i < |ops| - 1
        ensures SameOp(ops[i], Marked(ops, m, size)[i])
      {
        assert SameOp(before[i], Marked(before, m, size)[i]);
      }
    }
  }

  lemma {:induction false} MarkedPrefix(ops: seq<Op>, n: nat, m: nat, size: nat)
    requires size > 0 && n <= |ops|
    ensures |Marked(ops, m, size)| == |ops| && Marked(ops, m, size)[..n] == Marked(ops[..n], m, size)
    decreases |ops|
  {
    MarkedShape(ops, m, size);
    if n == |ops| {
      assert ops[..n] == ops;
    } else {
      var before := ops[..|ops| - 1];
      MarkedShape(before, m, size);
      MarkedPrefix(before, n, m, size);
      assert before[..n] == ops[..n];
    }
  }

  lemma {:induction false} MarkedAccepted(ops: seq<Op>, m: nat, size: nat)
    requires size > 0
    ensures var a := PlayAll(Marked(ops, m, size), size).accepted;
            forall k :: 0 <= k < |a| ==> a[k] == if k == m then 1 else 0
  {
    if ops != [] {
      var before := ops[..|ops| - 1];
      MarkedAccepted(before, m, size);
      MarkedShape(before, m, size);
      ShapeDecides(before, Marked(before, m, size), size);
      hide PlayAll;
      var marked := Marked(ops, m, size);
      assert marked[..|marked| - 1] == Marked(before, m, size);
      PlayLast(marked, size);
      AcceptedNext(PlayAll(Marked(before, m, size), size), marked[|marked| - 1], size);
    }
  }

  lemma AcceptedNext(p: Play, op: Op, size: nat)
    requires p.r < size && p.w < size
    ensures var p' := PlayOp(p, op, size);
            p'.accepted == p.accepted || (op.PutOp? && p'.accepted == p.accepted + op.data)
  {
  }

  /** What has been accepted and handed out stays; what a full ring has lost stays lost. */
  lemma {:induction false} PlayGrows(ops: seq<Op>, n: nat, size: nat)
    requires size > 0 && n <= |ops|
    ensures var p, p' := PlayAll(ops[..n], size), PlayAll(ops, size);
            && p.accepted <= p'.accepted && p.out <= p'.out && (p'.smooth ==> p.smooth)
            && |p'.accepted| - |p'.out| - |p'.q| >= |p.accepted| - |p.out| - |p.q|
    decreases |ops|
  {
    if n == |ops| {
      assert ops[..n] == ops;
    } else {
      var before := ops[..|ops| - 1];
      PlayGrows(before, n, size);
      assert before[..n] == ops[..n];
      hide PlayAll;
      PlayLast(ops, size);
      OpGrows(PlayAll(before, size), ops[|ops| - 1], size);
    }
  }

  lemma OpGrows(p: Play, op: Op, size: nat)
    requires p.r < size && p.w < size
    ensures var p' := PlayOp(p, op, size);
            && p.accepted <= p'.accepted && p.out <= p'.out && (p'.smooth ==> p.smooth)
            && |p'.accepted| - |p'.out| - |p'.q| >= |p.accepted| - |p.out| - |p.q|
  {
  }

  /** Where a run stops being smooth. */
  lemma {:induction false} FirstRough(ops: seq<Op>, size: nat) returns (n: nat)
    requires size > 0 && !PlayAll(ops, size).smooth
    ensures n < |ops| && PlayAll(ops[..n], size).smooth && !PlayOp(PlayAll(ops[..n], size), ops[n], size).smooth
  {
    var before := ops[..|ops| - 1];
    if PlayAll(before, size).smooth {
      n := |ops| - 1;
    } else {
      n := FirstRough(before, size);
      assert before[..n] == ops[..n];
    }
  }

  ghost predicate IsQueue(p: Play) {
    p.out + p.q == p.accepted
  }

  /** A run behaves like a queue, whatever the contents of its writes, if and only if no accepted write fills the ring and
      no read wraps. */
  lemma QueueForAllContents(ops: seq<Op>, size: nat)
    requires size > 0
    ensures (forall ops' :: SameShape(ops, ops') ==> IsQueue(PlayAll(ops', size))) <==> PlayAll(ops, size).smooth
  {
    if PlayAll(ops, size).smooth {
      forall ops' | SameShape(ops, ops')
        ensures IsQueue(PlayAll(ops', size))
      {
        ShapeDecides(ops, ops', size);
        PlayIsQueue(ops', size);
      }
    } else {
      var ops' := NotQueue(ops, size);
    }
  }

  lemma NotQueue(ops: seq<Op>, size: nat) returns (ops': seq<Op>)
    requires size > 0 && !PlayAll(ops, size).smooth
    ensures SameShape(ops, ops') && !IsQueue(PlayAll(ops', size))
  {
    var n := FirstRough(ops, size);
    var p := PlayAll(ops[..n], size);
    PlayIsQueue(ops[..n], size);
    ops' := Marked(ops, |p.out|, size);
    MarkedShape(ops, |p.out|, size);
    MarkedPrefix(ops, n, |p.out|, size);
    ShapeDecides(ops[..n], ops'[..n], size);
    MarkedShape(ops[..n], |p.out|, size);
    PlayIsQueue(ops'[..n], size);
    MarkedAccepted(ops[..n], |p.out|, size);
    hide PlayAll, Marked;
    var p' := PlayAll(ops'[..n], size);
    assert SameOp(ops[n], ops'[n]);
    OpAlike(p, p', ops[n], ops'[n], size);
    RoughStep(p', ops'[n], size);
    assert ops'[..n + 1][..n] == ops'[..n];
    PlayLast(ops'[..n + 1], size);
    PlayGrows(ops', n + 1, size);
    StaysWrong(PlayAll(ops'[..n + 1], size), PlayAll(ops', size), |p.out|);
  }

  /** A byte that was handed out in the place of another, or bytes that are lost. */
  ghost predicate Wrong(p: Play, m: nat) {
    |p.accepted| > |p.out| + |p.q| || (m < |p.out| && m < |p.accepted| && p.out[m] != p.accepted[m])
  }

  lemma RoughStep(p: Play, op: Op, size: nat)
    requires p.r < size && p.w < size && p.smooth && IsQueue(p) && !PlayOp(p, op, size).smooth
    requires forall k :: 0 <= k < |p.accepted| ==> p.accepted[k] == if k == |p.out| then 1 else 0
    ensures Wrong(PlayOp(p, op, size), |p.out|)
  {
    match op
    case PutOp(data) =>
    case GetOp(amount) =>
      var toTail := size - p.r;
      assert p.accepted[|p.out|] == p.q[0] && p.accepted[|p.out| + toTail] == p.q[toTail];
  }

  lemma StaysWrong(p: Play, p': Play, m: nat)
    requires Wrong(p, m) && p.accepted <= p'.accepted && p.out <= p'.out
    requires |p'.accepted| - |p'.out| - |p'.q| >= |p.accepted| - |p.out| - |p.q|
    ensures !IsQueue(p')
  {
    if m < |p.out| && m < |p.accepted| {
      assert p'.out[m] == p.out[m] && p'.accepted[m] == p.accepted[m];
      assert (p'.out + p'.q)[m] == p'.out[m];
    }
  }

  /** The unread bytes after some datagrams have been offered. */
  function Offered(q: seq<Byte>, datagrams: seq<seq<Byte>>, size: nat): seq<Byte> {
    if datagrams == [] then q else Put(Offered(q, datagrams[..|datagrams| - 1], size), datagrams[|datagrams| - 1], size)
  }

  /** The unread bytes at poll number `k`, if none of the polls before took any. */
  function AtPoll(q: seq<Byte>, schedule: seq<seq<seq<Byte>>>, k: nat, size: nat): seq<Byte>
    requires k <= |schedule|
  {
    if k == 0 then q else Offered(AtPoll(q, schedule, k - 1, size), schedule[k - 1], size)
  }

  method OfferAll(ring: RingBuffer, datagrams: seq<seq<Byte>>)
    requires ring.Valid()
    modifies ring, ring.buf
    ensures ring.Valid() && ring.Contents() == Offered(old(ring.Contents()), datagrams, ring.buf.Length)
  {
    for d := 0 to |datagrams|
      invariant ring.Valid()
      invariant ring.Contents() == Offered(old(ring.Contents()), datagrams[..d], ring.buf.Length)
    {
      assert datagrams[..d + 1][..d] == datagrams[..d];
      var written := ring.Write(datagrams[d]);
    }
    assert datagrams[..|datagrams|] == datagrams;
  }

  /** m3u8_read_data. Between two polls the UDP thread offers the datagrams of one entry of `schedule`; when the
      schedule ends, `myterminate` is set. The buffer is filled by the first poll that finds enough bytes, all at once,
      or not at all; `start` is the ring's read position at that poll. */
  method ReadData(ring: RingBuffer, buf: array<Byte>, bufSize: nat, schedule: seq<seq<seq<Byte>>>)
    returns (filled: nat, ghost k: nat, ghost start: nat)
    requires ring.Valid() && buf != ring.buf && bufSize <= buf.Length
    modifies ring, ring.buf, buf
    ensures ring.Valid() && k <= |schedule| && start < ring.buf.Length
    ensures forall j: nat :: 0 < j < k ==> |AtPoll(old(ring.Contents()), schedule, j, ring.buf.Length)| < bufSize
    ensures var q := AtPoll(old(ring.Contents()), schedule, k, ring.buf.Length);
            if k > 0 && |q| >= bufSize then
              && filled == bufSize < ring.buf.Length && ring.Contents() == q[bufSize..]
              && ring.readPtr == Slot(start, bufSize, ring.buf.Length)
              && (bufSize <= ring.buf.Length - start ==> buf[..bufSize] == q[..bufSize])
            else filled == 0 && k == |schedule| && ring.Contents() == q && buf[..] == old(buf[..])
  {
    var size := bufSize;
    filled, k, start := 0, 0, 0;
    var t := 0;
    while t < |schedule|
      invariant ring.Valid() && start < ring.buf.Length && filled == 0 && size == bufSize && k == t <= |schedule|
      invariant buf[..] == old(buf[..])
      invariant ring.Contents() == AtPoll(old(ring.Contents()), schedule, t, ring.buf.Length)
      invariant forall j: nat :: 0 < j <= t ==> |AtPoll(old(ring.Contents()), schedule, j, ring.buf.Length)| < bufSize
    {
      OfferAll(ring, schedule[t]);
      t, k, start := t + 1, k + 1, ring.readPtr;
      var ret := Poll(ring, buf, filled, size);
      filled, size := filled + ret, size - ret;
      if size == 0 {
        return;
      }
    }
  }

  /** One read of the loop. */
  method Poll(ring: RingBuffer, buf: array<Byte>, filled: nat, size: nat) returns (ret: nat)
    requires ring.Valid() && buf != ring.buf && filled + size <= buf.Length
    modifies ring, buf
    ensures ring.Valid()
    ensures if |old(ring.Contents())| >= size then
              && ret == size && ring.Contents() == old(ring.Contents())[size..]
              && ring.readPtr == Slot(old(ring.readPtr), size, ring.buf.Length)
              && (size <= ring.buf.Length - old(ring.readPtr) ==> buf[filled..filled + size] == old(ring.Contents())[..size])
            else ret == 0 && ring.Contents() == old(ring.Contents()) && buf[..] == old(buf[..])
  {
    ghost var r, w, before := ring.readPtr, ring.writePtr, buf[filled..filled + size];
    ret := ring.Read(buf, filled, size);
    if size <= Gap(r, w, ring.buf.Length) && size <= ring.buf.Length - r {
      StraightRead(ring.buf[..], r, w, size, before);
    }
  }
}
