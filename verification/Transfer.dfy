/** What one connection meets in a turn of the poll loop, and what becomes of a file that is being transferred to it. */
module Transfer {
  import opened Words
  import opened IoBuffer
  import opened Answers

  /** is_error on what recv, send or a file read returned; `retry` for EINTR and EAGAIN. */
  predicate IsError(n: int, retry: bool) {
    n == 0 || (n < 0 && !retry)
  }

  /** What one I/O call gives: its result, the bytes of a read, and whether a failure is only temporary. */
  datatype Io = Io(n: int, data: seq<Byte>, retry: bool) {
    predicate Read(limit: int) { n <= limit && (n > 0 ==> |data| == n) }
    predicate Failed() { IsError(n, retry) }
    function Bytes(): seq<Byte> { if n > 0 then data else [] }
  }

  /** The client's part of a turn; `sending.n` is how much its socket would take. */
  datatype Client = Client(readable: bool, received: Io, writable: bool, sending: Io, expired: bool) {
    predicate Valid() { received.Read(IoBufSize) }
    function Bytes(): seq<Byte> { if readable then received.Bytes() else [] }
  }

  /** A turn: the client, and what the file gives for a read of so many bytes. */
  datatype Turn = Turn(client: Client, file: int -> Io)

  function Limit(cl: int): int { if cl < IoBufSize then cl else IoBufSize }

  ghost predicate ValidTurn(x: Turn) {
    x.client.Valid() && forall k :: x.file(k).Read(k)
  }

  /** A transfer: the local buffer, the length still announced, the parts read from the file, what has been spooled since
      the announcement, and whether the endpoint has been closed. */
  datatype Progress = Progress(buffered: seq<Byte>, cl: int, parts: seq<Byte>, spooled: seq<Byte>, ended: bool)

  /** The file read of a turn ends the transfer. */
  predicate Last(cl: int, x: Turn) {
    var io := x.file(Limit(cl));
    io.Failed() || (io.n > 0 && cl <= io.n)
  }

  /** The turn brings bytes that make the handler run again: the body of request `r` is still there. */
  predicate Restarts(h: Handler, r: seq<Byte>, t: Progress, x: Turn) {
    !Last(t.cl, x) && x.client.Bytes() != [] && |t.buffered + x.client.Bytes()| >= h.contentLen(r)
  }

  /** One turn of a transfer for request `r`. */
  function Next(h: Handler, r: seq<Byte>, t: Progress, x: Turn): Progress {
    var part := x.file(Limit(t.cl)).Bytes();
    var parts, spooled := t.parts + part, t.spooled + part;
    if Last(t.cl, x) then Progress(t.buffered, t.cl - |part|, parts, spooled, true)
    else
      var buffered := t.buffered + x.client.Bytes();
      if Restarts(h, r, t, x) then Progress(buffered, h.fileLen(r), parts, spooled + h.reply(r), false)
      else Progress(buffered, t.cl - |part|, parts, spooled, false)
  }

  /** All turns, up to the one that ends the transfer. */
  function NextAll(h: Handler, r: seq<Byte>, t0: Progress, turns: seq<Turn>): Progress {
    if turns == [] then t0
    else
      var t := NextAll(h, r, t0, turns[..|turns| - 1]);
      if t.ended then t else Next(h, r, t, turns[|turns| - 1])
  }

  /** No turn makes the handler run again. */
  predicate NoRestarts(h: Handler, r: seq<Byte>, t0: Progress, turns: seq<Turn>) {
    turns == [] ||
    var before := turns[..|turns| - 1];
    var t := NextAll(h, r, t0, before);
    NoRestarts(h, r, t0, before) && (t.ended || !Restarts(h, r, t, turns[|turns| - 1]))
  }

  /** No turn brings bytes that make the handler say something in the middle of the file. */
  predicate Undisturbed(h: Handler, r: seq<Byte>, t0: Progress, turns: seq<Turn>) {
    h.reply(r) == [] || NoRestarts(h, r, t0, turns)
  }

  /** The bytes spooled from the announcement on are exactly the parts read from the file, in order, if and only if no
      turn makes the handler run again with something to say. */
  lemma {:induction false} IntactExactly(h: Handler, r: seq<Byte>, t0: Progress, turns: seq<Turn>)
    requires t0.spooled == t0.parts
    ensures var t := NextAll(h, r, t0, turns);
            && |t.spooled| >= |t.parts|
            && (|t.spooled| == |t.parts| <==> Undisturbed(h, r, t0, turns))
            && (t.spooled == t.parts <==> Undisturbed(h, r, t0, turns))
  {
    if turns != [] {
      IntactExactly(h, r, t0, turns[..|turns| - 1]);
    }
  }

  // A file in memory.

  /** A read of at most `k` bytes at position `pos` of the file. */
  function ReadAt(file: seq<Byte>, pos: nat, k: int): Io
    requires pos <= |file|
  {
    var n := if pos + k > |file| then |file| - pos else k;
    Io(n, if n > 0 then file[pos..pos + n] else [], false)
  }

  /** Every read finds the file where the one before has left off. */
  ghost predicate FromFile(file: seq<Byte>, start: nat, h: Handler, r: seq<Byte>, t0: Progress, turns: seq<Turn>)
  {
    turns == [] ||
    var before, x := turns[..|turns| - 1], turns[|turns| - 1];
    var t := NextAll(h, r, t0, before);
    && FromFile(file, start, h, r, t0, before)
    && (t.ended || (start + |t.parts| <= |file| && x.file(Limit(t.cl)) == ReadAt(file, start + |t.parts|, Limit(t.cl))))
  }

  /** The parts read are the file from `start` on, out of `total` bytes; all of them, if the transfer has ended. */
  ghost predicate OnFile(file: seq<Byte>, start: nat, total: int, t: Progress) {
    && start + |t.parts| <= |file| && t.parts == file[start..start + |t.parts|]
    && t.cl == total - |t.parts| >= 0
    && (t.ended ==> |t.parts| == Available(file, start, total))
  }

  lemma NextOnFile(file: seq<Byte>, start: nat, total: int, h: Handler, r: seq<Byte>, t: Progress, x: Turn)
    requires OnFile(file, start, total, t) && !t.ended && !Restarts(h, r, t, x)
    requires x.file(Limit(t.cl)) == ReadAt(file, start + |t.parts|, Limit(t.cl))
    ensures OnFile(file, start, total, Next(h, r, t, x))
  {
    var part := x.file(Limit(t.cl)).Bytes();
    assert part == file[start + |t.parts|..start + |t.parts| + |part|];
    NextPart(file, start, |t.parts|, |part|);
  }

  lemma NextPart(file: seq<Byte>, start: nat, done: nat, more: nat)
    requires start + done + more <= |file|
    ensures file[start..start + done] + file[start + done..start + done + more] == file[start..start + (done + more)]
  {
  }

  /** A file in memory, and no bytes from the client that make the handler run again: the parts are the file from `start`
      on, and in the end as much of it as was announced or is there. */
  lemma {:induction false} PartsOfFile(file: seq<Byte>, start: nat, h: Handler, r: seq<Byte>, t0: Progress, turns: seq<Turn>)
    requires start <= |file| && t0.cl >= 0 && t0.parts == [] && !t0.ended
    requires FromFile(file, start, h, r, t0, turns) && NoRestarts(h, r, t0, turns)
    ensures OnFile(file, start, t0.cl, NextAll(h, r, t0, turns))
  {
    hide OnFile, Next;
    if turns == [] {
      OnFileStart(file, start, t0);
    } else {
      var before := turns[..|turns| - 1];
      PartsOfFile(file, start, h, r, t0, before);
      var t := NextAll(h, r, t0, before);
      if !t.ended {
        NextOnFile(file, start, t0.cl, h, r, t, turns[|turns| - 1]);
      }
    }
  }

  /** The length of the parts when a transfer of `total` bytes from `start` on has ended. */
  function Available(file: seq<Byte>, start: nat, total: int): int {
    if total < |file| - start then total else |file| - start
  }

  /** While the endpoint stays open, every turn brings the end nearer: less is still announced. */
  lemma NextDecreases(file: seq<Byte>, start: nat, total: int, h: Handler, r: seq<Byte>, t: Progress, x: Turn)
    requires OnFile(file, start, total, t) && !t.ended && !Restarts(h, r, t, x)
    requires x.file(Limit(t.cl)) == ReadAt(file, start + |t.parts|, Limit(t.cl))
    ensures var u := Next(h, r, t, x); u.ended || 0 < u.cl < t.cl
  {
  }

  /** After `k` turns the transfer has ended, or all of them have read what they could. */
  predicate InTime(file: seq<Byte>, start: nat, total: int, t: Progress, k: nat) {
    || t.ended
    || (&& (k == 0 || IoBufSize * (k - 1) < Available(file, start, total))
        && (|t.parts| == IoBufSize * k || |t.parts| == |file| - start))
  }

  lemma NextInTime(file: seq<Byte>, start: nat, total: int, h: Handler, r: seq<Byte>, t: Progress, x: Turn, k: nat)
    requires OnFile(file, start, total, t) && InTime(file, start, total, t, k) && !t.ended && !Restarts(h, r, t, x)
    requires x.file(Limit(t.cl)) == ReadAt(file, start + |t.parts|, Limit(t.cl))
    ensures InTime(file, start, total, Next(h, r, t, x), k + 1)
  {
    NextDecreases(file, start, total, h, r, t, x);
  }

  /** The endpoint is closed after one turn for every 8192 bytes and one more. */
  lemma {:induction false} EndsInTime(file: seq<Byte>, start: nat, h: Handler, r: seq<Byte>, t0: Progress, turns: seq<Turn>)
    requires start <= |file| && t0.cl >= 0 && t0.parts == [] && !t0.ended
    requires FromFile(file, start, h, r, t0, turns) && NoRestarts(h, r, t0, turns)
    ensures InTime(file, start, t0.cl, NextAll(h, r, t0, turns), |turns|)
  {
    hide OnFile, Next, InTime;
    if turns == [] {
      AtFirst(file, start, t0);
    } else {
      var before, x := turns[..|turns| - 1], turns[|turns| - 1];
      EndsInTime(file, start, h, r, t0, before);
      PartsOfFile(file, start, h, r, t0, before);
      var t := NextAll(h, r, t0, before);
      if t.ended {
        OverInTime(file, start, t0.cl, t, |turns|);
      } else {
        NextInTime(file, start, t0.cl, h, r, t, x, |before|);
      }
    }
  }

  lemma AtFirst(file: seq<Byte>, start: nat, t0: Progress)
    requires t0.parts == []
    ensures InTime(file, start, t0.cl, t0, 0)
  {
  }

  lemma OverInTime(file: seq<Byte>, start: nat, total: int, t: Progress, k: nat)
    requires t.ended
    ensures InTime(file, start, total, t, k)
  {
  }

  lemma OnFileStart(file: seq<Byte>, start: nat, t0: Progress)
    requires start <= |file| && t0.cl >= 0 && t0.parts == [] && !t0.ended
    ensures OnFile(file, start, t0.cl, t0)
  {
  }

  // Turns that were not made.

  lemma {:induction false} FromFileSoFar(file: seq<Byte>, start: nat, h: Handler, r: seq<Byte>, t0: Progress,
                                         turns: seq<Turn>, j: nat)
    requires j <= |turns| && FromFile(file, start, h, r, t0, turns) && NoRestarts(h, r, t0, turns)
    ensures FromFile(file, start, h, r, t0, turns[..j]) && NoRestarts(h, r, t0, turns[..j])
  {
    if j < |turns| {
      FromFileSoFar(file, start, h, r, t0, turns[..|turns| - 1], j);
      assert turns[..|turns| - 1][..j] == turns[..j];
    } else {
      assert turns[..j] == turns;
    }
  }
}
