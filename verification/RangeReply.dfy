/** Replies from in-memory files: mg_write_range and the transfer steps of the poll loop (sections 2.1 and 4.2 of
    RFC 7233). */
module RangeReply {
  import opened Words
  import opened Common
  import opened IoBuffer
  import opened SegmentBuffer
  import opened Transfer
  import opened Answers
  import opened Requests
  import opened FileServer
  import opened Connection

  /** What sscanf finds in the Range header, when its numbers are not negative. */
  datatype Range = Whole | From(r1: nat) | FromTo(r1: nat, r2: nat)

  /** The numbers in the reply header: status, Content-Length, and for a part the first and last position. */
  datatype Announcement = Announcement(status: int, contentLength: int, first: int, last: int)

  function Min(a: int, b: int): int { if a < b then a else b }

  /** A range that begins in the file or right behind it, and does not end before the byte in front of its beginning;
      without one, the position that others have left. */
  predicate Inside(h: Range, fileLen: nat, readPtr: int) {
    match h
    case Whole => 0 <= readPtr <= fileLen
    case From(r1) => r1 <= fileLen
    case FromTo(r1, r2) => r1 <= fileLen && r1 <= r2 + 1
  }

  /** The bytes that a request for `h` is for. */
  function Wanted(h: Range, file: seq<Byte>): seq<Byte>
    requires h.Whole? || Inside(h, |file|, 0)
  {
    match h
    case Whole => file
    case From(r1) => file[r1..]
    case FromTo(r1, r2) => file[r1..Min(r2 + 1, |file|)]
  }

  /** What is announced for `h`. */
  function Announced(h: Range, fileLen: nat): Announcement {
    match h
    case Whole => Announcement(200, fileLen, 0, -1)
    case From(r1) => Announcement(206, fileLen - r1, r1, fileLen - 1)
    case FromTo(r1, r2) => Announcement(206, Min(r2, fileLen) - r1 + 1, r1, Min(r2, fileLen))
  }

  function StartOf(h: Range, readPtr: int): int {
    if h.Whole? then readPtr else h.r1
  }

  /** When the announced length is the length that is sent: the last position asked for is inside the file; without a
      Range header, nobody has read from the file before. */
  predicate AnnouncesRight(h: Range, fileLen: nat, readPtr: int) {
    match h
    case Whole => readPtr == 0
    case From(r1) => true
    case FromTo(r1, r2) => r2 < fileLen
  }

  /** The part of the file from the start on, as much of it as was announced or is there. */
  function Sent(h: Range, file: seq<Byte>, readPtr: int): seq<Byte>
    requires Inside(h, |file|, readPtr)
  {
    var start := StartOf(h, readPtr);
    file[start..start + Min(Announced(h, |file|).contentLength, |file| - start)]
  }

  /** What is sent is what was asked for, and as long as announced exactly when the announcement is right. */
  lemma SentExactly(h: Range, file: seq<Byte>, readPtr: int)
    requires Inside(h, |file|, readPtr)
    ensures h != Whole ==> Sent(h, file, readPtr) == Wanted(h, file)
    ensures h == Whole ==> Sent(h, file, readPtr) == file[readPtr..]
    ensures var a := Announced(h, |file|);
            && (|Sent(h, file, readPtr)| == a.contentLength <==> AnnouncesRight(h, |file|, readPtr))
            && (h != Whole && |Sent(h, file, readPtr)| == a.contentLength > 0 ==>
                  a.first == h.r1 && a.last == h.r1 + a.contentLength - 1)
  {
  }

  /** A part is announced as a part, with its positions as they were asked for; the whole file is not. */
  lemma StatusIs(h: Range, fileLen: nat)
    ensures Announced(h, fileLen).status == 206 || Announced(h, fileLen).status == 200
    ensures Announced(h, fileLen).status == 206 <==> h.From? || h.FromTo?
    ensures h.FromTo? && h.r1 <= h.r2 < fileLen ==>
      Announced(h, fileLen) == Announcement(206, |Wanted(h, seq(fileLen, _ => 0))|, h.r1, h.r2)
    ensures h.From? && h.r1 <= fileLen ==>
      Announced(h, fileLen) == Announcement(206, |Wanted(h, seq(fileLen, _ => 0))|, h.r1, fileLen - 1)
  {
  }

  /** The examples of section 2.1 of RFC 7233, for a file of 10000 bytes: the first, the second and the final 500. */
  lemma StandardRanges()
    ensures Announced(FromTo(0, 499), 10000) == Announcement(206, 500, 0, 499)
    ensures Announced(FromTo(500, 999), 10000) == Announcement(206, 500, 500, 999)
    ensures Announced(From(9500), 10000) == Announcement(206, 500, 9500, 9999)
  {
  }

  /** What a request is for: a range, the in-memory file that it names, and the text of the header. */
  datatype Asked = Asked(range: Range, file: seq<Byte>, header: Announcement -> seq<Byte>) {
    function Announces(): Announcement { Announced(range, |file|) }
  }

  /** The server's handler for `r`: the header for what is announced, and the announced length. */
  predicate Serves(h: Handler, r: seq<Byte>, q: Asked) {
    h.reply(r) == q.header(q.Announces()) && h.fileLen(r) == q.Announces().contentLength
  }

  /** From the request to the last byte: every connection that is closed without error or timeout has sent the header and
      all of `Sent`, whatever the client's socket takes when, if and only if it did not wait to be closed when the request
      was taken, or there was nothing to send. */
  lemma RangeReplyExactly(h: Handler, q: Asked, l: Life, file: int -> Io, bytes: seq<Byte>, r: seq<Byte>, more: seq<Byte>,
                          readPtr: int)
    requires |bytes| <= IoBufSize && (forall k :: file(k).Read(k))
    requires Sound(h, l) && !l.closed && Brings(h, AfterFile(l.f, file), bytes, r, more) && |more| >= h.contentLen(r)
    requires Serves(h, r, q) && Inside(q.range, |q.file|, readPtr)
    ensures (forall turns ::
               && Reads(h, q.file, StartOf(q.range, readPtr), r, Beginning(h, r, more), turns, file, bytes)
               && LiveAll(h, l, turns).Clean() ==>
                 HasSent(LiveAll(h, l, turns).f, AfterFile(l.f, file).spooled, q.header(q.Announces()),
                         Sent(q.range, q.file, readPtr)))
            <==> !AfterFile(l.f, file).spoolDone || Sent(q.range, q.file, readPtr) == []
  {
    hide Brings, AfterFile, Sound, LiveAll, Reads, HasSent;
    ReplyExactly(h, l, file, bytes, r, more, q.file, StartOf(q.range, readPtr));
  }

  /** An answer from its beginning: the connection's life when request `r` had been taken, the transfer, and the file. */
  datatype Begin = Begin(l: Life, r: seq<Byte>, t: Progress, data: seq<Byte>, start: nat)
  {
    ghost predicate Valid(h: Handler) {
      && Sound(h, l) && start <= |data| && t.cl >= 0 && !t.ended && t.parts == [] == t.spooled
      && l.now == Some(Entry(r, h.reply(r), t))
    }

    /** After the turns of `made`. */
    ghost predicate Going(h: Handler, made: seq<Turn>, m: Life, u: Progress) {
      && AllValid(made) && m == LiveAll(h, l, made) && Sound(h, m) && u == NextAll(h, r, t, made)
      && FromFile(data, start, h, r, t, made) && NoRestarts(h, r, t, made)
      && l.now.Some? && Follows(l.past, l.now.value, m, u)
    }

    lemma FileNext(h: Handler, made: seq<Turn>, m: Life, u: Progress, x: Turn)
      requires Valid(h) && Going(h, made, m, u) && !m.closed && !u.ended && ValidTurn(x) && x.client.Bytes() == []
      requires start + |u.parts| <= |data| && x.file(Limit(u.cl)) == ReadAt(data, start + |u.parts|, Limit(u.cl))
      ensures Going(h, made + [x], Live(h, m, x), Next(h, r, u, x))
    {
      hide Live, Next, Sound, ReadAt;
      assert (made + [x])[..|made|] == made;
      LiveSound(h, m, x);
      FollowsOn(h, l.past, l.now.value, m, u, x);
    }

    /** The connection's length is the transfer's. */
    lemma SameLength(h: Handler, made: seq<Turn>, m: Life, u: Progress)
      requires Valid(h) && Going(h, made, m, u) && !u.ended
      ensures l.now.Some? && Current(h, m.f, Some(l.now.value.(t := u))) && m.f.cl == u.cl && m.f.request == r
    {
      hide LiveAll, NextAll, FromFile, NoRestarts;
    }

    lemma SoFarOnFile(h: Handler, made: seq<Turn>, m: Life, u: Progress)
      requires Valid(h) && Going(h, made, m, u)
      ensures OnFile(data, start, t.cl, u) && InTime(data, start, t.cl, u, |made|)
      ensures u.spooled == u.parts && (!u.ended ==> |m.f.spooled| == |l.f.spooled| + |u.parts|)
    {
      hide LiveAll, NextAll, FromFile, NoRestarts, Follows, OnFile, InTime, Current, AllOver, Listed, Flat;
      AnswerIsSpooled(l.past, l.now.value, m, u);
      LivesBefore(h, l, made);
      PartsOfFile(data, start, h, r, t, made);
      EndsInTime(data, start, h, r, t, made);
      IntactExactly(h, r, t, made);
    }
  }

  /** There is memory for the rest of the file. */
  predicate RoomForRest(b: Begin, m: Life, u: Progress) {
    |m.f.rest| <= MaxLength && |m.f.spooled| - m.f.sent + (|b.data| - b.start - |u.parts|) <= MaxLength
  }

  /** A turn without bytes from the client: the file part is all that is spooled. */
  lemma RoomForPart(h: Handler, f: Service, e: Entry, x: Turn)
    requires Current(h, f, Some(e)) && ValidTurn(x) && x.client.Bytes() == []
    requires |f.rest| <= MaxLength && |f.spooled| - f.sent + |x.file(Limit(f.cl)).Bytes()| <= MaxLength
    ensures Room(h, f, x)
  {
    PartIsNext(h, f, e, x);
    hide Next, Current;
    var g := AfterFile(f, x.file);
    assert g.rest + [] == g.rest;
  }

  class Reply {
    /** `userhandle` of the connection. */
    const handle: Buffer
    const conn: Conn

    ghost predicate Valid()
      reads this, handle, conn, conn.local, conn.remote, conn.remote.buf
    {
      && handle.Valid() && conn.Valid()
      && handle.buf != conn.local.buf && handle.buf != conn.remote.buf
    }

    constructor (handle: Buffer, conn: Conn)
      requires handle.Valid() && conn.Valid() && handle.buf != conn.local.buf && handle.buf != conn.remote.buf
      ensures Valid() && this.handle == handle && this.conn == conn
    {
      this.handle, this.conn := handle, conn;
    }

    /** mg_write_range, up to the text of the headers: only a Range header moves the read position. The length stays
        non-negative and the position inside the file exactly for a range that is. */
    method WriteRange(h: Range, fileLen: nat) returns (a: Announcement)
      modifies handle`readPtr
      ensures a == Announced(h, fileLen) && handle.readPtr == StartOf(h, old(handle.readPtr))
      ensures a.contentLength >= 0 && 0 <= handle.readPtr <= fileLen <==> Inside(h, fileLen, old(handle.readPtr))
    {
      var cl: int := fileLen;
      a := Announcement(200, cl, 0, -1);
      if h != Whole {
        cl := if h.FromTo? then (if h.r2 > cl then cl else h.r2) - h.r1 + 1 else cl - h.r1;
        a := Announcement(206, cl, h.r1, h.r1 + cl - 1);
        handle.Seek(h.r1);
      }
    }

    /** user_defined_requst, for a file that was found: the handler that the connection calls. */
    method UserRequest(r: seq<Byte>, q: Asked) returns (headers: seq<Byte>, cl: int)
      requires handle.Valid() && handle.Contents() == q.file && Serves(conn.h, r, q)
      modifies handle`readPtr
      ensures headers == conn.h.reply(r) && cl == conn.h.fileLen(r)
      ensures handle.readPtr == StartOf(q.range, old(handle.readPtr))
    {
      var a := WriteRange(q.range, handle.writePtr);
      headers, cl := q.header(a), a.contentLength;
    }

    /** In the middle of an answer. */
    ghost predicate Answering(b: Begin, made: seq<Turn>, m: Life, t: Progress)
      reads this, handle, handle.buf, conn, conn.local, conn.local.buf, conn.remote, conn.remote.buf
    {
      && Valid() && Lives(conn, m) && handle.Contents() == b.data && b.Valid(conn.h) && b.Going(conn.h, made, m, t)
      && (!t.ended ==> handle.readPtr == b.start + |t.parts|)
    }

    /** One turn of the transfer: less is still announced as long as the endpoint stays open. */
    method AnswerTurn(c: Client, ghost b: Begin, ghost made: seq<Turn>, ghost m: Life, ghost t: Progress)
      returns (closed: bool, ended: bool, ghost x: Turn, ghost m': Life, ghost t': Progress)
      requires Answering(b, made, m, t) && !m.closed && !t.ended && c.Valid() && c.Bytes() == []
      requires RoomForRest(b, m, t)
      modifies handle`readPtr, conn, conn.local, conn.local.buf, conn.remote, conn.remote.buf
      ensures conn.local.buf == old(conn.local.buf) || fresh(conn.local.buf)
      ensures conn.remote.buf == old(conn.remote.buf) || fresh(conn.remote.buf)
      ensures Answering(b, made + [x], m', t')
      ensures closed == m'.closed && ended == t'.ended
      ensures !ended ==> 0 < conn.cl < old(conn.cl) && RoomForRest(b, m', t')
    {
      hide Begin.Valid, Begin.Going, Sound, Room, Live, Next, Conn.Valid, Handler.Arrive;
      TurnAhead(conn.h, b, made, m, t, c);
      assert conn.cl == m.f.cl;
      hide Lives;
      var pos, all := handle.readPtr, handle.Contents();
      x := FileTurn(c, all, pos);
      ended := Last(conn.cl, FileTurn(c, all, pos));
      ReadOnce(conn.cl, pos, all);
      closed, m' := ServeFilesTurn(conn, FileTurn(c, all, pos), m);
      t' := Next(conn.h, b.r, t, x);
      LivesIs(m');
    }

    /** The request arrives, and its handler is called: the header is spooled, the length announced, and the file is at
        its start. */
    method TakeTurn(c: Client, r: seq<Byte>, ghost more: seq<Byte>, q: Asked, ghost l: Life)
      returns (closed: bool, ghost x: Turn, ghost m: Life, ghost b: Begin)
      requires Valid() && Lives(conn, l) && !l.closed && l.now.None? && c.Valid()
      requires Brings(conn.h, l.f, c.Bytes(), r, more) && |more| >= conn.h.contentLen(r)
      requires Serves(conn.h, r, q) && handle.Contents() == q.file && Inside(q.range, |q.file|, handle.readPtr)
      requires |l.f.rest| + |c.Bytes()| <= MaxLength
      requires |l.f.spooled| - l.f.sent + |conn.h.reply(r)| <= MaxLength
      modifies handle`readPtr, conn, conn.local, conn.local.buf, conn.remote, conn.remote.buf
      ensures conn.local.buf == old(conn.local.buf) || fresh(conn.local.buf)
      ensures conn.remote.buf == old(conn.remote.buf) || fresh(conn.remote.buf)
      ensures closed == m.closed && m == Live(conn.h, l, x) && x.client == c
      ensures Answering(b, [], m, b.t) && b.l == m && b.r == r && b.data == q.file
      ensures !b.t.ended && b.t.parts == [] && b.t.cl == q.Announces().contentLength
      ensures b.start == StartOf(q.range, old(handle.readPtr))
      ensures m.before + Flat(m.past) == l.f.spooled && m.f.spooled == l.f.spooled + conn.h.reply(r)
      ensures m.f.sent >= l.f.sent && (!l.f.spoolDone ==> Unfinished(m, |m.past|)) && |m.f.rest| <= MaxLength
    {
      hide Begin.Valid, Begin.Going, Sound, Room, Live, Beginning, Conn.Valid, Handler.Arrive, Inside, Serves, Brings;
      TakingAhead(conn.h, l, c, r, more);
      ServedInside(conn.h, r, q, handle.readPtr);
      ServedIs(conn.h, r, q);
      hide Lives;
      ghost var start: nat := StartOf(q.range, handle.readPtr);
      var headers, cl := UserRequest(r, q);
      closed, m := ServeFilesTurn(conn, FileTurn(c, [], 0), l);
      x := FileTurn(c, [], 0);
      b := Begin(m, r, Beginning(conn.h, r, more), q.file, start);
      JustBegun(conn.h, b, more);
      LivesIs(m);
    }

    /** From the request on: the turn that brings it, and the poll loop while the file goes out and the client sends no
        more. `done` turns were made; `ended` says whether the endpoint has been closed. The answer is complete after one
        turn for every 8192 bytes, and one more, if the connection is not closed before; and that comes without error or
        timeout only when all of it has been sent, unless the connection waited to be closed from the beginning. */
    method Answer(clients: seq<Client>, r: seq<Byte>, ghost more: seq<Byte>, q: Asked, ghost l: Life)
      returns (done: nat, closed: bool, ended: bool, ghost m: Life, ghost t: Progress)
      requires Valid() && Lives(conn, l) && !l.closed && l.now.None?
      requires clients != [] && forall i :: 0 <= i < |clients| ==> clients[i].Valid() && (i > 0 ==> clients[i].Bytes() == [])
      requires Brings(conn.h, l.f, clients[0].Bytes(), r, more) && |more| >= conn.h.contentLen(r)
      requires Serves(conn.h, r, q) && handle.Contents() == q.file && Inside(q.range, |q.file|, handle.readPtr)
      requires |l.f.rest| + |clients[0].Bytes()| <= MaxLength
      requires |l.f.spooled| - l.f.sent + |conn.h.reply(r)| + |q.file| <= MaxLength
      modifies handle`readPtr, conn, conn.local, conn.local.buf, conn.remote, conn.remote.buf
      ensures Lives(conn, m) && closed == m.closed && 0 < done <= |clients| && (done < |clients| ==> closed || ended)
      ensures t.spooled <= old(Sent(q.range, q.file, handle.readPtr))
      ensures old(conn.spooled) + q.header(q.Announces()) + t.spooled <= conn.spooled
      ensures ended ==> t.spooled == old(Sent(q.range, q.file, handle.readPtr))
      ensures closed || ended || 8192 * (|clients| - 2) < old(|Sent(q.range, q.file, handle.readPtr)|)
      ensures m.Clean() && !l.f.spoolDone ==>
                HasSent(conn.Now(), old(conn.spooled), q.header(q.Announces()), old(Sent(q.range, q.file, handle.readPtr)))
    {
      hide Begin.Valid, Begin.Going, Sound, Conn.Valid, Brings, Serves, Inside, Sent, Announced, HasSent, Flat, Unfinished;
      hide StartOf, PartOf;
      ServedIs(conn.h, r, q);
      ServedInside(conn.h, r, q, handle.readPtr);
      LivesIs(l);
      ghost var was := handle.readPtr;
      ghost var x, b, made;
      closed, x, m, b := TakeTurn(clients[0], r, more, q, l);
      hide Lives, Beginning;
      done, closed, ended, m, t, made := AnswerLoop(clients, closed, b);
      LivesIs(m);
      AnswerIs(conn.h, b, made, m, t, q, was);
    }

    method AnswerLoop(clients: seq<Client>, closed0: bool, ghost b: Begin)
      returns (done: nat, closed: bool, ended: bool, ghost m: Life, ghost t: Progress, ghost made: seq<Turn>)
      requires Answering(b, [], b.l, b.t) && closed0 == b.l.closed && !b.t.ended && RoomForRest(b, b.l, b.t)
      requires clients != [] && forall i :: 0 < i < |clients| ==> clients[i].Valid() && clients[i].Bytes() == []
      modifies handle`readPtr, conn, conn.local, conn.local.buf, conn.remote, conn.remote.buf
      ensures Answering(b, made, m, t) && closed == m.closed && ended == t.ended
      ensures 0 < done <= |clients| && |made| == done - 1 && (done < |clients| ==> closed || ended)
    {
      hide *;
      done, closed, ended, m, t, made := 1, closed0, false, b.l, b.t, [];
      while done < |clients| && !closed && !ended
        invariant 1 <= done <= |clients| && |made| == done - 1
        invariant closed == m.closed && ended == t.ended
        invariant Answering(b, made, m, t) && (!ended ==> RoomForRest(b, m, t))
        invariant conn.local.buf == old(conn.local.buf) || fresh(conn.local.buf)
        invariant conn.remote.buf == old(conn.remote.buf) || fresh(conn.remote.buf)
      {
        ghost var x;
        closed, ended, x, m, t := AnswerTurn(clients[done], b, made, m, t);
        made := made + [x];
        done := done + 1;
      }
    }

    /** mg_io_read */
    method ReadOnce(cl: int, pos: nat, all: seq<Byte>)
      requires handle.Valid() && handle.readPtr == pos <= |all| && all == handle.Contents() && cl >= 0
      modifies handle`readPtr
      ensures handle.readPtr == pos + ReadAt(all, pos, Limit(cl)).n
    {
      var part := handle.Read(Limit(cl));
    }

    lemma LivesIs(m: Life)
      requires Lives(conn, m)
      ensures conn.Valid() && conn.cl == m.f.cl && conn.spooled == m.f.spooled && conn.Now() == m.f
    {
      hide Conn.Valid, Sound;
    }
  }

  /** What an answer has come to. */
  lemma AnswerIs(h: Handler, b: Begin, made: seq<Turn>, m: Life, t: Progress, q: Asked, readPtr: int)
    requires b.Valid(h) && b.Going(h, made, m, t) && Inside(q.range, |q.file|, readPtr)
    requires b.data == q.file && b.start == StartOf(q.range, readPtr) && b.t.cl == q.Announces().contentLength
    ensures t.spooled <= Sent(q.range, q.file, readPtr) && (t.ended ==> t.spooled == Sent(q.range, q.file, readPtr))
    ensures t.ended || made == [] || 8192 * (|made| - 1) < |Sent(q.range, q.file, readPtr)|
    ensures b.l.before + Flat(b.l.past) + h.reply(b.r) + t.spooled <= m.f.spooled
    ensures m.Clean() && Unfinished(b.l, |b.l.past|) ==>
              HasSent(m.f, b.l.before + Flat(b.l.past), h.reply(b.r), Sent(q.range, q.file, readPtr))
  {
    hide LiveAll, NextAll, FromFile, NoRestarts, Current, AllOver, Listed, Flat, OnFile, HasSent, Unfinished, Follows;
    b.SoFarOnFile(h, made, m, t);
    IsPart(b.data, b.start, b.t.cl, t);
    SentIsPart(q, readPtr);
    hide Sent, PartOf, Announced, Inside;
    AnswerIsSpooled(b.l.past, b.l.now.value, m, t);
    LivesBefore(h, b.l, made);
    if m.Clean() && Unfinished(b.l, |b.l.past|) {
      RestSent(h, b.l, made, b.r, b.t, b.data, b.start);
    }
  }

  lemma SentIsPart(q: Asked, readPtr: int)
    requires Inside(q.range, |q.file|, readPtr)
    ensures 0 <= StartOf(q.range, readPtr) <= |q.file| && q.Announces().contentLength >= 0
    ensures Sent(q.range, q.file, readPtr) == PartOf(q.file, StartOf(q.range, readPtr), q.Announces().contentLength)
    ensures |PartOf(q.file, StartOf(q.range, readPtr), q.Announces().contentLength)|
         == Available(q.file, StartOf(q.range, readPtr), q.Announces().contentLength)
  {
  }

  lemma ServedIs(h: Handler, r: seq<Byte>, q: Asked)
    requires Serves(h, r, q)
    ensures h.reply(r) == q.header(q.Announces()) && h.fileLen(r) == q.Announces().contentLength
  {
  }

  lemma ServedInside(h: Handler, r: seq<Byte>, q: Asked, readPtr: int)
    requires Serves(h, r, q) && Inside(q.range, |q.file|, readPtr)
    ensures 0 <= StartOf(q.range, readPtr) <= |q.file| && h.fileLen(r) >= 0
  {
  }

  lemma JustBegun(h: Handler, b: Begin, more: seq<Byte>)
    requires Sound(h, b.l) && b.start <= |b.data| && h.fileLen(b.r) >= 0 && b.t == Beginning(h, b.r, more)
    requires b.l.now == Some(Entry(b.r, h.reply(b.r), b.t))
    ensures b.Valid(h) && b.Going(h, [], b.l, b.t) && b.t.parts == [] && !b.t.ended && b.t.cl == h.fileLen(b.r)
  {
    FollowsFirst(h, b.l);
    hide Sound, Follows;
  }

  lemma TakingAhead(h: Handler, l: Life, c: Client, r: seq<Byte>, more: seq<Byte>)
    requires Sound(h, l) && !l.closed && l.now.None? && c.Valid()
    requires Brings(h, l.f, c.Bytes(), r, more) && |more| >= h.contentLen(r)
    requires |l.f.rest| + |c.Bytes()| <= MaxLength && |l.f.spooled| - l.f.sent + |h.reply(r)| <= MaxLength
    ensures var x := FileTurn(c, [], 0);
            var m := Live(h, l, x);
            && ValidTurn(x) && Room(h, l.f, x) && Sound(h, m)
            && m.now == Some(Entry(r, h.reply(r), Beginning(h, r, more)))
            && m.before + Flat(m.past) == l.f.spooled && m.f.spooled == l.f.spooled + h.reply(r)
            && m.f.sent >= l.f.sent && (!l.f.spoolDone ==> Unfinished(m, |m.past|)) && |m.f.rest| <= MaxLength
  {
    var x := FileTurn(c, [], 0);
    TakingTurn(h, l, x, r, more);
    ReadingBegins(h, l.f, c);
    BegunIs(h, l.f, c.Bytes(), r, more);
    hide Live, Begun, Flat;
  }

  /** What the next turn of an answer does. */
  lemma TurnAhead(h: Handler, b: Begin, made: seq<Turn>, m: Life, t: Progress, c: Client)
    requires b.Valid(h) && b.Going(h, made, m, t) && !m.closed && !t.ended && c.Valid() && c.Bytes() == []
    requires RoomForRest(b, m, t)
    ensures m.f.cl == t.cl >= 0 && b.start + |t.parts| <= |b.data|
    ensures var x := FileTurn(c, b.data, b.start + |t.parts|);
            var m', t' := Live(h, m, x), Next(h, b.r, t, x);
            && ValidTurn(x) && Room(h, m.f, x) && b.Going(h, made + [x], m', t')
            && t'.ended == Last(t.cl, x)
            && (!t'.ended ==> && 0 < t'.cl < t.cl && m'.f.cl == t'.cl && RoomForRest(b, m', t')
                              && |t'.parts| == |t.parts| + x.file(Limit(t.cl)).n)
  {
    hide Begin.Going, Begin.Valid, Live;
    b.SoFarOnFile(h, made, m, t);
    b.SameLength(h, made, m, t);
    var x := FileTurn(c, b.data, b.start + |t.parts|);
    b.FileNext(h, made, m, t, x);
    RoomForPart(h, m.f, b.l.now.value.(t := t), x);
    NextDecreases(b.data, b.start, b.t.cl, h, b.r, t, x);
    if !Next(h, b.r, t, x).ended {
      b.SameLength(h, made + [x], Live(h, m, x), Next(h, b.r, t, x));
      b.SoFarOnFile(h, made + [x], Live(h, m, x), Next(h, b.r, t, x));
      SentGrows(h, b, made, m, t, x);
    }
  }

  lemma SentGrows(h: Handler, b: Begin, made: seq<Turn>, m: Life, t: Progress, x: Turn)
    requires b.Valid(h) && b.Going(h, made, m, t) && !m.closed && ValidTurn(x) && !Next(h, b.r, t, x).ended && !t.ended
    ensures Live(h, m, x).f.sent >= m.f.sent
  {
    hide FromFile, NoRestarts, LiveAll, NextAll, Next, Live;
    TransferSound(h, m, x);
  }

  /** A turn in which the file is read at `pos`. */
  function FileTurn(c: Client, data: seq<Byte>, pos: nat): Turn
    requires pos <= |data|
  {
    Turn(c, k => ReadAt(data, pos, k))
  }
}
