/** A connection of a server of in-memory files, as a state machine: one turn of the poll loop after the other, and what
    becomes of each request over the connection's whole life. */
module FileServer {
  import opened Words
  import opened Common
  import opened IoBuffer
  import opened Requests
  import opened Answers
  import opened Transfer

  /** Where a connection is: the local buffer, the request that is open ([] if none is) and the length still announced
      for it, the flags, the requests taken, all that was spooled, and how much of that has been sent. */
  datatype Service = Service(
    rest: seq<Byte>, request: seq<Byte>, cl: int, spoolDone: bool, close: bool, error: bool,
    taken: seq<seq<Byte>>, spooled: seq<Byte>, sent: nat)
  {
    /** Something is still to be sent. */
    predicate Waiting() { sent < |spooled| }

    /** The remote buffer holds no more than an int can measure. */
    predicate Fits() { |spooled| - sent <= MaxLength }
  }

  const Fresh := Service([], [], 0, false, false, false, [], [], 0)

  // The steps.

  function Said(f: Service, bytes: seq<Byte>): Service {
    f.(spooled := f.spooled + bytes)
  }

  /** close_local_endpoint without keep-alive. */
  function Ended(f: Service): Service {
    f.(request := [], cl := 0, spoolDone := f.Waiting(), close := !f.Waiting())
  }

  /** call_uri_handler_if_data_is_buffered */
  function Handled(h: Handler, f: Service): Service {
    if |f.rest| < h.contentLen(f.request) then f
    else Said(f, h.reply(f.request)).(cl := h.fileLen(f.request))
  }

  /** process_request */
  function Opened(h: Handler, f: Service): Service {
    if f.request != [] then Handled(h, f)
    else
      var n := RequestLen(f.rest);
      if 0 < n <= |f.rest| then
        var r := f.rest[..n];
        var g := f.(rest := f.rest[n..], taken := f.taken + [r]);
        if h.info(r).Valid() then Handled(h, g.(request := r)) else Ended(Said(g, h.Response(r)))
      else
        var code := h.Refusal(n, [], |f.rest|);
        if code == 0 then f else Ended(Said(f, h.errorReply(code)))
  }

  /** read_from_client */
  function Received(h: Handler, f: Service, io: Io): Service {
    if io.Failed() then f.(close := true, error := true)
    else if io.n > 0 then Opened(h, f.(rest := f.rest + io.data))
    else f
  }

  /** write_to_client, when the socket would take `io.n` bytes. */
  function Written(f: Service, io: Io): Service {
    var n := if io.n > |f.spooled| - f.sent then |f.spooled| - f.sent else io.n;
    var g := if IsError(n, io.retry) then f.(close := true, error := true)
             else if n > 0 then f.(sent := f.sent + n)
             else f;
    if |g.spooled| == g.sent && g.spoolDone then g.(close := true) else g
  }

  /** transfer_file_data */
  function Part(f: Service, io: Io): Service {
    if io.Failed() then Ended(f)
    else if io.n <= 0 then f
    else
      var g := Said(f, io.data).(cl := f.cl - io.n);
      if g.cl <= 0 then Ended(g) else g
  }

  function AfterFile(f: Service, file: int -> Io): Service {
    if f.request == [] then f else Part(f, file(Limit(f.cl)))
  }

  function AfterReading(h: Handler, f: Service, c: Client): Service {
    if c.readable then Received(h, f, c.received) else f
  }

  function AfterWriting(f: Service, c: Client, wantWrite: bool): Service {
    if wantWrite && c.writable then Written(f, c.sending) else f
  }

  /** One turn of mg_poll_server; whether the connection is closed in it. */
  function Polled(h: Handler, f: Service, x: Turn): (Service, bool) {
    var g := AfterFile(f, x.file);
    if !g.Waiting() && g.close then (g, true)
    else
      var k := AfterWriting(AfterReading(h, g, x.client), x.client, g.Waiting());
      (k, k.close || x.client.expired)
  }

  /** There is memory for what a turn receives and spools. */
  predicate Room(h: Handler, f: Service, x: Turn) {
    var g := AfterFile(f, x.file);
    && g.Fits() && |g.rest| + |x.client.Bytes()| <= MaxLength
    && AfterReading(h, g, x.client).Fits()
  }

  // A connection's life.

  /** What was spooled for one request ([] for bytes that are none): by its handler when it was taken, or by a refusal,
      and by the transfer of its file. */
  datatype Entry = Entry(request: seq<Byte>, head: seq<Byte>, t: Progress) {
    function Bytes(): seq<Byte> { head + t.spooled }
    function Names(): seq<seq<Byte>> { if request == [] then [] else [request] }
  }

  /** Where a connection is; whether it is closed; what was taken and spooled before; all answers that are complete, and
      the one that is not. */
  datatype Life = Life(
    f: Service, closed: bool, earlier: seq<seq<Byte>>, before: seq<Byte>, past: seq<Entry>, now: Option<Entry>)
  {
    /** Closed, but not for an error or a timeout. */
    predicate Clean() { closed && f.close && !f.error }
  }

  const Born := Life(Fresh, false, [], [], [], None)

  function Flat(entries: seq<Entry>): seq<Byte> {
    if entries == [] then [] else Flat(entries[..|entries| - 1]) + entries[|entries| - 1].Bytes()
  }

  function AllNames(entries: seq<Entry>): seq<seq<Byte>> {
    if entries == [] then [] else AllNames(entries[..|entries| - 1]) + entries[|entries| - 1].Names()
  }

  function Refused(request: seq<Byte>, reply: seq<Byte>): Entry {
    Entry(request, reply, Progress([], 0, [], [], true))
  }

  /** The beginning of the answer to `r`, with `rest` behind it. */
  function Taken(h: Handler, r: seq<Byte>, rest: seq<Byte>, cl: int): Entry {
    if |rest| < h.contentLen(r) then Entry(r, [], Progress(rest, cl, [], [], false))
    else Entry(r, h.reply(r), Progress(rest, h.fileLen(r), [], [], false))
  }

  /** What begins when `bytes` arrive and no request is open. */
  function Begun(h: Handler, g: Service, bytes: seq<Byte>): Option<Entry> {
    var s := g.rest + bytes;
    var n := RequestLen(s);
    if bytes == [] then None
    else if 0 < n <= |s| then
      Some(if h.info(s[..n]).Valid() then Taken(h, s[..n], s[n..], g.cl) else Refused(s[..n], h.Response(s[..n])))
    else if h.Refusal(n, [], |s|) == 0 then None
    else Some(Refused([], h.errorReply(h.Refusal(n, [], |s|))))
  }

  /** With one more answer, complete or not. */
  function With(l: Life, e: Option<Entry>): Life {
    if e.None? then l.(now := None)
    else if e.value.t.ended then l.(past := l.past + [e.value], now := None)
    else l.(now := e)
  }

  /** The transfer's part of a turn. */
  function Transferred(h: Handler, l: Life, x: Turn): Life {
    var g := l.(f := AfterFile(l.f, x.file));
    if l.now.None? then g
    else With(g, Some(l.now.value.(t := Next(h, l.now.value.request, l.now.value.t, x))))
  }

  /** One turn. */
  function Live(h: Handler, l: Life, x: Turn): Life {
    if l.closed then l
    else
      var g, (k, closed) := Transferred(h, l, x), Polled(h, l.f, x);
      var m := if g.now.Some? || (g.f.close && !g.f.Waiting()) then g else With(g, Begun(h, g.f, x.client.Bytes()));
      m.(f := k, closed := closed)
  }

  function LiveAll(h: Handler, l: Life, turns: seq<Turn>): Life {
    if turns == [] then l else Live(h, LiveAll(h, l, turns[..|turns| - 1]), turns[|turns| - 1])
  }

  /** All that was spooled are the answers, in the order of the requests. */
  ghost predicate Accounted(before: seq<Byte>, past: seq<Entry>, now: Option<Entry>, spooled: seq<Byte>) {
    spooled == before + Flat(past) + if now.Some? then now.value.Bytes() else []
  }

  /** They are the answers to the requests taken. */
  ghost predicate Listed(earlier: seq<seq<Byte>>, past: seq<Entry>, now: Option<Entry>, taken: seq<seq<Byte>>) {
    taken == earlier + AllNames(past) + if now.Some? then now.value.Names() else []
  }

  /** An open connection has no close flag, and waits to be closed only while something is to be sent; a close without
      error comes when all has been sent. */
  predicate Flagged(f: Service, closed: bool) {
    && f.sent <= |f.spooled|
    && (!closed ==> !f.close && !f.error && (f.spoolDone ==> f.Waiting()))
    && (f.close && !f.error ==> !f.Waiting())
  }

  predicate AllOver(past: seq<Entry>) {
    forall i :: 0 <= i < |past| ==> past[i].t.ended
  }

  ghost predicate Sound(h: Handler, l: Life) {
    && Accounted(l.before, l.past, l.now, l.f.spooled) && Listed(l.earlier, l.past, l.now, l.f.taken)
    && Current(h, l.f, l.now) && Flagged(l.f, l.closed) && AllOver(l.past)
  }

  /** The open request is the one whose answer is not complete. */
  predicate Current(h: Handler, f: Service, now: Option<Entry>) {
    match now
    case None => f.request == []
    case Some(e) =>
      && e.request != [] && f.request == e.request && h.info(e.request).Valid()
      && f.rest == e.t.buffered && f.cl == e.t.cl && !e.t.ended
  }

  /** The file part of a turn, on a transfer. */
  lemma PartIsNext(h: Handler, f: Service, e: Entry, x: Turn)
    requires Current(h, f, Some(e)) && ValidTurn(x)
    ensures var g, part, t := AfterFile(f, x.file), x.file(Limit(f.cl)).Bytes(), Next(h, e.request, e.t, x);
            && g.spooled == f.spooled + part && g.sent == f.sent && g.error == f.error && g.taken == f.taken
            && (g.request == [] <==> t.ended)
            && (t.ended ==> t.spooled == e.t.spooled + part && g.spoolDone == g.Waiting() == !g.close)
            && (!t.ended ==> g == f.(spooled := g.spooled, cl := f.cl - |part|))
  {
    assert f.spooled + [] == f.spooled && e.t.spooled + [] == e.t.spooled;
  }

  /** What arrives in the middle of a transfer. */
  lemma ReadingIsNext(h: Handler, f: Service, e: Entry, x: Turn)
    requires Current(h, f, Some(e)) && ValidTurn(x) && !Next(h, e.request, e.t, x).ended
    ensures var t, k := Next(h, e.request, e.t, x), AfterReading(h, AfterFile(f, x.file), x.client);
            && Current(h, k, Some(e.(t := t))) && e.t.spooled <= t.spooled
            && k.spooled == f.spooled + t.spooled[|e.t.spooled|..]
            && k.sent == f.sent && k.spoolDone == f.spoolDone && k.taken == f.taken
            && (f.error ==> k.error) && (k.close ==> f.close || k.error)
  {
    PartIsNext(h, f, e, x);
    var g, part := AfterFile(f, x.file), x.file(Limit(f.cl)).Bytes();
    hide AfterFile, Last;
    assert g.rest + [] == g.rest;
    assert f.spooled + part + h.reply(e.request) == f.spooled + (part + h.reply(e.request));
    assert (e.t.spooled + part)[|e.t.spooled|..] == part;
    assert (e.t.spooled + part + h.reply(e.request))[|e.t.spooled|..] == part + h.reply(e.request);
  }

  /** What arrives while no request is open. */
  lemma ReadingBegins(h: Handler, g: Service, c: Client)
    requires g.request == [] && c.Valid()
    ensures var e, k := Begun(h, g, c.Bytes()), AfterReading(h, g, c);
            && k.spooled == g.spooled + (if e.Some? then e.value.Bytes() else [])
            && k.taken == g.taken + (if e.Some? then e.value.Names() else [])
            && k.sent == g.sent && (g.error ==> k.error) && (!c.received.Failed() ==> k.error == g.error)
            && (if e.Some? && e.value.t.ended then
                  k.request == [] && k.spoolDone == k.Waiting() == !k.close
                else
                  Current(h, k, e) && k.spoolDone == g.spoolDone && (k.close ==> g.close || k.error))
  {
    hide Handler.Refusal, RequestLen, Handler.Response;
    OneBehind(g.spooled, [], []);
    OneBehind(g.taken, [], []);
    if c.Bytes() != [] {
      var s := g.rest + c.Bytes();
      assert AfterReading(h, g, c) == Opened(h, g.(rest := s));
      OpenedIs(h, g.(rest := s));
    }
  }

  lemma OpenedIs(h: Handler, g: Service)
    requires g.request == []
    ensures var n, k := RequestLen(g.rest), Opened(h, g);
            if 0 < n <= |g.rest| then
              var r, rest := g.rest[..n], g.rest[n..];
              if !h.info(r).Valid() then k == Ended(Said(g.(rest := rest, taken := g.taken + [r]), h.Response(r)))
              else
                var e := Taken(h, r, rest, g.cl);
                k == g.(rest := rest, taken := g.taken + [r], request := r, spooled := g.spooled + e.head, cl := e.t.cl)
            else
              var code := h.Refusal(n, [], |g.rest|);
              k == if code == 0 then g else Ended(Said(g, h.errorReply(code)))
  {
    assert g.spooled + [] == g.spooled;
  }

  lemma WritingKeeps(f: Service, c: Client, wantWrite: bool)
    requires f.sent <= |f.spooled| && (f.close && !f.error ==> !f.Waiting())
    requires !f.close ==> !f.error && (f.spoolDone ==> f.Waiting())
    ensures var k := AfterWriting(f, c, wantWrite);
            && k == f.(sent := k.sent, close := k.close, error := k.error) && Flagged(k, k.close)
            && f.sent <= k.sent && (f.error ==> k.error) && (f.close ==> k.close)
            && (k.close && !k.error && !f.close ==> k.spoolDone)
  {
  }

  lemma FlatNext(entries: seq<Entry>, e: Entry)
    ensures Flat(entries + [e]) == Flat(entries) + e.Bytes()
    ensures AllNames(entries + [e]) == AllNames(entries) + e.Names()
  {
    assert (entries + [e])[..|entries|] == entries;
  }

  /** Between the file part of a turn and what arrives: no request is open. */
  ghost predicate Idle(g: Life) {
    && g.now.None? && g.f.request == [] && !g.f.error && g.f.sent <= |g.f.spooled|
    && Accounted(g.before, g.past, None, g.f.spooled) && Listed(g.earlier, g.past, None, g.f.taken) && AllOver(g.past)
    && (if g.f.close then !g.f.Waiting() else g.f.spoolDone ==> g.f.Waiting())
  }

  /** A transfer goes on in this turn. */
  predicate GoesOn(h: Handler, l: Life, x: Turn) {
    l.now.Some? && !Next(h, l.now.value.request, l.now.value.t, x).ended
  }

  lemma IdleAfterFile(h: Handler, l: Life, x: Turn)
    requires Sound(h, l) && !l.closed && ValidTurn(x) && !GoesOn(h, l, x)
    ensures var g := Transferred(h, l, x);
            && Idle(g) && g.f == AfterFile(l.f, x.file)
            && g.past == l.past + if l.now.None? then []
                                  else [l.now.value.(t := Next(h, l.now.value.request, l.now.value.t, x))]
  {
    hide Next, AfterFile, Accounted, Listed, AllOver;
    if l.now.Some? {
      var e := l.now.value;
      PartIsNext(h, l.f, e, x);
      var over := e.(t := Next(h, e.request, e.t, x));
      EntryOver(l.before, l.past, e, over, l.f.spooled, x.file(Limit(l.f.cl)).Bytes(), l.earlier, l.f.taken);
    } else {
      assert AfterFile(l.f, x.file) == l.f by { NoFile(l.f, x.file); }
    }
  }

  lemma NoFile(f: Service, file: int -> Io)
    requires f.request == []
    ensures AfterFile(f, file) == f
  {
  }

  lemma EntryOver(before: seq<Byte>, past: seq<Entry>, e: Entry, over: Entry, spooled: seq<Byte>, part: seq<Byte>,
                  earlier: seq<seq<Byte>>, taken: seq<seq<Byte>>)
    requires Accounted(before, past, Some(e), spooled) && Listed(earlier, past, Some(e), taken) && AllOver(past)
    requires over == e.(t := over.t) && over.t.ended && over.t.spooled == e.t.spooled + part
    ensures Accounted(before, past + [over], None, spooled + part) && Listed(earlier, past + [over], None, taken)
    ensures AllOver(past + [over])
  {
    FlatNext(past, over);
    OneMoreOver(past, over);
    hide Flat, AllNames, AllOver;
    OneBehind(earlier, AllNames(past), e.Names());
    FarOut(before, Flat(past), e.head, e.t.spooled, part);
  }

  lemma OneBehind<T>(a: seq<T>, b: seq<T>, c: seq<T>)
    ensures a + b + c == a + (b + c) == a + (b + c) + []
  {
  }

  lemma FarOut(a: seq<Byte>, b: seq<Byte>, c: seq<Byte>, d: seq<Byte>, e: seq<Byte>)
    ensures a + b + (c + d) + e == a + b + (c + (d + e)) == a + (b + (c + (d + e))) + []
  {
  }

  lemma TransferTurn(h: Handler, l: Life, x: Turn)
    requires Current(h, l.f, l.now) && Flagged(l.f, l.closed) && !l.closed && ValidTurn(x) && GoesOn(h, l, x)
    ensures var e, g := l.now.value, AfterFile(l.f, x.file);
            var k := AfterWriting(AfterReading(h, g, x.client), x.client, g.Waiting());
            Live(h, l, x) == Life(k, k.close || x.client.expired, l.earlier, l.before, l.past,
                                  Some(e.(t := Next(h, e.request, e.t, x))))
  {
    PartIsNext(h, l.f, l.now.value, x);
    hide Next, AfterFile, AfterReading, AfterWriting;
  }

  lemma TransferSound(h: Handler, l: Life, x: Turn)
    requires Sound(h, l) && !l.closed && ValidTurn(x) && GoesOn(h, l, x)
    ensures Sound(h, Live(h, l, x)) && Live(h, l, x).past == l.past
    ensures Live(h, l, x).f.spoolDone == l.f.spoolDone && l.f.sent <= Live(h, l, x).f.sent
    ensures !l.f.spoolDone ==> !Live(h, l, x).Clean()
    ensures Live(h, l, x).now == Some(l.now.value.(t := Next(h, l.now.value.request, l.now.value.t, x)))
  {
    var e, g := l.now.value, AfterFile(l.f, x.file);
    TransferTurn(h, l, x);
    PartIsNext(h, l.f, e, x);
    ReadingIsNext(h, l.f, e, x);
    var t, k := Next(h, e.request, e.t, x), AfterReading(h, g, x.client);
    hide Next, AfterFile, AfterReading, AfterWriting, Flat, AllNames, Live;
    WritingKeeps(k, x.client, g.Waiting());
    var more := t.spooled[|e.t.spooled|..];
    assert e.t.spooled + more == t.spooled;
    FarOut(l.before, Flat(l.past), e.head, e.t.spooled, more);
  }

  lemma BeginTurn(h: Handler, l: Life, x: Turn)
    requires !l.closed && !GoesOn(h, l, x) && Idle(Transferred(h, l, x))
    ensures var g := Transferred(h, l, x);
            Live(h, l, x) ==
              if g.f.close then g.(closed := true)
              else
                var k := AfterWriting(AfterReading(h, g.f, x.client), x.client, g.f.Waiting());
                With(g, Begun(h, g.f, x.client.Bytes())).(f := k, closed := k.close || x.client.expired)
  {
    hide Next, AfterFile, AfterReading, AfterWriting, Begun;
    if l.now.Some? {
      assert Transferred(h, l, x).f == AfterFile(l.f, x.file);
    }
  }

  lemma BeginSound(h: Handler, l: Life, x: Turn)
    requires !l.closed && !GoesOn(h, l, x) && Idle(Transferred(h, l, x)) && ValidTurn(x)
    ensures var g, m := Transferred(h, l, x), Live(h, l, x);
            && Sound(h, m) && g.past <= m.past
            && (|m.past| == |g.past| && !g.f.close ==> m.f.spoolDone == g.f.spoolDone && (!g.f.spoolDone ==> !m.Clean()))
  {
    var g := Transferred(h, l, x);
    BeginTurn(h, l, x);
    hide Next, AfterFile, Transferred, Live, Begun, AfterReading, AfterWriting, Accounted, Listed, AllOver;
    if !g.f.close {
      ReadSound(h, g, x);
    }
  }

  lemma ReadSound(h: Handler, g: Life, x: Turn)
    requires Idle(g) && !g.f.close && ValidTurn(x)
    ensures var k := AfterWriting(AfterReading(h, g.f, x.client), x.client, g.f.Waiting());
            var m := With(g, Begun(h, g.f, x.client.Bytes())).(f := k, closed := k.close || x.client.expired);
            && Sound(h, m) && g.past <= m.past
            && (|m.past| == |g.past| ==> m.f.spoolDone == g.f.spoolDone && (!g.f.spoolDone ==> !m.Clean()))
  {
    var e, k := Begun(h, g.f, x.client.Bytes()), AfterReading(h, g.f, x.client);
    ReadingBegins(h, g.f, x.client);
    BeginAccounted(g.before, g.past, e, g.f.spooled, k.spooled);
    BeginListed(g.earlier, g.past, e, g.f.taken, k.taken);
    hide Begun, AfterReading, AfterWriting, Accounted, Listed, AllOver, Entry.Bytes, Entry.Names, Client.Bytes;
    WritingKeeps(k, x.client, g.f.Waiting());
  }

  lemma BeginAccounted(before: seq<Byte>, past: seq<Entry>, e: Option<Entry>, was: seq<Byte>, spooled: seq<Byte>)
    requires Accounted(before, past, None, was) && AllOver(past)
    requires spooled == was + if e.Some? then e.value.Bytes() else []
    ensures if e.Some? && e.value.t.ended then
              Accounted(before, past + [e.value], None, spooled) && AllOver(past + [e.value])
            else Accounted(before, past, e, spooled)
  {
    hide Flat, Entry.Bytes;
    if e.Some? {
      FlatNext(past, e.value);
      hide AllOver;
      OneBehind(before, Flat(past), e.value.Bytes());
      OneBehind(before, Flat(past), []);
      if e.value.t.ended {
        OneMoreOver(past, e.value);
      }
    }
  }

  lemma OneMoreOver(past: seq<Entry>, e: Entry)
    requires AllOver(past) && e.t.ended
    ensures AllOver(past + [e])
  {
  }

  lemma BeginListed(earlier: seq<seq<Byte>>, past: seq<Entry>, e: Option<Entry>, was: seq<seq<Byte>>, taken: seq<seq<Byte>>)
    requires Listed(earlier, past, None, was)
    requires taken == was + if e.Some? then e.value.Names() else []
    ensures if e.Some? && e.value.t.ended then Listed(earlier, past + [e.value], None, taken)
            else Listed(earlier, past, e, taken)
  {
    hide AllNames, Entry.Names;
    if e.Some? {
      FlatNext(past, e.value);
      OneBehind(earlier, AllNames(past), e.value.Names());
      OneBehind(earlier, AllNames(past), []);
    }
  }

  /** Every turn keeps that all that was spooled are the answers; complete ones stay. */
  lemma LiveSound(h: Handler, l: Life, x: Turn)
    requires Sound(h, l) && ValidTurn(x)
    ensures Sound(h, Live(h, l, x)) && l.past <= Live(h, l, x).past
  {
    if !l.closed {
      if GoesOn(h, l, x) {
        TransferSound(h, l, x);
      } else {
        IdleAfterFile(h, l, x);
        BeginSound(h, l, x);
      }
    }
  }

  // Whole lives.

  ghost predicate AllValid(turns: seq<Turn>) {
    forall i :: 0 <= i < |turns| ==> ValidTurn(turns[i])
  }

  lemma {:induction false} LivesSound(h: Handler, l: Life, turns: seq<Turn>)
    requires Sound(h, l) && AllValid(turns)
    ensures Sound(h, LiveAll(h, l, turns)) && l.past <= LiveAll(h, l, turns).past
  {
    hide Sound, Live, ValidTurn;
    if turns != [] {
      LivesSound(h, l, turns[..|turns| - 1]);
      LiveSound(h, LiveAll(h, l, turns[..|turns| - 1]), turns[|turns| - 1]);
    }
  }

  lemma {:induction false} LivesInParts(h: Handler, l: Life, a: seq<Turn>, b: seq<Turn>)
    ensures LiveAll(h, l, a + b) == LiveAll(h, LiveAll(h, l, a), b)
    decreases |b|
  {
    hide Live;
    if b == [] {
      assert a + b == a;
    } else {
      assert (a + b)[..|a + b| - 1] == a + b[..|b| - 1];
      LivesInParts(h, l, a, b[..|b| - 1]);
    }
  }

  /** Before answer number `n` is complete, the connection does not wait to be closed, and is closed for an error or a
      timeout only. */
  predicate Unfinished(l: Life, n: nat) {
    |l.past| <= n ==> !l.f.spoolDone && !l.Clean()
  }

  lemma UnfinishedNext(h: Handler, l: Life, x: Turn, n: nat)
    requires Sound(h, l) && ValidTurn(x) && n <= |l.past| && Unfinished(l, n)
    ensures Unfinished(Live(h, l, x), n)
  {
    LiveSound(h, l, x);
    if !l.closed && |Live(h, l, x).past| == n {
      if GoesOn(h, l, x) {
        TransferSound(h, l, x);
      } else {
        IdleAfterFile(h, l, x);
        BeginSound(h, l, x);
      }
    }
  }

  lemma {:induction false} StaysUnfinished(h: Handler, l: Life, turns: seq<Turn>, n: nat)
    requires Sound(h, l) && AllValid(turns) && n <= |l.past| && Unfinished(l, n)
    ensures Unfinished(LiveAll(h, l, turns), n)
  {
    hide Sound, Live, ValidTurn, Unfinished;
    if turns != [] {
      var before := turns[..|turns| - 1];
      StaysUnfinished(h, l, before, n);
      LivesSound(h, l, before);
      UnfinishedNext(h, LiveAll(h, l, before), turns[|turns| - 1], n);
    }
  }

  lemma {:induction false} LivesBefore(h: Handler, l: Life, turns: seq<Turn>)
    ensures LiveAll(h, l, turns).before == l.before && LiveAll(h, l, turns).earlier == l.earlier
  {
    if turns != [] {
      LivesBefore(h, l, turns[..|turns| - 1]);
      LiveBefore(h, LiveAll(h, l, turns[..|turns| - 1]), turns[|turns| - 1]);
    }
  }

  lemma LiveBefore(h: Handler, l: Life, x: Turn)
    ensures Live(h, l, x).before == l.before && Live(h, l, x).earlier == l.earlier
  {
    hide Next, AfterFile, Polled, Begun;
  }

  /** The whole life of a connection, whatever arrives, whatever the files give and the socket takes: the requests taken
      are answered in order, all but perhaps the last one completely, and nothing else is spooled. When the connection is
      closed without error or timeout, all that was spooled has been sent, and the first answer at least is complete. */
  lemma WholeLife(h: Handler, turns: seq<Turn>)
    requires AllValid(turns)
    ensures var l := LiveAll(h, Born, turns);
            && l.f.taken == AllNames(l.past) + (if l.now.Some? then [l.now.value.request] else [])
            && l.f.spooled == Flat(l.past) + (if l.now.Some? then l.now.value.Bytes() else [])
            && (forall i :: 0 <= i < |l.past| ==> l.past[i].t.ended)
            && (l.Clean() ==> l.f.sent == |l.f.spooled| && (l.now.Some? ==> l.past != []))
  {
    BornSound(h);
    LivesSound(h, Born, turns);
    LivesBefore(h, Born, turns);
    StaysUnfinished(h, Born, turns, 0);
    hide Live, LiveAll, Flat, AllNames;
    var l := LiveAll(h, Born, turns);
    assert [] + Flat(l.past) == Flat(l.past) && [] + AllNames(l.past) == AllNames(l.past);
  }

  lemma BornSound(h: Handler)
    ensures Sound(h, Born) && Unfinished(Born, 0)
  {
  }

  // When an answer may be cut short.

  /** While no request is open, `bytes` bring request `r`, which is not refused, with `more` behind it. */
  predicate Brings(h: Handler, g: Service, bytes: seq<Byte>, r: seq<Byte>, more: seq<Byte>) {
    && g.request == [] && !g.close && bytes != []
    && g.rest + bytes == r + more && RequestLen(r + more) == |r| > 0 && h.info(r).Valid()
  }

  /** Runs in whose first turn the file gives `file`, and `bytes` arrive. */
  ghost predicate Delivers(turns: seq<Turn>, file: int -> Io, bytes: seq<Byte>) {
    turns != [] && AllValid(turns) && turns[0].file == file && turns[0].client.Bytes() == bytes
  }

  /** How many answers are complete after the file part of a turn. */
  function Completed(l: Life): nat {
    |l.past| + if l.now.Some? then 1 else 0
  }

  /** The turn in which a request is taken, the file of the one before having ended. */
  lemma TakingTurn(h: Handler, l: Life, x: Turn, r: seq<Byte>, more: seq<Byte>)
    requires Sound(h, l) && !l.closed && ValidTurn(x)
    requires Brings(h, AfterFile(l.f, x.file), x.client.Bytes(), r, more)
    ensures var g, m := AfterFile(l.f, x.file), Live(h, l, x);
            && Sound(h, m) && |m.past| == Completed(l) && l.past <= m.past
            && m.now == Some(Taken(h, r, more, g.cl)) && m.f.spoolDone == g.spoolDone
            && (!g.spoolDone ==> Unfinished(m, Completed(l)))
            && m.before + Flat(m.past) == g.spooled && m.f.spooled == g.spooled + m.now.value.head
            && m.f == AfterWriting(AfterReading(h, g, x.client), x.client, g.Waiting())
            && m.closed == (m.f.close || x.client.expired)
  {
    if l.now.Some? {
      PartIsNext(h, l.f, l.now.value, x);
    }
    IdleAfterFile(h, l, x);
    BeginTurn(h, l, x);
    BeginSound(h, l, x);
    LiveSound(h, l, x);
    LiveBefore(h, l, x);
    BegunIs(h, AfterFile(l.f, x.file), x.client.Bytes(), r, more);
    hide Live, Next, AfterFile, AfterReading, AfterWriting, Begun, Flat, Listed, Current, AllOver;
    var g, m := Transferred(h, l, x), Live(h, l, x);
    assert g.past == m.past && m.f.spooled == m.before + Flat(m.past) + m.now.value.Bytes();
    assert m.now.value.Bytes() == m.now.value.head + [] == m.now.value.head;
    assert g.f.spooled + [] == g.f.spooled;
    assert m.before + Flat(m.past) + [] == m.before + Flat(m.past);
  }

  lemma BegunIs(h: Handler, g: Service, bytes: seq<Byte>, r: seq<Byte>, more: seq<Byte>)
    requires Brings(h, g, bytes, r, more)
    ensures Begun(h, g, bytes) == Some(Taken(h, r, more, g.cl))
  {
    hide RequestLen;
    assert (r + more)[..|r|] == r && (r + more)[|r|..] == more;
  }

  lemma FirstTurn(h: Handler, l: Life, turns: seq<Turn>)
    requires turns != []
    ensures LiveAll(h, l, turns) == LiveAll(h, Live(h, l, turns[0]), turns[1..])
  {
    hide Live;
    assert turns == [turns[0]] + turns[1..];
    LivesInParts(h, l, [turns[0]], turns[1..]);
    assert [turns[0]][..0] == [];
  }

  /** A client that sends `bytes`, and takes all that there is for it. */
  function Greedy(bytes: seq<Byte>, file: int -> Io, much: int): Turn {
    Turn(Client(true, Io(|bytes|, bytes, false), true, Io(much, [], false), false), file)
  }

  /** The request is taken, its answer begins, and the connection is closed: all that was spooled has been sent. */
  lemma CutShort(h: Handler, l: Life, file: int -> Io, bytes: seq<Byte>, r: seq<Byte>, more: seq<Byte>) returns (x: Turn)
    requires Sound(h, l) && !l.closed && |bytes| <= IoBufSize && (forall k :: file(k).Read(k))
    requires Brings(h, AfterFile(l.f, file), bytes, r, more) && AfterFile(l.f, file).spoolDone
    ensures Delivers([x], file, bytes)
    ensures var g, m, e := AfterFile(l.f, file), LiveAll(h, l, [x]), Taken(h, r, more, AfterFile(l.f, file).cl);
            && m.Clean() && |m.past| == Completed(l) && m.f.sent == |m.f.spooled|
            && m.now == Some(e) && m.f.spooled == g.spooled + e.head
  {
    hide Sound, RequestLen, Begun, Handler.Refusal, Handler.Response;
    var g := AfterFile(l.f, file);
    var k := AfterReading(h, g, Greedy(bytes, file, 0).client);
    x := Greedy(bytes, file, |k.spooled| + 1);
    assert AfterReading(h, g, x.client) == k;
    FirstTurn(h, l, [x]);
    TakingTurn(h, l, x, r, more);
    ReadingBegins(h, g, x.client);
    BegunIs(h, g, bytes, r, more);
    hide Live, AfterReading, RequestLen, Begun, AfterFile, Flat, Written, Taken, Current, Brings;
    WaitingWhenDone(h, l, x);
    AllWritten(k, x.client.sending);
  }

  lemma AllWritten(k: Service, io: Io)
    requires k.sent < |k.spooled| <= io.n && k.spoolDone
    ensures Written(k, io) == k.(sent := |k.spooled|, close := true)
  {
  }

  /** A connection that waits to be closed has something to send. */
  lemma WaitingWhenDone(h: Handler, l: Life, x: Turn)
    requires Sound(h, l) && !l.closed && ValidTurn(x) && !GoesOn(h, l, x)
    ensures var g := AfterFile(l.f, x.file);
            !g.error && g.sent <= |g.spooled| && (g.spoolDone && !g.close ==> g.Waiting())
  {
    IdleAfterFile(h, l, x);
  }

  /** A request that is taken is answered completely by every connection that is closed without error or timeout, whatever
      happens from then on, if and only if the connection did not wait to be closed when it was taken. */
  lemma CompleteExactly(h: Handler, l: Life, file: int -> Io, bytes: seq<Byte>, r: seq<Byte>, more: seq<Byte>)
    requires Sound(h, l) && !l.closed && |bytes| <= IoBufSize && (forall k :: file(k).Read(k))
    requires Brings(h, AfterFile(l.f, file), bytes, r, more)
    ensures (forall turns :: Delivers(turns, file, bytes) && LiveAll(h, l, turns).Clean() ==>
               |LiveAll(h, l, turns).past| > Completed(l))
       <==> !AfterFile(l.f, file).spoolDone
  {
    if AfterFile(l.f, file).spoolDone {
      var x := CutShort(h, l, file, bytes, r, more);
    } else {
      forall turns | Delivers(turns, file, bytes) && LiveAll(h, l, turns).Clean()
        ensures |LiveAll(h, l, turns).past| > Completed(l)
      {
        TakingTurn(h, l, turns[0], r, more);
        FirstTurn(h, l, turns);
        StaysUnfinished(h, Live(h, l, turns[0]), turns[1..], Completed(l));
      }
    }
  }

  /** The answer `e` that began behind `past` has come to `t`. */
  ghost predicate Follows(past: seq<Entry>, e: Entry, m: Life, t: Progress) {
    && past <= m.past
    && if t.ended then |m.past| > |past| && m.past[|past|] == e.(t := t)
       else m.past == past && m.now == Some(e.(t := t))
  }

  lemma FollowsOn(h: Handler, past: seq<Entry>, e: Entry, m: Life, t: Progress, x: Turn)
    requires Sound(h, m) && !m.closed && ValidTurn(x) && Follows(past, e, m, t)
    ensures Follows(past, e, Live(h, m, x), if t.ended then t else Next(h, e.request, t, x))
  {
    LiveSound(h, m, x);
    if !t.ended {
      if GoesOn(h, m, x) {
        TransferSound(h, m, x);
      } else {
        IdleAfterFile(h, m, x);
        BeginSound(h, m, x);
      }
    }
  }

  /** The answer that is going on follows Transfer, turn by turn, up to the `j`-th, in which the connection was closed, or
      to the end. */
  lemma {:induction false} Followed(h: Handler, l: Life, turns: seq<Turn>) returns (j: nat)
    requires Sound(h, l) && !l.closed && l.now.Some? && AllValid(turns)
    ensures j <= |turns| && (!LiveAll(h, l, turns).closed ==> j == |turns|)
    ensures var e := l.now.value;
            Follows(l.past, e, LiveAll(h, l, turns), NextAll(h, e.request, e.t, turns[..j]))
  {
    hide Live, Next, Sound, ValidTurn, Follows;
    var e := l.now.value;
    if turns == [] {
      j := 0;
      assert turns[..j] == [];
      FollowsFirst(h, l);
    } else {
      var before, x := turns[..|turns| - 1], turns[|turns| - 1];
      j := Followed(h, l, before);
      LivesSound(h, l, before);
      var m := LiveAll(h, l, before);
      assert before[..j] == turns[..j];
      if !m.closed {
        FollowsOn(h, l.past, e, m, NextAll(h, e.request, e.t, before), x);
        j := |turns|;
        assert turns[..j] == turns;
      } else {
        LiveClosed(h, m, x);
      }
    }
  }

  lemma LiveClosed(h: Handler, l: Life, x: Turn)
    requires l.closed
    ensures Live(h, l, x) == l
  {
  }

  lemma FollowsFirst(h: Handler, l: Life)
    requires Sound(h, l) && l.now.Some?
    ensures Follows(l.past, l.now.value, l, l.now.value.t)
  {
  }

  /** The answer that is going on is the parts read from the file, in order, if and only if no turn until its end makes
      the handler run again with something to say. */
  lemma AnswerIntactExactly(h: Handler, l: Life, turns: seq<Turn>) returns (j: nat, t: Progress)
    requires Sound(h, l) && !l.closed && l.now.Some? && AllValid(turns) && l.now.value.t.spooled == l.now.value.t.parts
    ensures j <= |turns| && (!LiveAll(h, l, turns).closed ==> j == |turns|)
    ensures Follows(l.past, l.now.value, LiveAll(h, l, turns), t)
    ensures t == NextAll(h, l.now.value.request, l.now.value.t, turns[..j])
    ensures t.spooled == t.parts <==> Undisturbed(h, l.now.value.request, l.now.value.t, turns[..j])
  {
    hide Live, Next, Sound, ValidTurn, Follows;
    j := Followed(h, l, turns);
    t := NextAll(h, l.now.value.request, l.now.value.t, turns[..j]);
    IntactExactly(h, l.now.value.request, l.now.value.t, turns[..j]);
  }

  lemma {:induction false} FlatPrefix(a: seq<Entry>, b: seq<Entry>)
    requires a <= b
    ensures Flat(a) <= Flat(b)
    decreases |b|
  {
    if a != b {
      FlatPrefix(a, b[..|b| - 1]);
    }
  }

  /** The bytes of an answer stand behind those of the answers before it. */
  lemma AnswerIsSpooled(past: seq<Entry>, e: Entry, m: Life, t: Progress)
    requires Accounted(m.before, m.past, m.now, m.f.spooled) && Follows(past, e, m, t)
    ensures m.before + Flat(past) + e.head + t.spooled <= m.f.spooled
    ensures !t.ended ==> m.f.spooled == m.before + Flat(past) + e.head + t.spooled
  {
    if t.ended {
      assert m.past[..|past|] == past && past + [e.(t := t)] == m.past[..|past| + 1];
      FlatNext(past, e.(t := t));
      FlatPrefix(past + [e.(t := t)], m.past);
      hide Flat, Follows;
      Middle(m.before, Flat(past), e.head, t.spooled, Flat(m.past), if m.now.Some? then m.now.value.Bytes() else []);
    } else {
      hide Flat;
      FarEnd(m.before, Flat(past), e.head, t.spooled);
    }
  }

  lemma FarEnd(a: seq<Byte>, b: seq<Byte>, c: seq<Byte>, d: seq<Byte>)
    ensures a + b + (c + d) == a + b + c + d
  {
  }

  lemma Middle(a: seq<Byte>, b: seq<Byte>, c: seq<Byte>, d: seq<Byte>, e: seq<Byte>, z: seq<Byte>)
    requires b + (c + d) <= e
    ensures a + b + c + d <= a + e + z
  {
    assert a + b + c + d == a + (b + (c + d));
  }

  lemma {:induction false} LivesClosed(h: Handler, l: Life, turns: seq<Turn>)
    requires l.closed
    ensures LiveAll(h, l, turns) == l
  {
    hide Live;
    if turns != [] {
      LivesClosed(h, l, turns[..|turns| - 1]);
      LiveClosed(h, l, turns[|turns| - 1]);
    }
  }

  // Answers with a file in memory.

  /** What a transfer of `total` bytes from `start` on can read. */
  function PartOf(data: seq<Byte>, start: nat, total: nat): seq<Byte>
    requires start <= |data|
  {
    data[start..start + Available(data, start, total)]
  }

  /** The transfer that begins when `r` is taken, with `more` behind it. */
  function Beginning(h: Handler, r: seq<Byte>, more: seq<Byte>): Progress {
    Progress(more, h.fileLen(r), [], [], false)
  }

  /** Runs in which `bytes` arrive, and `data` is then read from position `start` on; nothing from the client makes the
      handler run again. */
  ghost predicate Reads(h: Handler, data: seq<Byte>, start: nat, r: seq<Byte>, t0: Progress, turns: seq<Turn>,
                        file: int -> Io, bytes: seq<Byte>)
  {
    Delivers(turns, file, bytes) && FromFile(data, start, h, r, t0, turns[1..]) && NoRestarts(h, r, t0, turns[1..])
  }

  /** The header and the part of the file have been sent, behind what was spooled before. */
  predicate HasSent(f: Service, before: seq<Byte>, header: seq<Byte>, part: seq<Byte>) {
    f.sent <= |f.spooled| && before + header + part <= f.spooled[..f.sent]
  }

  /** What the answer has come to. */
  lemma AnswerSoFar(h: Handler, data: seq<Byte>, start: nat, r: seq<Byte>, t0: Progress, m1: Life, rest: seq<Turn>)
    returns (t: Progress)
    requires Sound(h, m1) && AllValid(rest) && start <= |data| && t0.cl >= 0 && !t0.ended
    requires m1.now == Some(Entry(r, h.reply(r), t0)) && t0.parts == [] == t0.spooled
    requires FromFile(data, start, h, r, t0, rest) && NoRestarts(h, r, t0, rest)
    ensures Follows(m1.past, m1.now.value, LiveAll(h, m1, rest), t)
    ensures t.spooled <= PartOf(data, start, t0.cl) && (t.ended ==> t.spooled == PartOf(data, start, t0.cl))
  {
    hide Follows, LiveAll, NextAll, FromFile, NoRestarts, Sound;
    if m1.closed {
      LivesClosed(h, m1, rest);
      FollowsFirst(h, m1);
      NotEnded(h, m1);
      t := t0;
    } else {
      var j;
      j, t := AnswerIntactExactly(h, m1, rest);
      FromFileSoFar(data, start, h, r, t0, rest, j);
      PartsOfFile(data, start, h, r, t0, rest[..j]);
      IsPart(data, start, t0.cl, t);
    }
  }

  lemma NotEnded(h: Handler, l: Life)
    requires Sound(h, l) && l.now.Some?
    ensures !l.now.value.t.ended
  {
  }

  lemma IsPart(data: seq<Byte>, start: nat, total: nat, t: Progress)
    requires OnFile(data, start, total, t)
    ensures start <= |data| && t.parts <= PartOf(data, start, total) && (t.ended ==> t.parts == PartOf(data, start, total))
  {
    assert t.parts == PartOf(data, start, total)[..|t.parts|];
  }

  lemma ReplySent(h: Handler, l: Life, turns: seq<Turn>, file: int -> Io, bytes: seq<Byte>, r: seq<Byte>, more: seq<Byte>,
                  data: seq<Byte>, start: nat)
    requires Sound(h, l) && !l.closed && Brings(h, AfterFile(l.f, file), bytes, r, more) && |more| >= h.contentLen(r)
    requires start <= |data| && h.fileLen(r) >= 0
    requires !AfterFile(l.f, file).spoolDone || PartOf(data, start, h.fileLen(r)) == []
    requires Reads(h, data, start, r, Beginning(h, r, more), turns, file, bytes) && LiveAll(h, l, turns).Clean()
    ensures HasSent(LiveAll(h, l, turns).f, AfterFile(l.f, file).spooled, h.reply(r), PartOf(data, start, h.fileLen(r)))
  {
    TakingTurn(h, l, turns[0], r, more);
    FirstTurn(h, l, turns);
    hide AfterFile, AfterReading, AfterWriting, Live, LiveAll, Sound, PartOf, Brings, Flat, FromFile, NoRestarts, Unfinished;
    hide HasSent;
    RestSent(h, Live(h, l, turns[0]), turns[1..], r, Beginning(h, r, more), data, start);
  }

  lemma RestSent(h: Handler, m1: Life, rest: seq<Turn>, r: seq<Byte>, t0: Progress, data: seq<Byte>, start: nat)
    requires Sound(h, m1) && AllValid(rest) && start <= |data| && t0.cl >= 0 && !t0.ended
    requires m1.now == Some(Entry(r, h.reply(r), t0)) && t0.parts == [] == t0.spooled
    requires FromFile(data, start, h, r, t0, rest) && NoRestarts(h, r, t0, rest)
    requires Unfinished(m1, |m1.past|) || PartOf(data, start, t0.cl) == []
    requires LiveAll(h, m1, rest).Clean()
    ensures HasSent(LiveAll(h, m1, rest).f, m1.before + Flat(m1.past), h.reply(r), PartOf(data, start, t0.cl))
  {
    hide LiveAll, PartOf, Flat, FromFile, NoRestarts, Follows, Unfinished, Listed, Current, AllOver, Accounted;
    var m := LiveAll(h, m1, rest);
    LivesSound(h, m1, rest);
    LivesBefore(h, m1, rest);
    var t := AnswerSoFar(h, data, start, r, t0, m1, rest);
    AnswerIsSpooled(m1.past, m1.now.value, m, t);
    if Unfinished(m1, |m1.past|) {
      StaysUnfinished(h, m1, rest, |m1.past|);
      MustHaveEnded(m1.past, m1.now.value, m, t);
    }
    assert m.f.spooled[..m.f.sent] == m.f.spooled;
  }

  lemma MustHaveEnded(past: seq<Entry>, e: Entry, m: Life, t: Progress)
    requires Follows(past, e, m, t) && Unfinished(m, |past|) && m.Clean()
    ensures t.ended
  {
  }

  /** From the request to the last byte: every connection that is closed without error or timeout has sent the header and
      all of the file that was asked for, whatever the client's socket takes when, if and only if it did not wait to be
      closed when the request was taken, or there was nothing to send. */
  lemma ReplyExactly(h: Handler, l: Life, file: int -> Io, bytes: seq<Byte>, r: seq<Byte>, more: seq<Byte>,
                     data: seq<Byte>, start: nat)
    requires |bytes| <= IoBufSize && forall k :: file(k).Read(k)
    requires Sound(h, l) && !l.closed && Brings(h, AfterFile(l.f, file), bytes, r, more) && |more| >= h.contentLen(r)
    requires start <= |data| && h.fileLen(r) >= 0
    ensures var g, part := AfterFile(l.f, file), PartOf(data, start, h.fileLen(r));
            (forall turns ::
               Reads(h, data, start, r, Beginning(h, r, more), turns, file, bytes) && LiveAll(h, l, turns).Clean() ==>
                 HasSent(LiveAll(h, l, turns).f, g.spooled, h.reply(r), part))
            <==> !g.spoolDone || part == []
  {
    var g, t0, part := AfterFile(l.f, file), Beginning(h, r, more), PartOf(data, start, h.fileLen(r));
    hide LiveAll, AfterFile, Sound, Brings, PartOf;
    if g.spoolDone && part != [] {
      var x := CutShort(h, l, file, bytes, r, more);
      assert Reads(h, data, start, r, t0, [x], file, bytes);
      assert !HasSent(LiveAll(h, l, [x]).f, g.spooled, h.reply(r), part);
    } else {
      hide Reads, HasSent;
      forall turns | Reads(h, data, start, r, t0, turns, file, bytes) && LiveAll(h, l, turns).Clean()
        ensures HasSent(LiveAll(h, l, turns).f, g.spooled, h.reply(r), part)
      {
        ReplySent(h, l, turns, file, bytes, r, more, data, start);
      }
    }
  }
}
