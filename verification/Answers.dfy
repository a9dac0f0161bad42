/** What a server makes of the bytes of a client: the requests it takes, what it answers, and what it waits for. */
module Answers {
  import opened Words
  import opened Requests

  const MaxRequestSize := 16384

  /** What parse_http_message and the checks after it make of a request. */
  datatype Info = Info(parsed: bool, validUri: bool, validVersion: bool, keepAlive: bool) {
    predicate Valid() { parsed && validUri && validVersion }
  }

  /** What becomes of the local buffer: the requests taken out, what is left, all that is answered, and the request that
      waits for its body, if one does (no request is empty). */
  datatype Outcome = Outcome(requests: seq<seq<Byte>>, rest: seq<Byte>, answers: seq<Byte>, pending: seq<Byte>)

  /** A server: what it finds in a request, the length of its body, what its handler spools for it, the length of the
      file that the handler announces, and the error replies. */
  datatype Handler = Handler(
    info: seq<Byte> -> Info,
    contentLen: seq<Byte> -> int,
    reply: seq<Byte> -> seq<Byte>,
    fileLen: seq<Byte> -> int,
    errorReply: nat -> seq<Byte>)
  {
    /** A request that is followed by another round of process_request. */
    ghost function KeepsAlive(): seq<Byte> -> bool {
      r => info(r).Valid() && info(r).keepAlive
    }

    /** The answer to one request. */
    function Response(r: seq<Byte>): seq<Byte> {
      if !info(r).parsed || !info(r).validUri then errorReply(400)
      else if !info(r).validVersion then errorReply(505)
      else reply(r)
    }

    /** The status that a request, or what there is of it, is refused with; 0 if it is not refused. */
    function Refusal(len: int, r: seq<Byte>, buffered: nat): nat {
      if len < 0 || (len > 0 && !info(r).validUri) then 400
      else if len == 0 && buffered > MaxRequestSize then 413
      else if len > 0 && !info(r).validVersion then 505
      else 0
    }

    /** One round of process_request of a server that answers at once. */
    function Handle(s: seq<Byte>): Outcome
      decreases |s|, 0
    {
      RequestFits(s);
      var n := RequestLen(s);
      if n <= 0 then Outcome([], s, if Refusal(n, [], |s|) == 0 then [] else errorReply(Refusal(n, [], |s|)), [])
      else if !info(s[..n]).Valid() then Outcome([s[..n]], s[n..], Response(s[..n]), [])
      else
        var k := Resume(s[..n], s[n..]);
        k.(requests := [s[..n]] + k.requests)
    }

    /** The handler's turn for request `r`, with `t` in the local buffer: nothing happens before the body is there. */
    function Resume(r: seq<Byte>, t: seq<Byte>): Outcome
      decreases |t|, 1
    {
      if |t| < contentLen(r) then Outcome([], t, [], r)
      else if !info(r).keepAlive then Outcome([], t, reply(r), [])
      else
        var k := Handle(t);
        k.(answers := reply(r) + k.answers)
    }

    /** The first step of Handle. */
    lemma HandleOnce(s: seq<Byte>)
      ensures var n, k := RequestLen(s), Handle(s);
              && n <= |s|
              && (n <= 0 ==>
                    k == Outcome([], s, if Refusal(n, [], |s|) == 0 then [] else errorReply(Refusal(n, [], |s|)), []))
              && (n > 0 && !info(s[..n]).Valid() ==> k == Outcome([s[..n]], s[n..], Response(s[..n]), []))
              && (n > 0 && info(s[..n]).Valid() ==>
                    var m := Resume(s[..n], s[n..]); k == m.(requests := [s[..n]] + m.requests))
    {
      RequestFits(s);
    }

    /** Which reply a refusal gets, and what it leaves: 400 for bytes that are no request and for a request without a
        good URI, 413 for more than 16384 bytes without a whole request, 505 for another version of HTTP. Every other
        request goes to the handler. */
    lemma RefusedWith(s: seq<Byte>)
      ensures var n, k := RequestLen(s), Handle(s);
              && -1 <= n <= |s|
              && (n == -1 ==> k == Outcome([], s, errorReply(400), []))
              && (n == 0 ==> k == Outcome([], s, if |s| > 16384 then errorReply(413) else [], []))
              && (n > 0 ==>
                    var i := info(s[..n]);
                    && (!i.parsed || !i.validUri ==> k == Outcome([s[..n]], s[n..], errorReply(400), []))
                    && (i.parsed && i.validUri && !i.validVersion ==>
                          k == Outcome([s[..n]], s[n..], errorReply(505), []))
                    && (i.parsed && i.validUri && i.validVersion ==>
                          var m := Resume(s[..n], s[n..]); k == m.(requests := [s[..n]] + m.requests)))
    {
      RequestFits(s);
      HandleOnce(s);
      hide Handle, Resume, RequestLen;
    }

    /** Some more bytes, perhaps none. */
    function Arrive(pending: seq<Byte>, rest: seq<Byte>, data: seq<Byte>): Outcome {
      if data == [] then Outcome([], rest, [], pending)
      else if pending == [] then Handle(rest + data)
      else Resume(pending, rest + data)
    }

    /** Everything that is received, piece by piece. */
    function Arrived(chunks: seq<seq<Byte>>): Outcome {
      if chunks == [] then Outcome([], [], [], [])
      else
        var p := Arrived(chunks[..|chunks| - 1]);
        var k := Arrive(p.pending, p.rest, chunks[|chunks| - 1]);
        Outcome(p.requests + k.requests, k.rest, p.answers + k.answers, k.pending)
    }

    // Requests without bodies.

    /** None of the requests has a body. */
    ghost predicate NoBodies(requests: seq<seq<Byte>>) {
      forall r :: r in requests ==> contentLen(r) <= 0
    }

    /** Then the requests taken are those of Process, and none waits. */
    lemma {:induction false} HandleTakes(s: seq<Byte>)
      requires NoBodies(Process(s, KeepsAlive()).requests)
      ensures var k, t := Handle(s), Process(s, KeepsAlive());
              k.requests == t.requests && k.rest == t.rest && k.pending == []
      decreases |s|
    {
      ProcessOnce(s, KeepsAlive());
      var n := RequestLen(s);
      if n > 0 {
        var r := s[..n];
        if KeepsAlive()(r) {
          var t := Process(s[n..], KeepsAlive());
          assert ([r] + t.requests)[0] == r;
          NoBodiesParts([r], t.requests);
          HandleTakes(s[n..]);
        }
      }
    }

    lemma NoBodiesParts(a: seq<seq<Byte>>, b: seq<seq<Byte>>)
      requires NoBodies(a + b)
      ensures NoBodies(a) && NoBodies(b)
    {
      forall r | r in a || r in b
        ensures contentLen(r) <= 0
      {
        assert r in a + b;
      }
    }

    lemma {:induction false} ArrivedTakes(chunks: seq<seq<Byte>>)
      requires forall i :: 0 <= i < |chunks| ==> chunks[i] != []
      requires NoBodies(Chunked(chunks, KeepsAlive()).requests)
      ensures var k, t := Arrived(chunks), Chunked(chunks, KeepsAlive());
              k.requests == t.requests && k.rest == t.rest && k.pending == []
    {
      if chunks != [] {
        var before, c := chunks[..|chunks| - 1], chunks[|chunks| - 1];
        var p := Chunked(before, KeepsAlive());
        NoBodiesParts(p.requests, Process(p.rest + c, KeepsAlive()).requests);
        ArrivedTakes(before);
        HandleTakes(p.rest + c);
      }
    }

    // Pipelining.

    function Replies(requests: seq<seq<Byte>>): seq<Byte> {
      if requests == [] then [] else reply(requests[0]) + Replies(requests[1..])
    }

    /** What is left of `s` behind its requests is not refused, yet. */
    ghost predicate Open(s: seq<Byte>) {
      var rest := Scan(s).rest;
      Refusal(RequestLen(rest), [], |rest|) == 0
    }

    /** All requests are well-formed and without bodies, and those with others behind them keep the connection alive. */
    ghost predicate Orderly(requests: seq<seq<Byte>>) {
      AllButLast(requests, KeepsAlive()) && NoBodies(requests) && forall r :: r in requests ==> info(r).Valid()
    }

    lemma {:induction false} HandleReplies(s: seq<Byte>)
      requires Orderly(Scan(s).requests) && Open(s)
      ensures Handle(s) == Outcome(Scan(s).requests, Scan(s).rest, Replies(Scan(s).requests), [])
      decreases |s|
    {
      RequestFits(s);
      var n := RequestLen(s);
      if n > 0 {
        var r, t := s[..n], Scan(s[n..]);
        assert Scan(s) == Taken([r] + t.requests, t.rest);
        OrderlyRest(r, t.requests);
        HandleReplies(s[n..]);
        assert ([r] + t.requests)[1..] == t.requests;
        if !info(r).keepAlive {
          ScanEmpty(s[n..]);
        }
      }
    }

    lemma ScanEmpty(s: seq<Byte>)
      requires Scan(s).requests == []
      ensures Scan(s).rest == s
    {
    }

    lemma OrderlyRest(r: seq<Byte>, rest: seq<seq<Byte>>)
      requires Orderly([r] + rest)
      ensures Orderly(rest) && info(r).Valid() && contentLen(r) <= 0 && (rest != [] ==> info(r).keepAlive)
    {
      var all := [r] + rest;
      assert all[0] == r;
      OrderlyParts([r], rest);
    }

    lemma OrderlyParts(a: seq<seq<Byte>>, b: seq<seq<Byte>>)
      requires Orderly(a + b)
      ensures Orderly(a) && Orderly(b)
    {
      NoBodiesParts(a, b);
      forall k | 0 <= k < |a| - 1
        ensures KeepsAlive()(a[k])
      {
        assert (a + b)[k] == a[k];
      }
      forall k | 0 <= k < |b| - 1
        ensures KeepsAlive()(b[k])
      {
        assert (a + b)[|a| + k] == b[k];
      }
    }

    lemma {:induction false} RepliesConcat(a: seq<seq<Byte>>, b: seq<seq<Byte>>)
      ensures Replies(a + b) == Replies(a) + Replies(b)
    {
      if a == [] {
        assert a + b == b;
      } else {
        assert (a + b)[1..] == a[1..] + b;
        RepliesConcat(a[1..], b);
        RepliesAssoc(reply(a[0]), Replies(a[1..]), Replies(b));
      }
    }

    lemma RepliesAssoc(x: seq<Byte>, y: seq<Byte>, z: seq<Byte>)
      ensures x + (y + z) == x + y + z
    {
    }

    /** Pipelining: whatever the chunks, the answers are the replies to the requests of the stream, each once, in the
        order of the requests. */
    lemma {:induction false} AnswersInOrder(chunks: seq<seq<Byte>>)
      requires forall i :: 0 <= i < |chunks| ==> chunks[i] != []
      requires Orderly(Scan(Concat(chunks)).requests)
      requires forall i :: 0 < i <= |chunks| ==> Open(Concat(chunks[..i]))
      ensures var q := Scan(Concat(chunks)); Arrived(chunks) == Outcome(q.requests, q.rest, Replies(q.requests), [])
    {
      if chunks != [] {
        var m := |chunks| - 1;
        var before, chunk := chunks[..m], chunks[m];
        assert chunks[..m + 1] == chunks && Concat(chunks) == Concat(before) + chunk;
        ScanInParts(Concat(before), chunk);
        var p := Scan(Concat(before));
        var q := Scan(p.rest + chunk);
        OrderlyParts(p.requests, q.requests);
        forall i | 0 < i <= |before|
          ensures Open(Concat(before[..i]))
        {
          assert before[..i] == chunks[..i];
        }
        AnswersInOrder(before);
        HandleReplies(p.rest + chunk);
        RepliesConcat(p.requests, q.requests);
        hide Handle, Scan, Orderly, Open, Replies;
      }
    }
  }
}
