/** The connection engine of the web server: from received bytes to requests, from handlers to sent bytes, and the
    decision to close. */
module Connection {
  import opened Words
  import opened IoBuffer
  import opened Requests
  import opened Answers
  import opened Transfer
  import opened FileServer

  /** EP_USER: a handler that answers at once. EP_USER_FILE: a handler that announces a file, which the poll loop then
      transfers. */
  datatype Endpoint = EpNone | EpUser | EpUserFile

  function FirstOf(s: seq<Byte>, n: nat): seq<Byte> { if n < |s| then s[..n] else s }

  class Conn {
    /** Does the server hand out in-memory files (`server_param` set) or answers of its handler? */
    const fileDriver: bool
    const h: Handler
    const local: IoBuf
    const remote: IoBuf
    var endpoint: Endpoint
    var closeFlag: bool
    var spoolDone: bool
    var requestLen: int
    var request: seq<Byte>
    var cl: int

    ghost var extracted: seq<seq<Byte>>
    ghost var spooled: seq<Byte>
    ghost var sent: seq<Byte>
    ghost var socketError: bool

    /** Sent bytes followed by those still to be sent are the spooled bytes. */
    ghost predicate Valid()
      reads this, local, remote, remote.buf
    {
      && local != remote && local.Valid() && remote.Valid() && local.buf != remote.buf
      && sent + remote.Contents() == spooled
      && requestLen >= 0 && (requestLen == 0 <==> endpoint.EpNone?)
      && (requestLen > 0 ==> h.info(request).Valid() && request != [])
      && (endpoint.EpUser? ==> !fileDriver) && (endpoint.EpUserFile? ==> fileDriver)
    }

    constructor (fileDriver: bool, h: Handler)
      ensures Valid() && endpoint.EpNone? && !closeFlag && !socketError
      ensures extracted == [] && spooled == [] && sent == [] && Now() == Fresh
      ensures this.fileDriver == fileDriver && this.h == h
      ensures fresh(local) && fresh(local.buf) && fresh(remote) && fresh(remote.buf)
    {
      this.fileDriver, this.h := fileDriver, h;
      local := new IoBuf();
      remote := new IoBuf();
      endpoint, closeFlag, spoolDone, requestLen, request, cl := EpNone, false, false, 0, [], 0;
      extracted, spooled, sent, socketError := [], [], [], false;
    }

    /** The request that waits for its body. */
    ghost function Pending(): seq<Byte>
      reads `endpoint, `request
    {
      if endpoint.EpNone? then [] else request
    }

    /** The connection is to be closed, now or once everything spooled has been sent. */
    ghost predicate Ending()
      requires remote.Valid()
      reads this, remote, remote.buf
    {
      (closeFlag <==> remote.Contents() == []) && spoolDone == !closeFlag
    }

    /** `more` has been spooled, if there was room for it. */
    ghost predicate Spooled(len: nat, before: seq<Byte>, more: seq<Byte>)
      reads `spooled
    {
      len + |more| <= MaxLength ==> spooled == before + more
    }

    /** The outcome `k` is there: requests taken out, their answers spooled, and perhaps a request that waits. */
    ghost predicate Done(k: Outcome, taken: seq<seq<Byte>>, len: nat, before: seq<Byte>)
      requires local.Valid()
      reads `extracted, `spooled, `endpoint, `request, `cl, local, local.buf
    {
      && extracted == taken + k.requests && local.Contents() == k.rest && Pending() == k.pending
      && Spooled(len, before, k.answers)
    }

    /** Where the connection is. */
    ghost function Now(): Service
      requires local.Valid()
      reads this, local, local.buf
    {
      Service(local.Contents(), Pending(), cl, spoolDone, closeFlag, socketError, extracted, spooled, |sent|)
    }

    /** How the fate of the first request decides. */
    lemma DoneNext(s: seq<Byte>, taken: seq<seq<Byte>>, len: nat, before: seq<Byte>)
      requires local.Valid()
      requires var n := RequestLen(s);
               if n <= 0 then
                 && extracted == taken && endpoint.EpNone? && local.Contents() == s
                 && Spooled(len, before, if h.Refusal(n, [], |s|) == 0 then [] else h.errorReply(h.Refusal(n, [], |s|)))
               else
                 && n <= |s|
                 && var r := s[..n];
                    if !h.info(r).Valid() then
                      && extracted == taken + [r] && endpoint.EpNone? && local.Contents() == s[n..]
                      && Spooled(len, before, h.Response(r))
                    else Done(h.Resume(r, s[n..]), taken + [r], len, before)
      ensures Done(h.Handle(s), taken, len, before)
    {
      h.HandleOnce(s);
      var n := RequestLen(s);
      if n > 0 && h.info(s[..n]).Valid() {
        hide Handler.Resume, Handler.Handle, Done, RequestLen;
        DoneShift(h.Resume(s[..n], s[n..]), s[..n], taken, len, before);
      } else {
        hide Handler.Resume, Handler.Handle, Handler.Response, RequestLen, Spooled;
        assert taken + [] == taken;
      }
    }

    lemma DoneShift(k: Outcome, r: seq<Byte>, taken: seq<seq<Byte>>, len: nat, before: seq<Byte>)
      requires local.Valid() && Done(k, taken + [r], len, before)
      ensures Done(k.(requests := [r] + k.requests), taken, len, before)
    {
      hide Spooled;
      assert taken + [r] + k.requests == taken + ([r] + k.requests);
    }

    /** A reply was spooled before the rest was done. */
    lemma DoneBehind(r: seq<Byte>, t: seq<Byte>, taken: seq<seq<Byte>>, len: nat, before: seq<Byte>,
                     len': nat, before': seq<Byte>)
      requires local.Valid() && |t| >= h.contentLen(r) && h.info(r).keepAlive
      requires Done(h.Handle(t), taken, len', before')
      requires len + |h.reply(r)| <= MaxLength ==> before' == before + h.reply(r) && len' == len + |h.reply(r)|
      ensures Done(h.Resume(r, t), taken, len, before)
    {
      hide Handler.Handle;
      var k := h.Handle(t);
      assert before + h.reply(r) + k.answers == before + (h.reply(r) + k.answers);
    }

    method SpoolReply(data: seq<Byte>)
      requires Valid()
      modifies remote, remote.buf, `spooled
      ensures Valid() && (remote.buf == old(remote.buf) || fresh(remote.buf))
      ensures old(spooled) <= spooled && Spooled(old(remote.len), old(spooled), data)
    {
      var n := remote.Spool(data);
      assert n == |data| ==> data[..n] == data;
      assert sent + (old(remote.Contents()) + data[..n]) == spooled + data[..n];
      spooled := spooled + data[..n];
    }

    /** send_http_error; what it spools depends on the code only. */
    method SendHttpError(code: nat)
      requires local != remote && local.Valid() && remote.Valid() && local.buf != remote.buf
      requires sent + remote.Contents() == spooled && endpoint.EpNone?
      modifies this, remote, remote.buf
      ensures Valid() && (remote.buf == old(remote.buf) || fresh(remote.buf))
      ensures endpoint.EpNone? && Ending()
      ensures Spooled(old(remote.len), old(spooled), h.errorReply(code))
      ensures var f := Ended(Said(old(Now()), h.errorReply(code))); f.Fits() ==> Now() == f
      ensures extracted == old(extracted) && sent == old(sent) && socketError == old(socketError)
      ensures old(spooled) <= spooled
    {
      requestLen, request := 0, [];
      SpoolReply(h.errorReply(code));
      EndRequest();
    }

    /** The part of close_local_endpoint for a connection that is not kept alive. */
    method EndRequest()
      requires local != remote && local.Valid() && remote.Valid() && local.buf != remote.buf
      requires sent + remote.Contents() == spooled
      modifies `endpoint, `closeFlag, `spoolDone, `requestLen, `request, `cl
      ensures Valid() && endpoint.EpNone? && Ending() && Now() == Ended(old(Now()))
    {
      endpoint, closeFlag, spoolDone := EpNone, false, false;
      cl, requestLen, request := 0, 0, [];
      if remote.len == 0 {
        closeFlag := true;
      } else {
        spoolDone := true;
      }
    }

    /** close_local_endpoint; keep-alive requests that are already in the local buffer are processed recursively. */
    method CloseLocalEndpoint()
      requires Valid() && !endpoint.EpNone?
      modifies this, local, local.buf, remote, remote.buf
      decreases local.len, if endpoint.EpUser? then 2 else 0, 0
      ensures Valid() && local.buf == old(local.buf) && (remote.buf == old(remote.buf) || fresh(remote.buf))
      ensures closeFlag ==> remote.Contents() == []
      ensures sent == old(sent) && socketError == old(socketError) && old(spooled) <= spooled
      ensures old(h.info(request).keepAlive) && old(endpoint.EpUser?) ==>
                Done(h.Handle(old(local.Contents())), old(extracted), old(remote.len), old(spooled))
      ensures !(old(h.info(request).keepAlive) && old(endpoint.EpUser?)) ==>
                && extracted == old(extracted) && local.Contents() == old(local.Contents()) && spooled == old(spooled)
                && endpoint.EpNone? && Ending() && Now() == Ended(old(Now()))
    {
      hide RequestLen, Opened, Done, Handler.Handle, Handler.Resume, IoBuf.Contents;
      var keepAlive := h.info(request).keepAlive && endpoint.EpUser?;
      if keepAlive {
        endpoint, closeFlag, spoolDone := EpNone, false, false;
        cl, requestLen, request := 0, 0, [];
        ProcessRequest();
      } else {
        EndRequest();
      }
    }

    /** call_uri_handler_if_data_is_buffered */
    method CallUriHandler()
      requires Valid() && !endpoint.EpNone? && !closeFlag
      modifies this, local, local.buf, remote, remote.buf
      decreases local.len, if endpoint.EpUser? then 2 else 0, 1
      ensures Valid() && local.buf == old(local.buf) && (remote.buf == old(remote.buf) || fresh(remote.buf))
      ensures closeFlag ==> remote.Contents() == []
      ensures sent == old(sent) && socketError == old(socketError) && old(spooled) <= spooled
      ensures old(endpoint.EpUser?) ==>
                Done(h.Resume(old(request), old(local.Contents())), old(extracted), old(remote.len), old(spooled))
      ensures old(endpoint.EpUser?) && !old(h.info(request).keepAlive) && endpoint.EpNone? ==> Ending()
      ensures old(endpoint.EpUserFile?) ==> var f := Handled(h, old(Now())); f.Fits() ==> Now() == f
    {
      ghost var taken, len, before, r, t := extracted, remote.len, spooled, request, local.Contents();
      if local.len >= h.contentLen(request) {
        ghost var keepAlive := h.info(request).keepAlive;
        SpoolReply(h.reply(request));
        if endpoint.EpUserFile? {
          cl := h.fileLen(request);
        } else {
          ghost var len', before' := remote.len, spooled;
          CloseLocalEndpoint();
          if keepAlive {
            hide Done;
            DoneBehind(r, t, taken, len, before, len', before');
          }
        }
      }
    }

    /** process_request */
    method ProcessRequest()
      requires Valid() && !closeFlag
      modifies this, local, local.buf, remote, remote.buf
      decreases local.len, if requestLen == 0 then 1 else 3
      ensures Valid() && local.buf == old(local.buf) && (remote.buf == old(remote.buf) || fresh(remote.buf))
      ensures closeFlag ==> remote.Contents() == []
      ensures sent == old(sent) && socketError == old(socketError) && old(spooled) <= spooled
      ensures old(endpoint.EpNone?) && !fileDriver ==>
                Done(h.Handle(old(local.Contents())), old(extracted), old(remote.len), old(spooled))
      ensures old(endpoint.EpUser?) ==>
                Done(h.Resume(old(request), old(local.Contents())), old(extracted), old(remote.len), old(spooled))
      ensures fileDriver ==> var f := Opened(h, old(Now())); f.Fits() ==> Now() == f
    {
      hide RequestLen, Done, Ending, Handler.Resume, Handler.Handle;
      if requestLen == 0 {
        TakeRequest();
      }
      CheckRequest();
      if !endpoint.EpNone? {
        CallUriHandler();
      }
      if old(endpoint.EpNone?) && !fileDriver {
        DoneNext(old(local.Contents()), old(extracted), old(remote.len), old(spooled));
      }
    }

    /** The checks of process_request, and open_local_endpoint for a request that passes them. */
    method CheckRequest()
      requires local != remote && local.Valid() && remote.Valid() && local.buf != remote.buf
      requires sent + remote.Contents() == spooled && !closeFlag
      requires endpoint.EpNone? || Valid()
      requires requestLen > 0 ==> h.info(request).parsed && request != []
      modifies this, remote, remote.buf
      ensures Valid() && (remote.buf == old(remote.buf) || fresh(remote.buf))
      ensures extracted == old(extracted) && sent == old(sent) && socketError == old(socketError)
      ensures old(spooled) <= spooled
      ensures var code := h.Refusal(old(requestLen), old(request), local.len);
              if old(endpoint.EpNone?) && code != 0 then
                && endpoint.EpNone? && Ending() && Spooled(old(remote.len), old(spooled), h.errorReply(code))
                && var f := Ended(Said(old(Now()), h.errorReply(code))); f.Fits() ==> Now() == f
              else if old(endpoint.EpNone?) && old(requestLen) == 0 then
                endpoint.EpNone? && Now() == old(Now()) && remote.len == old(remote.len)
              else
                && !endpoint.EpNone? && Now() == old(Now()).(request := request) && remote.len == old(remote.len)
                && request == old(request)
                && (if old(endpoint.EpNone?) then endpoint.EpUserFile? == fileDriver else endpoint == old(endpoint))
    {
      if requestLen < 0 || (requestLen > 0 && !h.info(request).validUri) {
        SendHttpError(400);
      } else if requestLen == 0 && local.len > MaxRequestSize {
        SendHttpError(413);
      } else if requestLen > 0 && !h.info(request).validVersion {
        SendHttpError(505);
      } else if requestLen > 0 && endpoint.EpNone? {
        endpoint := if fileDriver then EpUserFile else EpUser;
      }
    }

    /** A request that is complete leaves the local buffer and is parsed. */
    method TakeRequest()
      requires Valid() && endpoint.EpNone?
      modifies `requestLen, `request, `extracted, local, local.buf
      ensures local.buf == old(local.buf) && local.Valid()
      ensures var n := RequestLen(old(local.Contents()));
              if n <= 0 then
                requestLen == n && local.Contents() == old(local.Contents()) && extracted == old(extracted)
              else
                && n <= |old(local.Contents())|
                && request == old(local.Contents())[..n] && local.Contents() == old(local.Contents())[n..]
                && extracted == old(extracted) + [request]
                && requestLen == if h.info(request).parsed then n else -1
    {
      RequestFits(local.Contents());
      requestLen := GetRequestLen(local.Contents());
      if requestLen > 0 {
        request := local.buf[..requestLen];
        assert request == local.Contents()[..requestLen];
        extracted := extracted + [request];
        local.Drop(requestLen);
        if !h.info(request).parsed {
          requestLen := -1;
        }
      }
    }

    /** read_from_client. Bytes that arrive while a file is being transferred make the handler run again: its reply is
        spooled into the middle of the file and the transfer length starts over. */
    method ReadFromClient(io: Io)
      requires Valid() && !closeFlag && !socketError && io.Read(IoBufSize)
      modifies this, local, local.buf, remote, remote.buf
      ensures Valid() && (local.buf == old(local.buf) || fresh(local.buf))
      ensures remote.buf == old(remote.buf) || fresh(remote.buf)
      ensures sent == old(sent) && old(spooled) <= spooled && socketError == io.Failed()
      ensures (socketError ==> closeFlag) && (closeFlag ==> socketError || remote.Contents() == [])
      ensures io.n <= 0 ==> Now() == Received(h, old(Now()), io) && endpoint == old(endpoint)
      ensures !fileDriver && io.n > 0 && old(local.len) + io.n <= MaxLength ==>
                Done(h.Arrive(old(Pending()), old(local.Contents()), io.data), old(extracted), old(remote.len), old(spooled))
      ensures fileDriver && old(local.len) + |io.Bytes()| <= MaxLength ==>
                var f := Received(h, old(Now()), io); f.Fits() ==> Now() == f
    {
      if IsError(io.n, io.retry) {
        closeFlag, socketError := true, true;
      } else if io.n > 0 {
        hide Done, Handler.Handle, Handler.Resume;
        var n := local.Spool(io.data);
        assert n == |io.data| ==> io.data[..n] == io.data;
        ProcessRequest();
      }
    }

    /** write_to_client */
    method WriteToClient(io: Io)
      requires Valid() && io.n <= remote.len
      modifies `closeFlag, `sent, `socketError, remote, remote.buf
      ensures Valid() && remote.buf == old(remote.buf)
      ensures sent == old(sent) + old(remote.Contents())[..if io.n > 0 then io.n else 0]
      ensures closeFlag <==> old(closeFlag) || io.Failed() || (remote.len == 0 && spoolDone)
      ensures Now() == Written(old(Now()), io)
    {
      if IsError(io.n, io.retry) {
        closeFlag, socketError := true, true;
      } else if io.n > 0 {
        TakeOut(io.n);
      }
      Lengths();
      hide IoBuf.Contents;
      if remote.len == 0 && spoolDone {
        closeFlag := true;
      }
    }

    lemma Lengths()
      requires Valid()
      ensures |sent| + remote.len == |spooled|
    {
    }

    /** The first `n` bytes have been sent. */
    method TakeOut(n: nat)
      requires Valid() && n <= remote.len
      modifies `sent, remote, remote.buf
      ensures Valid() && remote.buf == old(remote.buf) && remote.len == old(remote.len) - n
      ensures sent == old(sent) + old(remote.Contents())[..n]
    {
      ghost var before := remote.Contents();
      Moved(sent, before, n);
      remote.Drop(n);
      hide IoBuf.Contents;
      sent := sent + before[..n];
    }

    lemma Moved(a: seq<Byte>, b: seq<Byte>, n: nat)
      requires n <= |b|
      ensures a + b == a + b[..n] + b[n..]
    {
      assert b == b[..n] + b[n..];
    }

    /** write_to_client, when the socket would take `sending.n` bytes. */
    method SendSome(sending: Io)
      requires Valid()
      modifies `closeFlag, `sent, `socketError, remote, remote.buf
      ensures Valid() && remote.buf == old(remote.buf) && old(sent) <= sent && Now() == Written(old(Now()), sending)
      ensures sending.n > 0 && old(remote.len) > 0 ==> sent == FirstOf(spooled, |old(sent)| + sending.n)
      ensures sending.n <= 0 ==> sent == old(sent)
      ensures old(closeFlag ==> socketError || remote.Contents() == []) ==>
                closeFlag ==> socketError || remote.Contents() == []
      ensures (old(socketError) ==> socketError) && (old(closeFlag) ==> closeFlag)
      ensures socketError ==> old(socketError) || closeFlag
    {
      WriteToClient(if sending.n > remote.len then sending.(n := remote.len) else sending);
    }

    /** transfer_file_data: the next part of an announced file, at most `cl` bytes. */
    method TransferFileData(io: Io)
      requires Valid() && endpoint.EpUserFile? && !closeFlag && io.Read(Limit(cl))
      modifies this, local, local.buf, remote, remote.buf
      ensures Valid() && local.buf == old(local.buf) && (remote.buf == old(remote.buf) || fresh(remote.buf))
      ensures sent == old(sent) && socketError == old(socketError) && old(spooled) <= spooled
      ensures closeFlag ==> remote.Contents() == []
      ensures endpoint.EpNone? || endpoint.EpUserFile?
      ensures local.Contents() == old(local.Contents())
      ensures var f := Part(old(Now()), io); f.Fits() ==> Now() == f
    {
      if IsError(io.n, io.retry) {
        CloseLocalEndpoint();
      } else if io.n > 0 {
        cl := cl - io.n;
        SpoolReply(io.data);
        if cl <= 0 {
          CloseLocalEndpoint();
        }
      }
    }

    /** One turn of mg_poll_server for this connection: file transfer, then reading and writing if the socket is ready,
        then the sweep that closes. A connection that is closed without a socket error or idle timeout has had all its
        spooled bytes sent; one that stays open carries no close flag into the next turn. */
    method PollOnce(x: Turn) returns (closed: bool)
      requires Valid() && !closeFlag && !socketError && x.client.Valid()
      requires endpoint.EpUserFile? ==> x.file(Limit(cl)).Read(Limit(cl))
      modifies this, local, local.buf, remote, remote.buf
      ensures Valid() && (local.buf == old(local.buf) || fresh(local.buf))
      ensures remote.buf == old(remote.buf) || fresh(remote.buf)
      ensures old(sent) <= sent && old(spooled) <= spooled
      ensures closed && !socketError && !x.client.expired ==> sent == spooled
      ensures x.client.writable && x.client.sending.n > 0 && old(remote.len) > 0 ==>
                sent == FirstOf(spooled, |old(sent)| + x.client.sending.n)
      ensures x.client.expired ==> closed
      ensures !closed ==> !closeFlag && !socketError
      ensures !fileDriver && old(local.len) + |x.client.Bytes()| <= MaxLength ==>
                Done(h.Arrive(old(Pending()), old(local.Contents()), x.client.Bytes()),
                     old(extracted), old(remote.len), old(spooled))
      ensures fileDriver && Room(h, old(Now()), x) ==> (Now(), closed) == Polled(h, old(Now()), x)
    {
      if endpoint.EpUserFile? {
        closed := PollTransfer(x);
      } else {
        closed := PollClient(x.client, remote.len > 0);
      }
    }

    lemma NothingArrived(len: nat)
      requires local.Valid()
      ensures Done(h.Arrive(Pending(), local.Contents(), []), extracted, len, spooled)
    {
      assert extracted + [] == extracted && spooled + [] == spooled;
    }

    method ReadIfReady(c: Client)
      requires Valid() && !closeFlag && !socketError && c.Valid()
      modifies this, local, local.buf, remote, remote.buf
      ensures Valid() && (local.buf == old(local.buf) || fresh(local.buf))
      ensures remote.buf == old(remote.buf) || fresh(remote.buf)
      ensures sent == old(sent) && old(spooled) <= spooled
      ensures (socketError ==> closeFlag) && (closeFlag ==> socketError || remote.Contents() == [])
      ensures !fileDriver && old(local.len) + |c.Bytes()| <= MaxLength ==>
                Done(h.Arrive(old(Pending()), old(local.Contents()), c.Bytes()),
                     old(extracted), old(remote.len), old(spooled))
      ensures fileDriver && old(local.len) + |c.Bytes()| <= MaxLength ==>
                var f := AfterReading(h, old(Now()), c); f.Fits() ==> Now() == f
    {
      hide Done, Handler.Handle, Handler.Resume, Opened;
      if c.readable {
        ReadFromClient(c.received);
      }
      if c.Bytes() == [] {
        NothingArrived(old(remote.len));
      }
    }

    /** The turn after the file part. */
    method PollClient(c: Client, wantWrite: bool) returns (closed: bool)
      requires Valid() && !closeFlag && !socketError && c.Valid()
      modifies this, local, local.buf, remote, remote.buf
      ensures Valid() && (local.buf == old(local.buf) || fresh(local.buf))
      ensures remote.buf == old(remote.buf) || fresh(remote.buf)
      ensures old(sent) <= sent && old(spooled) <= spooled
      ensures closed && !socketError && !c.expired ==> sent == spooled
      ensures c.writable && wantWrite && c.sending.n > 0 && old(remote.len) > 0 ==>
                sent == FirstOf(spooled, |old(sent)| + c.sending.n)
      ensures c.expired ==> closed
      ensures !closed ==> !closeFlag && !socketError
      ensures !fileDriver && old(local.len) + |c.Bytes()| <= MaxLength ==>
                Done(h.Arrive(old(Pending()), old(local.Contents()), c.Bytes()),
                     old(extracted), old(remote.len), old(spooled))
      ensures fileDriver && old(local.len) + |c.Bytes()| <= MaxLength ==>
                var f := AfterReading(h, old(Now()), c);
                f.Fits() ==> Now() == AfterWriting(f, c, wantWrite) && closed == (closeFlag || c.expired)
    {
      hide Done, Handler.Handle, Handler.Resume, Opened, FileServer.Received, Written, Client.Bytes;
      ReadIfReady(c);
      if wantWrite && c.writable {
        SendSome(c.sending);
      }
      closed := closeFlag || c.expired;
    }

    /** A turn that begins with a file part; a connection that is closed right after it has nothing left to send. */
    method PollTransfer(x: Turn) returns (closed: bool)
      requires Valid() && !closeFlag && !socketError && x.client.Valid() && endpoint.EpUserFile?
      requires x.file(Limit(cl)).Read(Limit(cl))
      modifies this, local, local.buf, remote, remote.buf
      ensures Valid() && (local.buf == old(local.buf) || fresh(local.buf))
      ensures remote.buf == old(remote.buf) || fresh(remote.buf)
      ensures old(sent) <= sent && old(spooled) <= spooled
      ensures closed && !socketError && !x.client.expired ==> sent == spooled
      ensures x.client.writable && x.client.sending.n > 0 && old(remote.len) > 0 ==>
                sent == FirstOf(spooled, |old(sent)| + x.client.sending.n)
      ensures x.client.expired ==> closed
      ensures !closed ==> !closeFlag && !socketError
      ensures Room(h, old(Now()), x) ==> (Now(), closed) == Polled(h, old(Now()), x)
    {
      hide Done, Handler.Handle, Handler.Resume, Handled, Part, Received, Written;
      TransferFileData(x.file(Limit(cl)));
      var wantWrite := remote.len > 0;
      if !wantWrite && closeFlag {
        return true;
      }
      closed := PollClient(x.client, wantWrite);
    }
  }

  // Runs of the poll loop.

  /** What a client sends in some turns. */
  function Arriving(turns: seq<Turn>): seq<seq<Byte>> {
    if turns == [] then []
    else
      var bytes := turns[|turns| - 1].client.Bytes();
      Arriving(turns[..|turns| - 1]) + if bytes == [] then [] else [bytes]
  }

  /** The connection is where the server is after the outcome `k` for all that was received. */
  ghost predicate Serving(conn: Conn, k: Outcome)
    reads conn, conn.local, conn.local.buf, conn.remote, conn.remote.buf
  {
    && conn.Valid() && !conn.fileDriver
    && conn.extracted == k.requests && conn.local.Contents() == k.rest && conn.Pending() == k.pending
    && conn.spooled == k.answers
  }

  /** There is memory for all that is received and answered. */
  ghost predicate RoomToAnswer(h: Handler, turns: seq<Turn>) {
    forall i :: 0 <= i < |turns| ==> RoomFor(h, turns[..i], turns[i].client.Bytes())
  }

  ghost predicate RoomFor(h: Handler, before: seq<Turn>, bytes: seq<Byte>) {
    var k := h.Arrived(Arriving(before));
    && |k.rest| + |bytes| <= MaxLength
    && |k.answers| + |h.Arrive(k.pending, k.rest, bytes).answers| <= MaxLength
  }

  lemma ArrivedNext(h: Handler, before: seq<Turn>, x: Turn)
    ensures var k := h.Arrived(Arriving(before));
            var m := h.Arrive(k.pending, k.rest, x.client.Bytes());
            h.Arrived(Arriving(before + [x])) == Outcome(k.requests + m.requests, m.rest, k.answers + m.answers, m.pending)
  {
    hide Handler.Handle, Handler.Resume;
    var bytes := x.client.Bytes();
    assert (before + [x])[..|before|] == before;
    if bytes == [] {
      var k := h.Arrived(Arriving(before));
      assert Arriving(before) + [] == Arriving(before) && k.requests + [] == k.requests && k.answers + [] == k.answers;
    } else {
      assert (Arriving(before) + [bytes])[..|Arriving(before)|] == Arriving(before);
    }
  }

  /** After the turns of `part`. A connection that was closed without socket error or timeout has sent all answers. */
  ghost predicate Served(conn: Conn, part: seq<Turn>, closed: bool)
    reads conn, conn.local, conn.local.buf, conn.remote, conn.remote.buf
  {
    var k := conn.h.Arrived(Arriving(part));
    && Serving(conn, k)
    && (!closed ==> !conn.closeFlag && !conn.socketError)
    && (closed && !conn.socketError && !(part != [] && part[|part| - 1].client.expired) ==> conn.sent == k.answers)
  }

  /** A server that answers at once, over any run of turns: whatever arrives when, and however much the socket takes when,
      the requests taken and the bytes spooled are those of the bytes received. `done` turns were made. */
  method Serve(conn: Conn, turns: seq<Turn>) returns (done: nat, closed: bool)
    requires Served(conn, [], false)
    requires (forall x :: x in turns ==> x.client.Valid()) && RoomToAnswer(conn.h, turns)
    modifies conn, conn.local, conn.local.buf, conn.remote, conn.remote.buf
    ensures done <= |turns| && (done < |turns| ==> closed) && Served(conn, turns[..done], closed)
  {
    hide *;
    done, closed := 0, false;
    assert turns[..0] == [];
    while done < |turns| && !closed
      invariant done <= |turns| && Served(conn, turns[..done], closed)
      invariant conn.local.buf == old(conn.local.buf) || fresh(conn.local.buf)
      invariant conn.remote.buf == old(conn.remote.buf) || fresh(conn.remote.buf)
    {
      RoomHere(conn.h, turns, done);
      closed := ServeTurn(conn, turns[..done], turns[done]);
      assert turns[..done] + [turns[done]] == turns[..done + 1];
      done := done + 1;
    }
  }

  lemma RoomHere(h: Handler, turns: seq<Turn>, i: nat)
    requires RoomToAnswer(h, turns) && i < |turns|
    ensures RoomFor(h, turns[..i], turns[i].client.Bytes())
  {
  }

  method ServeTurn(conn: Conn, ghost before: seq<Turn>, x: Turn) returns (closed: bool)
    requires Served(conn, before, false) && x.client.Valid() && RoomFor(conn.h, before, x.client.Bytes())
    modifies conn, conn.local, conn.local.buf, conn.remote, conn.remote.buf
    ensures Served(conn, before + [x], closed)
    ensures conn.local.buf == old(conn.local.buf) || fresh(conn.local.buf)
    ensures conn.remote.buf == old(conn.remote.buf) || fresh(conn.remote.buf)
  {
    hide Handler.Arrive, Handler.Arrived, Arriving;
    ArrivedNext(conn.h, before, x);
    assert conn.remote.len <= |conn.spooled|;
    closed := conn.PollOnce(x);
  }

  // A server of files.

  /** The connection is where `l` says. */
  ghost predicate Lives(conn: Conn, l: Life)
    reads conn, conn.local, conn.local.buf, conn.remote, conn.remote.buf
  {
    conn.Valid() && conn.fileDriver && conn.Now() == l.f && Sound(conn.h, l)
  }

  /** There is memory for all that is received and spooled. */
  ghost predicate RoomToServe(h: Handler, l: Life, turns: seq<Turn>) {
    forall i :: 0 <= i < |turns| ==> Room(h, LiveAll(h, l, turns[..i]).f, turns[i])
  }

  lemma RoomToGoOn(h: Handler, l: Life, turns: seq<Turn>, i: nat)
    requires RoomToServe(h, l, turns) && AllValid(turns) && i < |turns|
    ensures Room(h, LiveAll(h, l, turns[..i]).f, turns[i]) && ValidTurn(turns[i])
    ensures LiveAll(h, l, turns[..i + 1]) == Live(h, LiveAll(h, l, turns[..i]), turns[i])
  {
    hide Live, Room;
    assert turns[..i + 1][..i] == turns[..i];
  }

  lemma NoTurns(h: Handler, l: Life, turns: seq<Turn>)
    ensures LiveAll(h, l, turns[..0]) == l
  {
  }

  method ServeFilesTurn(conn: Conn, x: Turn, ghost l: Life) returns (closed: bool, ghost m: Life)
    requires Lives(conn, l) && !l.closed && ValidTurn(x) && Room(conn.h, l.f, x)
    modifies conn, conn.local, conn.local.buf, conn.remote, conn.remote.buf
    ensures m == Live(conn.h, l, x) && closed == m.closed && Lives(conn, m)
    ensures conn.local.buf == old(conn.local.buf) || fresh(conn.local.buf)
    ensures conn.remote.buf == old(conn.remote.buf) || fresh(conn.remote.buf)
  {
    m := Live(conn.h, l, x);
    LiveSound(conn.h, l, x);
    LivePolled(conn.h, l, x);
    assert !conn.closeFlag && !conn.socketError;
    hide Live, Sound, Polled, Room, Handler.Arrive;
    closed := conn.PollOnce(x);
  }

  lemma LivePolled(h: Handler, l: Life, x: Turn)
    requires !l.closed
    ensures var m := Live(h, l, x); (m.f, m.closed) == Polled(h, l.f, x)
  {
    hide Polled, Transferred, Begun, With;
  }

  /** The poll loop for a connection of a server of files, over any run of turns: what the connection takes, spools and
      sends is what `LiveAll` says, and so is the end of it. `done` turns were made. */
  method ServeFiles(conn: Conn, turns: seq<Turn>, ghost l: Life) returns (done: nat, closed: bool, ghost m: Life)
    requires Lives(conn, l) && !l.closed && AllValid(turns) && RoomToServe(conn.h, l, turns)
    modifies conn, conn.local, conn.local.buf, conn.remote, conn.remote.buf
    ensures done <= |turns| && (done < |turns| ==> closed)
    ensures m == LiveAll(conn.h, l, turns[..done]) && closed == m.closed && Lives(conn, m)
  {
    hide *;
    NoTurns(conn.h, l, turns);
    done, closed, m := 0, false, l;
    while done < |turns| && !closed
      invariant done <= |turns| && m == LiveAll(conn.h, l, turns[..done]) && closed == m.closed && Lives(conn, m)
      invariant conn.local.buf == old(conn.local.buf) || fresh(conn.local.buf)
      invariant conn.remote.buf == old(conn.remote.buf) || fresh(conn.remote.buf)
    {
      RoomToGoOn(conn.h, l, turns, done);
      closed, m := ServeFilesTurn(conn, turns[done], m);
      done := done + 1;
    }
  }

  // Accepted connections.

  /** A connection of a server that answers at once, from its beginning. */
  method AcceptAndServe(h: Handler, turns: seq<Turn>) returns (conn: Conn, done: nat, closed: bool)
    requires (forall x :: x in turns ==> x.client.Valid()) && RoomToAnswer(h, turns)
    ensures conn.h == h && done <= |turns| && (done < |turns| ==> closed) && Served(conn, turns[..done], closed)
  {
    hide Conn.Valid;
    conn := new Conn(false, h);
    done, closed := Serve(conn, turns);
  }

  /** A connection of a server of files, from its beginning. */
  method AcceptAndServeFiles(h: Handler, turns: seq<Turn>) returns (conn: Conn, done: nat, closed: bool)
    requires AllValid(turns) && RoomToServe(h, Born, turns)
    ensures conn.h == h && done <= |turns| && (done < |turns| ==> closed)
    ensures var m := LiveAll(h, Born, turns[..done]); closed == m.closed && Lives(conn, m)
  {
    hide Conn.Valid, Sound, LiveAll;
    conn := new Conn(true, h);
    BornSound(h);
    ghost var m;
    done, closed, m := ServeFiles(conn, turns, Born);
  }
}
