/** Finding the requests in the bytes of a connection: get_request_len, and what the keep-alive recursion of
    process_request and close_local_endpoint takes out of the local buffer. */
module Requests {
  import opened Words

  const LF := 10
  const CR := 13

  /** Neither printable (in the C locale) nor a line end nor above 127. */
  predicate Malformed(b: Byte) {
    !(32 <= b <= 126) && b != CR && b != LF && b < 128
  }

  /** The length of a request that ends with the line end at `i` and an empty line, if it does; else 0. */
  function EndAt(s: seq<Byte>, i: nat): nat
    requires i < |s|
  {
    if s[i] == LF && i + 1 < |s| && s[i + 1] == LF then i + 2
    else if s[i] == LF && i + 2 < |s| && s[i + 1] == CR && s[i + 2] == LF then i + 3
    else 0
  }

  /** The first place that decides. */
  ghost predicate FirstDecision(s: seq<Byte>, i: nat) {
    && i < |s| && (Malformed(s[i]) || EndAt(s, i) > 0)
    && forall j :: 0 <= j < i ==> !Malformed(s[j]) && EndAt(s, j) == 0
  }

  function RequestLenFrom(s: seq<Byte>, i: nat): int
    requires i <= |s|
    decreases |s| - i
  {
    if i == |s| then 0
    else if Malformed(s[i]) then -1
    else if EndAt(s, i) > 0 then EndAt(s, i)
    else RequestLenFrom(s, i + 1)
  }

  function RequestLen(s: seq<Byte>): int {
    RequestLenFrom(s, 0)
  }

  lemma {:induction false} RequestLenDecides(s: seq<Byte>, i: nat)
    requires i <= |s| && forall j :: 0 <= j < i ==> !Malformed(s[j]) && EndAt(s, j) == 0
    ensures var n := RequestLenFrom(s, i);
            || (n == 0 && forall j :: 0 <= j < |s| ==> !Malformed(s[j]) && EndAt(s, j) == 0)
            || (exists k: nat :: FirstDecision(s, k) && n == if Malformed(s[k]) then -1 else EndAt(s, k))
    decreases |s| - i
  {
    if i < |s| {
      if Malformed(s[i]) || EndAt(s, i) > 0 {
        assert FirstDecision(s, i);
      } else {
        RequestLenDecides(s, i + 1);
      }
    }
  }

  lemma {:induction false} LenAtDecision(s: seq<Byte>, i: nat, k: nat)
    requires FirstDecision(s, k) && i <= k
    ensures RequestLenFrom(s, i) == if Malformed(s[k]) then -1 else EndAt(s, k)
    decreases k - i
  {
    if i < k {
      LenAtDecision(s, i + 1, k);
    }
  }

  /** get_request_len */
  method GetRequestLen(s: seq<Byte>) returns (n: int)
    ensures n == RequestLen(s)
  {
    for i := 0 to |s|
      invariant RequestLen(s) == RequestLenFrom(s, i)
    {
      if !(32 <= s[i] <= 126) && s[i] != CR && s[i] != LF && s[i] < 128 {
        return -1;
      } else if s[i] == LF && i + 1 < |s| && s[i + 1] == LF {
        return i + 2;
      } else if s[i] == LF && i + 2 < |s| && s[i + 1] == CR && s[i + 2] == LF {
        return i + 3;
      }
    }
    n := 0;
  }

  // The answer, told without the scan.

  /** ASCII control characters other than the two of a line end. */
  predicate Control(b: Byte) {
    (b < 32 && b != 10 && b != 13) || b == 127
  }

  /** An empty line, behind a line end, ends before `e`. */
  ghost predicate EmptyLine(s: seq<Byte>, e: nat) {
    && 2 <= e <= |s| && s[e - 1] == 10
    && (s[e - 2] == 10 || (e >= 3 && s[e - 2] == 13 && s[e - 3] == 10))
  }

  ghost predicate NoneBefore(s: seq<Byte>, n: nat) {
    forall e: nat :: e < n ==> !EmptyLine(s, e)
  }

  ghost predicate TextBefore(s: seq<Byte>, n: nat) {
    forall k :: 0 <= k < n && k < |s| ==> !Control(s[k])
  }

  lemma EndIsEmptyLine(s: seq<Byte>, i: nat)
    requires i < |s| && EndAt(s, i) > 0
    ensures EmptyLine(s, EndAt(s, i)) && i + 2 <= EndAt(s, i) <= i + 3
    ensures forall k :: i <= k < EndAt(s, i) ==> s[k] == 10 || s[k] == 13
  {
  }

  lemma MalformedIsControl(b: Byte)
    ensures Malformed(b) <==> Control(b)
  {
  }

  /** An empty line that ends at `e` is found where it begins. */
  lemma EmptyLineBegins(s: seq<Byte>, e: nat) returns (i: nat)
    requires EmptyLine(s, e)
    ensures i < e && i < |s| && EndAt(s, i) == e
  {
    i := if s[e - 2] == 10 then e - 2 else e - 3;
  }

  lemma NoneBeforeDecision(s: seq<Byte>, k: nat, n: nat)
    requires k < |s| && n <= k + 3 && forall j :: 0 <= j < k ==> EndAt(s, j) == 0
    requires n == k + 1 || (EndAt(s, k) == n && n > 0)
    ensures NoneBefore(s, n)
  {
    forall e: nat | EmptyLine(s, e)
      ensures n <= e
    {
      var i := EmptyLineBegins(s, e);
    }
  }

  /** The three kinds of answer. */
  ghost predicate Complete(s: seq<Byte>, n: nat) {
    EmptyLine(s, n) && NoneBefore(s, n) && TextBefore(s, n)
  }

  ghost predicate Refused(s: seq<Byte>, k: nat) {
    k < |s| && Control(s[k]) && NoneBefore(s, k + 1)
  }

  ghost predicate NotYet(s: seq<Byte>) {
    NoneBefore(s, |s| + 1) && TextBefore(s, |s|)
  }

  lemma LenIs(s: seq<Byte>)
    ensures var n := RequestLen(s);
            if n > 0 then Complete(s, n) else if n == 0 then NotYet(s) else n == -1 && exists k :: Refused(s, k)
  {
    RequestLenDecides(s, 0);
    hide Malformed, Control, EndAt, EmptyLine;
    forall k | 0 <= k < |s|
      ensures Malformed(s[k]) <==> Control(s[k])
    {
      MalformedIsControl(s[k]);
    }
    if RequestLen(s) == 0 && forall j :: 0 <= j < |s| ==> !Malformed(s[j]) && EndAt(s, j) == 0 {
      NoEmptyLine(s);
    } else {
      var k: nat :| FirstDecision(s, k) && RequestLen(s) == if Malformed(s[k]) then -1 else EndAt(s, k);
      DecisionIs(s, k);
    }
  }

  lemma NoEmptyLine(s: seq<Byte>)
    requires forall j :: 0 <= j < |s| ==> EndAt(s, j) == 0
    ensures NoneBefore(s, |s| + 1)
  {
    hide EndAt, EmptyLine;
    forall e: nat | EmptyLine(s, e)
      ensures false
    {
      var i := EmptyLineBegins(s, e);
    }
  }

  lemma DecisionIs(s: seq<Byte>, k: nat)
    requires FirstDecision(s, k)
    ensures if Malformed(s[k]) then Refused(s, k) else EndAt(s, k) > 0 && Complete(s, EndAt(s, k))
  {
    hide EndAt, EmptyLine;
    if Malformed(s[k]) {
      NoneBeforeDecision(s, k, k + 1);
    } else {
      EndIsEmptyLine(s, k);
      NoneBeforeDecision(s, k, EndAt(s, k));
    }
  }

  lemma OneAnswer(s: seq<Byte>, n: nat, k: nat)
    requires Complete(s, n) && n > 0
    ensures !Refused(s, k) && !NotYet(s) && forall m: nat :: Complete(s, m) ==> m == n
  {
    hide Control;
    forall m: nat | Complete(s, m)
      ensures m == n
    {
      assert !(m < n) && !(n < m);
    }
  }

  /** A request ends with the first empty line, if only printable characters, line ends and bytes from 128 on come before
      its end; it is refused if another byte comes before the first empty line. */
  lemma RequestLenIs(s: seq<Byte>, n: nat)
    requires n > 0
    ensures RequestLen(s) == n <==> Complete(s, n)
    ensures RequestLen(s) == -1 <==> exists k :: Refused(s, k)
    ensures RequestLen(s) == 0 <==> NotYet(s)
  {
    hide Complete, Refused, NotYet, RequestLen;
    LenIs(s);
    var m := RequestLen(s);
    forall k: nat
      ensures m > 0 || Complete(s, n) ==> !Refused(s, k) && !NotYet(s)
      ensures Refused(s, k) ==> !NotYet(s)
      ensures m > 0 && Complete(s, n) ==> m == n
    {
      if m > 0 {
        OneAnswer(s, m, k);
      }
      if Complete(s, n) {
        OneAnswer(s, n, k);
      }
      if Refused(s, k) {
        RefusedAtOnce(s, k);
      }
    }
    assert m > 0 ==> !Refused(s, 0) && !NotYet(s) && (Complete(s, n) ==> m == n);
    assert Complete(s, n) ==> !Refused(s, 0) && !NotYet(s);
  }

  lemma RefusedAtOnce(s: seq<Byte>, k: nat)
    requires Refused(s, k)
    ensures !NotYet(s)
  {
    hide Control, EmptyLine;
  }

  lemma FrontLines(a: seq<Byte>, b: seq<Byte>, e: nat)
    requires e <= |a|
    ensures EmptyLine(a + b, e) <==> EmptyLine(a, e)
  {
  }

  /** What ends with the first empty line of `s`, in printable characters, line ends and bytes from 128 on, is found
      whatever follows. */
  lemma FoundAtEnd(s: seq<Byte>, rest: seq<Byte>)
    requires EmptyLine(s, |s|) && NoneBefore(s, |s|)
    requires forall b :: b in s ==> 32 <= b <= 126 || b == 10 || b == 13 || 128 <= b
    ensures RequestLen(s + rest) == |s|
  {
    forall e: nat | e <= |s|
      ensures EmptyLine(s + rest, e) <==> EmptyLine(s, e)
    {
      FrontLines(s, rest, e);
    }
    assert forall k :: 0 <= k < |s| ==> (s + rest)[k] in s;
    hide EmptyLine;
    assert Complete(s + rest, |s|) by {
      assert TextBefore(s + rest, |s|);
    }
    RequestLenIs(s + rest, |s|);
  }

  /** Lines without another empty line, then CR LF CR LF. */
  lemma RequestFound(h: seq<Byte>, rest: seq<Byte>)
    requires forall b :: b in h ==> 32 <= b <= 126 || b == 10 || b == 13 || 128 <= b
    requires NoneBefore(h + [13, 10, 13], |h| + 4)
    ensures RequestLen(h + [13, 10, 13, 10] + rest) == |h| + 4
  {
    var s := h + [13, 10, 13, 10];
    assert s == h + [13, 10, 13] + [10];
    hide RequestLen;
    forall e: nat | e < |h| + 4
      ensures !EmptyLine(s, e)
    {
      FrontLines(h + [13, 10, 13], [10], e);
    }
    FoundAtEnd(s, rest);
  }

  /** The same with bare line feeds. */
  lemma BareRequestFound(h: seq<Byte>, rest: seq<Byte>)
    requires forall b :: b in h ==> 32 <= b <= 126 || b == 10 || b == 13 || 128 <= b
    requires NoneBefore(h + [10], |h| + 2)
    ensures RequestLen(h + [10, 10] + rest) == |h| + 2
  {
    var s := h + [10, 10];
    assert s == h + [10] + [10];
    hide RequestLen;
    forall e: nat | e < |h| + 2
      ensures !EmptyLine(s, e)
    {
      FrontLines(h + [10], [10], e);
    }
    FoundAtEnd(s, rest);
  }

  /** An answer other than "not yet" is final: no bytes that follow change it. */
  lemma AnswerIsFinal(a: seq<Byte>, b: seq<Byte>)
    requires RequestLen(a) != 0
    ensures RequestLen(a + b) == RequestLen(a)
  {
    RequestLenDecides(a, 0);
    var k: nat :| FirstDecision(a, k) && RequestLen(a) == if Malformed(a[k]) then -1 else EndAt(a, k);
    forall j | 0 <= j < k
      ensures !Malformed((a + b)[j]) && EndAt(a + b, j) == 0
    {
      assert EndAt(a, j) == 0;
    }
    assert FirstDecision(a + b, k);
    LenAtDecision(a + b, 0, k);
  }

  lemma RequestFits(s: seq<Byte>)
    ensures -1 <= RequestLen(s) <= |s|
  {
    RequestLenDecides(s, 0);
  }

  /** Requests taken out of a buffer, and what is left in it. */
  datatype Taken = Taken(requests: seq<seq<Byte>>, rest: seq<Byte>)

  /** All requests of a stream. */
  function Scan(s: seq<Byte>): Taken
    decreases |s|
  {
    RequestFits(s);
    var n := RequestLen(s);
    if n <= 0 then Taken([], s)
    else var t := Scan(s[n..]); Taken([s[..n]] + t.requests, t.rest)
  }

  /** What one call of process_request takes when every request has its answer at once: close_local_endpoint calls it
      again only after a request that keeps the connection alive. */
  function Process(s: seq<Byte>, keepsAlive: seq<Byte> -> bool): Taken
    decreases |s|
  {
    RequestFits(s);
    var n := RequestLen(s);
    if n <= 0 then Taken([], s)
    else if !keepsAlive(s[..n]) then Taken([s[..n]], s[n..])
    else var t := Process(s[n..], keepsAlive); Taken([s[..n]] + t.requests, t.rest)
  }

  /** The first step of Process. */
  lemma ProcessOnce(s: seq<Byte>, keepsAlive: seq<Byte> -> bool)
    ensures var n := RequestLen(s);
            && -1 <= n <= |s|
            && (n <= 0 ==> Process(s, keepsAlive) == Taken([], s))
            && (n > 0 && !keepsAlive(s[..n]) ==> Process(s, keepsAlive) == Taken([s[..n]], s[n..]))
            && (n > 0 && keepsAlive(s[..n]) ==>
                  var t := Process(s[n..], keepsAlive); Process(s, keepsAlive) == Taken([s[..n]] + t.requests, t.rest))
  {
    RequestFits(s);
  }

  /** Processing after each received chunk. */
  function Chunked(chunks: seq<seq<Byte>>, keepsAlive: seq<Byte> -> bool): Taken {
    if chunks == [] then Taken([], [])
    else
      var p := Chunked(chunks[..|chunks| - 1], keepsAlive);
      var q := Process(p.rest + chunks[|chunks| - 1], keepsAlive);
      Taken(p.requests + q.requests, q.rest)
  }

  lemma {:induction false} ScanInParts(a: seq<Byte>, b: seq<Byte>)
    ensures var p := Scan(a);
            var q := Scan(p.rest + b);
            Scan(a + b) == Taken(p.requests + q.requests, q.rest)
    decreases |a|
  {
    hide Scan, RequestLen;
    ScanOnce(a);
    var n := RequestLen(a);
    if n > 0 {
      AnswerIsFinal(a, b);
      ScanOnce(a + b);
      CutBehind(a, b, n);
      ScanInParts(a[n..], b);
      var t := Scan(a[n..]);
      OneFirst(a[..n], t.requests, Scan(t.rest + b).requests);
    } else {
      NoneFirst(Scan(a + b).requests);
    }
  }

  /** The first step of Scan. */
  lemma ScanOnce(s: seq<Byte>)
    ensures var n := RequestLen(s);
            && n <= |s|
            && Scan(s) == if n <= 0 then Taken([], s)
                          else var t := Scan(s[n..]); Taken([s[..n]] + t.requests, t.rest)
  {
    RequestFits(s);
  }

  lemma CutBehind(a: seq<Byte>, b: seq<Byte>, n: nat)
    requires n <= |a|
    ensures (a + b)[..n] == a[..n] && (a + b)[n..] == a[n..] + b
  {
  }

  lemma OneFirst<T>(x: T, a: seq<T>, b: seq<T>)
    ensures [x] + (a + b) == [x] + a + b
  {
  }

  lemma NoneFirst<T>(a: seq<T>)
    ensures [] + a == a
  {
  }

  predicate AllButLast(requests: seq<seq<Byte>>, keepsAlive: seq<Byte> -> bool) {
    forall k :: 0 <= k < |requests| - 1 ==> keepsAlive(requests[k])
  }

  lemma {:induction false} ProcessScans(s: seq<Byte>, keepsAlive: seq<Byte> -> bool)
    ensures Process(s, keepsAlive).requests == Scan(s).requests <==> AllButLast(Scan(s).requests, keepsAlive)
    ensures AllButLast(Scan(s).requests, keepsAlive) ==> Process(s, keepsAlive) == Scan(s)
    decreases |s|
  {
    RequestFits(s);
    var n := RequestLen(s);
    if n > 0 {
      ProcessScans(s[n..], keepsAlive);
      var t := Scan(s[n..]);
      var all := [s[..n]] + t.requests;
      assert Scan(s).requests == all;
      if keepsAlive(s[..n]) {
        assert forall k :: 0 <= k < |t.requests| ==> all[k + 1] == t.requests[k];
        assert AllButLast(all, keepsAlive) <==> AllButLast(t.requests, keepsAlive);
        assert all[1..] == t.requests;
        assert ([s[..n]] + Process(s[n..], keepsAlive).requests)[1..] == Process(s[n..], keepsAlive).requests;
      } else if t.requests == [] {
        assert RequestLen(s[n..]) <= 0;
      } else {
        assert all[0] == s[..n];
      }
    }
  }

  lemma {:induction false} ChunkedScans(chunks: seq<seq<Byte>>, keepsAlive: seq<Byte> -> bool)
    requires AllButLast(Scan(Concat(chunks)).requests, keepsAlive)
    ensures Chunked(chunks, keepsAlive) == Scan(Concat(chunks))
  {
    if chunks != [] {
      var a, b := Concat(chunks[..|chunks| - 1]), chunks[|chunks| - 1];
      ScanInParts(a, b);
      var p := Scan(a);
      var q := Scan(p.rest + b);
      var all := p.requests + q.requests;
      assert forall k :: 0 <= k < |p.requests| ==> all[k] == p.requests[k];
      ChunkedScans(chunks[..|chunks| - 1], keepsAlive);
      assert forall k :: 0 <= k < |q.requests| ==> all[|p.requests| + k] == q.requests[k];
      ProcessScans(p.rest + b, keepsAlive);
    }
  }

  // Chunks of limited size: a receive gives at most so many bytes.

  /** Each request with another one behind it keeps the connection alive, or that other one is too long to end in the
      chunk in which it ends itself. */
  predicate Apart(requests: seq<seq<Byte>>, keepsAlive: seq<Byte> -> bool, limit: nat) {
    forall k :: 0 <= k < |requests| - 1 ==> keepsAlive(requests[k]) || |requests[k + 1]| >= limit
  }

  ghost predicate Cut(chunks: seq<seq<Byte>>, s: seq<Byte>, limit: nat) {
    Concat(chunks) == s && forall c :: c in chunks ==> 0 < |c| <= limit
  }

  /** After `n` chunks, the requests taken are those of the bytes so far. */
  ghost predicate SameAfter(chunks: seq<seq<Byte>>, n: nat, keepsAlive: seq<Byte> -> bool)
    requires n <= |chunks|
  {
    Chunked(chunks[..n], keepsAlive).requests == Scan(Concat(chunks[..n])).requests
  }

  /** A request that ends in `a` is found in `a`. */
  lemma EndsEarly(a: seq<Byte>, b: seq<Byte>)
    requires 0 < RequestLen(a + b) <= |a|
    ensures RequestLen(a) == RequestLen(a + b)
  {
    var s := a + b;
    RequestLenDecides(s, 0);
    var k: nat :| FirstDecision(s, k) && RequestLen(s) == EndAt(s, k);
    forall j | 0 <= j < k
      ensures !Malformed(a[j]) && EndAt(a, j) == 0
    {
      assert a[j] == s[j] && EndAt(s, j) == 0;
    }
    assert EndAt(a, k) == EndAt(s, k);
    assert FirstDecision(a, k);
    LenAtDecision(a, 0, k);
  }

  /** All requests but the first of those that `b` completes begin in `b`. */
  lemma {:induction false} LaterFit(s: seq<Byte>, from: nat)
    requires RequestLen(s) > from
    ensures Scan(s).requests != []
    ensures forall k :: 0 < k < |Scan(s).requests| ==> |Scan(s).requests[k]| < |s| - from
  {
    RequestFits(s);
    var n := RequestLen(s);
    var t := Scan(s[n..]);
    AllFit(s[n..]);
    assert Scan(s).requests == [s[..n]] + t.requests;
    forall k | 0 < k < |Scan(s).requests|
      ensures |Scan(s).requests[k]| < |s| - from
    {
      assert Scan(s).requests[k] == t.requests[k - 1];
    }
  }

  lemma {:induction false} AllFit(s: seq<Byte>)
    ensures forall r :: r in Scan(s).requests ==> 0 < |r| <= |s|
    decreases |s|
  {
    RequestFits(s);
    var n := RequestLen(s);
    if n > 0 {
      AllFit(s[n..]);
    }
  }

  /** What is left behind the requests of a stream holds no other. */
  lemma {:induction false} RestHasNone(s: seq<Byte>)
    ensures RequestLen(Scan(s).rest) <= 0
    decreases |s|
  {
    RequestFits(s);
    if RequestLen(s) > 0 {
      RestHasNone(s[RequestLen(s)..]);
    }
  }

  /** One chunk behind bytes without a whole request. */
  lemma ApartProcess(rest: seq<Byte>, chunk: seq<Byte>, keepsAlive: seq<Byte> -> bool, limit: nat)
    requires RequestLen(rest) <= 0 && |chunk| <= limit
    requires Apart(Scan(rest + chunk).requests, keepsAlive, limit)
    ensures Process(rest + chunk, keepsAlive) == Scan(rest + chunk)
  {
    var s := rest + chunk;
    ProcessScans(s, keepsAlive);
    if RequestLen(s) > 0 {
      if RequestLen(s) <= |rest| {
        EndsEarly(rest, chunk);
      }
      LaterFit(s, |rest|);
    } else {
      ScanNone(s);
    }
    hide Scan, Process, RequestLen, Apart, AllButLast;
    ApartKeeps(Scan(s).requests, keepsAlive, limit);
  }

  lemma ApartKeeps(requests: seq<seq<Byte>>, keepsAlive: seq<Byte> -> bool, limit: nat)
    requires Apart(requests, keepsAlive, limit)
    requires forall k :: 0 < k < |requests| ==> |requests[k]| < limit
    ensures AllButLast(requests, keepsAlive)
  {
    forall k | 0 <= k < |requests| - 1
      ensures keepsAlive(requests[k])
    {
      assert |requests[k + 1]| < limit;
    }
  }

  lemma ScanNone(s: seq<Byte>)
    requires RequestLen(s) <= 0
    ensures Scan(s) == Taken([], s)
  {
  }

  lemma {:induction false} ApartScans(chunks: seq<seq<Byte>>, keepsAlive: seq<Byte> -> bool, limit: nat)
    requires forall c :: c in chunks ==> |c| <= limit
    requires Apart(Scan(Concat(chunks)).requests, keepsAlive, limit)
    ensures Chunked(chunks, keepsAlive) == Scan(Concat(chunks))
  {
    if chunks != [] {
      var before, b := chunks[..|chunks| - 1], chunks[|chunks| - 1];
      var a := Concat(before);
      ScanInParts(a, b);
      var p := Scan(a);
      var q := Scan(p.rest + b);
      hide Scan;
      ApartParts(p.requests, q.requests, keepsAlive, limit);
      ApartScans(before, keepsAlive, limit);
      RestHasNone(a);
      ApartProcess(p.rest, b, keepsAlive, limit);
    }
  }

  lemma ApartParts(a: seq<seq<Byte>>, b: seq<seq<Byte>>, keepsAlive: seq<Byte> -> bool, limit: nat)
    requires Apart(a + b, keepsAlive, limit)
    ensures Apart(a, keepsAlive, limit) && Apart(b, keepsAlive, limit)
  {
    var all := a + b;
    assert forall k :: 0 <= k < |a| ==> all[k] == a[k];
    assert forall k :: 0 <= k < |b| ==> all[|a| + k] == b[k];
    forall k | 0 <= k < |b| - 1
      ensures keepsAlive(b[k]) || |b[k + 1]| >= limit
    {
      assert all[|a| + k + 1] == b[k + 1];
    }
  }

  // The converse: a request that is not kept alive, with a short one behind it, arrives together with that one.

  function Singles(s: seq<Byte>): seq<seq<Byte>> {
    if s == [] then [] else Singles(s[..|s| - 1]) + [[s[|s| - 1]]]
  }

  lemma {:induction false} SinglesCut(s: seq<Byte>)
    ensures Cut(Singles(s), s, 1)
  {
    if s != [] {
      SinglesCut(s[..|s| - 1]);
      ConcatOne(Singles(s[..|s| - 1]), [s[|s| - 1]]);
    }
  }

  lemma ConcatOne(chunks: seq<seq<Byte>>, c: seq<Byte>)
    ensures Concat(chunks + [c]) == Concat(chunks) + c
  {
    assert (chunks + [c])[..|chunks|] == chunks;
  }

  lemma {:induction false} ConcatParts(a: seq<seq<Byte>>, b: seq<seq<Byte>>)
    ensures Concat(a + b) == Concat(a) + Concat(b)
    decreases |b|
  {
    if b == [] {
      assert a + b == a;
    } else {
      ConcatParts(a, b[..|b| - 1]);
      assert (a + b)[..|a + b| - 1] == a + b[..|b| - 1];
      Rejoin(Concat(a), Concat(b[..|b| - 1]), b[|b| - 1]);
    }
  }

  /** Byte by byte, no two requests end in the same chunk. */
  lemma SinglesScan(s: seq<Byte>, keepsAlive: seq<Byte> -> bool)
    ensures Chunked(Singles(s), keepsAlive) == Scan(s)
  {
    SinglesCut(s);
    AllFit(s);
    ApartScans(Singles(s), keepsAlive, 1);
  }

  /** A request and nothing else. */
  predicate Whole(r: seq<Byte>) { RequestLen(r) == |r| > 0 }

  /** A whole request in front of anything is taken first. */
  lemma FirstTaken(r: seq<Byte>, t: seq<Byte>)
    requires Whole(r)
    ensures RequestLen(r + t) == |r| && Scan(r + t) == Taken([r] + Scan(t).requests, Scan(t).rest)
  {
    AnswerIsFinal(r, t);
    assert (r + t)[..|r|] == r && (r + t)[|r|..] == t;
  }

  lemma ScanFirst(s: seq<Byte>) returns (r: seq<Byte>, t: seq<Byte>)
    requires Scan(s).requests != []
    ensures s == r + t && Whole(r) && Scan(s) == Taken([r] + Scan(t).requests, Scan(t).rest)
  {
    RequestFits(s);
    r, t := s[..RequestLen(s)], s[RequestLen(s)..];
    assert s == r + t;
    EndsEarly(r, t);
    hide Scan, RequestLen;
    FirstTaken(r, t);
  }

  /** Two neighbours among the requests of a stream. */
  lemma {:induction false} Neighbours(s: seq<Byte>, k: nat) returns (before: seq<Byte>, after: seq<Byte>)
    requires k + 1 < |Scan(s).requests|
    ensures var q := Scan(s).requests;
            && Scan(before).rest == [] && Whole(q[k]) && Whole(q[k + 1])
            && s == before + (q[k] + (q[k + 1] + after))
    decreases k
  {
    var r, t := ScanFirst(s);
    hide Scan, Whole;
    if k == 0 {
      var r2;
      before := [];
      r2, after := ScanFirst(t);
      NothingToScan();
      assert [] + (r + (r2 + after)) == r + (r2 + after);
    } else {
      var b;
      b, after := Neighbours(t, k - 1);
      before := r + b;
      FirstTaken(r, b);
      var q := Scan(t).requests;
      Rejoin(r, b, q[k - 1] + (q[k] + after));
    }
  }

  lemma Rejoin(a: seq<Byte>, b: seq<Byte>, c: seq<Byte>)
    ensures a + (b + c) == a + b + c
  {
  }

  /** Moving the last byte of `r1` to what comes behind it. */
  lemma MoveLast(before: seq<Byte>, r1: seq<Byte>, r2: seq<Byte>, after: seq<Byte>)
    requires r1 != []
    ensures var x, b := r1[..|r1| - 1], r1[|r1| - 1..] + r2;
            x + b == r1 + r2 && before + x + b + after == before + (r1 + (r2 + after))
  {
    var x, y := r1[..|r1| - 1], r1[|r1| - 1..];
    assert x + y == r1;
    Rejoin(x, y, r2);
    Rejoin(before, x, y + r2);
    Rejoin(before, r1 + r2, after);
    Rejoin(r1, r2, after);
  }

  lemma NothingToScan()
    ensures Scan([]) == Taken([], [])
  {
  }

  lemma Incomplete(r: seq<Byte>)
    requires Whole(r)
    ensures Scan(r[..|r| - 1]) == Taken([], r[..|r| - 1])
  {
    var a := r[..|r| - 1];
    assert a + r[|r| - 1..] == r;
    RequestFits(a);
    if RequestLen(a) != 0 {
      AnswerIsFinal(a, r[|r| - 1..]);
    }
  }

  /** Two requests in one go, of which the first is not kept alive. */
  lemma TwoTogether(r1: seq<Byte>, r2: seq<Byte>, keepsAlive: seq<Byte> -> bool)
    requires Whole(r1) && Whole(r2) && !keepsAlive(r1)
    ensures Process(r1 + r2, keepsAlive) == Taken([r1], r2) && |Scan(r1 + r2).requests| == 2
  {
    FirstTaken(r1, r2);
    FirstTaken(r2, []);
    NothingToScan();
    assert r2 + [] == r2;
    assert (r1 + r2)[..|r1|] == r1 && (r1 + r2)[|r1|..] == r2;
    ProcessOnce(r1 + r2, keepsAlive);
    hide Scan, Process;
  }

  /** All but the last byte of `r1`, byte by byte. */
  lemma UpToLast(before: seq<Byte>, r1: seq<Byte>, keepsAlive: seq<Byte> -> bool)
    requires Scan(before).rest == [] && Whole(r1)
    ensures var a := before + r1[..|r1| - 1];
            Chunked(Singles(a), keepsAlive) == Scan(a) == Taken(Scan(before).requests, r1[..|r1| - 1])
  {
    var x := r1[..|r1| - 1];
    SinglesScan(before + x, keepsAlive);
    ScanInParts(before, x);
    Incomplete(r1);
    hide Scan, Chunked;
    assert [] + x == x && Scan(before).requests + [] == Scan(before).requests;
  }

  /** After the chunk in which both end, one of them is missing. */
  lemma Together(before: seq<Byte>, r1: seq<Byte>, r2: seq<Byte>, keepsAlive: seq<Byte> -> bool)
    requires Scan(before).rest == [] && Whole(r1) && Whole(r2) && !keepsAlive(r1)
    ensures var a, b := before + r1[..|r1| - 1], r1[|r1| - 1..] + r2;
            Chunked(Singles(a) + [b], keepsAlive).requests != Scan(a + b).requests
  {
    var x := r1[..|r1| - 1];
    var a, b := before + x, r1[|r1| - 1..] + r2;
    UpToLast(before, r1, keepsAlive);
    TwoTogether(r1, r2, keepsAlive);
    ScanInParts(a, b);
    ChunkedOne(Singles(a), b, keepsAlive);
    MoveLast(before, r1, r2, []);
    hide *;
  }

  lemma ChunkedOne(chunks: seq<seq<Byte>>, c: seq<Byte>, keepsAlive: seq<Byte> -> bool)
    ensures var p := Chunked(chunks, keepsAlive);
            var q := Process(p.rest + c, keepsAlive);
            Chunked(chunks + [c], keepsAlive) == Taken(p.requests + q.requests, q.rest)
  {
    assert (chunks + [c])[..|chunks|] == chunks;
  }

  /** However the stream `s` is cut into chunks of at most `limit` bytes, after each chunk the requests taken are the
      requests of the bytes so far - exactly when each request with another one behind it keeps the connection alive, or
      that other one is too long to end in the same chunk. */
  lemma ChunksDoNotMatter(s: seq<Byte>, keepsAlive: seq<Byte> -> bool, limit: nat)
    requires limit > 0
    ensures (forall chunks, n: nat :: Cut(chunks, s, limit) && n <= |chunks| ==> SameAfter(chunks, n, keepsAlive))
       <==> Apart(Scan(s).requests, keepsAlive, limit)
  {
    var q := Scan(s).requests;
    if Apart(q, keepsAlive, limit) {
      forall chunks, n: nat | Cut(chunks, s, limit) && n <= |chunks|
        ensures SameAfter(chunks, n, keepsAlive)
      {
        ApartSoFar(chunks, n, s, keepsAlive, limit);
      }
    } else {
      var k :| 0 <= k < |q| - 1 && !keepsAlive(q[k]) && |q[k + 1]| < limit;
      var before, after := Neighbours(s, k);
      var chunks, n := NotSame(s, before, q[k], q[k + 1], after, keepsAlive, limit);
    }
  }

  lemma ApartSoFar(chunks: seq<seq<Byte>>, n: nat, s: seq<Byte>, keepsAlive: seq<Byte> -> bool, limit: nat)
    requires Cut(chunks, s, limit) && n <= |chunks| && Apart(Scan(s).requests, keepsAlive, limit)
    ensures SameAfter(chunks, n, keepsAlive)
  {
    var a, b := chunks[..n], chunks[n..];
    assert chunks == a + b;
    ConcatParts(a, b);
    ScanInParts(Concat(a), Concat(b));
    var p := Scan(Concat(a));
    ApartParts(p.requests, Scan(p.rest + Concat(b)).requests, keepsAlive, limit);
    ApartScans(a, keepsAlive, limit);
  }

  lemma NotSame(s: seq<Byte>, before: seq<Byte>, r1: seq<Byte>, r2: seq<Byte>, after: seq<Byte>,
                keepsAlive: seq<Byte> -> bool, limit: nat)
    returns (chunks: seq<seq<Byte>>, n: nat)
    requires s == before + (r1 + (r2 + after)) && Scan(before).rest == []
    requires Whole(r1) && Whole(r2) && !keepsAlive(r1) && |r2| < limit
    ensures Cut(chunks, s, limit) && n <= |chunks| && !SameAfter(chunks, n, keepsAlive)
  {
    assert |r1| > 0;
    hide *;
    var a, b := before + r1[..|r1| - 1], r1[|r1| - 1..] + r2;
    Together(before, r1, r2, keepsAlive);
    MoveLast(before, r1, r2, after);
    CutAround(a, b, after, limit);
    var first := Singles(a) + [b];
    NotSameHere(first, Singles(after), keepsAlive);
    chunks, n := first + Singles(after), |first|;
  }

  lemma NotSameHere(first: seq<seq<Byte>>, rest: seq<seq<Byte>>, keepsAlive: seq<Byte> -> bool)
    requires Chunked(first, keepsAlive).requests != Scan(Concat(first)).requests
    ensures !SameAfter(first + rest, |first|, keepsAlive)
  {
    hide Scan, Chunked, Concat;
    assert (first + rest)[..|first|] == first;
  }

  /** One chunk in the middle, all else byte by byte. */
  lemma CutAround(a: seq<Byte>, b: seq<Byte>, c: seq<Byte>, limit: nat)
    requires 0 < |b| <= limit
    ensures Concat(Singles(a) + [b]) == a + b
    ensures Cut(Singles(a) + [b] + Singles(c), a + b + c, limit)
  {
    SinglesCut(a);
    SinglesCut(c);
    ConcatOne(Singles(a), b);
    ConcatParts(Singles(a) + [b], Singles(c));
  }
}
