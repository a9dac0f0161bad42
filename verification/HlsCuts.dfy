/** Where the segmenter cuts, told from the packets alone: for every run the turns that begin a segment, with what is
    due there and nothing due in between. */
module HlsCuts {
  import opened HlsWindow

  /** The packets that carry the time base: key frames of the video stream, or every packet when there is none. */
  predicate Anchor(c: Config, p: Packet) {
    c.videoIndex < 0 || (p.stream == c.videoIndex && p.key)
  }

  /** After a cut at `since`, `p` begins a new segment: an anchor at least the duration later; any other packet only
      when the duration is not positive. */
  predicate Due(c: Config, since: real, p: Packet) {
    if Anchor(c, p) then p.time - since >= c.duration as real else c.duration <= 0
  }

  /** The packets of the frame writes that succeed. */
  function Taken(inputs: seq<Input>): seq<Packet> {
    if inputs == [] then []
    else
      var n := |inputs| - 1;
      Taken(inputs[..n]) + if inputs[n].outcome.Written? then [inputs[n].packet] else []
  }

  /** The turns of the loop: all, or those up to the one whose frame write asks for the end. */
  function Turns(inputs: seq<Input>): (n: nat)
    ensures n <= |inputs|
  {
    if inputs == [] then 0 else if inputs[0].outcome.EndRequested? then 1 else 1 + Turns(inputs[1..])
  }

  /** The turn where segment `k` ends. */
  function EndOf(starts: seq<nat>, k: nat, turns: nat): nat {
    if k + 1 < |starts| then starts[k + 1] else turns
  }

  /** Segment `k` begins in turn `starts[k]`, at the time `cuts[k]`; a turn begins one segment at most. */
  ghost predicate Begins(c: Config, cuts: seq<real>, inputs: seq<Input>, starts: seq<nat>, k: nat)
    requires 0 < k < |starts| == |cuts|
  {
    && (if k == 1 then starts[0] else starts[k - 1] + 1) <= starts[k] < |inputs|
    && var p := inputs[starts[k]].packet;
       Due(c, cuts[k - 1], p) && cuts[k] == if Anchor(c, p) then p.time else cuts[k - 1]
  }

  /** Nothing is due in segment `k` after the packet that began it; the first segment is there before any packet. */
  ghost predicate Quiet(c: Config, cuts: seq<real>, inputs: seq<Input>, starts: seq<nat>, k: nat)
    requires k < |starts| == |cuts|
  {
    forall j :: 0 <= j < |inputs| && (k == 0 || starts[k] < j) && j < EndOf(starts, k, |inputs|)
      ==> !Due(c, cuts[k], inputs[j].packet)
  }

  ghost predicate Holds(all: seq<Segment>, inputs: seq<Input>, starts: seq<nat>, k: nat)
    requires k < |starts| == |all|
  {
    && starts[k] <= EndOf(starts, k, |inputs|) <= |inputs|
    && all[k].packets == Taken(inputs[starts[k]..EndOf(starts, k, |inputs|)])
  }

  /** The segments `all`, cut at `cuts`, are what the rules make of `inputs`. */
  ghost predicate CutWhenDue(c: Config, all: seq<Segment>, cuts: seq<real>, inputs: seq<Input>, starts: seq<nat>) {
    && |starts| == |all| == |cuts| && starts != [] && starts[0] == 0 && cuts[0] == 0.0
    && (forall k :: 0 < k < |starts| ==> Begins(c, cuts, inputs, starts, k))
    && (forall k :: 0 <= k < |starts| ==> Quiet(c, cuts, inputs, starts, k))
    && (forall k :: 0 <= k < |starts| ==> Holds(all, inputs, starts, k))
  }

  ghost predicate CutsInv(c: Config, s: State, done: seq<Input>, starts: seq<nat>) {
    QueueInv(s) && CutWhenDue(c, s.all, s.cuts, done, starts) && s.prevTime == s.cuts[|s.cuts| - 1]
  }

  lemma DueCuts(c: Config, s: State, p: Packet)
    ensures MustCut(c, s, p) <==> Due(c, s.prevTime, p)
    ensures MustCut(c, s, p) ==> SegmentTime(c, s, p) == if Anchor(c, p) then p.time else s.prevTime
  {
  }

  /** What a turn does to the cuts. */
  lemma TurnTimes(c: Config, s: State, i: Input)
    requires QueueInv(s)
    ensures var t := Turn(c, s, i);
            if Due(c, s.prevTime, i.packet)
            then
              t.prevTime == (if Anchor(c, i.packet) then i.packet.time else s.prevTime) && t.cuts == s.cuts + [t.prevTime]
            else t.prevTime == s.prevTime && t.cuts == s.cuts
  {
    QueueNonEmpty(s);
    CutFields(c, s, i);
    DueCuts(c, s, i.packet);
    TurnKeepsQueue(c, s, i);
    QueueNonEmpty(CutIfDue(c, s, i));
    hide CutIfDue, MustCut, SegmentTime, Due, QueueInv;
  }

  lemma TakenNext(inputs: seq<Input>, i: Input)
    ensures Taken(inputs + [i]) == Taken(inputs) + if i.outcome.Written? then [i.packet] else []
  {
    assert (inputs + [i])[..|inputs|] == inputs;
  }

  lemma TakenOne(i: Input)
    ensures Taken([i]) == if i.outcome.Written? then [i.packet] else []
  {
    TakenNext([], i);
    assert [] + [i] == [i];
  }

  /** Segment `k`, unless it is the last, is not touched by one more turn that cuts nothing. */
  lemma OlderSegment(c: Config, all: seq<Segment>, all': seq<Segment>, cuts: seq<real>, inputs: seq<Input>, i: Input,
                     starts: seq<nat>, k: nat)
    requires CutWhenDue(c, all, cuts, inputs, starts) && k + 1 < |starts|
    requires |all'| == |all| && all'[k] == all[k]
    ensures Quiet(c, cuts, inputs + [i], starts, k) && Holds(all', inputs + [i], starts, k)
  {
    hide Due, Taken;
    assert Begins(c, cuts, inputs, starts, k + 1) && Quiet(c, cuts, inputs, starts, k) && Holds(all, inputs, starts, k);
    var e := starts[k + 1];
    assert (inputs + [i])[starts[k]..e] == inputs[starts[k]..e];
  }

  lemma CurrentSegment(c: Config, all: seq<Segment>, all': seq<Segment>, cuts: seq<real>, inputs: seq<Input>, i: Input,
                       starts: seq<nat>)
    requires CutWhenDue(c, all, cuts, inputs, starts) && |all'| == |all|
    requires var m := |all| - 1;
             && all'[m].packets == all[m].packets + (if i.outcome.Written? then [i.packet] else [])
             && !Due(c, cuts[m], i.packet)
    ensures Quiet(c, cuts, inputs + [i], starts, |all| - 1) && Holds(all', inputs + [i], starts, |all| - 1)
  {
    hide Due, Taken;
    var m := |all| - 1;
    assert Quiet(c, cuts, inputs, starts, m) && Holds(all, inputs, starts, m);
    assert (inputs + [i])[starts[m]..] == inputs[starts[m]..] + [i];
    TakenNext(inputs[starts[m]..], i);
    assert inputs[starts[m]..|inputs|] == inputs[starts[m]..];
    assert (inputs + [i])[starts[m]..|inputs| + 1] == (inputs + [i])[starts[m]..];
  }

  lemma NothingDue(c: Config, all: seq<Segment>, all': seq<Segment>, cuts: seq<real>, inputs: seq<Input>, i: Input,
                   starts: seq<nat>)
    requires CutWhenDue(c, all, cuts, inputs, starts) && |all'| == |all|
    requires forall k :: 0 <= k < |all| - 1 ==> all'[k] == all[k]
    requires var m := |all| - 1;
             && all'[m].packets == all[m].packets + (if i.outcome.Written? then [i.packet] else [])
             && !Due(c, cuts[m], i.packet)
    ensures CutWhenDue(c, all', cuts, inputs + [i], starts)
  {
    hide Due, Taken, Quiet, Holds;
    CurrentSegment(c, all, all', cuts, inputs, i, starts);
    forall k | 0 <= k < |starts|
      ensures Quiet(c, cuts, inputs + [i], starts, k) && Holds(all', inputs + [i], starts, k)
    {
      if k + 1 < |starts| {
        OlderSegment(c, all, all', cuts, inputs, i, starts, k);
      }
    }
    forall k | 0 < k < |starts|
      ensures Begins(c, cuts, inputs + [i], starts, k)
    {
      assert Begins(c, cuts, inputs, starts, k);
    }
  }

  /** A cut leaves every older segment as it is, and the new one begins with this turn. */
  lemma SegmentBehind(c: Config, all: seq<Segment>, all': seq<Segment>, cuts: seq<real>, cut: real, inputs: seq<Input>,
                      i: Input, starts: seq<nat>, k: nat)
    requires CutWhenDue(c, all, cuts, inputs, starts) && k < |starts|
    requires |all'| == |all| + 1 && all'[k] == all[k]
    ensures var t := starts + [|inputs|];
            Quiet(c, cuts + [cut], inputs + [i], t, k) && Holds(all', inputs + [i], t, k)
  {
    hide Due, Taken;
    var t := starts + [|inputs|];
    assert Quiet(c, cuts, inputs, starts, k) && Holds(all, inputs, starts, k);
    assert k + 1 < |starts| ==> Begins(c, cuts, inputs, starts, k + 1);
    var e := EndOf(starts, k, |inputs|);
    assert EndOf(t, k, |inputs| + 1) == e;
    assert (inputs + [i])[starts[k]..e] == inputs[starts[k]..e];
  }

  lemma SegmentBegun(c: Config, all: seq<Segment>, all': seq<Segment>, cuts: seq<real>, inputs: seq<Input>, i: Input,
                     starts: seq<nat>)
    requires CutWhenDue(c, all, cuts, inputs, starts)
    requires var m := |all|;
             && |all'| == m + 1 && all'[m].packets == (if i.outcome.Written? then [i.packet] else [])
             && Due(c, cuts[m - 1], i.packet)
    ensures var cut, t := if Anchor(c, i.packet) then i.packet.time else cuts[|all| - 1], starts + [|inputs|];
            && Quiet(c, cuts + [cut], inputs + [i], t, |all|) && Holds(all', inputs + [i], t, |all|)
            && Begins(c, cuts + [cut], inputs + [i], t, |all|)
  {
    hide Due, Taken;
    assert Holds(all, inputs, starts, |all| - 1);
    assert |all| > 1 ==> Begins(c, cuts, inputs, starts, |all| - 1);
    TakenOne(i);
    assert (inputs + [i])[|inputs|..|inputs| + 1] == [i];
  }

  lemma CutDue(c: Config, all: seq<Segment>, all': seq<Segment>, cuts: seq<real>, inputs: seq<Input>, i: Input,
               starts: seq<nat>)
    requires CutWhenDue(c, all, cuts, inputs, starts)
    requires forall k :: 0 <= k < |all| && |all| <= |all'| ==> all'[k] == all[k]
    requires var m := |all|;
             && |all'| == m + 1 && all'[m].packets == (if i.outcome.Written? then [i.packet] else [])
             && Due(c, cuts[m - 1], i.packet)
    ensures var cut := if Anchor(c, i.packet) then i.packet.time else cuts[|all| - 1];
            CutWhenDue(c, all', cuts + [cut], inputs + [i], starts + [|inputs|])
  {
    hide Due, Taken, Quiet, Holds, Anchor;
    var cut, t := if Anchor(c, i.packet) then i.packet.time else cuts[|all| - 1], starts + [|inputs|];
    SegmentBegun(c, all, all', cuts, inputs, i, starts);
    forall k | 0 <= k < |t|
      ensures Quiet(c, cuts + [cut], inputs + [i], t, k) && Holds(all', inputs + [i], t, k)
    {
      if k < |starts| {
        SegmentBehind(c, all, all', cuts, cut, inputs, i, starts, k);
      }
    }
    forall k | 0 < k < |t|
      ensures Begins(c, cuts + [cut], inputs + [i], t, k)
    {
      if k < |starts| {
        assert Begins(c, cuts, inputs, starts, k);
      }
    }
  }

  /** What a turn does to the segments. */
  lemma TurnSegments(c: Config, s: State, i: Input)
    requires QueueInv(s)
    ensures var all, t := s.all, Turn(c, s, i).all;
            var m, more := |all| - 1, if i.outcome.Written? then [i.packet] else [];
            && all != []
            && if Due(c, s.prevTime, i.packet)
               then |t| == m + 2 && (forall k :: 0 <= k <= m ==> t[k] == all[k]) && t[m + 1].packets == more
               else |t| == m + 1 && (forall k :: 0 <= k < m ==> t[k] == all[k]) && t[m].packets == all[m].packets + more
  {
    hide Turn, QueueInv, Due, MustCut, SegmentTime;
    QueueNonEmpty(s);
    TurnAll(c, s, i);
    DueCuts(c, s, i.packet);
  }

  lemma DueTurn(c: Config, s: State, i: Input, done: seq<Input>, starts: seq<nat>)
    requires CutsInv(c, s, done, starts) && Due(c, s.prevTime, i.packet)
    ensures CutsInv(c, Turn(c, s, i), done + [i], starts + [|done|])
  {
    hide Turn, QueueInv, CutWhenDue, Due, Anchor;
    QueueNonEmpty(s);
    TurnKeepsQueue(c, s, i);
    CutLengths(c, s.all, s.cuts, done, starts);
    TurnTimes(c, s, i);
    TurnSegments(c, s, i);
    CutDue(c, s.all, Turn(c, s, i).all, s.cuts, done, i, starts);
  }

  lemma QuietTurn(c: Config, s: State, i: Input, done: seq<Input>, starts: seq<nat>)
    requires CutsInv(c, s, done, starts) && !Due(c, s.prevTime, i.packet)
    ensures CutsInv(c, Turn(c, s, i), done + [i], starts)
  {
    hide Turn, QueueInv, CutWhenDue, Due, Anchor;
    QueueNonEmpty(s);
    TurnKeepsQueue(c, s, i);
    CutLengths(c, s.all, s.cuts, done, starts);
    TurnTimes(c, s, i);
    TurnSegments(c, s, i);
    NothingDue(c, s.all, Turn(c, s, i).all, s.cuts, done, i, starts);
  }

  lemma TurnCuts(c: Config, s: State, i: Input, done: seq<Input>, starts: seq<nat>) returns (starts': seq<nat>)
    requires CutsInv(c, s, done, starts)
    ensures CutsInv(c, Turn(c, s, i), done + [i], starts')
  {
    hide Turn, CutsInv, Due;
    if Due(c, s.prevTime, i.packet) {
      starts' := starts + [|done|];
      DueTurn(c, s, i, done, starts);
    } else {
      starts' := starts;
      QuietTurn(c, s, i, done, starts);
    }
  }

  lemma CutLengths(c: Config, all: seq<Segment>, cuts: seq<real>, inputs: seq<Input>, starts: seq<nat>)
    requires CutWhenDue(c, all, cuts, inputs, starts)
    ensures |starts| == |all| == |cuts| && starts != [] && cuts[0] == 0.0
  {
  }

  lemma StartCuts(c: Config, ok: bool)
    ensures CutsInv(c, Start(ok), [], [0])
  {
    StartContents(ok);
    hide Start, QueueInv;
    assert Taken([]) == [];
  }

  lemma OneMoreTurn(done: seq<Input>, inputs: seq<Input>, n: nat)
    requires n < |inputs|
    ensures done + [inputs[0]] + inputs[1..][..n] == done + inputs[..1 + n]
  {
  }

  lemma {:induction false} RunCuts(c: Config, s: State, done: seq<Input>, inputs: seq<Input>, starts: seq<nat>)
    returns (starts': seq<nat>)
    requires CutsInv(c, s, done, starts)
    ensures QueueInv(s) && CutsInv(c, RunFrom(c, s, inputs), done + inputs[..Turns(inputs)], starts')
    decreases |inputs|
  {
    hide CutWhenDue, Turn, RunFrom, QueueInv;
    if inputs == [] {
      NoTurn(c, s, inputs);
      assert done + inputs[..0] == done;
      starts' := starts;
    } else {
      RunOnce(c, s, inputs);
      starts' := TurnCuts(c, s, inputs[0], done, starts);
      if inputs[0].outcome.EndRequested? {
        assert inputs[..1] == [inputs[0]];
      } else {
        var rest := inputs[1..];
        starts' := RunCuts(c, Turn(c, s, inputs[0]), done + [inputs[0]], rest, starts');
        OneMoreTurn(done, inputs, Turns(rest));
      }
    }
  }

  /** In every run, whatever index writes and frame writes do: a segment begins in every turn whose packet is due since
      the last cut, and in no other; it holds the packets taken from that turn on up to the next such turn. */
  lemma TaskCuts(c: Config, startOk: bool, inputs: seq<Input>, endOk: bool) returns (starts: seq<nat>)
    ensures var t := HlsWindow.Task(c, startOk, inputs, endOk);
            CutWhenDue(c, t.all, t.cuts, inputs[..Turns(inputs)], starts)
  {
    hide CutWhenDue, Start, RunFrom, QueueInv, HlsWindow.Task;
    StartCuts(c, startOk);
    starts := RunCuts(c, Start(startOk), [], inputs, [0]);
    assert [] + inputs[..Turns(inputs)] == inputs[..Turns(inputs)];
    TaskEnds(c, startOk, inputs, endOk);
  }

  lemma TaskEnds(c: Config, startOk: bool, inputs: seq<Input>, endOk: bool)
    ensures QueueInv(Start(startOk))
    ensures var t, s := HlsWindow.Task(c, startOk, inputs, endOk), RunFrom(c, Start(startOk), inputs);
            t.all == s.all && t.cuts == s.cuts
  {
    StartQueue(startOk);
    hide Start, RunFrom, Slide, QueueInv;
    RunKeepsQueue(c, Start(startOk), inputs);
    QueueNonEmpty(RunFrom(c, Start(startOk), inputs));
    SlideContents(c, RunFrom(c, Start(startOk), inputs), true, endOk);
  }

  /** Where a packet of `Taken` comes from. */
  lemma {:induction false} TakenAt(inputs: seq<Input>, j: nat) returns (i: nat)
    requires j < |Taken(inputs)|
    ensures j <= i < |inputs| && Taken(inputs)[j] == inputs[i].packet && inputs[i].outcome.Written?
  {
    var n := |inputs| - 1;
    TakenShort(inputs[..n]);
    if j < |Taken(inputs[..n])| {
      i := TakenAt(inputs[..n], j);
    } else {
      i := n;
    }
  }

  lemma {:induction false} TakenShort(inputs: seq<Input>)
    ensures |Taken(inputs)| <= |inputs|
  {
    if inputs != [] {
      TakenShort(inputs[..|inputs| - 1]);
    }
  }

  lemma QuietInside(c: Config, all: seq<Segment>, cuts: seq<real>, inputs: seq<Input>, starts: seq<nat>, k: nat, j: nat)
    requires CutWhenDue(c, all, cuts, inputs, starts) && k < |all| && j < |all[k].packets| && (k == 0 || j > 0)
    ensures !Due(c, cuts[k], all[k].packets[j])
  {
    hide Due, Taken;
    assert Quiet(c, cuts, inputs, starts, k) && Holds(all, inputs, starts, k);
    var e := EndOf(starts, k, |inputs|);
    var i := TakenAt(inputs[starts[k]..e], j);
    assert inputs[starts[k]..e][i] == inputs[starts[k] + i];
  }

  /** No segment holds, behind its first packet, one that had to begin a new segment: with a video stream no key frame of
      it that comes the duration or more after the cut, without one no packet that late. */
  lemma NoLatePackets(c: Config, startOk: bool, inputs: seq<Input>, endOk: bool)
    requires c.duration > 0
    ensures var t := HlsWindow.Task(c, startOk, inputs, endOk);
            && |t.cuts| == |t.all|
            && forall k, j :: 0 <= k < |t.all| && 0 <= j < |t.all[k].packets| && (k == 0 || j > 0) ==>
                 var p := t.all[k].packets[j];
                 (c.videoIndex >= 0 ==> p.stream == c.videoIndex && p.key) ==> p.time - t.cuts[k] < c.duration as real
  {
    var starts := TaskCuts(c, startOk, inputs, endOk);
    hide HlsWindow.Task, CutWhenDue;
    var t := HlsWindow.Task(c, startOk, inputs, endOk);
    CutLengths(c, t.all, t.cuts, inputs[..Turns(inputs)], starts);
    forall k, j | 0 <= k < |t.all| && 0 <= j < |t.all[k].packets| && (k == 0 || j > 0)
      ensures !Due(c, t.cuts[k], t.all[k].packets[j])
    {
      QuietInside(c, t.all, t.cuts, inputs[..Turns(inputs)], starts, k, j);
    }
  }

  lemma {:induction false} TakenFirst(inputs: seq<Input>)
    requires inputs != [] && inputs[0].outcome.Written?
    ensures Taken(inputs) != [] && Taken(inputs)[0] == inputs[0].packet
  {
    if |inputs| > 1 {
      TakenFirst(inputs[..|inputs| - 1]);
    } else {
      assert inputs == [inputs[0]];
      TakenOne(inputs[0]);
    }
  }

  /** A segment begins with the packet that was due, unless its frame write failed. */
  lemma FirstIsDue(c: Config, all: seq<Segment>, cuts: seq<real>, inputs: seq<Input>, starts: seq<nat>, k: nat)
    requires CutWhenDue(c, all, cuts, inputs, starts) && 0 < k < |all|
    requires starts[k] < |inputs| ==> inputs[starts[k]].outcome.Written?
    ensures all[k].packets != [] && Due(c, cuts[k - 1], all[k].packets[0])
    ensures cuts[k] == if Anchor(c, all[k].packets[0]) then all[k].packets[0].time else cuts[k - 1]
  {
    hide Due, Taken;
    assert Begins(c, cuts, inputs, starts, k) && Holds(all, inputs, starts, k);
    assert k + 1 < |starts| ==> Begins(c, cuts, inputs, starts, k + 1);
    TakenFirst(inputs[starts[k]..EndOf(starts, k, |inputs|)]);
  }

  ghost predicate BeginsLate(c: Config, segment: Segment, since: real, cut: real) {
    && segment.packets != []
    && var p := segment.packets[0];
       && (c.videoIndex >= 0 ==> p.stream == c.videoIndex && p.key)
       && p.time - since >= c.duration as real && cut == p.time
  }

  /** Every segment behind the first begins with the packet that had to begin it: the duration or more after the last
      cut and, with a video stream, one of its key frames. */
  lemma FirstPackets(c: Config, startOk: bool, inputs: seq<Input>, endOk: bool)
    requires c.duration > 0 && forall i :: i in inputs ==> i.outcome.Written?
    ensures var t := HlsWindow.Task(c, startOk, inputs, endOk);
            && |t.cuts| == |t.all| > 0 && t.cuts[0] == 0.0
            && forall k :: 0 < k < |t.all| ==>
                 BeginsLate(c, t.all[k], t.cuts[k - 1], t.cuts[k])
  {
    var starts := TaskCuts(c, startOk, inputs, endOk);
    hide HlsWindow.Task, CutWhenDue;
    var t := HlsWindow.Task(c, startOk, inputs, endOk);
    CutLengths(c, t.all, t.cuts, inputs[..Turns(inputs)], starts);
    forall k | 0 < k < |t.all|
      ensures BeginsLate(c, t.all[k], t.cuts[k - 1], t.cuts[k])
    {
      FirstIsDue(c, t.all, t.cuts, inputs[..Turns(inputs)], starts, k);
    }
  }
}
