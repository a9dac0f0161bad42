/** The sliding window of the segmenter: what the packet loop of istb_m3u8_task does to the window bounds, the queue of
    segments and the published playlist, one reader-visible step after the other. */
module HlsWindow {
  import opened Common

  /** `time` is `pts` in seconds, by the time base of the stream that the loop goes by. */
  datatype Packet = Packet(stream: nat, key: bool, time: real)

  datatype Segment = Segment(index: nat, packets: seq<Packet>)

  /** A published index: segments `first..last`, and whether the end marker is there. */
  datatype Playlist = Playlist(first: nat, last: nat, end: bool) {
    predicate Lists(k: nat) { first <= k <= last }
  }

  /** The options, and the video stream's number or -1. */
  datatype Config = Config(numSegments: int, duration: int, videoIndex: int)

  /** What the HTTP thread can see. */
  datatype View = View(queue: seq<Segment>, playlist: Option<Playlist>)

  /** The outcome of av_interleaved_write_frame. */
  datatype Outcome = Written | Failed | EndRequested

  /** One turn of the loop: the packet read, whether an index write would succeed, the outcome of the frame write. */
  datatype Input = Input(packet: Packet, indexOk: bool, outcome: Outcome)

  /** The variables of the loop; and for reasoning, all segments ever created, the times of the cuts (after an initial
      0), the packets that the muxer took and everything a reader could have seen. */
  datatype State = State(
    first: nat, last: nat, outputIndex: nat, writeIndex: bool, prevTime: real,
    queue: seq<Segment>, playlist: Option<Playlist>,
    all: seq<Segment>, cuts: seq<real>, taken: seq<Packet>, views: seq<View>)
  {
    function Seen(): State {
      this.(views := views + [View(queue, playlist)])
    }
  }

  // The steps.

  /** write_index_file when `write_index` is still set; the result of the last one is not looked at. */
  function Publish(s: State, end: bool, ok: bool): State {
    if !s.writeIndex then s
    else
      var t := s.(last := s.last + 1);
      (if ok then t.(playlist := Some(Playlist(t.first, t.last, end))) else t.(writeIndex := end)).Seen()
  }

  /** istb_m3u8_queue_remove */
  function Remove(s: State): State
    requires s.queue != []
  {
    s.(queue := s.queue[1..]).Seen()
  }

  /** Creation of the next segment and istb_m3u8_queue_add. */
  function Add(s: State): State {
    var segment := Segment(s.outputIndex, []);
    s.(queue := s.queue + [segment], all := s.all + [segment], outputIndex := s.outputIndex + 1).Seen()
  }

  /** Whether a segment has to go when one more is published. */
  predicate Full(c: Config, s: State) {
    c.numSegments != 0 && s.last - s.first >= c.numSegments - 1
  }

  /** The current segment is the last one of the queue. */
  function Append(s: State, p: Packet): State
    requires s.queue != [] && s.all != []
  {
    var n, m := |s.queue| - 1, |s.all| - 1;
    s.(queue := s.queue[n := s.queue[n].(packets := s.queue[n].packets + [p])],
       all := s.all[m := s.all[m].(packets := s.all[m].packets + [p])],
       taken := s.taken + [p]).Seen()
  }

  function Start(ok: bool): State {
    var s := Add(State(1, 0, 1, true, 0.0, [], None, [], [0.0], [], []));
    (if ok then s.(playlist := Some(Playlist(1, 0, false))) else s.(writeIndex := false)).Seen()
  }

  /** Publishing the finished segment and dropping the oldest one; then a new segment unless this is the end. */
  function Slide(c: Config, s: State, end: bool, ok: bool): State
    requires s.queue != []
  {
    var full := Full(c, s);
    var t := Publish(if full then s.(first := s.first + 1) else s, end, ok);
    if full then Remove(t) else t
  }

  function SegmentTime(c: Config, s: State, p: Packet): real {
    if p.stream == c.videoIndex && p.key then p.time
    else if c.videoIndex < 0 then p.time
    else s.prevTime
  }

  predicate MustCut(c: Config, s: State, p: Packet) {
    SegmentTime(c, s, p) - s.prevTime >= c.duration as real
  }

  function Cut(c: Config, s: State, time: real, ok: bool): State
    requires s.queue != []
  {
    Add(Slide(c, s, false, ok)).(prevTime := time, cuts := s.cuts + [time])
  }

  function CutIfDue(c: Config, s: State, i: Input): State
    requires s.queue != []
  {
    if MustCut(c, s, i.packet) then Cut(c, s, SegmentTime(c, s, i.packet), i.indexOk) else s
  }

  /** One turn of the loop up to the frame write; an end request leaves the loop before the packet is taken. */
  function Turn(c: Config, s: State, i: Input): State
    requires s.queue != [] && s.all != []
  {
    var t := CutIfDue(c, s, i);
    if i.outcome.Written? then Append(t, i.packet) else t
  }

  // The queue, whether or not index writes succeed.

  /** The queue is the segments from number `from` on; all segments are numbered from 1. */
  ghost predicate QueueFrom(s: State, from: nat) {
    && 1 <= from <= s.outputIndex && |s.all| == s.outputIndex - 1
    && (forall k :: 0 <= k < |s.all| ==> s.all[k].index == k + 1)
    && s.queue == s.all[from - 1..]
  }

  /** At the loop head: the segments `first_segment..output_index - 1`, of which there is at least one. */
  ghost predicate QueueInv(s: State) {
    QueueFrom(s, s.first) && s.first < s.outputIndex
  }

  lemma QueueNonEmpty(s: State)
    requires QueueInv(s)
    ensures s.queue != [] && s.all != []
  {
  }

  lemma SlideKeepsQueue(c: Config, s: State, end: bool, ok: bool)
    requires QueueInv(s)
    ensures var t := Slide(c, s, end, ok);
            QueueFrom(t, t.first) && t.outputIndex == s.outputIndex && t.all == s.all && t.first <= s.first + 1
  {
  }

  lemma AddKeepsQueue(s: State)
    requires QueueFrom(s, s.first)
    ensures QueueInv(Add(s))
  {
  }

  lemma AppendKeepsQueue(s: State, p: Packet)
    requires QueueInv(s)
    ensures QueueInv(Append(s, p))
  {
  }

  /** Nothing that can be published or fail to be published makes a removal meet an empty list. */
  lemma TurnKeepsQueue(c: Config, s: State, i: Input)
    requires QueueInv(s)
    ensures QueueInv(CutIfDue(c, s, i)) && QueueInv(Turn(c, s, i))
  {
    CutKeepsQueue(c, s, i);
    hide CutIfDue;
    AppendKeepsQueue(CutIfDue(c, s, i), i.packet);
  }

  lemma CutKeepsQueue(c: Config, s: State, i: Input)
    requires QueueInv(s)
    ensures QueueInv(CutIfDue(c, s, i))
  {
    SlideKeepsQueue(c, s, false, i.indexOk);
    hide Slide;
    AddKeepsQueue(Slide(c, s, false, i.indexOk));
  }

  // Playlist and queue, while index writes succeed.

  /** A reader who saw `v` finds every listed segment in the queue, as it is in the end; the bounds hold; and
      MEDIA-SEQUENCE is ahead of the oldest held segment by the removal that is still to come, or not at all. */
  ghost predicate ViewOk(c: Config, v: View, all: seq<Segment>) {
    && (c.numSegments > 0 ==> |v.queue| <= c.numSegments + 1)
    && (forall k :: 0 <= k < |v.queue| ==> v.queue[k].index == v.queue[0].index + k)
    && match v.playlist
       case None => true
       case Some(p) =>
         && 1 <= p.first && p.last <= |all|
         && (forall k: nat :: p.Lists(k) ==> all[k - 1] in v.queue)
         && (c.numSegments > 0 ==> p.last - p.first + 1 <= c.numSegments)
         && (v.queue != [] ==> v.queue[0].index <= p.first <= v.queue[0].index + 1)
  }

  ghost predicate ViewsOk(c: Config, s: State) {
    forall v :: v in s.views ==> ViewOk(c, v, s.all)
  }

  /** No playlist seen so far lists the segment that is being written. */
  ghost predicate CurrentUnlisted(s: State) {
    forall v :: v in s.views && v.playlist.Some? ==> v.playlist.value.last < |s.all|
  }

  /** At the loop head, while index writes succeed. */
  ghost predicate WindowInv(c: Config, s: State) {
    && QueueInv(s)
    && s.writeIndex && s.outputIndex == s.last + 2 && s.first <= s.last + 1
    && s.playlist == Some(Playlist(s.first, s.last, false))
    && (c.numSegments > 0 ==> s.last - s.first + 1 <= c.numSegments)
    && ViewsOk(c, s) && CurrentUnlisted(s)
  }

  lemma ViewKept(c: Config, v: View, all: seq<Segment>, all': seq<Segment>)
    requires ViewOk(c, v, all) && (v.playlist.Some? ==> v.playlist.value.last < |all|)
    requires |all| <= |all'| && forall k :: 0 <= k < |all| - 1 ==> all'[k] == all[k]
    ensures ViewOk(c, v, all')
  {
  }

  lemma ViewsKept(c: Config, s: State, all': seq<Segment>)
    requires ViewsOk(c, s) && CurrentUnlisted(s)
    requires |s.all| <= |all'| && forall k :: 0 <= k < |s.all| - 1 ==> all'[k] == s.all[k]
    ensures forall v :: v in s.views ==> ViewOk(c, v, all')
  {
    forall v | v in s.views
      ensures ViewOk(c, v, all')
    {
      ViewKept(c, v, s.all, all');
    }
  }

  /** The view of a queue that starts at `from`, with a playlist of segments that it holds. */
  lemma ViewHolds(c: Config, s: State, from: nat, p: Playlist)
    requires QueueFrom(s, from) && s.playlist == Some(p)
    requires from <= p.first <= from + 1 && p.last <= |s.all|
    requires c.numSegments > 0 ==> p.last - p.first + 1 <= c.numSegments && |s.queue| <= c.numSegments + 1
    ensures ViewOk(c, View(s.queue, s.playlist), s.all)
  {
    forall k: nat | p.Lists(k)
      ensures s.all[k - 1] in s.queue
    {
      assert s.queue[k - from] == s.all[k - 1];
    }
  }

  lemma SlideSafe(c: Config, s: State, end: bool)
    requires WindowInv(c, s)
    ensures var t := Slide(c, s, end, true);
            && QueueFrom(t, t.first) && t.all == s.all && t.outputIndex == s.outputIndex
            && t.writeIndex && t.last == s.last + 1 && t.first <= t.last + 1
            && t.playlist == Some(Playlist(t.first, t.last, end))
            && (c.numSegments > 0 ==> t.last - t.first + 1 <= c.numSegments)
            && ViewsOk(c, t)
  {
    SlideKeepsQueue(c, s, end, true);
    SlideViews(c, s, end);
    hide Slide;
    var full := Full(c, s);
    var f := if full then s.first + 1 else s.first;
    var t := s.(first := f, last := s.last + 1, playlist := Some(Playlist(f, s.last + 1, end)));
    ViewHolds(c, t, s.first, t.playlist.value);
    if full {
      ViewHolds(c, t.(queue := t.queue[1..]), s.first + 1, t.playlist.value);
    }
  }

  lemma SlideViews(c: Config, s: State, end: bool)
    requires s.queue != [] && s.writeIndex
    ensures var t, f := Slide(c, s, end, true), if Full(c, s) then s.first + 1 else s.first;
            var p := Some(Playlist(f, s.last + 1, end));
            && t.first == f && t.last == s.last + 1 && t.playlist == p && t.writeIndex
            && t.views == s.views + [View(s.queue, p)] + if Full(c, s) then [View(s.queue[1..], p)] else []
  {
  }

  lemma AddSafe(c: Config, s: State)
    requires QueueFrom(s, s.first) && s.playlist == Some(Playlist(s.first, s.last, false)) && s.first <= s.last + 1
    requires s.writeIndex && s.outputIndex == s.last + 1
    requires c.numSegments > 0 ==> s.last - s.first + 1 <= c.numSegments
    requires ViewsOk(c, s)
    ensures WindowInv(c, Add(s))
  {
    var t := Add(s);
    AddKeepsQueue(s);
    ViewHolds(c, t, t.first, t.playlist.value);
    forall v | v in s.views
      ensures ViewOk(c, v, t.all)
    {
    }
  }

  lemma AppendSafe(c: Config, s: State, p: Packet)
    requires WindowInv(c, s)
    ensures WindowInv(c, Append(s, p))
  {
    var t := Append(s, p);
    AppendKeepsQueue(s, p);
    ViewsKept(c, s, t.all);
    ViewHolds(c, t, t.first, t.playlist.value);
  }

  lemma TurnSafe(c: Config, s: State, i: Input)
    requires WindowInv(c, s) && i.indexOk
    ensures WindowInv(c, Turn(c, s, i))
  {
    var t := CutIfDue(c, s, i);
    if MustCut(c, s, i.packet) {
      SlideSafe(c, s, false);
      AddSafe(c, Slide(c, s, false, true));
    }
    assert WindowInv(c, t);
    if i.outcome.Written? {
      AppendSafe(c, t, i.packet);
    }
  }

  lemma StartSafe(c: Config, ok: bool)
    requires ok
    ensures WindowInv(c, Start(ok))
  {
    var s, q := Start(ok), [Segment(1, [])];
    assert s.queue == q && s.all == q && s.all[0..] == q;
    assert s.views == [View(q, None), View(q, Some(Playlist(1, 0, false)))];
    hide Start, Add;
    ViewHolds(c, s, 1, Playlist(1, 0, false));
    assert ViewOk(c, View(q, None), s.all);
  }

  // Whole runs.

  /** The loop: one turn per packet, until the input ends or the muxer asks for the end. */
  ghost function RunFrom(c: Config, s: State, inputs: seq<Input>): State
    requires QueueInv(s)
    decreases |inputs|
  {
    if inputs == [] then s
    else
      TurnKeepsQueue(c, s, inputs[0]);
      var t := Turn(c, s, inputs[0]);
      if inputs[0].outcome.EndRequested? then t else RunFrom(c, t, inputs[1..])
  }

  lemma StartQueue(ok: bool)
    ensures QueueInv(Start(ok))
  {
  }

  /** istb_m3u8_task from the creation of the first segment on. */
  ghost function Task(c: Config, startOk: bool, inputs: seq<Input>, endOk: bool): State {
    StartQueue(startOk);
    RunKeepsQueue(c, Start(startOk), inputs);
    Slide(c, RunFrom(c, Start(startOk), inputs), true, endOk)
  }

  lemma {:induction false} RunKeepsQueue(c: Config, s: State, inputs: seq<Input>)
    requires QueueInv(s)
    ensures QueueInv(RunFrom(c, s, inputs))
    decreases |inputs|
  {
    if inputs != [] {
      TurnKeepsQueue(c, s, inputs[0]);
      if !inputs[0].outcome.EndRequested? {
        RunKeepsQueue(c, Turn(c, s, inputs[0]), inputs[1..]);
      }
    }
  }

  lemma {:induction false} RunSafe(c: Config, s: State, inputs: seq<Input>)
    requires WindowInv(c, s) && forall i :: i in inputs ==> i.indexOk
    ensures WindowInv(c, RunFrom(c, s, inputs))
    decreases |inputs|
  {
    if inputs != [] {
      TurnSafe(c, s, inputs[0]);
      if !inputs[0].outcome.EndRequested? {
        RunSafe(c, Turn(c, s, inputs[0]), inputs[1..]);
      }
    }
  }

  /** Every view of every run agrees with the queue, and at the end the playlist lists the window up to the last
      segment and is marked as complete. */
  lemma TaskSafe(c: Config, inputs: seq<Input>)
    requires forall i :: i in inputs ==> i.indexOk
    ensures var t := Task(c, true, inputs, true);
            && ViewsOk(c, t)
            && t.playlist == Some(Playlist(t.first, |t.all|, true))
            && QueueFrom(t, t.first)
  {
    StartSafe(c, true);
    RunSafe(c, Start(true), inputs);
    SlideSafe(c, RunFrom(c, Start(true), inputs), true);
  }

  /** The window behind `n` published segments begins at the last `num_segments` of them; with 0 nothing is dropped, and
      with a negative number everything is. */
  function WindowStart(c: Config, n: nat): nat {
    if c.numSegments == 0 then 1
    else if c.numSegments < 0 then n + 1
    else if n > c.numSegments then n - c.numSegments + 1
    else 1
  }

  lemma SlideExact(c: Config, s: State, end: bool)
    requires WindowInv(c, s) && s.first == WindowStart(c, s.last)
    ensures var t := Slide(c, s, end, true); t.first == WindowStart(c, t.last) && t.last == |t.all|
  {
    hide ViewsOk, CurrentUnlisted, Slide;
    QueueNonEmpty(s);
    SlideViews(c, s, end);
    SlideContents(c, s, end, true);
  }

  lemma TurnExact(c: Config, s: State, i: Input)
    requires WindowInv(c, s) && i.indexOk && s.first == WindowStart(c, s.last)
    ensures Turn(c, s, i).first == WindowStart(c, Turn(c, s, i).last)
  {
    hide WindowInv, QueueInv, WindowStart, Slide, MustCut, SegmentTime;
    SlideExact(c, s, false);
    WindowQueue(c, s);
    TurnKeepsQueue(c, s, i);
    QueueNonEmpty(s);
    QueueNonEmpty(CutIfDue(c, s, i));
  }

  lemma WindowQueue(c: Config, s: State)
    requires WindowInv(c, s)
    ensures QueueInv(s)
  {
  }

  lemma {:induction false} RunExact(c: Config, s: State, inputs: seq<Input>)
    requires WindowInv(c, s) && s.first == WindowStart(c, s.last) && forall i :: i in inputs ==> i.indexOk
    ensures RunFrom(c, s, inputs).first == WindowStart(c, RunFrom(c, s, inputs).last)
    decreases |inputs|
  {
    hide Turn, WindowStart, ViewsOk, CurrentUnlisted;
    if inputs != [] {
      TurnSafe(c, s, inputs[0]);
      TurnExact(c, s, inputs[0]);
      if !inputs[0].outcome.EndRequested? {
        RunExact(c, Turn(c, s, inputs[0]), inputs[1..]);
      }
    }
  }

  /** At the end of every run the playlist lists exactly that window, and the queue holds exactly those segments. */
  lemma TaskExact(c: Config, inputs: seq<Input>)
    requires forall i :: i in inputs ==> i.indexOk
    ensures var t, first := Task(c, true, inputs, true), |Task(c, true, inputs, true).all| - c.numSegments + 1;
            && t.playlist.Some? && t.playlist.value.last == |t.all|
            && t.playlist.value.first
               == (if c.numSegments == 0 then 1 else if c.numSegments < 0 then |t.all| + 1
                   else if first > 1 then first else 1)
            && 1 <= t.playlist.value.first <= |t.all| + 1 && t.queue == t.all[t.playlist.value.first - 1..]
  {
    hide Start, RunFrom, Slide, Task, ViewsOk, WindowInv;
    TaskSafe(c, inputs);
    StartSafe(c, true);
    StartExact(c);
    TaskIs(c, true, inputs, true);
    RunSafe(c, Start(true), inputs);
    RunExact(c, Start(true), inputs);
    SlideExact(c, RunFrom(c, Start(true), inputs), true);
  }

  lemma StartExact(c: Config)
    ensures Start(true).first == WindowStart(c, Start(true).last)
  {
  }

  /** MEDIA-SEQUENCE (section 6.2.2 of RFC 8216) moves by one for each segment removed. */
  lemma SequenceCounts(c: Config, s: State, end: bool)
    requires WindowInv(c, s)
    ensures var t := Slide(c, s, end, true);
            t.playlist.value.first - s.playlist.value.first == |s.queue| - |t.queue| == if Full(c, s) then 1 else 0
  {
    SlideSafe(c, s, end);
  }

  /** With a failing index write the old playlist stays in place. What is then seen is still right exactly when no
      segment goes, or the playlist lists none. */
  lemma FailureAgrees(c: Config, s: State, end: bool, ok: bool)
    requires WindowInv(c, s)
    ensures Agrees(Slide(c, s, end, ok)) <==> ok || !Full(c, s) || s.last < s.first
  {
    var t := Slide(c, s, end, ok);
    SlideKeepsQueue(c, s, end, ok);
    if ok {
      SlideSafe(c, s, end);
      AgreesFrom(t);
    } else if Full(c, s) && s.first <= s.last {
      assert t.playlist.value.Lists(s.first);
      assert forall n :: 0 <= n < |t.queue| ==> t.queue[n].index == n + t.first;
    } else if !Full(c, s) {
      AgreesFrom(t);
    }
  }

  /** Every listed segment is in the queue. */
  ghost predicate Agrees(t: State) {
    t.playlist.Some? ==>
      forall k: nat :: t.playlist.value.Lists(k) ==> 1 <= k <= |t.all| && t.all[k - 1] in t.queue
  }

  lemma AgreesFrom(t: State)
    requires QueueFrom(t, t.first) && t.playlist.Some?
    requires t.first <= t.playlist.value.first && t.playlist.value.last <= |t.all|
    ensures Agrees(t)
  {
    forall k: nat | t.playlist.value.Lists(k)
      ensures t.all[k - 1] in t.queue
    {
      assert t.queue[k - t.first] == t.all[k - 1];
    }
  }

  /** The end of a task. */
  lemma TaskIs(c: Config, startOk: bool, inputs: seq<Input>, endOk: bool)
    ensures QueueInv(Start(startOk))
    ensures var s := RunFrom(c, Start(startOk), inputs);
            s.queue != [] && Task(c, startOk, inputs, endOk) == Slide(c, s, true, endOk)
  {
    StartQueue(startOk);
    hide Start, RunFrom, Slide;
    RunKeepsQueue(c, Start(startOk), inputs);
  }

  // What the segments contain.

  function Flat(segments: seq<Segment>): seq<Packet> {
    if segments == [] then [] else Flat(segments[..|segments| - 1]) + segments[|segments| - 1].packets
  }

  /** The packets that the muxer takes during a run. */
  function WrittenOf(inputs: seq<Input>): seq<Packet> {
    if inputs == [] then []
    else
      (if inputs[0].outcome.Written? then [inputs[0].packet] else [])
      + if inputs[0].outcome.EndRequested? then [] else WrittenOf(inputs[1..])
  }

  /** All segments, one after the other, are the packets taken. */
  predicate Partitioned(s: State) {
    Flat(s.all) == s.taken
  }

  /** The time of the last cut is remembered, and cuts are at least the duration apart. */
  predicate Spaced(c: Config, s: State) {
    && s.cuts != [] && s.prevTime == s.cuts[|s.cuts| - 1] && |s.cuts| == |s.all|
    && forall k :: 0 < k < |s.cuts| ==> s.cuts[k] - s.cuts[k - 1] >= c.duration as real
  }

  predicate StartsWithKey(c: Config, segment: Segment) {
    segment.packets != [] ==> segment.packets[0].key && segment.packets[0].stream == c.videoIndex
  }

  /** Every segment but the first begins with a video key frame. */
  predicate KeysFirst(c: Config, all: seq<Segment>) {
    forall k :: 0 < k < |all| ==> StartsWithKey(c, all[k])
  }

  predicate NoneEmpty(all: seq<Segment>) {
    forall k :: 0 < k < |all| ==> all[k].packets != []
  }

  lemma FlatAppend(segments: seq<Segment>, p: Packet)
    requires segments != []
    ensures var m := |segments| - 1;
            Flat(segments[m := segments[m].(packets := segments[m].packets + [p])]) == Flat(segments) + [p]
  {
    var m := |segments| - 1;
    var next := segments[m := segments[m].(packets := segments[m].packets + [p])];
    assert next[..m] == segments[..m];
  }

  lemma FlatNew(segments: seq<Segment>, index: nat)
    ensures Flat(segments + [Segment(index, [])]) == Flat(segments)
  {
    assert (segments + [Segment(index, [])])[..|segments|] == segments;
  }

  lemma SlideContents(c: Config, s: State, end: bool, ok: bool)
    requires s.queue != []
    ensures var t := Slide(c, s, end, ok);
            && t.all == s.all && t.outputIndex == s.outputIndex
            && t.cuts == s.cuts && t.taken == s.taken && t.prevTime == s.prevTime
  {
  }

  lemma CutFields(c: Config, s: State, i: Input)
    requires s.queue != []
    ensures var t, cut := CutIfDue(c, s, i), MustCut(c, s, i.packet);
            && t.taken == s.taken
            && t.all == (if cut then s.all + [Segment(s.outputIndex, [])] else s.all)
            && t.cuts == (if cut then s.cuts + [SegmentTime(c, s, i.packet)] else s.cuts)
            && t.prevTime == if cut then SegmentTime(c, s, i.packet) else s.prevTime
  {
    SlideContents(c, s, false, i.indexOk);
    hide Slide;
  }

  lemma CutContents(c: Config, s: State, i: Input)
    requires QueueInv(s) && ContentsInv(c, s)
    ensures ContentsInv(c, CutIfDue(c, s, i))
  {
    hide CutIfDue, Flat;
    CutFields(c, s, i);
    FlatNew(s.all, s.outputIndex);
  }

  lemma AppendContents(c: Config, s: State, p: Packet)
    requires s.queue != [] && s.all != [] && ContentsInv(c, s)
    ensures ContentsInv(c, Append(s, p)) && Append(s, p).taken == s.taken + [p]
  {
    hide Flat;
    FlatAppend(s.all, p);
  }

  lemma TurnContents(c: Config, s: State, i: Input)
    requires QueueInv(s) && ContentsInv(c, s)
    ensures ContentsInv(c, Turn(c, s, i))
    ensures Turn(c, s, i).taken == s.taken + if i.outcome.Written? then [i.packet] else []
  {
    hide Append, QueueInv, ContentsInv, MustCut, SegmentTime, Cut;
    QueueNonEmpty(s);
    CutContents(c, s, i);
    TurnKeepsQueue(c, s, i);
    QueueNonEmpty(CutIfDue(c, s, i));
    CutFields(c, s, i);
    hide CutIfDue;
    if i.outcome.Written? {
      AppendContents(c, CutIfDue(c, s, i), i.packet);
    }
  }

  /** The segments after a turn. */
  lemma TurnAll(c: Config, s: State, i: Input)
    requires QueueInv(s)
    ensures Turn(c, s, i).all
         == var all := if MustCut(c, s, i.packet) then s.all + [Segment(s.outputIndex, [])] else s.all;
            var m := |all| - 1;
            if i.outcome.Written? then all[m := all[m].(packets := all[m].packets + [i.packet])] else all
  {
    hide CutIfDue;
    CutFields(c, s, i);
    TurnKeepsQueue(c, s, i);
  }

  lemma TurnIndex(c: Config, s: State, i: Input)
    requires QueueInv(s)
    ensures var t := Turn(c, s, i);
            && t.outputIndex <= s.outputIndex + 1 && t.first < t.outputIndex
            && t.outputIndex - t.last >= s.outputIndex - s.last
  {
    TurnKeepsQueue(c, s, i);
    SlideContents(c, s, false, i.indexOk);
    SlideKeepsQueue(c, s, false, i.indexOk);
    hide Slide;
  }

  lemma TurnKeys(c: Config, s: State, i: Input)
    requires c.videoIndex >= 0 && c.duration > 0
    requires QueueInv(s) && KeysFirst(c, s.all) && NoneEmpty(s.all) && !i.outcome.Failed?
    ensures KeysFirst(c, Turn(c, s, i).all) && (i.outcome.Written? ==> NoneEmpty(Turn(c, s, i).all))
  {
    hide Turn;
    TurnAll(c, s, i);
  }

  /** What TurnContents keeps. */
  predicate ContentsInv(c: Config, s: State) {
    Partitioned(s) && Spaced(c, s)
  }

  lemma {:induction false} RunContents(c: Config, s: State, inputs: seq<Input>)
    requires QueueInv(s) && ContentsInv(c, s)
    ensures ContentsInv(c, RunFrom(c, s, inputs))
    ensures RunFrom(c, s, inputs).taken == s.taken + WrittenOf(inputs)
    decreases |inputs|
  {
    hide QueueInv, ContentsInv, Turn, RunFrom, WrittenOf;
    if inputs == [] {
      NoTurn(c, s, inputs);
    } else {
      RunOnce(c, s, inputs);
      TurnContents(c, s, inputs[0]);
      var more := if inputs[0].outcome.Written? then [inputs[0].packet] else [];
      if inputs[0].outcome.EndRequested? {
        TakenOnce(s.taken, more, []);
      } else {
        RunContents(c, Turn(c, s, inputs[0]), inputs[1..]);
        TakenOnce(s.taken, more, WrittenOf(inputs[1..]));
      }
    }
  }

  lemma NoTurn(c: Config, s: State, inputs: seq<Input>)
    requires QueueInv(s) && inputs == []
    ensures RunFrom(c, s, inputs) == s && s.taken + WrittenOf(inputs) == s.taken
  {
    hide QueueInv;
  }

  /** The first turn of a run, and the packet that it takes. */
  lemma RunOnce(c: Config, s: State, inputs: seq<Input>)
    requires QueueInv(s) && inputs != []
    ensures s.queue != [] && s.all != [] && QueueInv(Turn(c, s, inputs[0]))
    ensures var t, end := Turn(c, s, inputs[0]), inputs[0].outcome.EndRequested?;
            RunFrom(c, s, inputs) == if end then t else RunFrom(c, t, inputs[1..])
    ensures WrittenOf(inputs) ==
              (if inputs[0].outcome.Written? then [inputs[0].packet] else [])
              + if inputs[0].outcome.EndRequested? then [] else WrittenOf(inputs[1..])
  {
    QueueNonEmpty(s);
    hide Turn, QueueInv;
    TurnKeepsQueue(c, s, inputs[0]);
  }

  lemma TakenOnce(taken: seq<Packet>, more: seq<Packet>, rest: seq<Packet>)
    ensures taken + more + rest == taken + (more + rest) && more + [] == more
  {
  }

  lemma {:induction false} RunKeys(c: Config, s: State, inputs: seq<Input>)
    requires c.videoIndex >= 0 && c.duration > 0
    requires QueueInv(s) && KeysFirst(c, s.all) && NoneEmpty(s.all)
    requires forall i :: i in inputs ==> !i.outcome.Failed?
    ensures KeysFirst(c, RunFrom(c, s, inputs).all)
    decreases |inputs|
  {
    hide Turn, RunFrom, QueueInv, KeysFirst, NoneEmpty;
    if inputs == [] {
      NoTurn(c, s, inputs);
    } else {
      RunOnce(c, s, inputs);
      TurnKeys(c, s, inputs[0]);
      if !inputs[0].outcome.EndRequested? {
        RunKeys(c, Turn(c, s, inputs[0]), inputs[1..]);
      }
    }
  }

  /** The segments ever created partition the packet stream, whatever index writes and frame writes do; successive cuts
      are at least the segment duration apart. */
  lemma TaskPartitions(c: Config, startOk: bool, inputs: seq<Input>, endOk: bool)
    ensures var t := Task(c, startOk, inputs, endOk);
            && Flat(t.all) == WrittenOf(inputs)
            && forall k :: 0 < k < |t.cuts| ==> t.cuts[k] - t.cuts[k - 1] >= c.duration as real
  {
    var s := Start(startOk);
    StartContents(startOk);
    hide Start, RunFrom, Slide, Flat, WrittenOf, QueueInv;
    RunContents(c, s, inputs);
    RunKeepsQueue(c, s, inputs);
    QueueNonEmpty(RunFrom(c, s, inputs));
    SlideContents(c, RunFrom(c, s, inputs), true, endOk);
  }

  lemma StartContents(ok: bool)
    ensures var s := Start(ok);
            QueueInv(s) && s.all == [Segment(1, [])] && s.taken == [] && s.cuts == [0.0] && s.prevTime == 0.0
    ensures Flat(Start(ok).all) == []
  {
    FlatNew([], 1);
    hide Flat;
  }

  lemma OneTurn(c: Config, s: State, i: Input)
    requires QueueInv(s) && !i.outcome.EndRequested?
    ensures RunFrom(c, s, [i]) == Turn(c, s, i)
  {
    hide Turn;
    TurnKeepsQueue(c, s, i);
    assert [i][1..] == [];
  }

  lemma TaskAll(c: Config, startOk: bool, inputs: seq<Input>, endOk: bool)
    ensures QueueInv(Start(startOk))
    ensures Task(c, startOk, inputs, endOk).all == RunFrom(c, Start(startOk), inputs).all
  {
    StartQueue(startOk);
    hide Start, Slide, RunFrom, QueueInv;
    RunKeepsQueue(c, Start(startOk), inputs);
    QueueNonEmpty(RunFrom(c, Start(startOk), inputs));
    SlideContents(c, RunFrom(c, Start(startOk), inputs), true, endOk);
  }

  /** A packet that is not a key frame. */
  function Plain(c: Config): Input
    requires c.videoIndex >= 0
  {
    Input(Packet(c.videoIndex as nat, false, 0.0), true, Written)
  }

  lemma ZeroDurationTurn(c: Config, s: State)
    requires c.videoIndex >= 0 && c.duration <= 0
    requires QueueInv(s) && s.all == [Segment(1, [])]
    ensures Turn(c, s, Plain(c)).all == [Segment(1, []), Segment(2, [Plain(c).packet])]
  {
    assert MustCut(c, s, Plain(c).packet);
    hide Turn, MustCut;
    TurnAll(c, s, Plain(c));
    assert s.outputIndex == 2 && s.all + [Segment(2, [])] == [Segment(1, []), Segment(2, [])];
    assert [] + [Plain(c).packet] == [Plain(c).packet];
    assert [Segment(1, []), Segment(2, [])][1 := Segment(2, [Plain(c).packet])]
        == [Segment(1, []), Segment(2, [Plain(c).packet])];
  }

  /** With a duration of zero every packet is cut off. */
  lemma ZeroDuration(c: Config, ok: bool)
    requires c.videoIndex >= 0 && c.duration <= 0
    ensures !KeysFirst(c, Task(c, ok, [Plain(c)], ok).all)
  {
    hide Start, Turn, RunFrom, QueueInv, Task;
    var inputs := [Plain(c)];
    StartContents(ok);
    TaskAll(c, ok, inputs, ok);
    OneTurn(c, Start(ok), Plain(c));
    ZeroDurationTurn(c, Start(ok));
    assert !StartsWithKey(c, Task(c, ok, inputs, ok).all[1]);
  }

  lemma PositiveDuration(c: Config, inputs: seq<Input>)
    requires c.videoIndex >= 0 && c.duration > 0 && forall i :: i in inputs ==> !i.outcome.Failed?
    ensures KeysFirst(c, Task(c, true, inputs, true).all)
  {
    hide Start, RunFrom, QueueInv, Task;
    StartContents(true);
    TaskAll(c, true, inputs, true);
    RunKeys(c, Start(true), inputs);
  }

  /** With a video stream, segments begin with key frames exactly when the duration is positive (frame writes
      succeeding). */
  lemma KeysFirstExactly(c: Config)
    requires c.videoIndex >= 0
    ensures (forall inputs: seq<Input> :: (forall i :: i in inputs ==> !i.outcome.Failed?)
               ==> KeysFirst(c, Task(c, true, inputs, true).all))
       <==> c.duration > 0
  {
    hide Task, KeysFirst;
    if c.duration > 0 {
      forall inputs: seq<Input> | forall i :: i in inputs ==> !i.outcome.Failed?
        ensures KeysFirst(c, Task(c, true, inputs, true).all)
      {
        PositiveDuration(c, inputs);
      }
    } else {
      ZeroDuration(c, true);
      assert forall j :: j in [Plain(c)] ==> !j.outcome.Failed?;
    }
  }
}

/** istb_m3u8_task. */
module Hls {
  import opened Common
  import opened HlsWindow
  import opened SegmentOutput
  import IndexFiles
  import PlaylistText
  import SegmentBuffer
  import SegmentQueue

  class Segmenter {
    const c: Config
    const out: Output
    var first: nat
    var last: nat
    var outputIndex: nat
    var writeIndex: bool
    var prevTime: real
    ghost var all: seq<Segment>
    ghost var cuts: seq<real>
    ghost var taken: seq<Packet>
    ghost var views: seq<View>

    ghost function Model(): State
      reads this, out
    {
      State(first, last, outputIndex, writeIndex, prevTime, out.queue, out.playlist, all, cuts, taken, views)
    }

    ghost predicate Ready()
      reads out, out.files, out.files.list, out.files.list.head, out.files.list.nodes, out.files.buffers
      reads out.files.arrays, out.files.index, if out.files.index == null then {} else {out.files.index.buf}
      reads out.current
    {
      out.Valid() && this !in out.Footprint()
    }

    /** The numbers fit an int. */
    ghost predicate Small()
      reads `first, `last, `outputIndex
    {
      first <= outputIndex && last + 2 <= outputIndex && outputIndex < 0x8000_0000
    }

    /** The variables before the first segment exists. */
    constructor (c: Config, out: Output)
      requires out.Valid() && out.queue == [] && out.playlist == None
      ensures this.c == c && this.out == out && Ready()
      ensures Model() == State(1, 0, 1, true, 0.0, [], None, [], [0.0], [], [])
    {
      hide Output.Valid, Output.Footprint;
      this.c, this.out := c, out;
      first, last, outputIndex, writeIndex, prevTime := 1, 0, 1, true, 0.0;
      all, cuts, taken, views := [], [0.0], [], [];
      new;
      NotOut(out);
    }

    lemma NotOut(out: Output)
      ensures this !in out.Footprint()
    {
    }

    /** A reader may look now. */
    ghost method See()
      modifies `views
      ensures Model() == old(Model()).Seen()
    {
      views := views + [View(out.queue, out.playlist)];
    }

    /** istb_m3u8_queue_remove */
    method QueueRemove()
      requires Ready() && out.queue != []
      modifies `views, out.Footprint()
      ensures Ready() && forall x :: x in out.Footprint() ==> x in old(out.Footprint()) || fresh(x)
      ensures Model() == Remove(old(Model()))
    {
      hide Output.Valid, Output.Footprint;
      out.RemoveSegment();
      See();
    }

    /** A new buffer, named by `output_index++`, goes to the tail of the list. */
    method QueueAdd()
      requires Ready() && outputIndex < 0x1_0000_0000
      modifies `outputIndex, `all, `views, out.Footprint()
      ensures Ready() && forall x :: x in out.Footprint() ==> x in old(out.Footprint()) || fresh(x)
      ensures Model() == Add(old(Model()))
    {
      hide Output.Valid, Output.Footprint;
      out.AddSegment(outputIndex);
      all := all + [Segment(outputIndex, [])];
      outputIndex := outputIndex + 1;
      See();
    }

    /** av_interleaved_write_frame, taken. */
    method WriteFrame(p: Packet)
      requires Ready() && out.queue != [] && all != []
      modifies `all, `taken, `views, out.Footprint()
      ensures Ready() && forall x :: x in out.Footprint() ==> x in old(out.Footprint()) || fresh(x)
      ensures Model() == Append(old(Model()), p)
    {
      hide Output.Valid, Output.Footprint;
      out.WriteFrame(p);
      ghost var m := |all| - 1;
      all := all[m := all[m].(packets := all[m].packets + [p])];
      taken := taken + [p];
      See();
    }

    method PublishIndex(end: bool, indexOk: bool)
      requires Ready() && first < 0x1_0000_0000 && last + 1 < 0xFFFF_FFFF
      modifies `last, `writeIndex, `views, out.Footprint()
      ensures Ready() && out.Footprint() == old(out.Footprint())
      ensures Model() == Publish(old(Model()), end, indexOk)
    {
      hide Output.Valid, Output.Footprint;
      if writeIndex {
        last := last + 1;
        var res := out.WriteIndexFile(first, last, end, indexOk);
        if !end {
          writeIndex := res == 0;
        }
        See();
      }
    }

    /** The part that the cut and the end of the task share. Indices are below 2^31, so the unsigned difference
        converted to int is the difference. */
    method SlideWindow(end: bool, indexOk: bool)
      requires Ready() && Small() && out.queue != []
      modifies this, out.Footprint()
      ensures Ready() && forall x :: x in out.Footprint() ==> x in old(out.Footprint()) || fresh(x)
      ensures Model() == Slide(c, old(Model()), end, indexOk)
    {
      hide Output.Valid, Output.Footprint;
      var removeFile := c.numSegments != 0 && last - first >= c.numSegments - 1;
      if removeFile {
        first := first + 1;
      }
      PublishIndex(end, indexOk);
      if removeFile {
        QueueRemove();
      }
    }

    method CutSegment(segmentTime: real, indexOk: bool)
      requires Ready() && Small() && out.queue != []
      modifies this, out.Footprint()
      ensures Ready() && forall x :: x in out.Footprint() ==> x in old(out.Footprint()) || fresh(x)
      ensures Model() == Cut(c, old(Model()), segmentTime, indexOk)
    {
      hide Output.Valid, Output.Footprint;
      SlideWindow(false, indexOk);
      QueueAdd();
      prevTime := segmentTime;
      cuts := cuts + [segmentTime];
    }

    /** One turn of the loop. */
    method ReadPacket(i: Input)
      requires Ready() && Small() && QueueInv(Model())
      modifies this, out.Footprint()
      ensures Ready() && forall x :: x in out.Footprint() ==> x in old(out.Footprint()) || fresh(x)
      ensures Model() == Turn(c, old(Model()), i)
    {
      hide Output.Valid, Output.Footprint;
      var segmentTime := prevTime;
      if i.packet.stream == c.videoIndex && i.packet.key {
        segmentTime := i.packet.time;
      } else if c.videoIndex < 0 {
        segmentTime := i.packet.time;
      }
      if segmentTime - prevTime >= c.duration as real {
        CutSegment(segmentTime, i.indexOk);
      }
      if i.outcome.Written? {
        WriteFrame(i.packet);
      }
    }

    /** The packet loop. */
    method ReadPackets(inputs: seq<Input>)
      requires Ready() && Small() && QueueInv(Model()) && outputIndex + |inputs| < 0x8000_0000
      modifies this, out.Footprint()
      ensures Ready() && forall x :: x in out.Footprint() ==> x in old(out.Footprint()) || fresh(x)
      ensures QueueInv(Model()) && Model() == RunFrom(c, old(Model()), inputs)
      ensures Small()
    {
      hide Turn, QueueInv, Output.Valid, Output.Footprint;
      ghost var start := Model();
      var n := 0;
      while n < |inputs|
        invariant n <= |inputs| && QueueInv(start) && QueueInv(Model())
        invariant RunFrom(c, start, inputs) == RunFrom(c, Model(), inputs[n..])
        invariant Small() && outputIndex <= start.outputIndex + n
        invariant Ready() && forall x :: x in out.Footprint() ==> x in old(out.Footprint()) || fresh(x)
      {
        TurnKeepsQueue(c, Model(), inputs[n]);
        TurnIndex(c, Model(), inputs[n]);
        assert inputs[n..][1..] == inputs[n + 1..];
        ReadPacket(inputs[n]);
        n := n + 1;
        if inputs[n - 1].outcome.EndRequested? {
          return;
        }
      }
    }

    /** istb_m3u8_task after the streams are open; `terminate` and the end of the input both end `inputs`. */
    method Task(startOk: bool, inputs: seq<Input>, endOk: bool)
      requires Ready() && Model() == State(1, 0, 1, true, 0.0, [], None, [], [0.0], [], [])
      requires |inputs| + 2 < 0x8000_0000
      modifies this, out.Footprint()
      ensures Ready() && Model() == HlsWindow.Task(c, startOk, inputs, endOk)
    {
      hide Output.Valid, Output.Footprint, Start, RunFrom, Slide, QueueInv, HlsWindow.Task;
      BeginTask(startOk);
      StartQueue(startOk);
      ReadPackets(inputs);
      TaskIs(c, startOk, inputs, endOk);
      SlideWindow(true, endOk);
    }

    /** The first segment and the first, empty index. */
    method BeginTask(startOk: bool)
      requires Ready() && Model() == State(1, 0, 1, true, 0.0, [], None, [], [0.0], [], [])
      modifies this, out.Footprint()
      ensures Ready() && forall x :: x in out.Footprint() ==> x in old(out.Footprint()) || fresh(x)
      ensures Model() == Start(startOk) && Small() && outputIndex == 2
    {
      hide Output.Valid, Output.Footprint;
      QueueAdd();
      var res := out.WriteIndexFile(first, last, false, startOk);
      writeIndex := res == 0;
      See();
    }

    lemma OpensSegment(from: nat, i: nat, name: string, r: IndexFiles.Opened)
      requires out.Valid() && QueueFrom(Model(), from) && name == PlaylistText.Name(out.o.outputPrefix, i)
      requires '.' in name && IndexFiles.IsAnswer(SegmentQueue.Names(out.files.files), name, r)
      ensures r == if from <= i < outputIndex then IndexFiles.Segment(i - from) else IndexFiles.Missing
      ensures from <= i < outputIndex ==>
                i - from < |out.files.files| && out.files.files[i - from].contents == Muxed(out.mux, all[i - 1].packets)
    {
      hide SegmentQueue.Queue.Valid, IndexFiles.IsAnswer, Muxed;
      IndexFiles.OpensExactly(out.o.outputPrefix, from, SegmentQueue.Names(out.files.files), i, r);
    }

    /** All that the muxer has made of segment `i`, if that is in the queue. */
    ghost predicate IsSegment(from: nat, i: nat, fifo: SegmentBuffer.Buffer?)
      requires QueueFrom(Model(), from) && (fifo != null ==> fifo.Valid())
      reads this, out, fifo, if fifo == null then {} else {fifo.buf}
    {
      if from <= i < outputIndex then fifo != null && fifo.Contents() == Muxed(out.mux, all[i - 1].packets)
      else fifo == null
    }

    /** The text of the published index. */
    ghost function IndexText(): string
      requires out.playlist.Some?
      reads out
    {
      var p := out.playlist.value;
      PlaylistText.Text(PlaylistText.AllLines(out.o, p.first, p.last, p.end))
    }

    /** The server opens the file that a request asks for. A whole segment name opens that segment's file, with all that
        the muxer has made of the segment so far, exactly while the segment is in the queue, which begins at segment
        `from`: `first`, or the one before it between publishing and removing. */
    method Request(uri: string, ghost from: nat) returns (fifo: SegmentBuffer.Buffer?, len: nat)
      requires Ready() && QueueFrom(Model(), from) && 0 < |uri| <= 128
      requires var name := IndexFiles.RequestName(uri);
               && '.' in name && |IndexFiles.Suffix(name)| < 32
               && ("m3u8" <= IndexFiles.Suffix(name) ==> out.playlist.Some?)
      ensures fifo != null ==> fifo.Valid() && len == |fifo.Contents()|
      ensures "m3u8" <= IndexFiles.Suffix(IndexFiles.RequestName(uri)) ==>
                fifo != null && fifo.Contents() == SegmentBuffer.Encode(IndexText())
      ensures forall i: nat :: IndexFiles.RequestName(uri) == PlaylistText.Name(out.o.outputPrefix, i) ==>
                IsSegment(from, i, fifo)
    {
      hide SegmentQueue.Queue.Valid, PlaylistText.Name, PlaylistText.Text, PlaylistText.AllLines;
      hide IndexFiles.Suffix, Muxed;
      ghost var r;
      fifo, len, r := out.files.Open(IndexFiles.RequestName(uri));
      forall i: nat | IndexFiles.RequestName(uri) == PlaylistText.Name(out.o.outputPrefix, i)
        ensures IsSegment(from, i, fifo)
      {
        OpensSegment(from, i, IndexFiles.RequestName(uri), r);
      }
    }
  }
}
