/** Index writes that fail: in which runs of the segmenter everything that a reader can see still agrees with the queue. */
module HlsFailures {
  import opened Common
  import opened HlsWindow

  ghost predicate Holds(queue: seq<Segment>, k: nat) {
    exists i :: 0 <= i < |queue| && queue[i].index == k
  }

  /** Every listed segment is in the queue. */
  ghost predicate Shown(v: View) {
    v.playlist.Some? ==> forall k: nat :: v.playlist.value.Lists(k) ==> Holds(v.queue, k)
  }

  ghost predicate Every(views: seq<View>) {
    forall v :: v in views ==> Shown(v)
  }

  ghost predicate AllShown(s: State) {
    Every(s.views)
  }

  lemma EveryParts(a: seq<View>, b: seq<View>)
    ensures Every(a + b) <==> Every(a) && Every(b)
  {
    hide Shown;
    if Every(a + b) {
      forall v | v in a || v in b
        ensures Shown(v)
      {
        assert v in a + b;
      }
    }
  }

  lemma EveryOne(v: View)
    ensures Every([v]) <==> Shown(v)
  {
    hide Shown;
    assert v in [v];
  }

  /** What a reader sees now is among what has been seen. */
  predicate Current(s: State) {
    View(s.queue, s.playlist) in s.views
  }

  /** A queue that starts at segment `from`. */
  lemma ShownIff(v: View, from: nat)
    requires forall i :: 0 <= i < |v.queue| ==> v.queue[i].index == from + i
    ensures Shown(v) <==>
              match v.playlist
              case None => true
              case Some(p) => p.first > p.last || (from <= p.first && p.last < from + |v.queue|)
  {
    if v.playlist.Some? {
      var p := v.playlist.value;
      if p.first <= p.last && from <= p.first && p.last < from + |v.queue| {
        forall k: nat | p.Lists(k)
          ensures Holds(v.queue, k)
        {
          assert v.queue[k - from].index == k;
        }
      }
      if p.first <= p.last && Shown(v) {
        assert p.Lists(p.first) && p.Lists(p.last);
      }
    }
  }

  /** The slide removes a segment that the playlist goes on to list. */
  predicate Bad(c: Config, s: State, ok: bool) {
    Full(c, s) && !(s.writeIndex && ok) && s.playlist.Some? && s.playlist.value.Lists(s.first)
  }

  /** Publishing lists the segments up to the current one, which is not yet listed. */
  predicate Listing(s: State) {
    s.writeIndex ==> s.last + 2 == s.outputIndex
  }

  lemma SlideShown(c: Config, s: State, end: bool, ok: bool)
    requires QueueInv(s) && Current(s) && Listing(s)
    ensures Current(Slide(c, s, end, ok))
    ensures AllShown(Slide(c, s, end, ok)) <==> AllShown(s) && !Bad(c, s, ok)
  {
    var full := Full(c, s);
    var p := if s.writeIndex && ok then Some(Playlist(if full then s.first + 1 else s.first, s.last + 1, end))
             else s.playlist;
    ShownIff(View(s.queue, s.playlist), s.first);
    ShownIff(View(s.queue, p), s.first);
    ShownIff(View(s.queue[1..], p), s.first + 1);
    SlideViewsAre(c, s, end, ok, p);
    assert AllShown(s) ==> Shown(View(s.queue, s.playlist));
    hide Slide, Shown, Full;
    var published := if s.writeIndex then [View(s.queue, p)] else [];
    var removed := if full then [View(s.queue[1..], p)] else [];
    EveryParts(s.views + published, removed);
    EveryParts(s.views, published);
    EveryOne(View(s.queue, p));
    EveryOne(View(s.queue[1..], p));
  }

  lemma SlideViewsAre(c: Config, s: State, end: bool, ok: bool, p: Option<Playlist>)
    requires s.queue != [] && Current(s)
    requires p == if s.writeIndex && ok then Some(Playlist(if Full(c, s) then s.first + 1 else s.first, s.last + 1, end))
                  else s.playlist
    ensures var t := Slide(c, s, end, ok);
            && t.views == s.views + (if s.writeIndex then [View(s.queue, p)] else [])
                          + (if Full(c, s) then [View(s.queue[1..], p)] else [])
            && Current(t)
  {
  }

  lemma AddShown(s: State)
    requires QueueFrom(s, s.first) && Current(s) && (s.playlist.Some? ==> s.playlist.value.last < s.outputIndex)
    ensures Current(Add(s)) && (AllShown(Add(s)) <==> AllShown(s))
  {
    var t := Add(s);
    ShownIff(View(s.queue, s.playlist), s.first);
    ShownIff(View(t.queue, t.playlist), s.first);
    hide Shown;
    EveryParts(s.views, [View(t.queue, t.playlist)]);
    EveryOne(View(t.queue, t.playlist));
  }

  lemma AppendShown(s: State, p: Packet)
    requires QueueInv(s) && Current(s)
    ensures Current(Append(s, p)) && (AllShown(Append(s, p)) <==> AllShown(s))
  {
    var t := Append(s, p);
    ShownIff(View(s.queue, s.playlist), s.first);
    ShownIff(View(t.queue, t.playlist), s.first);
    hide Shown;
    EveryParts(s.views, [View(t.queue, t.playlist)]);
    EveryOne(View(t.queue, t.playlist));
  }

  /** No playlist lists a segment that does not exist yet. */
  predicate Bounded(s: State) {
    s.playlist.Some? ==> s.playlist.value.last < s.outputIndex
  }

  lemma CutShown(c: Config, s: State, time: real, ok: bool)
    requires QueueInv(s) && Current(s) && Listing(s) && Bounded(s)
    ensures var t := Cut(c, s, time, ok);
            && QueueInv(t) && Current(t) && Bounded(t)
            && (AllShown(t) <==> AllShown(s) && !Bad(c, s, ok))
  {
    var t := Slide(c, s, false, ok);
    SlideShown(c, s, false, ok);
    SlideKeepsQueue(c, s, false, ok);
    SlideFields(c, s, ok);
    AddKeepsQueue(t);
    AddShown(t);
    CutIsAdd(c, s, time, ok);
    hide AllShown, Slide, Cut, Add, Full, Bad;
  }

  // Counting the index writes of the slides: `oks` says which of them would succeed.

  /** The number of the first one that fails, or 0. */
  function FirstFail(oks: seq<bool>): (j: nat)
    ensures j <= |oks|
  {
    if oks == [] then 0
    else
      var j := FirstFail(oks[..|oks| - 1]);
      if j == 0 && !oks[|oks| - 1] then |oks| else j
  }

  /** The window's first segment after `n` slides that were all published. */
  function FirstAfter(num: int, n: nat): nat
    requires num > 0
  {
    if n <= num then 1 else n - num + 1
  }

  /** No segment goes while the playlist lists it: index writes fail before anything is listed, or while the window still
      grows; or the last slide of all is the one at which the window is full. */
  predicate Tolerable(num: int, oks: seq<bool>) {
    var j := FirstFail(oks);
    j <= 1 || j < num || (j == num && j == |oks|)
  }

  /** The window after the slides `oks`. */
  predicate Window(c: Config, s: State, oks: seq<bool>)
    requires c.numSegments > 0
  {
    var n, j, num := |oks|, FirstFail(oks), c.numSegments;
    && s.outputIndex == n + 2
    && if j == 0 then
         && s.writeIndex && s.last == n && s.first == FirstAfter(num, n)
         && s.playlist == Some(Playlist(s.first, n, false))
       else
         && !s.writeIndex && s.last == j
         && s.playlist == Some(Playlist(FirstAfter(num, j - 1), j - 1, false))
         && s.first == if j < num then 1 else if n == j then j - num + 1 else j - num + 2
  }

  /** At the loop head, after the slides `oks`. */
  ghost predicate Counted(c: Config, s: State, oks: seq<bool>)
    requires c.numSegments > 0
  {
    QueueInv(s) && Current(s) && Window(c, s, oks) && (AllShown(s) <==> Tolerable(c.numSegments, oks))
  }

  lemma FirstFailNext(oks: seq<bool>, ok: bool)
    ensures FirstFail(oks + [ok]) == if FirstFail(oks) == 0 && !ok then |oks| + 1 else FirstFail(oks)
  {
    assert (oks + [ok])[..|oks|] == oks;
  }

  /** One more slide. */
  lemma SlideCounted(c: Config, s: State, oks: seq<bool>, end: bool, ok: bool)
    requires c.numSegments > 0 && Counted(c, s, oks)
    ensures AllShown(Slide(c, s, end, ok)) <==> Tolerable(c.numSegments, oks + [ok])
  {
    SlideShown(c, s, end, ok);
    FirstFailNext(oks, ok);
    hide Slide, AllShown, FirstFail, QueueInv;
    BadExactly(c, s, oks, ok);
  }

  lemma BadExactly(c: Config, s: State, oks: seq<bool>, ok: bool)
    requires c.numSegments > 0 && Counted(c, s, oks)
    ensures Tolerable(c.numSegments, oks + [ok]) <==> Tolerable(c.numSegments, oks) && !Bad(c, s, ok)
  {
    FirstFailNext(oks, ok);
    hide AllShown, FirstFail, QueueInv;
  }

  lemma WindowNext(c: Config, s: State, oks: seq<bool>, time: real, ok: bool)
    requires c.numSegments > 0 && QueueInv(s) && Window(c, s, oks)
    ensures Window(c, Cut(c, s, time, ok), oks + [ok])
  {
    FirstFailNext(oks, ok);
    SlideFields(c, s, ok);
    CutIsAdd(c, s, time, ok);
    hide QueueInv, FirstFail, Cut, Slide;
  }

  lemma CutCounted(c: Config, s: State, oks: seq<bool>, time: real, ok: bool)
    requires c.numSegments > 0 && Counted(c, s, oks)
    ensures Counted(c, Cut(c, s, time, ok), oks + [ok])
  {
    CutShown(c, s, time, ok);
    WindowNext(c, s, oks, time, ok);
    BadExactly(c, s, oks, ok);
    hide AllShown, Tolerable, Window, Slide, Cut, Add, Full, Bad, QueueInv, Current;
  }

  lemma SlideFields(c: Config, s: State, ok: bool)
    requires s.queue != []
    ensures var t, full := Slide(c, s, false, ok), Full(c, s);
            && t.first == (if full then s.first + 1 else s.first)
            && t.last == (if s.writeIndex then s.last + 1 else s.last)
            && t.writeIndex == (s.writeIndex && ok)
            && t.playlist == (if s.writeIndex && ok then Some(Playlist(t.first, t.last, false)) else s.playlist)
  {
  }

  lemma CutIsAdd(c: Config, s: State, time: real, ok: bool)
    requires QueueInv(s)
    ensures var t, a := Cut(c, s, time, ok), Add(Slide(c, s, false, ok));
            && t.first == a.first && t.last == a.last && t.writeIndex == a.writeIndex && t.playlist == a.playlist
            && t.outputIndex == a.outputIndex == s.outputIndex + 1
            && t.queue == a.queue && t.all == a.all && t.views == a.views
  {
  }

  /** The slides of a run, by whether their index write would succeed. */
  ghost function SlidesOf(c: Config, s: State, inputs: seq<Input>): seq<bool>
    requires QueueInv(s)
    decreases |inputs|
  {
    if inputs == [] then []
    else
      var i := inputs[0];
      TurnKeepsQueue(c, s, i);
      (if MustCut(c, s, i.packet) then [i.indexOk] else [])
      + if i.outcome.EndRequested? then [] else SlidesOf(c, Turn(c, s, i), inputs[1..])
  }

  lemma TurnCounted(c: Config, s: State, oks: seq<bool>, i: Input)
    requires c.numSegments > 0 && Counted(c, s, oks)
    ensures Counted(c, Turn(c, s, i), oks + if MustCut(c, s, i.packet) then [i.indexOk] else [])
  {
    var t := CutIfDue(c, s, i);
    if MustCut(c, s, i.packet) {
      CutCounted(c, s, oks, SegmentTime(c, s, i.packet), i.indexOk);
    } else {
      assert oks + [] == oks;
    }
    hide Counted, Window, Tolerable, Cut;
    if i.outcome.Written? {
      WrittenCounted(c, t, oks + if MustCut(c, s, i.packet) then [i.indexOk] else [], i.packet);
    }
  }

  lemma WrittenCounted(c: Config, s: State, oks: seq<bool>, p: Packet)
    requires c.numSegments > 0 && Counted(c, s, oks)
    ensures s.queue != [] && s.all != [] && Counted(c, Append(s, p), oks)
  {
    AppendShown(s, p);
    AppendKeepsQueue(s, p);
    hide AllShown, Tolerable;
  }

  lemma {:induction false} RunCounted(c: Config, s: State, oks: seq<bool>, inputs: seq<Input>)
    requires c.numSegments > 0 && Counted(c, s, oks)
    ensures QueueInv(s) && Counted(c, RunFrom(c, s, inputs), oks + SlidesOf(c, s, inputs))
    decreases |inputs|
  {
    assert QueueInv(s);
    if inputs == [] {
      assert oks + [] == oks;
    } else {
      var i := inputs[0];
      TurnCounted(c, s, oks, i);
      TurnKeepsQueue(c, s, i);
      var here := if MustCut(c, s, i.packet) then [i.indexOk] else [];
      hide Counted, Turn, QueueInv, MustCut;
      if i.outcome.EndRequested? {
        Regroup(oks, here, []);
      } else {
        var t := Turn(c, s, i);
        RunCounted(c, t, oks + here, inputs[1..]);
        Regroup(oks, here, SlidesOf(c, t, inputs[1..]));
      }
    }
  }

  lemma Regroup(a: seq<bool>, b: seq<bool>, c: seq<bool>)
    ensures a + (b + c) == a + b + c && b + [] == b
  {
  }

  lemma StartViews(ok: bool)
    ensures var s := Start(ok);
            QueueInv(s) && Current(s) && s.first == 1 && s.last == 0 && s.outputIndex == 2 && s.writeIndex == ok
            && s.playlist == (if ok then Some(Playlist(1, 0, false)) else None)
    ensures AllShown(Start(ok))
  {
    StartQueue(ok);
    var s := Start(ok);
    assert forall v :: v in s.views ==> v.playlist.None? || v.playlist.value == Playlist(1, 0, false);
  }

  lemma StartCounted(c: Config, ok: bool)
    requires c.numSegments > 0 && ok
    ensures Counted(c, Start(ok), [])
  {
    StartViews(ok);
    hide Start, AllShown, QueueInv;
  }

  // The other runs: nothing is ever listed, or no listed segment ever goes.

  /** The index was never written; or no segment ever goes; or none is ever listed. */
  ghost predicate Harmless(c: Config, s: State) {
    && QueueInv(s) && Current(s) && AllShown(s) && Listing(s)
    && (|| (!s.writeIndex && s.playlist == None)
        || (c.numSegments == 0 && Bounded(s))
        || (c.numSegments < 0 && (s.writeIndex ==> s.first == s.last + 1) && Bounded(s)
            && (s.playlist.Some? ==> s.playlist.value.last < s.playlist.value.first)))
  }

  lemma HarmlessSlide(c: Config, s: State, end: bool, ok: bool)
    requires Harmless(c, s)
    ensures AllShown(Slide(c, s, end, ok))
  {
    SlideShown(c, s, end, ok);
    hide AllShown, QueueInv, Slide;
  }

  lemma HarmlessCut(c: Config, s: State, time: real, ok: bool)
    requires Harmless(c, s)
    ensures Harmless(c, Cut(c, s, time, ok))
  {
    CutShown(c, s, time, ok);
    SlideFields(c, s, ok);
    CutIsAdd(c, s, time, ok);
    hide AllShown, Slide, Cut, QueueInv;
  }

  lemma HarmlessTurn(c: Config, s: State, i: Input)
    requires Harmless(c, s)
    ensures Harmless(c, Turn(c, s, i))
  {
    var t := CutIfDue(c, s, i);
    if MustCut(c, s, i.packet) {
      HarmlessCut(c, s, SegmentTime(c, s, i.packet), i.indexOk);
    }
    hide Harmless, Cut, Full;
    if i.outcome.Written? {
      HarmlessWritten(c, t, i.packet);
    }
  }

  lemma HarmlessWritten(c: Config, s: State, p: Packet)
    requires Harmless(c, s)
    ensures s.queue != [] && s.all != [] && Harmless(c, Append(s, p))
  {
    AppendShown(s, p);
    AppendKeepsQueue(s, p);
    hide AllShown;
  }

  lemma {:induction false} HarmlessRun(c: Config, s: State, inputs: seq<Input>)
    requires Harmless(c, s)
    ensures QueueInv(s) && Harmless(c, RunFrom(c, s, inputs))
    decreases |inputs|
  {
    assert QueueInv(s);
    if inputs != [] {
      HarmlessTurn(c, s, inputs[0]);
      TurnKeepsQueue(c, s, inputs[0]);
      hide Harmless, Turn, QueueInv;
      if !inputs[0].outcome.EndRequested? {
        HarmlessRun(c, Turn(c, s, inputs[0]), inputs[1..]);
      }
    }
  }

  /** A whole task, with index writes that may fail at any time: all that is ever seen agrees with the queue if and only if
      the first index was not written, or the window is not bounded, or the slides are tolerable. */
  lemma TaskAgreesExactly(c: Config, startOk: bool, inputs: seq<Input>, endOk: bool)
    ensures QueueInv(Start(startOk))
    ensures AllShown(Task(c, startOk, inputs, endOk)) <==>
              || !startOk || c.numSegments <= 0
              || Tolerable(c.numSegments, SlidesOf(c, Start(startOk), inputs) + [endOk])
  {
    StartQueue(startOk);
    RunKeepsQueue(c, Start(startOk), inputs);
    if startOk && c.numSegments > 0 {
      StartCounted(c, startOk);
      RunCounted(c, Start(startOk), [], inputs);
      assert [] + SlidesOf(c, Start(startOk), inputs) == SlidesOf(c, Start(startOk), inputs);
      SlideCounted(c, RunFrom(c, Start(startOk), inputs), SlidesOf(c, Start(startOk), inputs), true, endOk);
    } else {
      HarmlessStart(c, startOk);
      HarmlessRun(c, Start(startOk), inputs);
      HarmlessSlide(c, RunFrom(c, Start(startOk), inputs), true, endOk);
    }
  }

  lemma HarmlessStart(c: Config, ok: bool)
    requires !ok || c.numSegments <= 0
    ensures Harmless(c, Start(ok))
  {
    StartViews(ok);
    hide Start, AllShown, QueueInv;
  }
}
