/** What the segmenter writes: segments into the list of buffers, and the index into the buffer at its head. */
module SegmentOutput {
  import opened Words
  import opened Common
  import opened HlsWindow
  import opened PlaylistText
  import opened SegmentBuffer
  import opened SegmentQueue
  import IndexFiles

  /** What the muxer makes of a packet, behind the packets before it in the segment. */
  type Muxer = (seq<Packet>, Packet) -> seq<Byte>

  function Muxed(mux: Muxer, packets: seq<Packet>): seq<Byte> {
    if packets == [] then []
    else Muxed(mux, packets[..|packets| - 1]) + mux(packets[..|packets| - 1], packets[|packets| - 1])
  }

  lemma MuxedNext(mux: Muxer, packets: seq<Packet>, p: Packet)
    ensures Muxed(mux, packets + [p]) == Muxed(mux, packets) + mux(packets, p)
  {
    assert (packets + [p])[..|packets|] == packets;
  }

  function FileOf(o: Options, mux: Muxer, s: Segment): File {
    File(Name(o.outputPrefix, s.index), Muxed(mux, s.packets))
  }

  /** The files of the segments in the queue. */
  function FilesOf(o: Options, mux: Muxer, queue: seq<Segment>): seq<File> {
    seq(|queue|, k requires 0 <= k < |queue| => FileOf(o, mux, queue[k]))
  }

  lemma FilesNext(o: Options, mux: Muxer, queue: seq<Segment>, index: nat)
    ensures FilesOf(o, mux, queue + [Segment(index, [])])
         == FilesOf(o, mux, queue) + [File(Name(o.outputPrefix, index), [])]
  {
  }

  lemma FilesFewer(o: Options, mux: Muxer, queue: seq<Segment>)
    requires queue != []
    ensures FilesOf(o, mux, queue) != [] && FilesOf(o, mux, queue[1..]) == FilesOf(o, mux, queue)[1..]
  {
  }

  lemma FilesGrow(o: Options, mux: Muxer, queue: seq<Segment>, p: Packet)
    requires queue != []
    ensures |FilesOf(o, mux, queue)| == |queue|
    ensures var n, files := |queue| - 1, FilesOf(o, mux, queue);
            FilesOf(o, mux, queue[n := queue[n].(packets := queue[n].packets + [p])])
            == files[n := files[n].(contents := files[n].contents + mux(queue[n].packets, p))]
  {
    var n, files := |queue| - 1, FilesOf(o, mux, queue);
    var grown := queue[n].(packets := queue[n].packets + [p]);
    assert FileOf(o, mux, grown) == files[n].(contents := files[n].contents + mux(queue[n].packets, p)) by {
      MuxedNext(mux, queue[n].packets, p);
    }
    hide FileOf, Muxed;
  }

  /** The index buffer, with this text, is that of the playlist. */
  predicate IsIndex(o: Options, index: Buffer?, text: seq<Byte>, playlist: Option<Playlist>) {
    match playlist
    case None => index == null
    case Some(p) => index != null && text == Encode(Text(AllLines(o, p.first, p.last, p.end)))
  }

  /** The locals of istb_m3u8_task that lead to the output. */
  class Output {
    const o: Options
    const mux: Muxer
    /** What `queue_head` points to. */
    const files: Queue
    /** `m3u8_segment_buf` */
    var current: Buffer?
    /** The muxer's context: the packets since its header. */
    var muxed: seq<Packet>
    ghost var queue: seq<Segment>
    ghost var playlist: Option<Playlist>

    /** The last segment of the queue is the one being written. */
    ghost predicate IsCurrent()
      reads `queue, `current, `muxed, files`buffers
    {
      && |files.buffers| == |queue|
      && (queue != [] ==> current == files.buffers[|queue| - 1] && muxed == queue[|queue| - 1].packets)
    }

    /** The list holds the segments of the queue, and the head the index with the playlist. */
    ghost predicate Valid()
      reads this, files, files.list, files.list.head, files.list.nodes, files.buffers, files.arrays
      reads files.index, if files.index == null then {} else {files.index.buf}
    {
      && o.Valid() && |o.outputPrefix| <= 113
      && files.Valid() && files.files == FilesOf(o, mux, queue) && IsCurrent()
      && IsIndex(o, files.index, files.text, playlist)
    }

    /** What is written to. */
    ghost function Footprint(): set<object>
      reads this, files, files.list, current
    {
      (set x: object | x in files.list.nodes) + {this, files, files.list, files.list.head}
      + if current == null then {} else {current as object, current.buf}
    }

    /** The options, with room in a buffer's 128 chars for a segment's name, and istb_m3u8_queue_init. */
    constructor (o: Options, mux: Muxer)
      requires o.Valid() && |o.outputPrefix| <= 113
      ensures this.o == o && this.mux == mux
      ensures Valid() && queue == [] && playlist == None && fresh(Footprint())
    {
      this.o, this.mux := o, mux;
      files := new Queue();
      current, muxed := null, [];
      queue, playlist := [], None;
    }

    /** write_index_file, and istb_m3u8_queue_head_update with its result; -1 when memory runs out. */
    method WriteIndexFile(first: nat, last: nat, end: bool, ok: bool) returns (res: int)
      requires Valid() && first < 0x1_0000_0000 && last < 0xFFFF_FFFF
      modifies Footprint()
      ensures Valid() && Footprint() == old(Footprint()) && queue == old(queue)
      ensures res == if ok then 0 else -1
      ensures playlist == if ok then Some(Playlist(first, last, end)) else old(playlist)
    {
      hide Queue.Valid, FilesOf, AllLines, Text;
      if !ok {
        return -1;
      }
      var tmp := IndexFiles.WriteIndexFile(o, first, last, end, "");
      files.HeadUpdate(tmp);
      playlist := Some(Playlist(first, last, end));
      res := 0;
    }

    /** istb_m3u8_queue_remove: the first segment goes. */
    method RemoveSegment()
      requires Valid() && queue != []
      modifies Footprint()
      ensures Valid() && Footprint() <= old(Footprint())
      ensures queue == old(queue)[1..] && playlist == old(playlist)
    {
      hide Queue.Valid, FilesOf, IsIndex;
      FilesFewer(o, mux, queue);
      files.Remove();
      queue := queue[1..];
    }

    /** The name fits its memory. */
    method NewBuffer(index: nat) returns (b: Buffer)
      requires o.Valid() && index < 0x1_0000_0000
      ensures fresh(b) && fresh(b.buf) && b.Valid() && b.name == Name(o.outputPrefix, index) && b.Contents() == []
    {
      PiecesFit(o, index);
      b := new Buffer(Snprintf(|o.outputPrefix| + 15, Name(o.outputPrefix, index)));
    }

    /** A new buffer, named by the number, goes to the tail of the list; the muxer begins again. */
    method AddSegment(index: nat)
      requires Valid() && index < 0x1_0000_0000
      modifies Footprint()
      ensures Valid() && forall x :: x in Footprint() ==> x in old(Footprint()) || fresh(x)
      ensures queue == old(queue) + [Segment(index, [])] && playlist == old(playlist)
    {
      hide Valid;
      AppendSegment(index);
    }

    method AppendSegment(index: nat)
      requires Valid() && index < 0x1_0000_0000
      modifies `queue, `current, `muxed, files, files.list, files.list.head, files.list.nodes
      ensures Valid() && queue == old(queue) + [Segment(index, [])]
      ensures current != null && fresh(current) && fresh(current.buf)
      ensures forall n :: n in files.list.nodes ==> n in old(files.list.nodes) || fresh(n)
    {
      hide Queue.Valid, FilesOf, IsIndex, Name;
      FilesNext(o, mux, queue, index);
      current := NewBuffer(index);
      files.Add(current);
      muxed := [];
      queue := queue + [Segment(index, [])];
    }

    /** av_interleaved_write_frame, into the buffer of the current segment. */
    method WriteFrame(p: Packet)
      requires Valid() && queue != []
      modifies Footprint()
      ensures Valid() && playlist == old(playlist)
      ensures forall x :: x in Footprint() ==> x in old(Footprint()) || fresh(x)
      ensures var n := |queue| - 1;
              |old(queue)| == |queue| && queue == old(queue)[n := old(queue)[n].(packets := old(queue)[n].packets + [p])]
    {
      hide Queue.Valid, FilesOf, IsIndex;
      ghost var n := |queue| - 1;
      FilesGrow(o, mux, queue, p);
      files.Append(current, mux(muxed, p));
      muxed := muxed + [p];
      queue := queue[n := queue[n].(packets := queue[n].packets + [p])];
    }
  }
}
