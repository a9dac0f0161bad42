/** The list of segments and the published index at its head: the queue functions of istb_m3u8.c. */
module SegmentQueue {
  import opened Words
  import opened IndexFiles
  import opened LinkedList
  import opened SegmentBuffer

  datatype File = File(name: string, contents: seq<Byte>)

  function Names(files: seq<File>): seq<string> {
    seq(|files|, k requires 0 <= k < |files| => files[k].name)
  }

  ghost predicate IsFile(b: Buffer, f: File)
    reads b, b.buf
  {
    b.Valid() && b.name == f.name && b.Contents() == f.contents
  }

  /** The buffers, with their arrays, hold these files. */
  ghost predicate Hold(buffers: seq<Buffer>, arrays: seq<array<Byte>>, files: seq<File>)
    reads buffers, arrays
  {
    && |files| == |arrays| == |buffers|
    && forall k :: 0 <= k < |buffers| ==> buffers[k].buf == arrays[k] && IsFile(buffers[k], files[k])
  }

  /** No two of them are the same. */
  ghost predicate Apart(buffers: seq<Buffer>, arrays: seq<array<Byte>>) {
    && (forall j, k :: 0 <= j < k < |buffers| ==> buffers[j] != buffers[k])
    && forall j, k :: 0 <= j < k < |arrays| ==> arrays[j] != arrays[k]
  }

  lemma OneMore(buffers: seq<Buffer>, arrays: seq<array<Byte>>, files: seq<File>, b: Buffer)
    requires Hold(buffers, arrays, files) && Apart(buffers, arrays)
    requires b.Valid() && b !in buffers && b.buf !in arrays
    ensures Hold(buffers + [b], arrays + [b.buf], files + [File(b.name, b.Contents())])
    ensures Apart(buffers + [b], arrays + [b.buf])
  {
    assert IsFile(b, File(b.name, b.Contents()));
  }

  lemma OneLess(buffers: seq<Buffer>, arrays: seq<array<Byte>>, files: seq<File>)
    requires Hold(buffers, arrays, files) && Apart(buffers, arrays) && buffers != []
    ensures files != [] && arrays != []
    ensures Hold(buffers[1..], arrays[1..], files[1..]) && Apart(buffers[1..], arrays[1..])
  {
  }

  /** The entries of a list have these buffers. */
  ghost predicate Entries(nodes: seq<Node>, data: map<Node, Buffer>, buffers: seq<Buffer>) {
    && |buffers| == |nodes|
    && forall k :: 0 <= k < |nodes| ==> nodes[k] in data && data[nodes[k]] == buffers[k]
  }

  lemma EntryAdded(nodes: seq<Node>, data: map<Node, Buffer>, buffers: seq<Buffer>, n: Node, b: Buffer)
    requires Entries(nodes, data, buffers) && n !in nodes
    ensures Entries(nodes + [n], data[n := b], buffers + [b])
  {
  }

  lemma EntryGone(head: Node, nodes: seq<Node>, data: map<Node, Buffer>, buffers: seq<Buffer>)
    requires Entries(nodes, data, buffers) && nodes != [] && Distinct(head, nodes)
    ensures Entries(Without(nodes, 0), data - {nodes[0]}, buffers[1..])
  {
  }

  /** A write to the last of the buffers. */
  method GrowLast(ghost buffers: seq<Buffer>, ghost arrays: seq<array<Byte>>, ghost files: seq<File>, b: Buffer,
                  bytes: seq<Byte>)
    requires Hold(buffers, arrays, files) && Apart(buffers, arrays) && buffers != [] && b == buffers[|buffers| - 1]
    modifies b, b.buf
    ensures b.Valid() && (b.buf == old(b.buf) || fresh(b.buf)) && |files| == |arrays| == |buffers|
    ensures var n := |buffers| - 1;
            && Hold(buffers, arrays[n := b.buf], files[n := files[n].(contents := files[n].contents + bytes)])
            && Apart(buffers, arrays[n := b.buf])
  {
    ghost var n := |files| - 1;
    assert IsFile(b, files[n]) && b.buf == arrays[n];
    var len := b.Write(bytes);
    forall k | 0 <= k < n
      ensures IsFile(buffers[k], files[k])
    {
      assert old(IsFile(buffers[k], files[k]));
    }
  }

  class Queue {
    const list: List
    /** The `m3u8data` of the entry around a link. */
    var data: map<Node, Buffer>
    /** The `m3u8data` of the queue head. */
    var index: Buffer?
    ghost var buffers: seq<Buffer>
    ghost var arrays: seq<array<Byte>>
    /** What the buffers hold, from the oldest segment on. */
    ghost var files: seq<File>
    /** The published index. */
    ghost var text: seq<Byte>

    ghost predicate Chained()
      reads `data, `buffers, list, list.head, list.nodes
    {
      list.Valid() && Entries(list.nodes, data, buffers)
    }

    ghost predicate Filled()
      reads `buffers, `arrays, `files, buffers, arrays
    {
      Hold(buffers, arrays, files) && Apart(buffers, arrays)
    }

    ghost predicate Indexed()
      reads `index, `text, `buffers, `arrays, index, if index == null then {} else {index.buf}
    {
      index != null ==> index.Valid() && index.Contents() == text && index !in buffers && index.buf !in arrays
    }

    ghost predicate Valid()
      reads this, list, list.head, list.nodes, buffers, arrays, index, if index == null then {} else {index.buf}
    {
      Chained() && Filled() && Indexed()
    }

    /** istb_m3u8_queue_init */
    constructor ()
      ensures Valid() && files == [] && buffers == [] && index == null && fresh(list) && fresh(list.head)
    {
      list := new List();
      data, index := map[], null;
      buffers, arrays, files, text := [], [], [], [];
    }

    /** istb_m3u8_queue_add: a new entry at the tail. */
    method Add(b: Buffer)
      requires Valid() && b.Valid() && b !in buffers && b.buf !in arrays
      requires index != null ==> index != b && index.buf != b.buf
      modifies `data, `buffers, `arrays, `files, list, list.head, list.nodes
      ensures Valid()
      ensures buffers == old(buffers) + [b] && arrays == old(arrays) + [b.buf]
      ensures files == old(files) + [File(b.name, b.Contents())]
      ensures forall n :: n in list.nodes ==> n in old(list.nodes) || fresh(n)
    {
      ghost var bs, arrs, fs := buffers + [b], arrays + [b.buf], files + [File(b.name, b.Contents())];
      assert Hold(bs, arrs, fs) && Apart(bs, arrs) && (index != null ==> index !in bs && index.buf !in arrs) by {
        OneMore(buffers, arrays, files, b);
      }
      hide *;
      Link(b);
      buffers, arrays, files := bs, arrs, fs;
      assert Hold(bs, arrs, fs);
    }

    method Link(b: Buffer)
      requires Chained()
      modifies `data, list, list.head, list.nodes
      ensures list.Valid() && Entries(list.nodes, data, buffers + [b])
      ensures forall n :: n in list.nodes ==> n in old(list.nodes) || fresh(n)
    {
      hide IsRing, Entries;
      var node := new Node();
      list.EndsInRing();
      EntryAdded(list.nodes, data, buffers, node, b);
      list.AddToTail(node);
      data := data[node := b];
    }

    /** istb_m3u8_queue_remove: the entry of the first link goes, with its buffer. */
    method Remove()
      requires Valid() && files != []
      modifies `data, `buffers, `arrays, `files, list, list.head, list.nodes
      ensures Valid()
      ensures buffers == old(buffers)[1..] && arrays == old(arrays)[1..] && files == old(files)[1..]
      ensures forall n :: n in list.nodes ==> n in old(list.nodes)
    {
      ghost var bs, arrs, fs := buffers[1..], arrays[1..], files[1..];
      assert buffers != [] && Hold(bs, arrs, fs) && Apart(bs, arrs)
             && (index != null ==> index !in bs && index.buf !in arrs) by {
        OneLess(buffers, arrays, files);
      }
      hide *;
      Unlink();
      buffers, arrays, files := bs, arrs, fs;
      assert Hold(bs, arrs, fs);
    }

    method Unlink()
      requires Chained() && buffers != []
      modifies `data, list, list.head, list.nodes
      ensures list.Valid() && Entries(list.nodes, data, buffers[1..])
      ensures forall n :: n in list.nodes ==> n in old(list.nodes)
    {
      FirstEntry();
      var node := list.head.next;
      hide IsRing, Entries;
      list.LinksAround(0);
      EntryGone(list.head, list.nodes, data, buffers);
      list.Remove(node, 0);
      data := data - {node};
    }

    lemma FirstEntry()
      requires Chained() && buffers != []
      ensures list.nodes != [] && list.head.next == list.nodes[0] && Distinct(list.head, list.nodes)
    {
      list.EndsInRing();
    }

    /** istb_m3u8_queue_head_update: the buffer of the last index goes. */
    method HeadUpdate(b: Buffer)
      requires Valid() && b.Valid() && b !in buffers && b.buf !in arrays
      modifies `index, `text
      ensures Valid() && index == b && text == b.Contents()
    {
      index, text := b, b.Contents();
    }

    /** istb_m3u8_buffer_write to the buffer of the newest entry, which the segmenter also holds. */
    method Append(b: Buffer, bytes: seq<Byte>)
      requires Valid() && buffers != [] && b == buffers[|buffers| - 1]
      modifies `arrays, `files, b, b.buf
      ensures Valid() && (b.buf == old(b.buf) || fresh(b.buf))
      ensures var n := |buffers| - 1;
              && |old(files)| == |buffers|
              && files == old(files)[n := old(files)[n].(contents := old(files)[n].contents + bytes)]
    {
      ghost var n := |files| - 1;
      ghost var grown := files[n := files[n].(contents := files[n].contents + bytes)];
      LastIsOwn(n);
      hide List.Valid, IsRing, Entries, Hold, IsFile, Buffer.Valid, Buffer.Contents, Apart;
      GrowLast(buffers, arrays, files, b, bytes);
      if index != null {
        NotIn(arrays, n, b.buf, index.buf);
      }
      SetFiles(arrays[n := b.buf], grown);
    }

    /** The buffers hold other files, in other memory. */
    ghost method SetFiles(arrs: seq<array<Byte>>, grown: seq<File>)
      requires Chained() && Hold(buffers, arrs, grown) && Apart(buffers, arrs)
      requires index != null ==> index.Valid() && index.Contents() == text && index !in buffers && index.buf !in arrs
      modifies `arrays, `files
      ensures Valid() && arrays == arrs && files == grown
    {
      hide List.Valid, IsRing, Entries, Hold, Apart, Buffer.Valid, Buffer.Contents;
      arrays, files := arrs, grown;
    }

    lemma NotIn<T>(s: seq<T>, n: nat, x: T, y: T)
      requires n < |s| && y !in s && y != x
      ensures y !in s[n := x]
    {
    }

    lemma LastIsOwn(n: nat)
      requires Valid() && n == |buffers| - 1
      ensures |files| == |arrays| == |buffers| && buffers[n].buf == arrays[n]
      ensures index != null ==> index != buffers[n] && index.buf != buffers[n].buf
    {
    }

    /** istb_m3u8_api_open: the head's index, or the first entry whose name begins with the request; `len` is what its
        file then holds. Only the characters of the request are compared. The request has a dot, with fewer than 32
        characters behind it: strrchr's answer is not checked, and the suffix is copied to an array of 32. The index is
        there when it is asked for. */
    method Open(request: string) returns (fifo: Buffer?, len: nat, ghost r: Opened)
      requires Valid() && '.' in request && |Suffix(request)| < 32
      requires "m3u8" <= Suffix(request) ==> index != null
      ensures IsAnswer(Names(files), request, r) && (fifo == null <==> r.Missing?)
      ensures r.Head? ==> fifo == index && fifo.Valid() && fifo.Contents() == text
      ensures r.Segment? ==> r.k < |files| && IsFile(fifo, files[r.k])
      ensures fifo != null ==> len == |fifo.Contents()|
    {
      var suffix := Suffix(request);
      if "m3u8" <= suffix {
        return index, index.writePtr, Head;
      }
      list.EndsInRing();
      hide IsRing;
      ghost var k := 0;
      var n := list.head.next;
      var tmp := n.next;
      while n != list.head
        invariant k <= |list.nodes| && n == At(list.head, list.nodes, k + 1) && tmp == n.next
        invariant forall j :: 0 <= j < k ==> !(request <= files[j].name)
        decreases |list.nodes| - k
      {
        list.LinksAround(k);
        assert IsFile(buffers[k], files[k]);
        if request <= data[n].name {
          return data[n], data[n].writePtr, Segment(k);
        }
        n := tmp;
        tmp := n.next;
        k := k + 1;
      }
      list.NotHead(k);
      return null, 0, Missing;
    }
  }
}
