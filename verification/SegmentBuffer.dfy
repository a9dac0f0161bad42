/** The in-memory files of istb_m3u8.c: segments and the published index. */
module SegmentBuffer {
  import opened Words

  /** M3U8_SEGMENT_BUFFER_SIZE */
  const Chunk := 1024 * 1024 * 2

  /** Text as bytes. */
  function Encode(s: string): seq<Byte> {
    seq(|s|, i requires 0 <= i < |s| => s[i] as int % 256)
  }

  /** One byte for each character. */
  lemma EncodeIs(s: string)
    ensures |Encode(s)| == |s|
    ensures forall i :: 0 <= i < |s| && s[i] as int < 256 ==> Encode(s)[i] == s[i] as int
  {
  }

  lemma EncodeConcat(a: string, b: string)
    ensures Encode(a + b) == Encode(a) + Encode(b)
  {
  }

  class Buffer {
    const name: string
    var buf: array<Byte>
    var writePtr: nat
    var readPtr: int

    ghost predicate Valid()
      reads this
    {
      writePtr <= buf.Length
    }

    function Contents(): seq<Byte>
      requires Valid()
      reads this, buf
    {
      buf[..writePtr]
    }

    /** istb_m3u8_buffer_create */
    constructor (name: string)
      ensures Valid() && Contents() == [] && readPtr == 0 && this.name == name && fresh(buf) && buf.Length == 0x20_0000
    {
      this.name := name;
      buf := new Byte[Chunk](_ => 0);
      writePtr, readPtr := 0, 0;
    }

    /** istb_m3u8_buffer_write: append, growing the memory when it would be filled. */
    method Write(data: seq<Byte>) returns (len: nat)
      requires Valid()
      modifies this, buf
      ensures Valid() && (buf == old(buf) || fresh(buf))
      ensures Contents() == old(Contents()) + data && readPtr == old(readPtr) && len == |data|
      ensures buf.Length == if old(writePtr) + |data| < old(buf.Length) then old(buf.Length)
                            else old(buf.Length) + 0x20_0000 + if |data| < 0x20_0000 then 0 else |data|
    {
      len := |data|;
      if buf.Length <= writePtr + len {
        var kept := buf[..writePtr];
        var bufsize := buf.Length + if len < Chunk then Chunk else Chunk + len;
        buf := new Byte[bufsize](k => if 0 <= k < |kept| then kept[k] else 0);
      }
      forall k | 0 <= k < len {
        buf[writePtr + k] := data[k];
      }
      writePtr := writePtr + len;
    }

    /** istb_m3u8_buffer_read: up to `len` bytes from the read position. */
    method Read(len: nat) returns (data: seq<Byte>)
      requires Valid() && 0 <= readPtr <= writePtr
      modifies `readPtr
      ensures |data| == if old(readPtr) + len > writePtr then writePtr - old(readPtr) else len
      ensures data == Contents()[old(readPtr)..old(readPtr) + |data|] && readPtr == old(readPtr) + |data|
    {
      var readlen := len;
      if readPtr + readlen > writePtr {
        readlen := writePtr - readPtr;
      }
      data := buf[readPtr..readPtr + readlen];
      assert data == buf[..writePtr][readPtr..readPtr + readlen];
      readPtr := readPtr + readlen;
    }

    /** istb_m3u8_api_seek: the position is taken as it comes. */
    method Seek(offset: int)
      modifies `readPtr
      ensures readPtr == offset
    {
      readPtr := offset;
    }
  }
}
