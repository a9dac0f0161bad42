/** The growing byte buffers of a connection: what is received and not yet used, and what is still to be sent. */
module IoBuffer {
  import opened Words

  /** The largest length whose 1.2-fold still fits a C int. */
  const MaxLength := 0x7FFF_FFFF * 10 / 12

  /** What one receive or one file read is asked for at most: IOBUF_SIZE. */
  const IoBufSize := 8192

  class IoBuf {
    var buf: array<Byte>
    var len: nat

    ghost predicate Valid()
      reads this
    {
      len <= buf.Length
    }

    function Contents(): seq<Byte>
      requires Valid()
      reads this, buf
    {
      buf[..len]
    }

    constructor ()
      ensures Valid() && Contents() == [] && fresh(buf)
    {
      buf := new Byte[0];
      len := 0;
    }

    /** spool: append, growing the memory by a fifth when the new length reaches the capacity. Memory that an int
        cannot measure is not to be had: then nothing is appended. */
    method Spool(data: seq<Byte>) returns (n: nat)
      requires Valid()
      modifies this, buf
      ensures Valid() && (buf == old(buf) || fresh(buf))
      ensures n == |data| || (n == 0 && old(len) + |data| > MaxLength)
      ensures Contents() == old(Contents()) + data[..n]
      ensures var size := old(len) + |data|;
              buf.Length == if n == 0 || size < old(buf.Length) then old(buf.Length) else size * 12 / 10
    {
      n := |data|;
      if n > 0 {
        var newLen := len + n;
        if newLen >= buf.Length {
          if newLen > MaxLength {
            return 0;
          }
          var kept := buf[..len];
          buf := new Byte[newLen * 12 / 10](k => if 0 <= k < |kept| then kept[k] else 0);
        }
        forall k | 0 <= k < n {
          buf[len + k] := data[k];
        }
        len := newLen;
      }
    }

    /** The memmove that takes the first `n` bytes out. */
    method Drop(n: nat)
      requires Valid() && n <= len
      modifies this, buf
      ensures Valid() && buf == old(buf) && Contents() == old(Contents())[n..]
    {
      forall k | 0 <= k < len - n {
        buf[k] := buf[k + n];
      }
      len := len - n;
    }
  }
}
