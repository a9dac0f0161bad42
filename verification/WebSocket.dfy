/** WebSocket frames on the wire: sections 5.2 and 5.3 of RFC 6455. */
module WebSocketFrames {
  import opened Common
  import opened Words

  /** A frame as the handler sees it: first byte, `content_len`, unmasked content. */
  datatype Frame = Frame(wsbits: Byte, contentLen: int, content: seq<Byte>)

  datatype Header = Header(headerLen: nat, maskLen: nat, dataLen: int)

  /** A frame that was found at the start of a buffer, and the number of bytes it takes. */
  datatype Found = Found(frame: Frame, size: nat)

  const IntMax := 0x7FFF_FFFF

  /** Exclusive or of the low `k` bits. */
  function XorBits(a: nat, b: nat, k: nat): (x: nat)
    ensures x < Power2(k)
  {
    if k == 0 then 0 else (a + b) % 2 + 2 * XorBits(a / 2, b / 2, k - 1)
  }

  function Power2(k: nat): nat {
    if k == 0 then 1 else 2 * Power2(k - 1)
  }

  function Xor(a: Byte, b: Byte): Byte {
    assert Power2(8) == 256;
    XorBits(a, b, 8)
  }

  /** The exclusive or of C. */
  function BitwiseXor(x: bv8, y: bv8): bv8 { x ^ y }

  lemma OneBit(x: bv8, y: bv8)
    requires x <= 1 && y <= 1
    ensures (x ^ y) as int == (x as int + y as int) % 2
  {
  }

  lemma LowBit(x: bv8)
    ensures (x & 1) as int == x as int % 2
  {
  }

  lemma HalfOf(x: bv8)
    ensures (x >> 1) as int == x as int / 2
  {
  }

  lemma NoBits(x: bv8, y: bv8)
    requires x as int == y as int == 0
    ensures BitwiseXor(x, y) as int == 0
  {
    assert x == 0 && y == 0;
  }

  lemma Halves(x: bv8) returns (low: bv8, half: bv8)
    ensures low == x & 1 && half == x >> 1
    ensures x as int == low as int + 2 * (half as int) && low as int <= 1
  {
    LowBit(x);
    HalfOf(x);
    low, half := x & 1, x >> 1;
  }

  lemma HalvesXor(x: bv8, y: bv8)
    ensures (x ^ y) & 1 == (x & 1) ^ (y & 1) && (x ^ y) >> 1 == BitwiseXor(x >> 1, y >> 1)
  {
  }

  lemma Shifted(x: bv8, y: bv8) returns (lowX: nat, halfX: bv8, lowY: nat, halfY: bv8)
    ensures x as int == lowX + 2 * (halfX as int) && y as int == lowY + 2 * (halfY as int) && lowX <= 1 && lowY <= 1
    ensures BitwiseXor(x, y) as int == (lowX + lowY) % 2 + 2 * (BitwiseXor(halfX, halfY) as int)
  {
    var l, m, n;
    l, halfX := Halves(x);
    m, halfY := Halves(y);
    var half;
    n, half := Halves(x ^ y);
    HalvesXor(x, y);
    OneBit(l, m);
    lowX, lowY := l as int, m as int;
  }

  /** One bit of `XorBits`, given the numbers as low bit and half. */
  lemma XorBitsStep(x: nat, y: nat, k: nat, lowX: nat, halfX: nat, lowY: nat, halfY: nat)
    requires 0 < k && x == lowX + 2 * halfX && y == lowY + 2 * halfY && lowX <= 1 && lowY <= 1
    requires x < Power2(k) && y < Power2(k)
    ensures XorBits(x, y, k) == (lowX + lowY) % 2 + 2 * XorBits(halfX, halfY, k - 1)
    ensures halfX < Power2(k - 1) && halfY < Power2(k - 1)
  {
    assert x / 2 == halfX && y / 2 == halfY;
    assert (x + y) % 2 == (lowX + lowY) % 2;
  }

  lemma {:induction false} XorBitsAre(x: bv8, y: bv8, k: nat)
    requires x as int < Power2(k) && y as int < Power2(k)
    ensures XorBits(x as int, y as int, k) == BitwiseXor(x, y) as int
  {
    hide BitwiseXor;
    if k == 0 {
      NoBits(x, y);
    } else {
      hide XorBits, Power2;
      var lowX, halfX, lowY, halfY := Shifted(x, y);
      XorBitsStep(x as int, y as int, k, lowX, halfX as int, lowY, halfY as int);
      XorBitsAre(halfX, halfY, k - 1);
    }
  }

  /** It is the bitwise exclusive or of C. */
  lemma XorIs(a: Byte, b: Byte)
    ensures Xor(a, b) == ((a as bv8) ^ (b as bv8)) as int
  {
    BitsAre(a);
    BitsAre(b);
    XorOf(Bits(a), Bits(b));
  }

  lemma XorOf(x: bv8, y: bv8)
    ensures Xor(x as int, y as int) == (x ^ y) as int
  {
    assert Power2(8) == 256;
    XorBitsAre(x, y, 8);
  }

  /** Masking twice is not masking at all. */
  lemma XorTwice(a: Byte, b: Byte)
    ensures Xor(Xor(a, b), b) == a
  {
    BitsAre(a);
    BitsAre(b);
    hide Xor, Bits;
    var x, y := Bits(a), Bits(b);
    XorOf(x, y);
    XorOf(x ^ y, y);
    assert (x ^ y) ^ y == x;
  }

  /** The number that `s` spells, most significant byte first. */
  function Number(s: seq<Byte>): nat {
    if s == [] then 0 else 256 * Number(s[..|s| - 1]) + s[|s| - 1]
  }

  /** `n` in `k` bytes, most significant byte first. */
  function NumberBytes(n: nat, k: nat): (s: seq<Byte>)
    ensures |s| == k
  {
    if k == 0 then [] else NumberBytes(n / 256, k - 1) + [n % 256]
  }

  function Power256(k: nat): nat {
    if k == 0 then 1 else 256 * Power256(k - 1)
  }

  lemma {:induction false} NumberOfBytes(n: nat, k: nat)
    requires n < Power256(k)
    ensures Number(NumberBytes(n, k)) == n
  {
    if k > 0 {
      NumberOfBytes(n / 256, k - 1);
      assert NumberBytes(n, k)[..k - 1] == NumberBytes(n / 256, k - 1);
    }
  }

  // Reading, as the standard defines it.

  function RfcHeader(buf: seq<Byte>): Option<Header> {
    if |buf| < 2 then None
    else
      var len7, maskLen := buf[1] % 128, if buf[1] >= 128 then 4 else 0;
      var extended := if len7 == 126 then 2 else if len7 == 127 then 8 else 0;
      if |buf| < 2 + extended + maskLen then None
      else Some(Header(2 + extended + maskLen, maskLen, if extended == 0 then len7 else Number(buf[2..2 + extended])))
  }

  function ContentByte(buf: seq<Byte>, h: Header, i: nat): Byte
    requires h.maskLen == 0 || h.maskLen == 4
    requires h.maskLen <= h.headerLen && h.headerLen + i < |buf|
  {
    if h.maskLen == 0 then buf[h.headerLen + i] else Xor(buf[h.headerLen + i], buf[h.headerLen - 4 + i % 4])
  }

  function Content(buf: seq<Byte>, h: Header): seq<Byte>
    requires h.maskLen == 0 || h.maskLen == 4
    requires h.maskLen <= h.headerLen && h.headerLen + h.dataLen <= |buf|
  {
    if h.dataLen <= 0 then []
    else seq(h.dataLen, i requires 0 <= i < h.dataLen => ContentByte(buf, h, i))
  }

  function RfcFrame(buf: seq<Byte>): Option<Found> {
    match RfcHeader(buf)
    case None => None
    case Some(h) =>
      if |buf| < h.headerLen + h.dataLen then None
      else Some(Found(Frame(buf[0], h.dataLen, Content(buf, h)), h.headerLen + h.dataLen))
  }

  // Reading, with the arithmetic of deliver_websocket_frame.

  /** Conversion to a 32-bit signed int. */
  function ToInt(n: int): int {
    (n + 0x8000_0000) % 0x1_0000_0000 - 0x8000_0000
  }

  lemma WrapsToInt(n: int)
    ensures -0x8000_0000 <= ToInt(n) <= 0x7FFF_FFFF && (n - ToInt(n)) % 0x1_0000_0000 == 0
  {
  }

  function CodeHeader(buf: seq<Byte>): (h: Header)
    ensures h.maskLen == 0 || h.maskLen == 4
    ensures h.headerLen == 0 || h.maskLen < h.headerLen <= 14
  {
    if |buf| < 2 then Header(0, 0, 0)
    else
      var len, maskLen := buf[1] % 128, if buf[1] >= 128 then 4 else 0;
      if len < 126 && |buf| >= maskLen then Header(2 + maskLen, maskLen, len)
      else if len == 126 && |buf| >= 4 + maskLen then Header(4 + maskLen, maskLen, 256 * (buf[2] as int) + buf[3])
      else if |buf| >= 10 + maskLen then Header(10 + maskLen, maskLen, ToInt(Number(buf[6..10])))
      else Header(0, maskLen, 0)
  }

  function CodeFrameLen(buf: seq<Byte>): int {
    var h := CodeHeader(buf);
    ToInt(h.headerLen + h.dataLen)
  }

  lemma CodeFrameLenExact(buf: seq<Byte>)
    requires CodeFrameLen(buf) > 0
    ensures var h := CodeHeader(buf); CodeFrameLen(buf) == h.headerLen + h.dataLen && h.headerLen > 0 && |buf| >= 2
  {
  }

  function CodeFrame(buf: seq<Byte>): (found: Option<Found>)
    ensures found.Some? ==> 0 < found.value.size <= |buf|
  {
    var h, frameLen := CodeHeader(buf), CodeFrameLen(buf);
    if 0 < frameLen <= |buf| then
      CodeFrameLenExact(buf);
      Some(Found(Frame(buf[0], h.dataLen, Content(buf, h)), frameLen))
    else None
  }

  lemma NumberOf2(s: seq<Byte>)
    requires |s| == 2
    ensures Number(s) == 256 * (s[0] as int) + s[1]
  {
    assert s[..1][..0] == [];
    assert Number(s[..1]) == s[0];
  }

  lemma Shift(a: nat, b: nat)
    ensures 256 * (a * b) == a * (256 * b)
  {
  }

  /** The low word of a 64-bit length. */
  lemma {:induction false} LowWordOf(s: seq<Byte>, k: nat)
    requires k <= |s|
    ensures Number(s) == Number(s[..|s| - k]) * Power256(k) + Number(s[|s| - k..])
    decreases k
  {
    if k == 0 {
      assert s[..|s|] == s;
    } else {
      var p := s[..|s| - 1];
      LowWordOf(p, k - 1);
      assert p[..|p| - (k - 1)] == s[..|s| - k];
      assert s[|s| - k..][..k - 1] == p[|p| - (k - 1)..];
      Shift(Number(s[..|s| - k]), Power256(k - 1));
    }
  }

  /** The header announces a frame whose size fits a C int. */
  predicate Fits(buf: seq<Byte>) {
    RfcHeader(buf).Some? ==> RfcHeader(buf).value.headerLen + RfcHeader(buf).value.dataLen <= IntMax
  }

  lemma HeaderAgrees(buf: seq<Byte>)
    requires RfcHeader(buf).Some? && Fits(buf)
    ensures CodeHeader(buf) == RfcHeader(buf).value
  {
    var len := buf[1] % 128;
    if len == 126 {
      NumberOf2(buf[2..4]);
    } else if len == 127 {
      var s := buf[2..10];
      LowWordOf(s, 4);
      assert s[4..] == buf[6..10];
      assert Power256(4) == 0x1_0000_0000;
    }
  }

  lemma CodeAgrees(buf: seq<Byte>)
    requires Fits(buf) && |buf| <= IntMax
    ensures CodeFrame(buf) == RfcFrame(buf)
  {
    if RfcHeader(buf).Some? {
      HeaderAgrees(buf);
    }
  }

  lemma RfcHeaderStable(buf: seq<Byte>, ext: seq<Byte>)
    requires RfcHeader(buf).Some?
    ensures RfcHeader(buf + ext) == RfcHeader(buf)
  {
    var h := RfcHeader(buf).value;
    var extended := h.headerLen - h.maskLen - 2;
    assert (buf + ext)[2..2 + extended] == buf[2..2 + extended];
  }

  lemma CodeHeaderStable(buf: seq<Byte>, ext: seq<Byte>)
    requires RfcHeader(buf).Some?
    ensures CodeHeader(buf + ext) == CodeHeader(buf)
  {
    if |buf| >= 10 {
      assert (buf + ext)[6..10] == buf[6..10];
    }
  }

  /** Once a header is complete, the code reads the frame as the standard does however many bytes follow, exactly
      when the announced size fits an int or the wrapped size is not positive (the code then waits for ever, as no
      int-sized buffer can hold the frame). */
  lemma AgreesForEver(buf: seq<Byte>)
    requires RfcHeader(buf).Some? && |buf| <= IntMax
    ensures (forall ext: seq<Byte> :: |buf + ext| <= IntMax ==> CodeFrame(buf + ext) == RfcFrame(buf + ext))
       <==> Fits(buf) || CodeFrameLen(buf) <= 0
  {
    if Fits(buf) || CodeFrameLen(buf) <= 0 {
      forall ext: seq<Byte> | |buf + ext| <= IntMax
        ensures CodeFrame(buf + ext) == RfcFrame(buf + ext)
      {
        RfcHeaderStable(buf, ext);
        CodeHeaderStable(buf, ext);
        if Fits(buf) {
          CodeAgrees(buf + ext);
        }
      }
    } else {
      var n := CodeFrameLen(buf);
      var ext: seq<Byte> := seq(if n > |buf| then n - |buf| else 0, _ => 0);
      RfcHeaderStable(buf, ext);
      CodeHeaderStable(buf, ext);
      assert CodeFrame(buf + ext).Some? && RfcFrame(buf + ext).None?;
    }
  }

  /** A 64-bit length of 2^32 + 5: the code sees a frame of 15 bytes. */
  lemma HighWordIgnored()
    ensures var buf := [0x82, 127, 0, 0, 0, 1, 0, 0, 0, 5, 1, 2, 3, 4, 5];
            RfcFrame(buf).None? && CodeFrame(buf) == Some(Found(Frame(0x82, 5, [1, 2, 3, 4, 5]), 15))
  {
    var buf := [0x82, 127, 0, 0, 0, 1, 0, 0, 0, 5, 1, 2, 3, 4, 5];
    var high, low := [0, 0, 0, 1], [0, 0, 0, 5];
    NumberOf4(low);
    NumberOf4(high);
    LowWordOf(high + low, 4);
    assert (high + low)[..4] == high && (high + low)[4..] == low;
    assert Power256(4) == 0x1_0000_0000;
    hide Number, Power256;
    assert buf[6..10] == low;
    assert buf[2..10] == high + low;
    assert CodeHeader(buf) == Header(10, 0, 5);
    assert Content(buf, Header(10, 0, 5)) == [1, 2, 3, 4, 5];
  }

  /** A 64-bit length of 2^32 - 1: the code sees a frame of 9 bytes with content of length -1. */
  lemma NegativeLength()
    ensures CodeFrame([0x82, 127, 0, 0, 0, 0, 255, 255, 255, 255]) == Some(Found(Frame(0x82, -1, []), 9))
  {
    var buf := [0x82, 127, 0, 0, 0, 0, 255, 255, 255, 255];
    NumberOf4([255, 255, 255, 255]);
    assert buf[6..10] == [255, 255, 255, 255];
    hide Number;
    assert CodeHeader(buf) == Header(10, 0, -1);
  }

  const Hello: seq<Byte> := [0x48, 0x65, 0x6c, 0x6c, 0x6f]

  // The examples of section 5.7 of RFC 6455.

  lemma UnmaskedHello()
    ensures CodeFrame([0x81, 0x05, 0x48, 0x65, 0x6c, 0x6c, 0x6f]) == Some(Found(Frame(0x81, 5, Hello), 7))
  {
    assert Content([0x81, 0x05, 0x48, 0x65, 0x6c, 0x6c, 0x6f], Header(2, 0, 5)) == Hello;
  }

  lemma MaskedHello()
    ensures CodeFrame([0x81, 0x85, 0x37, 0xfa, 0x21, 0x3d, 0x7f, 0x9f, 0x4d, 0x51, 0x58])
         == Some(Found(Frame(0x81, 5, Hello), 11))
  {
    hide Xor;
    HelloBytes();
    var buf: seq<Byte> := [0x81, 0x85, 0x37, 0xfa, 0x21, 0x3d, 0x7f, 0x9f, 0x4d, 0x51, 0x58];
    var content := Content(buf, Header(6, 4, 5));
    assert |content| == 5 && content[0] == 0x48 && content[1] == 0x65 && content[2] == 0x6c && content[3] == 0x6c;
    assert content[4] == Xor(buf[10], buf[2]);
    assert content == Hello;
    assert CodeHeader(buf) == Header(6, 4, 5);
  }

  lemma HelloBytes()
    ensures Xor(0x7f, 0x37) == 0x48 && Xor(0x9f, 0xfa) == 0x65 && Xor(0x4d, 0x21) == 0x6c && Xor(0x51, 0x3d) == 0x6c
         && Xor(0x58, 0x37) == 0x6f
  {
    hide Xor;
    XorOf(0x7f, 0x37);
    XorOf(0x9f, 0xfa);
    XorOf(0x4d, 0x21);
    XorOf(0x51, 0x3d);
    XorOf(0x58, 0x37);
  }

  lemma LongExamples(data: seq<Byte>)
    ensures |data| == 256 ==> CodeFrame([0x82, 0x7E, 0x01, 0x00] + data) == Some(Found(Frame(0x82, 256, data), 260))
    ensures |data| == 65536 ==>
      CodeFrame([0x82, 0x7F, 0, 0, 0, 0, 0, 0x01, 0, 0] + data) == Some(Found(Frame(0x82, 65536, data), 65546))
  {
    if |data| == 256 {
      Behind([0x82, 0x7E, 0x01, 0x00], data, Header(4, 0, 256));
    } else if |data| == 65536 {
      var head: seq<Byte> := [0x82, 0x7F, 0, 0, 0, 0, 0, 0x01, 0, 0];
      Behind(head, data, Header(10, 0, 65536));
      NumberOf4([0, 1, 0, 0]);
      hide Number, Content;
      assert (head + data)[6..10] == [0, 1, 0, 0];
      assert CodeHeader(head + data) == Header(10, 0, 65536);
    }
  }

  /** Unmasked content is what follows the header. */
  lemma Behind(head: seq<Byte>, data: seq<Byte>, h: Header)
    requires h == Header(|head|, 0, |data|)
    ensures Content(head + data, h) == data
  {
  }

  lemma NumberOf4(s: seq<Byte>)
    requires |s| == 4
    ensures Number(s) == 0x100_0000 * (s[0] as int) + 0x1_0000 * (s[1] as int) + 0x100 * (s[2] as int) + s[3]
  {
    NumberOf2(s[..2]);
    assert s[..3][..2] == s[..2];
    assert Number(s[..3]) == 256 * Number(s[..2]) + s[2];
  }

  // The whole stream.

  datatype Progress = Progress(delivered: seq<Frame>, rest: seq<Byte>)

  /** What the deliver loop makes of a buffer. */
  function DeliverAll(buf: seq<Byte>): Progress
    decreases |buf|
  {
    match CodeFrame(buf)
    case None => Progress([], buf)
    case Some(found) =>
      var next := DeliverAll(buf[found.size..]);
      Progress([found.frame] + next.delivered, next.rest)
  }

  lemma CodeFrameStable(buf: seq<Byte>, ext: seq<Byte>)
    requires CodeFrame(buf).Some?
    ensures CodeFrame(buf + ext) == CodeFrame(buf)
  {
    CodeFrameLenExact(buf);
    var h := CodeHeader(buf);
    if h.dataLen < 0 {
      assert buf[1] % 128 == 127;
    }
    CodeHeaderStable(buf, ext);
    assert Content(buf + ext, h) == Content(buf, h);
  }

  /** Delivering what there is and then what comes is the same as delivering everything at the end. */
  lemma {:induction false} DeliverInParts(a: seq<Byte>, b: seq<Byte>)
    ensures var p := DeliverAll(a);
            var q := DeliverAll(p.rest + b);
            DeliverAll(a + b) == Progress(p.delivered + q.delivered, q.rest)
    decreases |a|
  {
    hide CodeFrame, DeliverAll;
    DeliverOnce(a);
    if CodeFrame(a).Some? {
      var found := CodeFrame(a).value;
      var tail := a[found.size..];
      CodeFrameStable(a, b);
      DeliverOnce(a + b);
      DeliverInParts(tail, b);
      CutBehind(a, b, found.size);
      var p, q := DeliverAll(tail), DeliverAll(DeliverAll(tail).rest + b);
      OneFirst(found.frame, p.delivered, q.delivered);
    } else {
      OneFirstNone(DeliverAll(a + b).delivered);
    }
  }

  lemma DeliverOnce(s: seq<Byte>)
    ensures match CodeFrame(s)
            case None => DeliverAll(s) == Progress([], s)
            case Some(found) =>
              && 0 < found.size <= |s|
              && var k := DeliverAll(s[found.size..]); DeliverAll(s) == Progress([found.frame] + k.delivered, k.rest)
  {
    hide CodeFrame;
  }

  lemma CutBehind(a: seq<Byte>, b: seq<Byte>, n: nat)
    requires n <= |a|
    ensures (a + b)[n..] == a[n..] + b
  {
  }

  lemma OneFirst<T>(x: T, a: seq<T>, b: seq<T>)
    ensures [x] + (a + b) == ([x] + a) + b
  {
  }

  lemma OneFirstNone<T>(a: seq<T>)
    ensures [] + a == a
  {
  }

  // Frames as a peer sends them.

  /** The three length encodings of section 5.2. */
  datatype Form = Short | Medium | Long

  datatype Wire = Wire(wsbits: Byte, form: Form, mask: Option<seq<Byte>>, payload: seq<Byte>) {
    predicate Valid() {
      && (mask.Some? ==> |mask.value| == 4)
      && match form
         case Short => |payload| < 126
         case Medium => |payload| < 0x1_0000
         case Long => |payload| < 0x8000_0000_0000_0000
    }

    /** The length bits of the second byte. */
    function LengthCode(): nat
      requires Valid()
    {
      match form
      case Short => |payload|
      case Medium => 126
      case Long => 127
    }

    function Extension(): seq<Byte> {
      match form
      case Short => []
      case Medium => NumberBytes(|payload|, 2)
      case Long => NumberBytes(|payload|, 8)
    }

    function HeaderBytes(): seq<Byte>
      requires Valid()
    {
      [wsbits, LengthCode() + if mask.Some? then 128 else 0] + Extension() + if mask.Some? then mask.value else []
    }

    function Bytes(): seq<Byte>
      requires Valid()
    {
      HeaderBytes()
        + if mask.None? then payload
          else seq(|payload|, i requires 0 <= i < |payload| => Xor(payload[i], mask.value[i % 4]))
    }

    /** What the handler should be given. */
    function Received(): Frame {
      Frame(wsbits, |payload|, payload)
    }
  }

  lemma WireHeader(w: Wire, rest: seq<Byte>)
    requires w.Valid()
    ensures var n := |w.HeaderBytes()|;
            RfcHeader(w.Bytes() + rest) == Some(Header(n, if w.mask.Some? then 4 else 0, |w.payload|))
  {
    hide NumberBytes, Number;
    var buf, e := w.Bytes() + rest, w.Extension();
    assert buf[0] == w.wsbits && buf[1] == w.LengthCode() + if w.mask.Some? then 128 else 0;
    assert buf[2..2 + |e|] == e;
    WireLength(w);
  }

  lemma WireLength(w: Wire)
    requires w.Valid()
    ensures w.form != Short ==> Number(w.Extension()) == |w.payload|
  {
    assert Power256(2) == 0x1_0000 && Power256(8) == 0x1_0000_0000_0000_0000;
    match w.form
    case Short =>
    case Medium => NumberOfBytes(|w.payload|, 2);
    case Long => NumberOfBytes(|w.payload|, 8);
  }

  lemma WireContent(w: Wire, rest: seq<Byte>, h: Header)
    requires w.Valid() && h == Header(|w.HeaderBytes()|, if w.mask.Some? then 4 else 0, |w.payload|)
    ensures Content(w.Bytes() + rest, h) == w.payload
  {
    var buf := w.Bytes() + rest;
    forall i | 0 <= i < |w.payload|
      ensures ContentByte(buf, h, i) == w.payload[i]
    {
      if w.mask.Some? {
        assert buf[h.headerLen - 4 + i % 4] == w.mask.value[i % 4];
        XorTwice(w.payload[i], w.mask.value[i % 4]);
      }
    }
  }

  /** A frame at the start of a buffer is read back, whatever its form and mask and whatever follows. */
  lemma WireRoundTrip(w: Wire, rest: seq<Byte>)
    requires w.Valid()
    ensures RfcFrame(w.Bytes() + rest) == Some(Found(w.Received(), |w.Bytes()|))
  {
    WireHeader(w, rest);
    WireContent(w, rest, RfcHeader(w.Bytes() + rest).value);
  }

  function Stream(ws: seq<Wire>): seq<Byte>
    requires forall w :: w in ws ==> w.Valid()
  {
    if ws == [] then [] else ws[0].Bytes() + Stream(ws[1..])
  }

  function AllReceived(ws: seq<Wire>): seq<Frame> {
    seq(|ws|, i requires 0 <= i < |ws| => ws[i].Received())
  }

  /** A stream of frames, followed by an incomplete one, yields exactly the payloads in order and keeps the rest. */
  lemma {:induction false} StreamDelivered(ws: seq<Wire>, tail: seq<Byte>)
    requires forall w :: w in ws ==> w.Valid() && |w.Bytes()| <= IntMax
    requires CodeFrame(tail).None?
    ensures DeliverAll(Stream(ws) + tail) == Progress(AllReceived(ws), tail)
  {
    hide CodeFrame, RfcFrame, Wire.Bytes;
    if ws == [] {
      assert Stream(ws) + tail == tail;
    } else {
      var w, rest := ws[0], Stream(ws[1..]) + tail;
      assert Stream(ws) + tail == w.Bytes() + rest;
      WireRoundTrip(w, rest);
      WireFits(w, rest);
      assert (w.Bytes() + rest)[|w.Bytes()|..] == rest;
      StreamDelivered(ws[1..], tail);
      assert AllReceived(ws) == [w.Received()] + AllReceived(ws[1..]);
    }
  }

  lemma WireFits(w: Wire, rest: seq<Byte>)
    requires w.Valid() && |w.Bytes()| <= IntMax
    ensures CodeFrame(w.Bytes() + rest) == RfcFrame(w.Bytes() + rest)
  {
    hide RfcHeader, CodeHeader, Wire.Bytes;
    WireHeader(w, rest);
    WireRoundTrip(w, rest);
    HeaderAgrees(w.Bytes() + rest);
  }
}

/** deliver_websocket_frame and mg_websocket_write of istb_mongoose.c. */
module WebSocket {
  import opened Common
  import opened Words
  import opened WebSocketFrames
  import opened IoBuffer

  /** From `d` delivered and `c` buffered the loop ends where it would end from `before` and `start`. */
  ghost predicate SameOutcome(before: seq<Frame>, start: seq<Byte>, d: seq<Frame>, c: seq<Byte>) {
    && DeliverAll(start).rest == DeliverAll(c).rest
    && before + DeliverAll(start).delivered == d + DeliverAll(c).delivered
  }

  lemma SameOutcomeStart(before: seq<Frame>, start: seq<Byte>)
    ensures SameOutcome(before, start, before, start)
  {
  }

  lemma SameOutcomeStep(before: seq<Frame>, start: seq<Byte>, d: seq<Frame>, c: seq<Byte>)
    requires SameOutcome(before, start, d, c)
    ensures CodeFrame(c).Some? ==>
              SameOutcome(before, start, d + [CodeFrame(c).value.frame], c[CodeFrame(c).value.size..])
  {
    hide CodeFrame;
    if CodeFrame(c).Some? {
      var f, next := CodeFrame(c).value.frame, DeliverAll(c[CodeFrame(c).value.size..]).delivered;
      assert d + ([f] + next) == d + [f] + next;
    }
  }

  lemma SameOutcomeEnd(before: seq<Frame>, start: seq<Byte>, d: seq<Frame>, c: seq<Byte>)
    requires SameOutcome(before, start, d, c) && CodeFrame(c).None?
    ensures d == before + DeliverAll(start).delivered && c == DeliverAll(start).rest
  {
    hide CodeFrame;
  }

  class Connection {
    /** `local_iobuf` */
    const io: IoBuf
    /** What the URI handler answers to a frame: nonzero ends the connection once everything is sent. */
    const handler: Frame -> bool
    /** The frames given to the handler so far. */
    var delivered: seq<Frame>
    /** The CONN_SPOOL_DONE flag. */
    var spoolDone: bool

    ghost predicate Valid()
      reads this, io
    {
      io.Valid() && io.len <= IntMax
    }

    constructor (handler: Frame -> bool)
      ensures Valid() && delivered == [] && !spoolDone && io.Contents() == []
      ensures fresh(io) && fresh(io.buf)
    {
      io := new IoBuf();
      this.handler := handler;
      delivered, spoolDone := [], false;
    }

    /** The header part: lengths as C ints, all zero while the header is incomplete. */
    method ReadHeader() returns (headerLen: nat, maskLen: nat, dataLen: int)
      requires Valid()
      ensures Header(headerLen, maskLen, dataLen) == CodeHeader(io.Contents())
    {
      headerLen, maskLen, dataLen := 0, 0, 0;
      var buf, bufLen := io.buf, io.len;
      ghost var contents := io.Contents();
      if bufLen >= 2 {
        var len := buf[1] % 128;
        maskLen := if buf[1] >= 128 then 4 else 0;
        if len < 126 && bufLen >= maskLen {
          dataLen, headerLen := len, 2 + maskLen;
        } else if len == 126 && bufLen >= 4 + maskLen {
          headerLen := 4 + maskLen;
          dataLen := 0x100 * (buf[2] as int) + buf[3];
        } else if bufLen >= 10 + maskLen {
          headerLen := 10 + maskLen;
          dataLen := ToInt(0x100_0000 * (buf[6] as int) + 0x1_0000 * (buf[7] as int) + 0x100 * (buf[8] as int) + buf[9]);
          NumberOf4(contents[6..10]);
        }
      }
    }

    /** The in-place unmasking loop; what is outside the content stays as it is. */
    method Unmask(headerLen: nat, maskLen: nat, dataLen: int)
      requires Valid() && maskLen == 4 && maskLen < headerLen && headerLen + dataLen <= io.len
      modifies io.buf
      ensures forall k :: 0 <= k < io.buf.Length && !(headerLen <= k < headerLen + dataLen) ==> io.buf[k] == old(io.buf[k])
      ensures forall k: nat :: k < dataLen ==>
                io.buf[headerLen + k] == ContentByte(old(io.Contents()), Header(headerLen, maskLen, dataLen), k)
    {
      var buf, i := io.buf, 0;
      ghost var h := Header(headerLen, maskLen, dataLen);
      while i < dataLen
        invariant 0 <= i && (i <= dataLen || i == 0)
        invariant forall k :: 0 <= k < buf.Length && !(headerLen <= k < headerLen + i) ==> buf[k] == old(buf[k])
        invariant forall k: nat :: k < i ==> buf[headerLen + k] == ContentByte(old(io.Contents()), h, k)
      {
        buf[i + headerLen] := Xor(buf[i + headerLen], buf[headerLen - maskLen + i % 4]);
        i := i + 1;
      }
    }

    /** The content that the handler is pointed to. */
    method TakeContent(headerLen: nat, maskLen: nat, dataLen: int) returns (content: seq<Byte>)
      requires Valid() && (maskLen == 0 || maskLen == 4) && maskLen < headerLen && 0 < headerLen + dataLen <= io.len
      modifies io.buf
      ensures content == Content(old(io.Contents()), Header(headerLen, maskLen, dataLen))
      ensures io.Contents()[headerLen + dataLen..] == old(io.Contents())[headerLen + dataLen..]
      ensures io.buf[0] == old(io.buf[0])
    {
      hide Xor;
      ghost var before, h := io.Contents(), Header(headerLen, maskLen, dataLen);
      if maskLen > 0 {
        Unmask(headerLen, maskLen, dataLen);
      }
      content := if dataLen > 0 then io.buf[headerLen..headerLen + dataLen] else [];
      assert forall k: nat :: k < dataLen ==> content[k] == ContentByte(before, h, k);
      assert forall k :: headerLen + dataLen <= k < io.len ==> io.Contents()[k] == before[k];
    }

    /** deliver_websocket_frame */
    method Deliver() returns (buffered: bool)
      requires Valid()
      modifies this, io, io.buf
      ensures Valid() && io.buf == old(io.buf)
      ensures match CodeFrame(old(io.Contents()))
              case None =>
                !buffered && io.Contents() == old(io.Contents()) && delivered == old(delivered)
                && spoolDone == old(spoolDone)
              case Some(found) =>
                && buffered && io.Contents() == old(io.Contents())[found.size..]
                && delivered == old(delivered) + [found.frame]
                && spoolDone == (old(spoolDone) || handler(found.frame))
    {
      var headerLen, maskLen, dataLen := ReadHeader();
      var frameLen := ToInt(headerLen + dataLen);
      buffered := 0 < frameLen <= io.len;
      if buffered {
        CodeFrameLenExact(io.Contents());
        var content := TakeContent(headerLen, maskLen, dataLen);
        var frame := Frame(io.buf[0], dataLen, content);
        delivered := delivered + [frame];
        if handler(frame) {
          spoolDone := true;
        }
        io.Drop(frameLen);
      }
    }

    /** The loop of call_uri_handler_if_data_is_buffered: deliver until no whole frame is left. */
    method DeliverLoop()
      requires Valid()
      modifies this, io, io.buf
      ensures Valid() && io.buf == old(io.buf)
      ensures var p := DeliverAll(old(io.Contents()));
              delivered == old(delivered) + p.delivered && io.Contents() == p.rest
    {
      hide CodeFrame, DeliverAll, SameOutcome;
      ghost var before, start := delivered, io.Contents();
      var buffered := true;
      SameOutcomeStart(before, start);
      while buffered
        invariant Valid() && io.buf == old(io.buf)
        invariant SameOutcome(before, start, delivered, io.Contents())
        invariant !buffered ==> CodeFrame(io.Contents()).None?
        decreases buffered, io.len
      {
        SameOutcomeStep(before, start, delivered, io.Contents());
        buffered := Deliver();
      }
      SameOutcomeEnd(before, start, delivered, io.Contents());
    }

    /** read_from_client on a WebSocket connection: spool what was received, then deliver. */
    method Receive(chunk: seq<Byte>)
      requires Valid() && io.len + |chunk| <= MaxLength
      modifies this, io, io.buf
      ensures Valid() && (io.buf == old(io.buf) || fresh(io.buf))
      ensures var p := DeliverAll(old(io.Contents()) + chunk);
              delivered == old(delivered) + p.delivered && io.Contents() == p.rest
    {
      hide DeliverAll;
      var n := io.Spool(chunk);
      assert chunk[..n] == chunk;
      DeliverLoop();
    }
  }

  /** However a byte stream is cut into received chunks, the handler is given the frames that reading the whole
      stream at once would give, and the same bytes are left over. */
  method ReceiveAll(handler: Frame -> bool, chunks: seq<seq<Byte>>) returns (delivered: seq<Frame>, rest: seq<Byte>)
    requires forall i :: 0 <= i < |chunks| ==> |DeliverAll(Concat(chunks[..i])).rest| + |chunks[i]| <= MaxLength
    ensures Progress(delivered, rest) == DeliverAll(Concat(chunks))
  {
    var conn := new Connection(handler);
    for i := 0 to |chunks|
      invariant conn.Valid() && fresh(conn) && fresh(conn.io) && fresh(conn.io.buf)
      invariant Progress(conn.delivered, conn.io.Contents()) == DeliverAll(Concat(chunks[..i]))
    {
      hide DeliverAll, CodeFrame, Concat;
      ConcatNext(chunks, i);
      DeliverInParts(Concat(chunks[..i]), chunks[i]);
      conn.Receive(chunks[i]);
    }
    assert chunks[..|chunks|] == chunks;
    delivered, rest := conn.delivered, conn.io.buf[..conn.io.len];
  }

  /** For a stream of frames of any form, masked or not, that means: the payloads, in order, each once. */
  lemma ChunkedFrames(ws: seq<Wire>, tail: seq<Byte>, chunks: seq<seq<Byte>>)
    requires forall w :: w in ws ==> w.Valid() && |w.Bytes()| <= IntMax
    requires RfcFrame(tail).None? && Fits(tail) && |tail| <= IntMax
    requires Concat(chunks) == Stream(ws) + tail
    ensures DeliverAll(Concat(chunks)) == Progress(AllReceived(ws), tail)
  {
    CodeAgrees(tail);
    StreamDelivered(ws, tail);
  }

  /** The two htonl stores of a 64-bit length. */
  lemma TwoWords(n: nat)
    ensures NumberBytes(n / 0x1_0000_0000, 4) + NumberBytes(n % 0x1_0000_0000, 4) == NumberBytes(n, 8)
  {
    var m1 := n / 256;
    var m2 := m1 / 256;
    var m3 := m2 / 256;
    var m4 := m3 / 256;
    var d0, d1, d2, d3 := n % 256, m1 % 256, m2 % 256, m3 % 256;
    var low := 0x100_0000 * d3 + 0x1_0000 * d2 + 0x100 * d1 + d0;
    assert n == 0x1_0000_0000 * m4 + low;
    assert n / 0x1_0000_0000 == m4 && n % 0x1_0000_0000 == low;
    FourBytes(low, d3, d2, d1, d0);
    calc {
      NumberBytes(n, 8);
      NumberBytes(m1, 7) + [d0];
      NumberBytes(m2, 6) + [d1] + [d0];
      NumberBytes(m3, 5) + [d2] + [d1] + [d0];
      NumberBytes(m4, 4) + [d3] + [d2] + [d1] + [d0];
      NumberBytes(m4, 4) + [d3, d2, d1, d0];
    }
  }

  lemma FourBytes(low: nat, d3: Byte, d2: Byte, d1: Byte, d0: Byte)
    requires low == 0x100_0000 * d3 + 0x1_0000 * d2 + 0x100 * d1 + d0
    ensures NumberBytes(low, 4) == [d3, d2, d1, d0]
  {
    var l1 := 0x1_0000 * d3 + 0x100 * d2 + d1;
    var l2 := 0x100 * d3 + d2;
    assert low / 256 == l1 && l1 / 256 == l2 && l2 / 256 == d3;
    calc {
      NumberBytes(low, 4);
      NumberBytes(l1, 3) + [d0];
      NumberBytes(l2, 2) + [d1] + [d0];
      NumberBytes(d3, 1) + [d2] + [d1] + [d0];
    }
  }

  /** mg_websocket_write: the bytes it hands to mg_write are one unmasked frame, final, in the shortest form. */
  method Write(opcode: int, data: seq<Byte>) returns (copy: seq<Byte>, ghost w: Wire)
    requires |data| < 0x8000_0000_0000_0000
    ensures w.Valid() && w.mask.None? && w.payload == data && w.wsbits == 0x80 + opcode % 16
    ensures w.form == if |data| < 126 then Short else if |data| <= 0xFFFF then Medium else Long
    ensures copy == w.Bytes()
    ensures forall rest: seq<Byte> :: RfcFrame(copy + rest) == Some(Found(Frame(0x80 + opcode % 16, |data|, data), |copy|))
  {
    var first := 0x80 + opcode % 16;
    if |data| < 126 {
      copy := [first, |data|] + data;
      w := Wire(first, Short, None, data);
    } else if |data| <= 0xFFFF {
      copy := [first, 126] + NumberBytes(|data|, 2) + data;
      w := Wire(first, Medium, None, data);
    } else {
      copy := [first, 127] + NumberBytes(|data| / 0x1_0000_0000, 4) + NumberBytes(|data| % 0x1_0000_0000, 4) + data;
      w := Wire(first, Long, None, data);
      TwoWords(|data|);
    }
    hide NumberBytes, RfcFrame;
    assert copy == w.Bytes();
    forall rest: seq<Byte>
      ensures RfcFrame(copy + rest) == Some(Found(Frame(0x80 + opcode % 16, |data|, data), |copy|))
    {
      WireRoundTrip(w, rest);
    }
  }
}
