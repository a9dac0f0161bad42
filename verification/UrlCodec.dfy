/** URL encoding and decoding, into another buffer or in place (section 2.1 of RFC 3986). */
module UrlCodec {
  import opened Words

  predicate IsDigit(b: int) { '0' as int <= b <= '9' as int }
  predicate IsLetter(b: int) { 'a' as int <= b <= 'z' as int || 'A' as int <= b <= 'Z' as int }
  predicate IsHex(b: int) { IsDigit(b) || 'a' as int <= b <= 'f' as int || 'A' as int <= b <= 'F' as int }

  const Percent := '%' as int
  const Plus := '+' as int
  const Space := ' ' as int

  /** Letters, digits and the characters of `dont_escape`. */
  predicate Unescaped(b: Byte) {
    IsDigit(b) || IsLetter(b)
    || b in ['.' as int, '_' as int, '-' as int, '$' as int, ',' as int, ';' as int, '~' as int, '(' as int, ')' as int]
  }

  function HexDigit(d: nat): Byte
    requires d < 16
  {
    if d < 10 then '0' as int + d else 'a' as int + d - 10
  }

  /** HEXTOI on what tolower gives; 'W' is 10 below 'a'. */
  function HexValue(b: Byte): nat
    requires IsHex(b)
  {
    if IsDigit(b) then b - '0' as int
    else (if b >= 'a' as int then b else b + 32) - 'W' as int
  }

  function Escape(b: Byte): (e: seq<Byte>)
    ensures |e| == 1 || |e| == 3
  {
    if Unescaped(b) then [b] else [Percent, HexDigit(b / 16), HexDigit(b % 16)]
  }

  function Encoded(s: seq<Byte>): seq<Byte> {
    if s == [] then [] else Encoded(s[..|s| - 1]) + Escape(s[|s| - 1])
  }

  /** How many bytes at the front of `s` make one decoded byte. */
  function Width(s: seq<Byte>): (w: nat)
    requires s != []
    ensures 0 < w <= |s|
  {
    if s[0] == Percent && |s| > 2 && IsHex(s[1]) && IsHex(s[2]) then 3 else 1
  }

  function FirstByte(s: seq<Byte>, form: bool): Byte
    requires s != []
  {
    if Width(s) == 3 then 16 * HexValue(s[1]) + HexValue(s[2])
    else if form && s[0] == Plus then Space
    else s[0]
  }

  function Decoded(s: seq<Byte>, form: bool): seq<Byte> {
    if s == [] then [] else [FirstByte(s, form)] + Decoded(s[Width(s)..], form)
  }

  lemma EncodedNext(s: seq<Byte>, i: nat)
    requires i < |s|
    ensures Encoded(s[..i + 1]) == Encoded(s[..i]) + Escape(s[i])
  {
    assert s[..i + 1][..i] == s[..i];
  }

  lemma {:induction false} EncodedGrows(s: seq<Byte>, i: nat)
    requires i <= |s|
    ensures Encoded(s[..i]) <= Encoded(s)
    decreases |s| - i
  {
    if i == |s| {
      assert s[..i] == s;
    } else {
      EncodedNext(s, i);
      EncodedGrows(s, i + 1);
    }
  }

  /** mg_url_encode into an array of `dst.Length` bytes; `n` is where the terminating zero is. The first `m` source bytes,
      as many as fit, are encoded; behind them an escape that does not fit leaves the byte at its place as it was. */
  method Encode(src: seq<Byte>, dst: array<Byte>) returns (n: nat, ghost m: nat)
    requires 0 !in src && dst.Length > 0
    modifies dst
    ensures n < dst.Length && dst[n] == 0
    ensures m <= |src| && Encoded(src[..m]) <= dst[..n]
    ensures if m == |src| then dst[..n] == Encoded(src) else |Encoded(src[..m + 1])| >= dst.Length
    ensures m == |src| <==> |Encoded(src)| < dst.Length
  {
    var i := 0;
    n, m := 0, 0;
    assert Encoded(src[..0]) == [];
    while i < |src| && n < dst.Length - 1
      invariant i <= |src| && n < dst.Length && Fitting(src, dst, i, n, m)
    {
      hide Fitting;
      n, m := EncodeOne(src, dst, i, n, m);
      i := i + 1;
    }
    WhatFits(src, i, m, dst.Length - 1);
    ghost var done := dst[..n];
    dst[n] := 0;
    assert dst[..n] == done;
  }

  /** Of `i` source bytes read, `m` are encoded; if that is not all of them, the next one did not fit. */
  ghost predicate Fitting(src: seq<Byte>, dst: array<Byte>, i: nat, n: nat, m: nat)
    requires i <= |src| && n < dst.Length
    reads dst
  {
    && m <= i && Encoded(src[..m]) <= dst[..n]
    && if m == i then dst[..n] == Encoded(src[..m]) else |Encoded(src[..m + 1])| > dst.Length - 1
  }

  method EncodeOne(src: seq<Byte>, dst: array<Byte>, i: nat, n: nat, ghost m: nat) returns (n': nat, ghost m': nat)
    requires i < |src| && n < dst.Length - 1 && Fitting(src, dst, i, n, m)
    modifies dst
    ensures n < n' < dst.Length && Fitting(src, dst, i + 1, n', m')
  {
    hide Encoded, Escape;
    EncodedNext(src, i);
    ghost var before := dst[..n];
    n' := Put(src[i], dst, n);
    assert before <= dst[..n'];
    m' := if m == i && dst[..n'] == before + Escape(src[i]) then m + 1 else m;
  }

  lemma WhatFits(src: seq<Byte>, i: nat, m: nat, end: nat)
    requires m <= i <= |src|
    requires if m == i then i == |src| || |Encoded(src[..m])| == end else |Encoded(src[..m + 1])| > end
    ensures if m == |src| then src[..m] == src else |Encoded(src[..m + 1])| > end && |Encoded(src)| > end
  {
    if m < |src| {
      EncodedNext(src, m);
      EncodedGrows(src, m + 1);
    }
  }

  /** One turn of the loop. */
  method Put(b: Byte, dst: array<Byte>, n: nat) returns (m: nat)
    requires n < dst.Length - 1
    modifies dst
    ensures n < m <= dst.Length - 1 && dst[..n] == old(dst[..n])
    ensures dst[..m] == old(dst[..n]) + Escape(b) || n + |Escape(b)| > dst.Length - 1
  {
    m := n;
    if Unescaped(b) {
      dst[m] := b;
    } else if m + 2 < dst.Length - 1 {
      dst[m], dst[m + 1], dst[m + 2] := Percent, HexDigit(b / 16), HexDigit(b % 16);
      m := m + 2;
    }
    m := m + 1;
  }

  /** mg_url_decode; `src` and `dst` may be the same array, as parse_http_message has it, because the write position
      never passes the read position. Returns the decoded length, or -1 when `dst` is too small. */
  method Decode(src: array<Byte>, srcLen: nat, dst: array<Byte>, dstLen: nat, form: bool) returns (r: int)
    requires srcLen <= src.Length && 0 < dstLen <= dst.Length
    modifies dst
    ensures var full := Decoded(old(src[..srcLen]), form);
            if |full| < dstLen then r == |full| && dst[..|full|] == full && dst[|full|] == 0
            else r == -1 && dst[..dstLen - 1] == full[..dstLen - 1] && dst[dstLen - 1] == 0
  {
    ghost var s := src[..srcLen];
    var i, j := DecodeLoop(src, srcLen, dst, dstLen, form);
    ghost var written := dst[..j];
    assert i == srcLen ==> s[i..] == [];
    dst[j] := 0;
    assert dst[..j] == written;
    r := if i >= srcLen then j else -1;
  }

  /** `s` is what `src` held: `i` bytes of it are decoded into `j` bytes, the rest is still there. */
  ghost predicate Progress(s: seq<Byte>, src: array<Byte>, dst: array<Byte>, i: nat, j: nat, form: bool)
    reads src, dst
  {
    && j <= i <= |s| <= src.Length && j <= dst.Length
    && Decoded(s, form) == dst[..j] + Decoded(s[i..], form)
    && src[i..|s|] == s[i..]
  }

  method DecodeLoop(src: array<Byte>, srcLen: nat, dst: array<Byte>, dstLen: nat, form: bool) returns (i: nat, j: nat)
    requires srcLen <= src.Length && 0 < dstLen <= dst.Length
    modifies dst
    ensures Progress(old(src[..srcLen]), src, dst, i, j, form)
    ensures j < dstLen && (i == srcLen || j == dstLen - 1)
  {
    ghost var s := src[..srcLen];
    i, j := 0, 0;
    assert s[0..] == s;
    while i < srcLen && j < dstLen - 1
      invariant j < dstLen && i <= srcLen && Progress(s, src, dst, i, j, form)
    {
      hide Progress;
      i := DecodeStep(s, src, srcLen, dst, i, j, form);
      j := j + 1;
    }
  }

  method DecodeStep(ghost s: seq<Byte>, src: array<Byte>, srcLen: nat, dst: array<Byte>, i: nat, j: nat, form: bool)
    returns (next: nat)
    requires |s| == srcLen && i < srcLen && j < dst.Length && Progress(s, src, dst, i, j, form)
    modifies dst
    ensures i < next <= srcLen && Progress(s, src, dst, next, j + 1, form)
  {
    hide FirstByte, Width, Decoded;
    var b, w := NextByte(src, srcLen, i, form);
    DecodedNext(s, i, dst[..j], form);
    next := i + w;
    assert src[next..srcLen] == s[i..][w..] == s[next..];
    StoreAt(src, srcLen, dst, next, j, b);
  }

  /** A store at the write position leaves what has not been read. */
  method StoreAt(src: array<Byte>, srcLen: nat, dst: array<Byte>, i: nat, j: nat, b: Byte)
    requires j < i <= srcLen <= src.Length && j < dst.Length
    modifies dst
    ensures dst[..j + 1] == old(dst[..j]) + [b] && src[i..srcLen] == old(src[i..srcLen])
  {
    dst[j] := b;
  }

  lemma DecodedNext(s: seq<Byte>, i: nat, before: seq<Byte>, form: bool)
    requires i < |s|
    ensures var rest := s[i..];
            before + Decoded(rest, form) == before + [FirstByte(rest, form)] + Decoded(s[i + Width(rest)..], form)
  {
    var rest := s[i..];
    assert s[i + Width(rest)..] == rest[Width(rest)..];
  }

  /** One turn of the loop: the byte to write, and how far the read position moves. */
  method NextByte(src: array<Byte>, srcLen: nat, i: nat, form: bool) returns (b: Byte, w: nat)
    requires i < srcLen <= src.Length
    ensures b == FirstByte(src[i..srcLen], form) && w == Width(src[i..srcLen])
  {
    w := 1;
    if src[i] == Percent && i + 2 < srcLen && IsHex(src[i + 1]) && IsHex(src[i + 2]) {
      b := 16 * HexValue(src[i + 1]) + HexValue(src[i + 2]);
      w := 3;
    } else if form && src[i] == Plus {
      b := Space;
    } else {
      b := src[i];
    }
  }

  lemma EscapeDecodes(b: Byte, rest: seq<Byte>, form: bool)
    ensures var e := Escape(b) + rest;
            FirstByte(e, form) == b && e[Width(e)..] == rest
  {
    var e := Escape(b) + rest;
    if !Unescaped(b) {
      assert e[0] == Percent && e[1] == HexDigit(b / 16) && e[2] == HexDigit(b % 16);
      assert HexValue(HexDigit(b / 16)) == b / 16 && HexValue(HexDigit(b % 16)) == b % 16;
      assert e[3..] == rest;
    } else {
      assert e[0] == b && e[1..] == rest;
    }
  }

  lemma {:induction false} EncodedThenDecoded(s: seq<Byte>, rest: seq<Byte>, form: bool)
    ensures Decoded(Encoded(s) + rest, form) == s + Decoded(rest, form)
    decreases |s|
  {
    hide Encoded, Escape, Decoded;
    EncodedLast(s);
    if s == [] {
      Regroup([], [], rest);
    } else {
      var t, b := s[..|s| - 1], s[|s| - 1];
      Regroup(Encoded(t), Escape(b), rest);
      EncodedThenDecoded(t, Escape(b) + rest, form);
      DecodedEscape(b, rest, form);
      Regroup(t, [b], Decoded(rest, form));
      assert t + [b] == s;
    }
    assert [] + rest == rest && [] + Decoded(rest, form) == Decoded(rest, form);
  }

  lemma EncodedLast(s: seq<Byte>)
    ensures Encoded(s) == if s == [] then [] else Encoded(s[..|s| - 1]) + Escape(s[|s| - 1])
  {
  }

  lemma DecodedEscape(b: Byte, rest: seq<Byte>, form: bool)
    ensures Decoded(Escape(b) + rest, form) == [b] + Decoded(rest, form)
  {
    EscapeDecodes(b, rest, form);
    hide FirstByte, Width;
  }

  lemma Regroup(a: seq<Byte>, b: seq<Byte>, c: seq<Byte>)
    ensures a + b + c == a + (b + c)
  {
  }

  /** Decoding undoes encoding, whether or not a plus stands for a space. */
  lemma DecodesEncoded(s: seq<Byte>, form: bool)
    ensures Decoded(Encoded(s), form) == s
  {
    EncodedThenDecoded(s, [], form);
    assert Encoded(s) + [] == Encoded(s) && s + [] == s;
  }

  // The codes themselves, in ASCII.

  lemma HexDigitIs(d: nat)
    requires d < 16
    ensures HexDigit(d) == "0123456789abcdef"[d] as int
  {
  }

  /** Letters, digits and `$ ( ) , - . _ ; ~` stay; every other byte becomes `%` and two hexadecimal digits. */
  lemma EncodedByte(b: Byte)
    ensures Encoded([b]) ==
              if 48 <= b <= 57 || 65 <= b <= 90 || 97 <= b <= 122 || b in {36, 40, 41, 44, 45, 46, 59, 95, 126} then [b]
              else [37, "0123456789abcdef"[b / 16] as int, "0123456789abcdef"[b % 16] as int]
  {
    HexDigitIs(b / 16);
    HexDigitIs(b % 16);
    hide HexDigit;
    assert [b][..0] == [];
  }

  lemma {:induction false} EncodedConcat(a: seq<Byte>, b: seq<Byte>)
    ensures Encoded(a + b) == Encoded(a) + Encoded(b)
  {
    hide Escape, Encoded;
    EncodedLast(b);
    if b == [] {
      assert a + b == a;
    } else {
      var c, e := b[..|b| - 1], Escape(b[|b| - 1]);
      EncodedLast(a + b);
      assert (a + b)[..|a + b| - 1] == a + c;
      EncodedConcat(a, c);
      Regroup(Encoded(a), Encoded(c), e);
    }
  }

  /** The hexadecimal digit for `d`, in either case. */
  predicate IsHexDigitOf(x: Byte, d: nat) {
    d < 16 && (x == "0123456789abcdef"[d] as int || x == "0123456789ABCDEF"[d] as int)
  }

  lemma HexValueIs(x: Byte, d: nat)
    requires IsHexDigitOf(x, d)
    ensures IsHex(x) && HexValue(x) == d
  {
    CapitalHexIs(d);
    HexDigitIs(d);
  }

  lemma CapitalHexIs(d: nat)
    requires d < 16
    ensures "0123456789ABCDEF"[d] as int == if d < 10 then 48 + d else 55 + d
  {
  }

  /** `%` and two hexadecimal digits are one byte. */
  lemma EscapeRead(hi: nat, lo: nat, x: Byte, y: Byte, rest: seq<Byte>, form: bool)
    requires IsHexDigitOf(x, hi) && IsHexDigitOf(y, lo)
    ensures Decoded([37, x, y] + rest, form) == [16 * hi + lo] + Decoded(rest, form)
  {
    hide IsHexDigitOf, IsHex, HexValue;
    HexValueIs(x, hi);
    HexValueIs(y, lo);
    assert ([37, x, y] + rest)[3..] == rest;
  }

  ghost predicate HexDigitAt(s: seq<Byte>, i: nat) {
    i < |s| && exists d :: IsHexDigitOf(s[i], d)
  }

  /** Everything else is itself, but for a plus in a form, which is a space. */
  lemma OtherRead(b: Byte, rest: seq<Byte>, form: bool)
    requires b == 37 ==> !HexDigitAt(rest, 0) || !HexDigitAt(rest, 1)
    ensures Decoded([b] + rest, form) == [if form && b == 43 then 32 else b] + Decoded(rest, form)
  {
    assert ([b] + rest)[1..] == rest;
    if |rest| >= 2 {
      HexDigits(rest[0]);
      HexDigits(rest[1]);
    }
  }

  lemma HexDigits(b: Byte)
    ensures IsHex(b) <==> exists d :: IsHexDigitOf(b, d)
  {
    if IsHex(b) {
      CapitalHexIs(HexValue(b));
      HexDigitIs(HexValue(b));
      assert IsHexDigitOf(b, HexValue(b));
    }
    forall d: nat | IsHexDigitOf(b, d)
      ensures IsHex(b)
    {
      HexValueIs(b, d);
    }
  }
}
