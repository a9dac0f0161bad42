/** The text of the index that write_index_file writes, and a player's reading of it (sections 4.3.1 to 4.3.3 of
    RFC 8216). */
module PlaylistText {
  import opened Common
  import opened Decimal

  /** The options the text depends on; `duration` is the number that %lu prints. */
  datatype Options = Options(duration: nat, urlPrefix: string, outputPrefix: string, numSegments: int) {
    /** Option fields are C strings in arrays of 128 chars. */
    predicate Valid() {
      duration < 0x1_0000_0000_0000_0000 && |urlPrefix| <= 127 && |outputPrefix| <= 127
    }
  }

  const Header := "#EXTM3U"
  const TargetTag := "#EXT-X-TARGETDURATION:"
  const SequenceTag := "#EXT-X-MEDIA-SEQUENCE:"
  const InfTag := "#EXTINF:"
  const EndTag := "#EXT-X-ENDLIST"

  /** The file name of segment `i`. */
  function Name(prefix: string, i: nat): string {
    prefix + "-" + Dec(i) + ".ts"
  }

  function Uri(o: Options, i: nat): string {
    o.urlPrefix + Name(o.outputPrefix, i)
  }

  /** snprintf into a buffer of `size` chars. */
  function Snprintf(size: nat, s: string): string
    requires size > 0
  {
    if |s| < size then s else s[..size - 1]
  }

  function HeaderLines(o: Options, first: nat): seq<string> {
    [Header, TargetTag + Dec(o.duration)] + if o.numSegments != 0 then [SequenceTag + Dec(first)] else []
  }

  function EntryLines(o: Options, i: nat): seq<string> {
    [InfTag + Dec(o.duration) + ",", Uri(o, i)]
  }

  /** The lines for segments `first..last`. */
  function EntriesLines(o: Options, first: nat, last: nat): seq<string>
    decreases last
  {
    if first > last then []
    else if last == 0 then EntryLines(o, 0)
    else EntriesLines(o, first, last - 1) + EntryLines(o, last)
  }

  function EndLines(end: bool): seq<string> {
    if end then [EndTag] else []
  }

  function AllLines(o: Options, first: nat, last: nat, end: bool): seq<string> {
    HeaderLines(o, first) + EntriesLines(o, first, last) + EndLines(end)
  }

  /** Lines as text. */
  function Text(lines: seq<string>): string {
    if lines == [] then [] else Text(lines[..|lines| - 1]) + lines[|lines| - 1] + "\n"
  }

  lemma {:induction false} TextConcat(a: seq<string>, b: seq<string>)
    ensures Text(a + b) == Text(a) + Text(b)
    decreases |b|
  {
    if b == [] {
      assert a + b == a;
    } else {
      TextConcat(a, b[..|b| - 1]);
      assert (a + b)[..|a + b| - 1] == a + b[..|b| - 1];
    }
  }

  lemma TextOne(a: string)
    ensures Text([a]) == a + "\n"
  {
    assert [a][..0] == [];
  }

  lemma TextTwo(a: string, b: string)
    ensures Text([a, b]) == a + "\n" + b + "\n"
  {
    assert [a, b][..1] == [a];
    TextOne(a);
  }

  lemma HeaderText(o: Options, first: nat)
    ensures Text(HeaderLines(o, first))
         == "#EXTM3U\n#EXT-X-TARGETDURATION:" + Dec(o.duration) + "\n"
            + if o.numSegments != 0 then "#EXT-X-MEDIA-SEQUENCE:" + Dec(first) + "\n" else ""
  {
    TextTwo(Header, TargetTag + Dec(o.duration));
    TextOne(SequenceTag + Dec(first));
    TextConcat([Header, TargetTag + Dec(o.duration)], if o.numSegments != 0 then [SequenceTag + Dec(first)] else []);
    TagsAre();
    assert Header + "\n" + (TargetTag + Dec(o.duration)) + "\n" == Header + "\n" + TargetTag + Dec(o.duration) + "\n";
  }

  lemma TagsAre()
    ensures Header + "\n" + TargetTag == "#EXTM3U\n#EXT-X-TARGETDURATION:" && SequenceTag == "#EXT-X-MEDIA-SEQUENCE:"
    ensures InfTag == "#EXTINF:" && EndTag + "\n" == "#EXT-X-ENDLIST\n"
  {
  }

  lemma EntryText(o: Options, i: nat)
    ensures Text(EntryLines(o, i))
         == "#EXTINF:" + Dec(o.duration) + ",\n" + o.urlPrefix + o.outputPrefix + "-" + Dec(i) + ".ts\n"
  {
    TextTwo(InfTag + Dec(o.duration) + ",", Uri(o, i));
    TagsAre();
    assert Text(EntryLines(o, i)) == InfTag + Dec(o.duration) + "," + "\n" + Uri(o, i) + "\n";
  }

  /** The text behind the header: one entry more for each segment of the window, and the end marker. */
  lemma BodyText(o: Options, first: nat, last: nat, end: bool)
    ensures Text(AllLines(o, first, last, end))
         == Text(HeaderLines(o, first)) + Text(EntriesLines(o, first, last)) + if end then "#EXT-X-ENDLIST\n" else ""
    ensures first > last ==> Text(EntriesLines(o, first, last)) == ""
    ensures first <= last ==>
      Text(EntriesLines(o, first, last))
      == (if first == last then "" else Text(EntriesLines(o, first, last - 1)))
         + ("#EXTINF:" + Dec(o.duration) + ",\n" + o.urlPrefix + o.outputPrefix + "-" + Dec(last) + ".ts\n")
  {
    var h, e := HeaderLines(o, first), EntriesLines(o, first, last);
    TextConcat(h, e);
    TextConcat(h + e, EndLines(end));
    TextOne(EndTag);
    TagsAre();
    EntryText(o, last);
    if first <= last {
      LastOfEntries(o, first, last);
      TextConcat(if first == last then [] else EntriesLines(o, first, last - 1), EntryLines(o, last));
    }
  }

  lemma LastOfEntries(o: Options, first: nat, last: nat)
    requires first <= last
    ensures EntriesLines(o, first, last)
         == (if first == last then [] else EntriesLines(o, first, last - 1)) + EntryLines(o, last)
  {
  }

  /** Nothing is cut off: every piece fits the 1024-byte buffer, and a segment name its prefix + 15 bytes. */
  lemma PiecesFit(o: Options, i: nat)
    requires o.Valid() && i < 0x1_0000_0000
    ensures |Name(o.outputPrefix, i)| < |o.outputPrefix| + 15
    ensures |Text(HeaderLines(o, i))| < 1024 && |Text(EntryLines(o, i))| < 1024
  {
    Widths(o.duration, i);
    HeaderText(o, i);
    EntryText(o, i);
  }

  lemma Widths(duration: nat, i: nat)
    requires duration < 0x1_0000_0000_0000_0000 && i < 0x1_0000_0000
    ensures |Dec(duration)| <= 20 && |Dec(i)| <= 10
  {
    assert Power10(10) == 10_000_000_000;
    assert Power10(20) == 10_000_000_000 * Power10(10);
    DecLength(duration, 20);
    DecLength(i, 10);
  }

  // A player's reading.

  /** What a player knows after some lines: target duration, sequence number, the duration announced for the next
      URI, the entries, and whether the list is complete. */
  datatype Parsed = Parsed(
    target: Option<nat>, sequence: Option<nat>, next: Option<nat>, entries: seq<(nat, string)>, ended: bool)

  const Nothing := Parsed(None, None, None, [], false)

  /** The lines of a text. */
  function Lines(t: string): seq<string> {
    if t == [] then []
    else if '\n' !in t then [t]
    else var k := Find(t, '\n'); [t[..k]] + Lines(t[k + 1..])
  }

  function ReadNumber(s: string): Option<nat> {
    if s != [] && AllDigits(s) then Some(Number(s)) else None
  }

  /** The duration of an EXTINF tag: up to the comma. */
  function ReadInf(s: string): Option<nat> {
    if ',' in s then ReadNumber(s[..Find(s, ',')]) else None
  }

  function ReadLine(p: Parsed, line: string): Parsed {
    if TargetTag <= line then p.(target := ReadNumber(line[|TargetTag|..]))
    else if SequenceTag <= line then p.(sequence := ReadNumber(line[|SequenceTag|..]))
    else if InfTag <= line then p.(next := ReadInf(line[|InfTag|..]))
    else if EndTag <= line then p.(ended := true)
    else if line == [] || line[0] == '#' || p.next.None? then p
    else p.(next := None, entries := p.entries + [(p.next.value, line)])
  }

  function ReadLines(p: Parsed, lines: seq<string>): Parsed {
    if lines == [] then p else ReadLine(ReadLines(p, lines[..|lines| - 1]), lines[|lines| - 1])
  }

  function Read(t: string): Parsed {
    ReadLines(Nothing, Lines(t))
  }

  /** The entries that segments `first..last` should give. */
  function Entries(o: Options, first: nat, last: nat): seq<(nat, string)>
    decreases last
  {
    if first > last then []
    else if last == 0 then [(o.duration, Uri(o, 0))]
    else Entries(o, first, last - 1) + [(o.duration, Uri(o, last))]
  }

  function Expected(o: Options, first: nat, last: nat, end: bool): Parsed {
    Parsed(Some(o.duration), if o.numSegments != 0 then Some(first) else None, None, Entries(o, first, last), end)
  }

  /** The two prefixes make URIs that are single lines and no tags. */
  predicate CleanPrefixes(o: Options) {
    var u := o.urlPrefix + o.outputPrefix;
    '\n' !in u && (u != [] ==> u[0] != '#')
  }

  lemma {:induction false} ReadLinesConcat(p: Parsed, a: seq<string>, b: seq<string>)
    ensures ReadLines(p, a + b) == ReadLines(ReadLines(p, a), b)
    decreases |b|
  {
    if b == [] {
      assert a + b == a;
    } else {
      ReadLinesConcat(p, a, b[..|b| - 1]);
      assert (a + b)[..|a + b| - 1] == a + b[..|b| - 1];
    }
  }

  lemma DigitsClean(n: nat)
    ensures '\n' !in Dec(n) && ',' !in Dec(n) && ReadNumber(Dec(n)) == Some(n)
  {
    NumberDec(n);
  }

  lemma FirstNewline(line: string, rest: string)
    requires '\n' !in line
    ensures Find(line + "\n" + rest, '\n') == |line|
  {
    var t := line + "\n" + rest;
    assert t[|line|] == '\n' && t[..|line|] == line;
  }

  /** Splitting undoes joining for lines without newlines. */
  lemma {:induction false} LinesText(lines: seq<string>)
    requires forall l :: l in lines ==> '\n' !in l
    ensures Lines(Text(lines)) == lines
    decreases |lines|
  {
    if lines != [] {
      var line, rest := lines[0], lines[1..];
      assert lines == [line] + rest;
      TextConcat([line], rest);
      TextOne(line);
      FirstNewline(line, Text(rest));
      var t := line + "\n" + Text(rest);
      assert t[|line|] == '\n' && t[..|line|] == line && t[|line| + 1..] == Text(rest);
      LinesText(rest);
    }
  }

  lemma ReadHeader(o: Options, first: nat)
    ensures ReadLines(Nothing, HeaderLines(o, first))
         == Parsed(Some(o.duration), if o.numSegments != 0 then Some(first) else None, None, [], false)
  {
    var target, sequence := TargetTag + Dec(o.duration), SequenceTag + Dec(first);
    DigitsClean(o.duration);
    DigitsClean(first);
    assert target[|TargetTag|..] == Dec(o.duration) && sequence[|SequenceTag|..] == Dec(first);
    assert [Header, target] + [] == [Header, target];
    assert sequence[7] == 'M';
    ReadOne(Nothing, Header);
    ReadOne(Nothing, target);
    ReadLinesConcat(Nothing, [Header], [target]);
    assert [Header] + [target] == [Header, target];
    var p := Nothing.(target := Some(o.duration));
    assert ReadLines(Nothing, [Header, target]) == p;
    ReadLinesConcat(Nothing, [Header, target], [sequence]);
    ReadOne(p, sequence);
  }

  lemma ReadOne(p: Parsed, line: string)
    ensures ReadLines(p, [line]) == ReadLine(p, line)
  {
    assert [line][..0] == [];
  }

  lemma InfNumber(n: nat)
    ensures ReadInf(Dec(n) + ",") == Some(n)
  {
    var rest := Dec(n) + ",";
    DigitsClean(n);
    assert rest[|rest| - 1] == ',';
    assert Find(rest, ',') == |rest| - 1;
    assert rest[..|rest| - 1] == Dec(n);
  }

  lemma InfRead(o: Options, p: Parsed)
    ensures ReadLine(p, InfTag + Dec(o.duration) + ",") == p.(next := Some(o.duration))
  {
    hide ReadInf, ReadNumber;
    var line := InfTag + Dec(o.duration) + ",";
    assert line[4] == 'I';
    assert line[|InfTag|..] == Dec(o.duration) + ",";
    InfNumber(o.duration);
  }

  lemma UriClean(o: Options, i: nat)
    ensures Uri(o, i) != []
    ensures CleanPrefixes(o) <==> '\n' !in Uri(o, i) && Uri(o, i)[0] != '#'
  {
    var u := o.urlPrefix + o.outputPrefix;
    DigitsClean(i);
    assert Uri(o, i) == u + ("-" + Dec(i) + ".ts");
    var rest := "-" + Dec(i) + ".ts";
    assert rest == "-" + (Dec(i) + ".ts");
    assert '\n' !in rest && rest[0] == '-';
    if u != [] {
      assert Uri(o, i)[0] == u[0];
    }
    if '\n' in u {
      var k :| 0 <= k < |u| && u[k] == '\n';
      assert Uri(o, i)[k] == '\n';
    }
  }

  lemma UriRead(p: Parsed, uri: string)
    requires p.next.Some? && uri != [] && uri[0] != '#'
    ensures ReadLine(p, uri) == p.(next := None, entries := p.entries + [(p.next.value, uri)])
  {
  }

  lemma EntryRead(o: Options, i: nat, p: Parsed)
    requires CleanPrefixes(o)
    ensures ReadLines(p, EntryLines(o, i)) == p.(next := None, entries := p.entries + [(o.duration, Uri(o, i))])
  {
    var inf := InfTag + Dec(o.duration) + ",";
    InfRead(o, p);
    UriClean(o, i);
    UriRead(p.(next := Some(o.duration)), Uri(o, i));
    assert EntryLines(o, i)[..1] == [inf];
    ReadOne(p, inf);
  }

  lemma {:induction false} EntriesRead(o: Options, first: nat, last: nat, p: Parsed)
    requires CleanPrefixes(o) && p.next.None?
    ensures ReadLines(p, EntriesLines(o, first, last)) == p.(entries := p.entries + Entries(o, first, last))
    decreases last
  {
    hide ReadLine, EntryLines, CleanPrefixes, Uri;
    if first > last {
    } else if last == 0 {
      EntryRead(o, 0, p);
    } else {
      EntriesRead(o, first, last - 1, p);
      ReadLinesConcat(p, EntriesLines(o, first, last - 1), EntryLines(o, last));
      EntryRead(o, last, p.(entries := p.entries + Entries(o, first, last - 1)));
    }
  }

  lemma EntriesClean(o: Options, first: nat, last: nat)
    requires CleanPrefixes(o)
    ensures forall l :: l in EntriesLines(o, first, last) ==> '\n' !in l
    decreases last
  {
    if first <= last {
      UriClean(o, last);
      DigitsClean(o.duration);
      assert '\n' !in InfTag + Dec(o.duration) + ",";
      if last > 0 {
        EntriesClean(o, first, last - 1);
      }
    }
  }

  lemma LinesClean(o: Options, first: nat, last: nat, end: bool)
    requires CleanPrefixes(o)
    ensures forall l :: l in AllLines(o, first, last, end) ==> '\n' !in l
  {
    DigitsClean(o.duration);
    DigitsClean(first);
    EntriesClean(o, first, last);
    assert '\n' !in TargetTag + Dec(o.duration) && '\n' !in SequenceTag + Dec(first);
  }

  /** A player reads back the window, the duration and the end marker. */
  lemma ReadsBack(o: Options, first: nat, last: nat, end: bool)
    requires CleanPrefixes(o)
    ensures Read(Text(AllLines(o, first, last, end))) == Expected(o, first, last, end)
  {
    LinesClean(o, first, last, end);
    LinesText(AllLines(o, first, last, end));
    hide ReadLine, Lines, Text, AllLines;
    var h, e, z := HeaderLines(o, first), EntriesLines(o, first, last), EndLines(end);
    ReadHeader(o, first);
    ReadLinesConcat(Nothing, h, e);
    EntriesRead(o, first, last, ReadLines(Nothing, h));
    ReadLinesConcat(Nothing, h + e, z);
    EndRead(ReadLines(Nothing, h + e), end);
    AllLinesAre(o, first, last, end);
  }

  lemma AllLinesAre(o: Options, first: nat, last: nat, end: bool)
    ensures AllLines(o, first, last, end) == HeaderLines(o, first) + EntriesLines(o, first, last) + EndLines(end)
  {
  }

  lemma EndRead(p: Parsed, end: bool)
    requires !p.ended
    ensures ReadLines(p, EndLines(end)) == p.(ended := end)
  {
    assert InfTag[4] == 'I' && EndTag[4] == '-';
    ReadOne(p, EndTag);
  }

  // The converse: an unclean prefix never reads back.

  lemma {:induction false} LinesHaveNoNewline(t: string)
    ensures forall l :: l in Lines(t) ==> '\n' !in l
    decreases |t|
  {
    if t != [] && '\n' in t {
      LinesHaveNoNewline(t[Find(t, '\n') + 1..]);
    }
  }

  lemma {:induction false} EntriesAreLines(lines: seq<string>)
    ensures forall e :: e in ReadLines(Nothing, lines).entries ==> e.1 in lines && e.1 != [] && e.1[0] != '#'
  {
    if lines != [] {
      EntriesAreLines(lines[..|lines| - 1]);
    }
  }

  /** For a window that lists something, the text reads back exactly when the prefixes are clean. */
  lemma ReadsBackExactly(o: Options, first: nat, last: nat, end: bool)
    requires first <= last
    ensures Read(Text(AllLines(o, first, last, end))) == Expected(o, first, last, end) <==> CleanPrefixes(o)
  {
    if CleanPrefixes(o) {
      ReadsBack(o, first, last, end);
    } else {
      var t := Text(AllLines(o, first, last, end));
      LinesHaveNoNewline(t);
      EntriesAreLines(Lines(t));
      var e := (o.duration, Uri(o, last));
      var expected := Entries(o, first, last);
      assert expected[|expected| - 1] == e;
      UriClean(o, last);
      assert e !in Read(t).entries;
    }
  }
}

/** write_index_file, and finding an in-memory file by the name in a request. */
module IndexFiles {
  import opened Common
  import opened Decimal
  import opened PlaylistText
  import SegmentBuffer
  import HlsWindow

  /** `tmp` holds these lines. */
  ghost predicate Holds(tmp: SegmentBuffer.Buffer, lines: seq<string>)
    reads tmp, tmp.buf
  {
    tmp.Valid() && tmp.Contents() == SegmentBuffer.Encode(Text(lines))
  }

  /** write_index_file: header, one entry per segment, end marker, each formatted into a 1024-byte buffer. */
  method WriteIndexFile(o: Options, first: nat, last: nat, end: bool, name: string) returns (tmp: SegmentBuffer.Buffer)
    requires o.Valid() && first < 0x1_0000_0000 && last < 0xFFFF_FFFF
    ensures fresh(tmp) && fresh(tmp.buf) && Holds(tmp, AllLines(o, first, last, end))
  {
    tmp := new SegmentBuffer.Buffer(name);
    assert Holds(tmp, []);
    WriteHeader(o, first, tmp);
    WriteEntries(o, first, last, tmp);
    if end {
      TextOne(EndTag);
      TagsAre();
      AppendText(tmp, Snprintf(1024, "#EXT-X-ENDLIST\n"), HeaderLines(o, first) + EntriesLines(o, first, last), [EndTag]);
    }
    var lines := HeaderLines(o, first) + EntriesLines(o, first, last);
    assert lines + [] == lines;
  }

  method WriteHeader(o: Options, first: nat, tmp: SegmentBuffer.Buffer)
    requires o.Valid() && first < 0x1_0000_0000 && Holds(tmp, [])
    modifies tmp, tmp.buf
    ensures (tmp.buf == old(tmp.buf) || fresh(tmp.buf)) && Holds(tmp, HeaderLines(o, first))
  {
    var sequence := if o.numSegments != 0 then "#EXT-X-MEDIA-SEQUENCE:" + Dec(first) + "\n" else "";
    PiecesFit(o, first);
    HeaderText(o, first);
    AppendText(tmp, Snprintf(1024, "#EXTM3U\n#EXT-X-TARGETDURATION:" + Dec(o.duration) + "\n" + sequence), [],
               HeaderLines(o, first));
    assert [] + HeaderLines(o, first) == HeaderLines(o, first);
  }

  method WriteEntry(o: Options, i: nat, tmp: SegmentBuffer.Buffer, ghost lines: seq<string>)
    requires o.Valid() && i < 0x1_0000_0000 && Holds(tmp, lines)
    modifies tmp, tmp.buf
    ensures (tmp.buf == old(tmp.buf) || fresh(tmp.buf)) && Holds(tmp, lines + EntryLines(o, i))
  {
    hide Holds, EntryLines;
    PiecesFit(o, i);
    EntryText(o, i);
    AppendText(tmp,
      Snprintf(1024, "#EXTINF:" + Dec(o.duration) + ",\n" + o.urlPrefix + o.outputPrefix + "-" + Dec(i) + ".ts\n"),
      lines, EntryLines(o, i));
  }

  method WriteEntries(o: Options, first: nat, last: nat, tmp: SegmentBuffer.Buffer)
    requires o.Valid() && first < 0x1_0000_0000 && last < 0xFFFF_FFFF && Holds(tmp, HeaderLines(o, first))
    modifies tmp, tmp.buf
    ensures tmp.buf == old(tmp.buf) || fresh(tmp.buf)
    ensures Holds(tmp, HeaderLines(o, first) + EntriesLines(o, first, last))
  {
    var i := first;
    assert HeaderLines(o, first) + [] == HeaderLines(o, first);
    while i <= last
      invariant first <= i && (i <= last + 1 || i == first)
      invariant tmp.buf == old(tmp.buf) || fresh(tmp.buf)
      invariant Holds(tmp, HeaderLines(o, first) + EntriesBefore(o, first, i))
    {
      hide Holds, EntryLines, HeaderLines, EntriesBefore;
      EntriesNext(o, first, i);
      WriteEntry(o, i, tmp, HeaderLines(o, first) + EntriesBefore(o, first, i));
      i := i + 1;
    }
  }

  /** The lines for the segments below `i`. */
  function EntriesBefore(o: Options, first: nat, i: nat): seq<string>
    requires first <= i
  {
    if i == first then [] else EntriesLines(o, first, i - 1)
  }

  lemma EntriesNext(o: Options, first: nat, i: nat)
    requires first <= i
    ensures HeaderLines(o, first) + EntriesBefore(o, first, i + 1)
            == HeaderLines(o, first) + EntriesBefore(o, first, i) + EntryLines(o, i)
  {
    LastEntry(o, first, i);
    hide HeaderLines, EntryLines, EntriesLines;
  }

  lemma LastEntry(o: Options, first: nat, i: nat)
    requires first <= i
    ensures EntriesLines(o, first, i) == EntriesBefore(o, first, i) + EntryLines(o, i)
  {
  }

  method AppendText(tmp: SegmentBuffer.Buffer, writeBuf: string, ghost lines: seq<string>, ghost more: seq<string>)
    requires Holds(tmp, lines) && writeBuf == Text(more)
    modifies tmp, tmp.buf
    ensures (tmp.buf == old(tmp.buf) || fresh(tmp.buf)) && Holds(tmp, lines + more)
  {
    TextConcat(lines, more);
    SegmentBuffer.EncodeConcat(Text(lines), Text(more));
    var n := tmp.Write(SegmentBuffer.Encode(writeBuf));
  }

  /** What istb_m3u8_api_open answers: the index at the queue head, a segment of the queue, or nothing. */
  datatype Opened = Head | Segment(k: nat) | Missing

  /** The text behind the last dot. */
  function Suffix(s: string): string
    requires '.' in s
  {
    if s[|s| - 1] == '.' then [] else Suffix(s[..|s| - 1]) + [s[|s| - 1]]
  }

  ghost predicate IsAnswer(names: seq<string>, request: string, r: Opened)
    requires '.' in request
  {
    match r
    case Head => "m3u8" <= Suffix(request)
    case Segment(k) =>
      && !("m3u8" <= Suffix(request)) && k < |names| && request <= names[k]
      && forall j :: 0 <= j < k ==> !(request <= names[j])
    case Missing => !("m3u8" <= Suffix(request)) && forall j :: 0 <= j < |names| ==> !(request <= names[j])
  }

  /** A request for a whole segment name finds that segment among consecutive ones, or nothing. */
  lemma OpensExactly(prefix: string, from: nat, names: seq<string>, i: nat, r: Opened)
    requires forall k :: 0 <= k < |names| ==> names[k] == Name(prefix, from + k)
    requires '.' in Name(prefix, i) && IsAnswer(names, Name(prefix, i), r)
    ensures r == if from <= i < from + |names| then Segment(i - from) else Missing
  {
    NameSuffix(prefix, i);
    forall k | 0 <= k < |names| && Name(prefix, i) <= names[k]
      ensures k == i - from
    {
      NamePrefixFree(prefix, i, from + k);
    }
    if from <= i < from + |names| {
      assert Name(prefix, i) <= names[i - from];
    }
  }

  lemma NameSuffix(prefix: string, i: nat)
    ensures '.' in Name(prefix, i) && Suffix(Name(prefix, i)) == "ts"
  {
    var n, p := Name(prefix, i), prefix + "-" + Dec(i);
    assert n == p + ".ts" && n[|p|] == '.';
    assert n[..|n| - 1] == p + ".t" && n[..|n| - 1][..|n| - 2] == p + ".";
    assert Suffix(p + ".") == [] && Suffix(p + ".t") == "t" && Suffix(n) == "ts";
  }

  lemma NamePrefixFree(prefix: string, i: nat, j: nat)
    requires Name(prefix, i) <= Name(prefix, j)
    ensures i == j
  {
    var n := |prefix| + 1;
    assert Name(prefix, i)[n..] == Dec(i) + ".ts" && Name(prefix, j)[n..] == Dec(j) + ".ts";
    DecPrefixFree(i, j, ".ts");
  }

  /** The request name that user_defined_requst makes of a URI: without the slash, in a zeroed array of 128. */
  function RequestName(uri: string): string
    requires uri != [] && |uri| <= 128
  {
    uri[1..]
  }

  /** The bytes behind every listed URL: take any view that a reader can have of the window, a segment that its
      playlist lists, and ask for its URL without `url_prefix`; what opens is that segment, as it will stay. */
  lemma ListedOpens(c: HlsWindow.Config, o: Options, v: HlsWindow.View, all: seq<HlsWindow.Segment>, i: nat, r: Opened)
    requires HlsWindow.ViewOk(c, v, all) && v.playlist.Some? && v.playlist.value.Lists(i)
    requires forall k :: 0 <= k < |all| ==> all[k].index == k + 1
    requires '.' in Name(o.outputPrefix, i) && |Uri(o, i)| - |o.urlPrefix| <= 127
    requires IsAnswer(seq(|v.queue|, k requires 0 <= k < |v.queue| => Name(o.outputPrefix, v.queue[k].index)),
                      RequestName("/" + Uri(o, i)[|o.urlPrefix|..]), r)
    ensures r.Segment? && r.k < |v.queue| && v.queue[r.k] == all[i - 1]
  {
    hide HlsWindow.ViewOk, Name, Uri, IsAnswer, RequestName;
    var names := seq(|v.queue|, k requires 0 <= k < |v.queue| => Name(o.outputPrefix, v.queue[k].index));
    var k := PlaceOf(c, v, all, i);
    Stripped(o, i);
    OpensExactly(o.outputPrefix, v.queue[0].index, names, i, r);
  }

  /** Where a listed segment is in the queue. */
  lemma PlaceOf(c: HlsWindow.Config, v: HlsWindow.View, all: seq<HlsWindow.Segment>, i: nat) returns (k: nat)
    requires HlsWindow.ViewOk(c, v, all) && v.playlist.Some? && v.playlist.value.Lists(i)
    requires forall k :: 0 <= k < |all| ==> all[k].index == k + 1
    ensures 0 < i <= |all| && k < |v.queue| && v.queue[k] == all[i - 1] && i == v.queue[0].index + k
    ensures forall k :: 0 <= k < |v.queue| ==> v.queue[k].index == v.queue[0].index + k
  {
    assert all[i - 1] in v.queue;
    k :| 0 <= k < |v.queue| && v.queue[k] == all[i - 1];
  }

  lemma Stripped(o: Options, i: nat)
    requires |Uri(o, i)| - |o.urlPrefix| <= 127
    ensures Uri(o, i)[|o.urlPrefix|..] == Name(o.outputPrefix, i)
    ensures RequestName("/" + Uri(o, i)[|o.urlPrefix|..]) == Name(o.outputPrefix, i)
  {
    hide Name;
    assert Uri(o, i)[|o.urlPrefix|..] == Name(o.outputPrefix, i);
    assert ("/" + Name(o.outputPrefix, i))[1..] == Name(o.outputPrefix, i);
  }

  lemma {:induction false} EntryIs(o: Options, first: nat, last: nat, e: (nat, string)) returns (i: nat)
    requires e in Entries(o, first, last)
    ensures first <= i <= last && e == (o.duration, Uri(o, i))
    decreases last
  {
    if e == (o.duration, Uri(o, last)) {
      i := last;
    } else {
      i := EntryIs(o, first, last - 1, e);
    }
  }

  /** From the published text to the bytes: in every view that a reader can have of a task whose index writes succeed,
      every URL that a player reads from the index, asked for without `url_prefix`, opens a listed segment, as it will
      stay. */
  lemma PublishedOpens(c: HlsWindow.Config, o: Options, inputs: seq<HlsWindow.Input>, v: HlsWindow.View,
                       e: (nat, string), r: Opened)
    returns (i: nat)
    requires CleanPrefixes(o) && (forall k :: 0 <= k < |inputs| ==> inputs[k].indexOk)
    requires v in HlsWindow.Task(c, true, inputs, true).views && v.playlist.Some?
    requires var p := v.playlist.value;
             && e in Read(Text(AllLines(o, p.first, p.last, p.end))).entries
             && |o.urlPrefix| <= |e.1| <= |o.urlPrefix| + 127 && '.' in e.1[|o.urlPrefix|..]
    requires IsAnswer(seq(|v.queue|, k requires 0 <= k < |v.queue| => Name(o.outputPrefix, v.queue[k].index)),
                      RequestName("/" + e.1[|o.urlPrefix|..]), r)
    ensures v.playlist.value.Lists(i) && e == (o.duration, Uri(o, i))
    ensures var all := HlsWindow.Task(c, true, inputs, true).all;
            r.Segment? && r.k < |v.queue| && 0 < i <= |all| && v.queue[r.k] == all[i - 1]
  {
    hide Read, Text, AllLines, HlsWindow.Task, IsAnswer, CleanPrefixes, HlsWindow.ViewOk, Uri, Entries, Name;
    var p, t := v.playlist.value, HlsWindow.Task(c, true, inputs, true);
    HlsWindow.TaskSafe(c, inputs);
    ReadsBack(o, p.first, p.last, p.end);
    i := EntryIs(o, p.first, p.last, e);
    Stripped(o, i);
    var k := PlaceOf(c, v, t.all, i);
    ListedOpens(c, o, v, t.all, i, r);
  }
}
