/** The option string that main prints for the segmenter, and the segmenter's reading of it. */
module OptionText {
  import opened Decimal

  /** What a struct options_t holds: two numbers, and three strings in arrays that start out zeroed; a string is the
      characters before its terminator. */
  datatype Fields = Fields(num: int, duration: int, prefix: string, index: string, url: string)

  const LongMax := 0x7fff_ffff_ffff_ffff
  const BufSize := 128

  /** printf's %d. */
  function Signed(n: int): string {
    if n < 0 then "-" + Dec(-n) else Dec(n)
  }

  /** The text main prints, before snprintf cuts it to the buffer. */
  function Printed(o: Fields): string {
    "-n " + Signed(o.num) + (" -d " + Signed(o.duration) + (" -p " + o.prefix + (" -m " + o.index + (" -u " + o.url))))
  }

  /** snprintf into main's buffer. */
  function Cut(s: string): string {
    if |s| < BufSize then s else s[..BufSize - 1]
  }

  /** 127 characters and a zero. */
  lemma CutText(s: string)
    ensures Cut(s) <= s && |Cut(s)| == if |s| < 127 then |s| else 127
  {
  }

  // The C library's part.

  /** The place of the first hyphen, or the length: strstr(s, "-"). */
  function Hyphen(s: string): (k: nat)
    ensures k <= |s| && (k < |s| ==> s[k] == '-')
  {
    if s == [] || s[0] == '-' then 0 else 1 + Hyphen(s[1..])
  }

  predicate BreaksAt(s: string, k: nat) {
    k + 1 < |s| && s[k] == ' ' && s[k + 1] == '-'
  }

  /** The place of the first space with a hyphen behind it, or the length: strstr(s, " -"). */
  function Break(s: string): (k: nat)
    ensures k <= |s| && (k < |s| ==> BreaksAt(s, k)) && forall j: nat :: j < k ==> !BreaksAt(s, j)
  {
    if s == [] || BreaksAt(s, 0) then 0
    else
      assert forall j: nat :: 0 < j && BreaksAt(s, j) ==> BreaksAt(s[1..], j - 1);
      1 + Break(s[1..])
  }

  function SkipSpaces(s: string): (r: string)
    ensures |r| <= |s| && (r != [] ==> r[0] != ' ')
  {
    if s != [] && s[0] == ' ' then SkipSpaces(s[1..]) else s
  }

  predicate IsSpace(c: char) { c == ' ' || '\t' <= c <= '\r' }

  function SkipWhite(s: string): (r: string)
    ensures |r| <= |s|
  {
    if s != [] && IsSpace(s[0]) then SkipWhite(s[1..]) else s
  }

  /** How many digits the string begins with. */
  function Digits(s: string): (k: nat)
    ensures k <= |s| && AllDigits(s[..k]) && (k < |s| ==> !IsDigit(s[k]))
  {
    if s == [] || !IsDigit(s[0]) then 0
    else
      assert s[..1 + Digits(s[1..])][1..] == s[1..][..Digits(s[1..])];
      1 + Digits(s[1..])
  }

  function Clamp(n: int): int {
    if n > LongMax then LongMax else if n < -LongMax - 1 then -LongMax - 1 else n
  }

  /** strtol(s, &next, 10): the number, and the string from `next` on, which is `s` itself if there is no number. */
  function Strtol(s: string): (r: (int, string))
    ensures |r.1| <= |s|
  {
    var t := SkipWhite(s);
    var signed := t != [] && (t[0] == '+' || t[0] == '-');
    var u := if signed then t[1..] else t;
    var k := Digits(u);
    if k == 0 then (0, s)
    else
      var size: int := Number(u[..k]);
      (Clamp(if signed && t[0] == '-' then -size else size), u[k..])
  }

  /** A long has 64 bits, and white space is what isspace takes for it. */
  lemma LibraryIs(n: int, c: char)
    ensures -9223372036854775808 <= Clamp(n) <= 9223372036854775807
    ensures -9223372036854775808 <= n <= 9223372036854775807 ==> Clamp(n) == n
    ensures n < -9223372036854775808 ==> Clamp(n) == -9223372036854775808
    ensures n > 9223372036854775807 ==> Clamp(n) == 9223372036854775807
    ensures IsSpace(c) <==> c as int == 32 || 9 <= c as int <= 13
  {
  }

  /** strncpy of all of `v`, without a zero behind it, onto an array that holds `before` and zeros. */
  function Overlay(before: string, v: string): (r: string)
    ensures |r| == if |v| < |before| then |before| else |v|
  {
    if |v| < |before| then v + before[|v|..] else v
  }

  // The scan.

  predicate IsText(c: char) { c == 'p' || c == 'm' || c == 'u' }

  /** The value of a string option: behind the spaces, up to the next option. */
  function Piece(s: string): string {
    var t := SkipSpaces(s);
    t[..Break(t)]
  }

  /** What follows that value. */
  function Behind(s: string): (r: string)
    ensures |r| + |Piece(s)| <= |s|
  {
    var t := SkipSpaces(s);
    t[Break(t)..]
  }

  /** The switch, for the char behind a hyphen: what is stored, and where the scan goes on. */
  function Switch(c: char, s: string, f: Fields): (r: (Fields, string))
    ensures |r.1| <= |s|
  {
    var v, rest := Piece(s), Behind(s);
    match c
    case 'd' => (f.(duration := Strtol(s).0), Strtol(s).1)
    case 'n' => (f.(num := Strtol(s).0), Strtol(s).1)
    case 'p' => (f.(prefix := Overlay(f.prefix, v)), rest)
    case 'm' => (f.(index := Overlay(f.index, v)), rest)
    case 'u' => (f.(url := Overlay(f.url, v)), rest)
    case _ => (f, s)
  }

  function Parse(s: string, f: Fields): Fields
    decreases |s|
  {
    var k := Hyphen(s);
    if k + 1 >= |s| then f
    else
      var r := Switch(s[k + 1], s[k + 2..], f);
      Parse(r.1, r.0)
  }

  const Zeroed := Fields(0, 0, "", "", "")

  // What is printed is what is read.

  /** A value that the scan takes in one piece. */
  predicate OnePiece(v: string) {
    (v != [] ==> v[0] != ' ') && Break(v) == |v|
  }

  /** Where a value ends: at the end of the text, or before the next option. */
  predicate Ends(rest: string) {
    rest == [] || BreaksAt(rest, 0)
  }

  lemma {:induction false} DigitsOf(d: string, rest: string)
    requires AllDigits(d) && rest != [] && !IsDigit(rest[0])
    ensures Digits(d + rest) == |d|
  {
    if d == [] {
      assert d + rest == rest;
    } else {
      DigitsOf(d[1..], rest);
      assert (d + rest)[1..] == d[1..] + rest;
    }
  }

  lemma SkipOneSpace(t: string)
    requires t != [] && !IsSpace(t[0])
    ensures SkipWhite(" " + t) == t
  {
    assert (" " + t)[1..] == t;
  }

  lemma DigitsThenRest(d: string, rest: string)
    requires AllDigits(d) && rest != [] && !IsDigit(rest[0])
    ensures Digits(d + rest) == |d| && (d + rest)[..|d|] == d && (d + rest)[|d|..] == rest
  {
    DigitsOf(d, rest);
  }

  lemma StrtolOfDigits(minus: bool, d: string, rest: string)
    requires d != [] && AllDigits(d) && rest != [] && !IsDigit(rest[0])
    ensures Strtol(" " + ((if minus then "-" + d else d) + rest))
            == (Clamp(if minus then -(Number(d) as int) else Number(d)), rest)
  {
    hide SkipWhite, Digits, Number, Clamp;
    DigitsThenRest(d, rest);
    if minus {
      SkipOneSpace("-" + d + rest);
      assert ("-" + d + rest)[1..] == d + rest;
    } else {
      SkipOneSpace(d + rest);
    }
  }

  /** strtol reads back what %d prints. */
  lemma StrtolOfSigned(n: int, rest: string)
    requires -0x8000_0000 <= n <= 0x7fff_ffff && rest != [] && rest[0] == ' '
    ensures Strtol(" " + (Signed(n) + rest)) == (n, rest)
  {
    hide Strtol;
    var size: nat := if n < 0 then -n else n;
    StrtolOfDigits(n < 0, Dec(size), rest);
    NumberDec(size);
  }

  /** The scan ends a value where the text does. */
  lemma BreakOfValue(v: string, rest: string)
    requires Ends(rest)
    ensures Break(v + rest) == Break(v)
  {
    var s := v + rest;
    forall j: nat | j < Break(v)
      ensures !BreaksAt(s, j)
    {
      assert !BreaksAt(v, j);
    }
    if Break(v) < |v| {
      assert BreaksAt(v, Break(v));
      assert BreaksAt(s, Break(v));
    } else {
      assert rest != [] ==> BreaksAt(s, |v|);
    }
  }

  lemma SwitchTakesValue(c: char, v: string, rest: string, f: Fields)
    requires IsText(c) && OnePiece(v) && Ends(rest) && (v != [] || rest == [])
    ensures Switch(c, " " + (v + rest), f).1 == rest
    ensures c == 'p' ==> Switch(c, " " + (v + rest), f).0 == f.(prefix := Overlay(f.prefix, v))
    ensures c == 'm' ==> Switch(c, " " + (v + rest), f).0 == f.(index := Overlay(f.index, v))
    ensures c == 'u' ==> Switch(c, " " + (v + rest), f).0 == f.(url := Overlay(f.url, v))
  {
    assert (" " + (v + rest))[1..] == v + rest;
    assert SkipSpaces(" " + (v + rest)) == v + rest;
    BreakOfValue(v, rest);
    assert (v + rest)[..|v|] == v && (v + rest)[|v|..] == rest;
  }

  /** An option in front, with or without the space before its hyphen, goes to the switch. */
  lemma ParseOption(lead: string, c: char, s: string, f: Fields)
    requires lead == " -" || lead == "-"
    ensures Parse(lead + [c] + s, f) == Parse(Switch(c, s, f).1, Switch(c, s, f).0)
  {
    var t := lead + [c] + s;
    assert lead == " -" ==> t[1..] == "-" + [c] + s;
    assert Hyphen(t) == |lead| - 1;
    assert t[|lead| + 1..] == s;
  }

  /** What the text goes on with behind each option. */
  function FromUrl(o: Fields): string { " -" + ['u'] + (" " + o.url) }
  function FromIndex(o: Fields): string { " -" + ['m'] + (" " + (o.index + FromUrl(o))) }
  function FromPrefix(o: Fields): string { " -" + ['p'] + (" " + (o.prefix + FromIndex(o))) }
  function FromDuration(o: Fields): string { " -" + ['d'] + (" " + (Signed(o.duration) + FromPrefix(o))) }

  lemma PrintedIs(o: Fields)
    ensures Printed(o) == "-" + ['n'] + (" " + (Signed(o.num) + FromDuration(o)))
  {
    assert FromUrl(o) == " -u " + o.url;
    assert FromIndex(o) == " -m " + o.index + FromUrl(o);
    assert FromPrefix(o) == " -p " + o.prefix + FromIndex(o);
    assert FromDuration(o) == " -d " + Signed(o.duration) + FromPrefix(o);
  }

  /** printf's argument type for both numbers. */
  predicate Ints(o: Fields) {
    -0x8000_0000 <= o.num <= 0x7fff_ffff && -0x8000_0000 <= o.duration <= 0x7fff_ffff
  }

  /** Both numbers are read back, whatever the strings are. */
  lemma NumbersRead(o: Fields)
    requires Ints(o)
    ensures Parse(Printed(o), Zeroed) == Parse(FromPrefix(o), Zeroed.(num := o.num, duration := o.duration))
  {
    hide Parse, Strtol, Signed;
    PrintedIs(o);
    ParseOption("-", 'n', " " + (Signed(o.num) + FromDuration(o)), Zeroed);
    StrtolOfSigned(o.num, FromDuration(o));
    ParseOption(" -", 'd', " " + (Signed(o.duration) + FromPrefix(o)), Zeroed.(num := o.num));
    StrtolOfSigned(o.duration, FromPrefix(o));
  }

  /** With both file names in one piece and not empty, the scan comes to the URL prefix with all else read. */
  lemma FileNamesRead(o: Fields)
    requires Ints(o) && o.prefix != [] && OnePiece(o.prefix) && o.index != [] && OnePiece(o.index)
    ensures Parse(Printed(o), Zeroed) == Parse(FromUrl(o), o.(url := ""))
  {
    hide Parse, Switch, OnePiece;
    NumbersRead(o);
    var f := Zeroed.(num := o.num, duration := o.duration);
    ParseOption(" -", 'p', " " + (o.prefix + FromIndex(o)), f);
    SwitchTakesValue('p', o.prefix, FromIndex(o), f);
    ParseOption(" -", 'm', " " + (o.index + FromUrl(o)), f.(prefix := o.prefix));
    SwitchTakesValue('m', o.index, FromUrl(o), f.(prefix := o.prefix));
  }

  lemma ParseNothing(f: Fields)
    ensures Parse([], f) == f
  {
  }

  /** A field is never cut shorter, and no field comes to begin with a space. */
  predicate Grown(f: Fields, g: Fields) {
    && |f.prefix| <= |g.prefix| && |f.index| <= |g.index| && |f.url| <= |g.url|
    && (Unspaced(f) ==> Unspaced(g))
  }

  predicate Unspaced(f: Fields) {
    && (f.prefix != [] ==> f.prefix[0] != ' ')
    && (f.index != [] ==> f.index[0] != ' ')
    && (f.url != [] ==> f.url[0] != ' ')
  }

  lemma SwitchGrows(c: char, s: string, f: Fields)
    ensures Grown(f, Switch(c, s, f).0)
    ensures |Switch(c, s, f).0.url| <= if |f.url| < |s| then |s| else |f.url|
  {
    if IsText(c) {
      SwitchIsPiece(c, s, f);
      PieceFits(s);
      hide Switch, Piece, Behind, Overlay;
      OverlayStarts(f.prefix, Piece(s));
      OverlayStarts(f.index, Piece(s));
      OverlayStarts(f.url, Piece(s));
    } else {
      hide Piece, Behind, Strtol;
    }
  }

  /** What is copied over an earlier value begins with no space, unless that did, or the new value. */
  lemma OverlayStarts(before: string, v: string)
    ensures v != [] ==> Overlay(before, v)[0] == v[0]
    ensures v == [] ==> Overlay(before, v) == before
  {
  }

  lemma PieceFits(s: string)
    ensures |Piece(s)| <= |s| && (Piece(s) != [] ==> Piece(s)[0] != ' ')
  {
    hide Break;
  }

  lemma {:induction false} FieldsGrow(s: string, f: Fields)
    ensures Grown(f, Parse(s, f))
    ensures |Parse(s, f).url| <= if |f.url| < |s| then |s| else |f.url|
    decreases |s|
  {
    hide Switch;
    var k := Hyphen(s);
    if k + 1 < |s| {
      var c, t := s[k + 1], s[k + 2..];
      SwitchGrows(c, t, f);
      FieldsGrow(Switch(c, t, f).1, Switch(c, t, f).0);
    }
  }

  /** A URL prefix that begins with a space or has a hyphen behind one does not come back. */
  lemma BrokenUrl(url: string, f: Fields)
    requires !OnePiece(url) && f.url == [] && Unspaced(f)
    ensures Parse(Switch('u', " " + url, f).1, Switch('u', " " + url, f).0).url != url
  {
    hide Parse, Switch;
    var r := Switch('u', " " + url, f);
    SwitchGrows('u', " " + url, f);
    FieldsGrow(r.1, r.0);
    if url[0] != ' ' {
      SwitchTakesPiece(url, f);
    }
  }

  lemma SwitchTakesPiece(url: string, f: Fields)
    requires url != [] && url[0] != ' ' && f.url == []
    ensures Switch('u', " " + url, f) == (f.(url := url[..Break(url)]), url[Break(url)..]) && Break(url) > 0
  {
    assert (" " + url)[1..] == url;
    assert SkipSpaces(" " + url) == url;
  }

  lemma SwitchLeavesSpace(c: char, s: string, f: Fields)
    requires c == 'p' || c == 'm'
    requires s != [] && s[0] == '-' && Unspaced(f)
    ensures c == 'p' ==> Switch(c, "  " + s, f).0.prefix != []
    ensures c == 'm' ==> Switch(c, "  " + s, f).0.index != []
  {
    var t := "  " + s;
    assert t[1..] == " " + s && t[1..][1..] == s;
    assert SkipSpaces(t) == SkipSpaces(" " + s) == SkipSpaces(s) == s;
  }

  /** A first file name that is empty or begins with a space never comes back, whatever the other fields are. */
  lemma PrefixNeeded(o: Fields)
    requires Ints(o) && (o.prefix == [] || o.prefix[0] == ' ')
    ensures Parse(Printed(o), Zeroed).prefix != o.prefix
  {
    hide Parse, Switch;
    NumbersRead(o);
    var f := Zeroed.(num := o.num, duration := o.duration);
    var s := " " + (o.prefix + FromIndex(o));
    ParseOption(" -", 'p', s, f);
    SwitchGrows('p', s, f);
    FieldsGrow(Switch('p', s, f).1, Switch('p', s, f).0);
    if o.prefix == [] {
      assert s == "  " + FromIndex(o)[1..];
      SwitchLeavesSpace('p', FromIndex(o)[1..], f);
    }
  }

  /** Nor does such a second one. */
  lemma IndexNeeded(o: Fields)
    requires Ints(o) && o.prefix != [] && OnePiece(o.prefix) && (o.index == [] || o.index[0] == ' ')
    ensures Parse(Printed(o), Zeroed).index != o.index
  {
    hide Parse, Switch, Break;
    NumbersRead(o);
    var f := Zeroed.(num := o.num, duration := o.duration);
    ParseOption(" -", 'p', " " + (o.prefix + FromIndex(o)), f);
    SwitchTakesValue('p', o.prefix, FromIndex(o), f);
    var g := f.(prefix := o.prefix);
    var s := " " + (o.index + FromUrl(o));
    ParseOption(" -", 'm', s, g);
    SwitchGrows('m', s, g);
    FieldsGrow(Switch('m', s, g).1, Switch('m', s, g).0);
    if o.index == [] {
      assert s == "  " + FromUrl(o)[1..];
      SwitchLeavesSpace('m', FromUrl(o)[1..], g);
    }
  }

  // The converse: what comes back was clean. To come back, a field needs to be stored from a piece of its own length, and
  // each stored piece costs the text three more chars.

  /** The text that a field still needs: its own length, and a space, a hyphen and a letter. */
  function Lack(have: string, want: string): nat {
    if |have| < |want| then |want| + 3 else 0
  }

  function Missing(f: Fields, o: Fields): nat {
    Lack(f.prefix, o.prefix) + Lack(f.index, o.index) + Lack(f.url, o.url)
  }

  lemma SwitchCost(c: char, t: string, f: Fields, o: Fields)
    ensures var r := Switch(c, t, f);
            || Missing(r.0, o) == Missing(f, o)
            || (Ends(r.1) && Missing(f, o) <= Missing(r.0, o) + |t| - |r.1| + 3)
  {
    hide Strtol, SkipSpaces, Break;
  }

  /** If all fields reach their lengths, the text was long enough for all that was missing. */
  lemma {:induction false} LengthsCost(s: string, f: Fields, o: Fields)
    requires Missing(Parse(s, f), o) == 0
    ensures Missing(f, o) <= |s| + 1 && (Ends(s) ==> Missing(f, o) <= |s|)
    decreases |s|
  {
    hide Switch, Missing;
    var k := Hyphen(s);
    if k + 1 < |s| {
      var c, t := s[k + 1], s[k + 2..];
      SwitchCost(c, t, f, o);
      LengthsCost(Switch(c, t, f).1, Switch(c, t, f).0, o);
      if Ends(s) {
        assert Hyphen(s) == 1 by {
          assert s[1..][0] == '-';
        }
      }
    }
  }

  /** The scan from an option letter on. */
  function Then(c: char, s: string, f: Fields): Fields {
    Parse(Switch(c, s, f).1, Switch(c, s, f).0)
  }

  /** The text ends in an option without a value. */
  ghost predicate EndsInFlag(x: string, c: char) {
    exists j: nat :: FlagAt(x, c, j)
  }

  predicate FlagAt(x: string, c: char, j: nat) {
    j + 1 < |x| && x[j] == '-' && x[j + 1] == c && SkipSpaces(x[j + 2..]) == []
  }

  /** The text of another option. */
  predicate IsOption(y: string) {
    |y| > 3 && BreaksAt(y, 0) && (y[2] == 'm' || y[2] == 'u') && y[3] == ' '
  }

  lemma {:induction false} SkipSpacesUpTo(t: string, y: string)
    ensures SkipSpaces(t + y) == if SkipSpaces(t) == [] then SkipSpaces(y) else SkipSpaces(t) + y
  {
    if t == [] {
      assert t + y == y;
    } else if t[0] == ' ' {
      assert (t + y)[1..] == t[1..] + y;
      SkipSpacesUpTo(t[1..], y);
    }
  }

  lemma {:induction false} SkipWhiteUpTo(t: string, y: string)
    ensures SkipWhite(t + y) == if SkipWhite(t) == [] then SkipWhite(y) else SkipWhite(t) + y
  {
    if t == [] {
      assert t + y == y;
    } else if IsSpace(t[0]) {
      assert (t + y)[1..] == t[1..] + y;
      SkipWhiteUpTo(t[1..], y);
    }
  }

  lemma {:induction false} DigitsUpTo(t: string, y: string)
    requires y != [] && !IsDigit(y[0])
    ensures Digits(t + y) == Digits(t)
  {
    if t == [] {
      assert t + y == y;
    } else if IsDigit(t[0]) {
      assert (t + y)[1..] == t[1..] + y;
      DigitsUpTo(t[1..], y);
    }
  }

  /** A number does not reach into the next option. */
  lemma StrtolUpTo(t: string, y: string)
    requires IsOption(y)
    ensures Strtol(t + y) == (Strtol(t).0, Strtol(t).1 + y)
  {
    hide SkipWhite, Digits, Number, Clamp;
    SkipWhiteUpTo(t, y);
    var w := SkipWhite(t);
    if w == [] {
      NoNumber(t, y);
    } else {
      var u := if w[0] == '+' || w[0] == '-' then w[1..] else w;
      CutAt(w, y, 1);
      DigitsUpTo(u, y);
      CutAt(u, y, Digits(u));
    }
  }

  lemma NoNumber(t: string, y: string)
    requires IsOption(y) && SkipWhite(t) == []
    ensures Strtol(t) == (0, t) && Strtol(t + y) == (0, t + y)
  {
    SkipWhiteUpTo(t, y);
    assert SkipWhite(y) == y[1..];
    assert y[1..][1..] == y[2..];
  }

  /** A switch on a text with another option behind it: it stops before that option, or else is one without a value. */
  lemma SwitchUpTo(c: char, t: string, y: string, f: Fields)
    requires IsOption(y)
    ensures if IsText(c) && SkipSpaces(t) == [] then
              Switch(c, t, f) == (f, []) && Switch(c, t + y, f) == Switch(c, y, f)
            else Switch(c, t + y, f) == (Switch(c, t, f).0, Switch(c, t, f).1 + y)
  {
    StrtolUpTo(t, y);
    PieceUpTo(t, y);
    hide SkipSpaces, Strtol, Piece, Behind, Overlay, IsOption;
    if IsText(c) && SkipSpaces(t) == [] {
      NoPiece(c, t, y, f);
    }
  }

  lemma NoPiece(c: char, t: string, y: string, f: Fields)
    requires IsText(c) && SkipSpaces(t) == [] && SkipSpaces(t + y) == SkipSpaces(y)
    ensures Switch(c, t, f) == (f, []) && Switch(c, t + y, f) == Switch(c, y, f)
  {
    hide SkipSpaces, Strtol;
    OverlayNothing(f.prefix);
    OverlayNothing(f.index);
    OverlayNothing(f.url);
    var v := SkipSpaces(t);
    assert v[..Break(v)] == [] && v[Break(v)..] == [];
  }

  lemma OverlayNothing(v: string)
    ensures Overlay(v, []) == v
  {
  }

  lemma PieceUpTo(t: string, y: string)
    requires IsOption(y)
    ensures SkipSpaces(t) == [] ==> SkipSpaces(t + y) == SkipSpaces(y)
    ensures SkipSpaces(t) != [] ==> Piece(t + y) == Piece(t) && Behind(t + y) == Behind(t) + y
  {
    SkipSpacesUpTo(t, y);
    var v := SkipSpaces(t);
    BreakOfValue(v, y);
    hide SkipSpaces, Break;
    var k := Break(v);
    assert (v + y)[..k] == v[..k] && (v + y)[k..] == v[k..] + y;
  }

  /** The scan of `x` with another option behind it: first as if `x` were all, then, behind a last option letter `c` in
      `x` that has no value, or directly (a space, which the switch ignores), that option. */
  lemma {:induction false} ParseUpTo(x: string, y: string, f: Fields) returns (c: char)
    requires IsOption(y)
    ensures (c == ' ' || IsText(c)) && (c != ' ' ==> EndsInFlag(x, c))
    ensures Parse(x + y, f) == Then(c, y, Parse(x, f))
    decreases |x|
  {
    hide Switch, SkipSpaces, Strtol;
    var k := Hyphen(x);
    HyphenUpTo(x, y);
    c := ' ';
    if k + 1 >= |x| {
      ParseBehind(x, y, f);
    } else {
      var c0, t := x[k + 1], x[k + 2..];
      assert (x + y)[k + 2..] == t + y;
      SwitchUpTo(c0, t, y, f);
      if IsText(c0) && SkipSpaces(t) == [] {
        c := c0;
        assert FlagAt(x, c, k);
      } else {
        var r := Switch(c0, t, f);
        c := ParseUpTo(r.1, y, r.0);
        if c != ' ' {
          FlagInRest(x, k + 2, c0, f, c);
        }
      }
    }
  }

  lemma {:induction false} HyphenUpTo(x: string, y: string)
    requires IsOption(y)
    ensures Hyphen(x + y) == if Hyphen(x) < |x| then Hyphen(x) else |x| + 1
  {
    if x == [] {
      assert x + y == y;
      assert y[1..][0] == '-';
    } else if x[0] != '-' {
      assert (x + y)[1..] == x[1..] + y;
      HyphenUpTo(x[1..], y);
    }
  }

  /** Where `x` holds no option letter, what follows decides. */
  lemma ParseBehind(x: string, y: string, f: Fields)
    requires IsOption(y) && Hyphen(x) + 1 >= |x|
    ensures Parse(x + y, f) == Then(' ', y, Parse(x, f))
  {
    ParseLead(y, f);
    if Hyphen(x) == |x| {
      HyphenUpTo(x, y);
      ParseAt(x + y, |x| + 1, f);
      assert (x + y)[|x| + 3..] == y[3..];
    } else {
      HyphenUpTo(x, y);
      ParseAt(x + y, |x| - 1, f);
      assert (x + y)[|x| + 1..] == y[1..];
    }
  }

  lemma ParseAt(s: string, k: nat, f: Fields)
    requires k == Hyphen(s) && k + 1 < |s|
    ensures Parse(s, f) == Then(s[k + 1], s[k + 2..], f)
  {
    hide Switch, Hyphen;
  }

  /** The space in front of an option makes no difference. */
  lemma ParseLead(y: string, f: Fields)
    requires IsOption(y)
    ensures Parse(y, f) == Then(y[2], y[3..], f) == Parse(y[1..], f)
  {
    assert y[1..][0] == '-';
    ParseAt(y, 1, f);
    ParseAt(y[1..], 0, f);
    assert y[1..][2..] == y[3..];
  }

  lemma FlagInRest(x: string, from: nat, c0: char, f: Fields, c: char)
    requires from <= |x| && EndsInFlag(Switch(c0, x[from..], f).1, c)
    ensures EndsInFlag(x, c)
  {
    var t := x[from..];
    var r := Switch(c0, t, f).1;
    SwitchSuffix(c0, t, f);
    hide Switch;
    var j: nat :| FlagAt(r, c, j);
    var d := |x| - |r|;
    assert x[d..] == r;
    assert x[d + j + 2..] == r[j + 2..];
    assert FlagAt(x, c, d + j);
  }

  lemma {:induction false} SkipSpacesSuffix(s: string)
    ensures SkipSpaces(s) == s[|s| - |SkipSpaces(s)|..]
  {
    if s != [] && s[0] == ' ' {
      SkipSpacesSuffix(s[1..]);
    }
  }

  lemma {:induction false} SkipWhiteSuffix(s: string)
    ensures SkipWhite(s) == s[|s| - |SkipWhite(s)|..]
  {
    if s != [] && IsSpace(s[0]) {
      SkipWhiteSuffix(s[1..]);
    }
  }

  /** `next` points into the string. */
  lemma StrtolSuffix(s: string)
    ensures Strtol(s).1 == s[|s| - |Strtol(s).1|..]
  {
    SkipWhiteSuffix(s);
  }

  lemma SwitchSuffix(c: char, s: string, f: Fields)
    ensures Switch(c, s, f).1 == s[|s| - |Switch(c, s, f).1|..]
  {
    StrtolSuffix(s);
    SkipSpacesSuffix(s);
    hide Strtol, SkipSpaces, Break;
  }

  lemma OneSpace(w: string)
    requires w != [] && w[0] != ' '
    ensures SkipSpaces(" " + w) == w
  {
    assert (" " + w)[1..] == w;
  }

  /** A value that may not be in one piece: the first piece is stored, the scan goes on with the rest. */
  lemma FirstPiece(v: string, rest: string)
    requires v != [] && v[0] != ' ' && Ends(rest)
    ensures Piece(" " + (v + rest)) == v[..Break(v)] && Behind(" " + (v + rest)) == v[Break(v)..] + rest
  {
    OneSpace(v + rest);
    BreakOfValue(v, rest);
    CutAt(v, rest, Break(v));
    hide SkipSpaces, Break, Ends;
  }

  lemma CutAt(v: string, rest: string, k: nat)
    requires k <= |v|
    ensures (v + rest)[..k] == v[..k] && (v + rest)[k..] == v[k..] + rest
  {
  }

  lemma FirstBreak(v: string, rest: string)
    requires v != [] && v[0] != ' ' && !OnePiece(v)
    ensures 0 < Break(v) < |v| && Ends(v[Break(v)..] + rest)
  {
    assert BreaksAt(v[Break(v)..] + rest, 0);
  }

  /** The end of a text whose URL prefix is empty, reached at the option or swallowed by one without a value. */
  lemma EmptyUrlEnd(c: char, g: Fields)
    requires (c == ' ' || IsText(c))
    ensures c == ' ' ==> Then(c, " -u ", g) == g
    ensures c == 'p' ==> Then(c, " -u ", g) == g.(prefix := Overlay(g.prefix, "-u "))
    ensures c == 'm' ==> Then(c, " -u ", g) == g.(index := Overlay(g.index, "-u "))
    ensures c == 'u' ==> Then(c, " -u ", g).url != []
  {
    hide Parse, Piece, Behind, Strtol;
    if c == ' ' {
      EmptyUrlBehindSpace(g);
    } else {
      EmptyUrlIsPiece();
      ParseNothing(Switch(c, " -u ", g).0);
    }
  }

  lemma EmptyUrlBehindSpace(g: Fields)
    ensures Then(' ', " -u ", g) == g
  {
    var y := " -u ";
    ParseLead(y, g);
    assert y[3..] == " " && SkipSpaces(" ") == [];
    assert SkipSpaces(y[3..] + []) == SkipSpaces([]);
    NoPiece('u', y[3..], [], g);
  }

  lemma EmptyUrlIsPiece()
    ensures Piece(" -u ") == "-u " && Behind(" -u ") == ""
  {
    assert " -u "[1..] == "-u " && SkipSpaces(" -u ") == "-u ";
    NoBreak();
  }

  lemma EmptyUrlOption(g: Fields)
    ensures Parse(" -u ", g) == g
  {
    EmptyUrlEnd(' ', g);
  }

  lemma NoBreak()
    ensures Break("-u ") == 3 && OnePiece("-u ")
  {
    var v := "-u ";
    assert v[1..] == "u " && v[1..][1..] == " " && v[1..][1..][1..] == "";
  }

  lemma {:induction false} AllSpaces(s: string, i: nat)
    requires SkipSpaces(s) == [] && i < |s|
    ensures s[i] == ' '
  {
    if i > 0 {
      AllSpaces(s[1..], i - 1);
    }
  }

  /** A text that ends in `-u ` does not end in another option. */
  lemma OtherFlag(x: string, c: char)
    requires |x| >= 3 && x[|x| - 3..] == "-u " && c != 'u' && c != ' '
    ensures !EndsInFlag(x, c)
  {
    assert x[|x| - 2] == x[|x| - 3..][1] && x[|x| - 1] == x[|x| - 3..][2];
    forall j: nat | FlagAt(x, c, j)
      ensures false
    {
      if j + 2 <= |x| - 2 {
        AllSpaces(x[j + 2..], |x| - 4 - j);
      }
    }
  }

  /** If a stored field reaches its length, the text was long enough for it. */
  lemma UrlCost(s: string, f: Fields, want: string)
    requires Ends(s) && |f.url| < |want| <= |Parse(s, f).url|
    ensures |want| + 3 <= |s|
  {
    LengthsCost(s, f, Zeroed.(url := want));
  }

  lemma PrefixCost(s: string, f: Fields, want: string)
    requires Ends(s) && |f.prefix| < |want| <= |Parse(s, f).prefix|
    ensures |want| + 3 <= |s|
  {
    LengthsCost(s, f, Zeroed.(prefix := want));
  }

  lemma IndexCost(s: string, f: Fields, want: string)
    requires Ends(s) && |f.index| < |want| <= |Parse(s, f).index|
    ensures |want| + 3 <= |s|
  {
    LengthsCost(s, f, Zeroed.(index := want));
  }

  /** The output prefix is broken, the index name empty: the index option is never passed without a value. */
  lemma BrokenPrefixEmptyIndex(o: Fields, f: Fields, x: string)
    requires o.index == [] && Unspaced(f) && (o.url != [] ==> o.url[0] != ' ')
    requires |x| < |o.prefix| && BreaksAt(x, 0) && |f.prefix| < |o.prefix| && f.url == []
    ensures Parse(x + FromIndex(o), f) != o
  {
    hide Parse, Switch, Overlay;
    var y := FromIndex(o);
    assert y == " -m  -u " + o.url;
    var c := ParseUpTo(x, y, f);
    var g := Parse(x, f);
    FieldsGrow(x, f);
    if c == ' ' || c == 'm' {
      IndexStored(c, y, o.url, g);
    } else {
      FlagTakesRoom(x, c);
      TooShort(o, f, x);
      IndexSwallowed(c, o, g);
    }
  }

  lemma FlagTakesRoom(x: string, c: char)
    requires BreaksAt(x, 0) && EndsInFlag(x, c)
    ensures |x| >= 3
  {
    var j: nat :| FlagAt(x, c, j);
    assert j > 0;
  }

  lemma IndexSwallowed(c: char, o: Fields, g: Fields)
    requires c == 'p' || c == 'u'
    requires 3 < |o.prefix| && |g.prefix| < |o.prefix| && (o.url != [] ==> o.url[0] != ' ')
    requires |g.url| < |o.url| || |o.url| < |o.prefix|
    ensures Then(c, " -m  -u " + o.url, g) != o
  {
    hide Parse, Switch;
    var y := " -m  -u " + o.url;
    EmptyIndexSwallowed(c, y, o.url, g);
    UrlNeverCatchesUp(o, Switch(c, y, g).0);
  }

  lemma TooShort(o: Fields, f: Fields, x: string)
    requires |x| < |o.prefix| && BreaksAt(x, 0) && |f.prefix| < |o.prefix| && f.url == []
    ensures |Parse(x, f).prefix| < |o.prefix|
    ensures |Parse(x, f).url| < |o.url| || |o.url| < |o.prefix|
  {
    hide Parse;
    var g := Parse(x, f);
    if |g.prefix| >= |o.prefix| {
      PrefixCost(x, f, o.prefix);
    }
    if o.url != [] && |g.url| >= |o.url| {
      UrlCost(x, f, o.url);
    }
  }

  lemma IndexStored(c: char, y: string, url: string, g: Fields)
    requires y == " -m  -u " + url && (c == ' ' || c == 'm') && Unspaced(g)
    ensures Then(c, y, g).index != []
  {
    if c == ' ' {
      assert y[2] == 'm' && y[3..] == "  " + ("-u " + url);
      hide Switch, Parse;
      ParseLead(y, g);
      SwitchLeavesSpace('m', "-u " + url, g);
      FieldsGrow(Switch('m', y[3..], g).1, Switch('m', y[3..], g).0);
    } else {
      hide Parse;
      MStored(y, url, g);
      FieldsGrow(Switch(c, y, g).1, Switch(c, y, g).0);
    }
  }

  lemma MStored(y: string, url: string, g: Fields)
    requires y == " -m  -u " + url
    ensures Switch('m', y, g).0.index != []
  {
    assert y == " " + ("-m " + (" -u " + url));
    assert SkipSpaces(y) == y[1..] && y[1..][0] == '-';
    PieceLongEnough(y);
  }

  lemma PieceLongEnough(y: string)
    requires SkipSpaces(y) != [] && SkipSpaces(y)[0] != ' '
    ensures Piece(y) != []
  {
    assert !BreaksAt(SkipSpaces(y), 0);
  }

  lemma EmptyIndexSwallowed(c: char, y: string, url: string, g: Fields)
    requires y == " -m  -u " + url && (c == 'p' || c == 'u')
    ensures Switch(c, y, g).1 == " -u " + url
    ensures c == 'p' ==> Switch(c, y, g).0 == g.(prefix := Overlay(g.prefix, "-m "))
    ensures c == 'u' ==> Switch(c, y, g).0 == g.(url := Overlay(g.url, "-m "))
  {
    var v, rest := "-m ", " -u " + url;
    assert y == " " + (v + rest);
    assert v[1..] == "m " && v[1..][1..] == " " && v[1..][1..][1..] == "";
    FirstPiece(v, rest);
    assert v[3..] + rest == rest;
  }

  /** What is left from the last option on is too short for the output prefix. */
  lemma UrlNeverCatchesUp(o: Fields, g: Fields)
    requires |g.prefix| < |o.prefix| && |o.prefix| >= 4
    requires o.url != [] ==> o.url[0] != ' ' && (|g.url| < |o.url| || |g.url| <= 3 || |o.url| < |o.prefix|)
    ensures Parse(" -u " + o.url, g).prefix != o.prefix || Parse(" -u " + o.url, g).url != o.url
  {
    hide Parse, Switch, Piece, Behind;
    ParseOption(" -", 'u', " " + o.url, g);
    assert " -" + ['u'] + (" " + o.url) == " -u " + o.url;
    if o.url == [] {
      assert " -u " + o.url == " -u ";
      EmptyUrlOption(g);
    } else {
      FirstPiece(o.url, []);
      assert o.url + [] == o.url;
      var k := Break(o.url);
      var g2, rest := Switch('u', " " + o.url, g).0, o.url[k..];
      assert Switch('u', " " + o.url, g) == (g.(url := Overlay(g.url, o.url[..k])), rest) by {
        SwitchIsPiece('u', " " + o.url, g);
        assert rest + [] == rest;
      }
      if Parse(rest, g2).prefix == o.prefix && Parse(rest, g2).url == o.url {
        RestEnds(o.url);
        LengthsCost(rest, g2, Zeroed.(prefix := o.prefix, url := o.url));
      }
    }
  }

  lemma SwitchIsPiece(c: char, s: string, g: Fields)
    requires IsText(c)
    ensures Switch(c, s, g).1 == Behind(s)
    ensures c == 'p' ==> Switch(c, s, g).0 == g.(prefix := Overlay(g.prefix, Piece(s)))
    ensures c == 'm' ==> Switch(c, s, g).0 == g.(index := Overlay(g.index, Piece(s)))
    ensures c == 'u' ==> Switch(c, s, g).0 == g.(url := Overlay(g.url, Piece(s)))
  {
  }

  lemma RestEnds(v: string)
    ensures Ends(v[Break(v)..])
  {
    if Break(v) < |v| {
      assert BreaksAt(v, Break(v));
    }
  }

  /** A field that comes back was in one piece: the output prefix. */
  lemma BrokenPrefix(o: Fields)
    requires Ints(o) && Unspaced(o) && o.prefix != [] && !OnePiece(o.prefix)
    ensures Parse(Printed(o), Zeroed) != o
  {
    hide Parse, Switch, Overlay, Piece, Behind;
    NumbersRead(o);
    var f := Zeroed.(num := o.num, duration := o.duration);
    var s := " " + (o.prefix + FromIndex(o));
    ParseOption(" -", 'p', s, f);
    SwitchIsPiece('p', s, f);
    FirstPiece(o.prefix, FromIndex(o));
    FirstBreak(o.prefix, FromIndex(o));
    var k := Break(o.prefix);
    var x := o.prefix[k..];
    OverEmpty(o.prefix[..k]);
    var f1 := f.(prefix := o.prefix[..k]);
    assert Parse(Printed(o), Zeroed) == Parse(x + FromIndex(o), f1);
    assert BreaksAt(x, 0);
    if Parse(x + FromIndex(o), f1) == o {
      if o.index == [] {
        BrokenPrefixEmptyIndex(o, f1, x);
      } else if o.url != [] {
        LengthsCost(x + FromIndex(o), f1, o);
      } else {
        assert x + " -m " + o.index + " -u " == x + FromIndex(o);
        assert (x + " -m " + o.index)[|x| + 4..] == o.index;
        EmptyUrl(o, f1, x + " -m " + o.index);
      }
    }
  }

  lemma OverEmpty(v: string)
    ensures Overlay([], v) == v
  {
  }

  /** With an empty URL prefix: the text in front of its option is long enough for all that was missing. */
  lemma EmptyUrl(o: Fields, f: Fields, x: string)
    requires o.url == [] && Ends(x) && BreaksAt(x, 0) && Parse(x + " -u ", f) == o
    requires |o.index| <= |x| && x[|x| - |o.index|..] == o.index && Unspaced(f)
    requires |f.index| < |o.index|
    requires |f.prefix| < |o.prefix| ==> !OnePiece(o.prefix)
    ensures Missing(f, o) <= |x|
  {
    hide Parse, Switch;
    var c := ParseUpTo(x, " -u ", f);
    var g := Parse(x, f);
    EmptyUrlEnd(c, g);
    FieldsGrow(x, f);
    NoBreak();
    if c == 'm' && o.index == "-u " {
      OtherFlag(x, c);
    }
    assert Lack(g.prefix, o.prefix) == 0 && Lack(g.index, o.index) == 0;
    LengthsCost(x, f, o);
  }

  /** The index name. */
  lemma BrokenIndex(o: Fields)
    requires Ints(o) && Unspaced(o) && o.prefix != [] && OnePiece(o.prefix) && o.index != [] && !OnePiece(o.index)
    ensures Parse(Printed(o), Zeroed) != o
  {
    hide Parse, Switch, Overlay, Piece, Behind;
    NumbersRead(o);
    var f := Zeroed.(num := o.num, duration := o.duration);
    ParseOption(" -", 'p', " " + (o.prefix + FromIndex(o)), f);
    SwitchTakesValue('p', o.prefix, FromIndex(o), f);
    OverEmpty(o.prefix);
    var f1, s := f.(prefix := o.prefix), " " + (o.index + FromUrl(o));
    ParseOption(" -", 'm', s, f1);
    SwitchIsPiece('m', s, f1);
    FirstPiece(o.index, FromUrl(o));
    FirstBreak(o.index, FromUrl(o));
    var k := Break(o.index);
    var x := o.index[k..];
    OverEmpty(o.index[..k]);
    var f2 := f1.(index := o.index[..k]);
    assert Parse(Printed(o), Zeroed) == Parse(x + FromUrl(o), f2);
    assert BreaksAt(x, 0);
    if Parse(x + FromUrl(o), f2) == o {
      if o.url != [] {
        LengthsCost(x + FromUrl(o), f2, o);
      } else {
        assert FromUrl(o) == " -u ";
        EmptyUrlBrokenIndex(o, f2, x);
      }
    }
  }

  lemma EmptyUrlBrokenIndex(o: Fields, f: Fields, x: string)
    requires o.url == [] && |x| < |o.index| && BreaksAt(x, 0) && |f.index| < |o.index| && !OnePiece(o.index)
    ensures Parse(x + " -u ", f).index != o.index || Parse(x + " -u ", f).url != o.url
  {
    hide Parse, Switch;
    var c := ParseUpTo(x, " -u ", f);
    var g := Parse(x, f);
    EmptyUrlEnd(c, g);
    NoBreak();
    if |g.index| >= |o.index| {
      IndexCost(x, f, o.index);
    }
  }

  /** A value that comes back whatever it is followed by. */
  predicate Clean(o: Fields) {
    && o.prefix != [] && OnePiece(o.prefix)
    && o.index != [] && OnePiece(o.index)
    && OnePiece(o.url)
  }

  /** All five fields come back exactly when no string begins with a space or has a hyphen behind one, and the two file
      names are not empty; hyphens may be anywhere else. */
  lemma ReadsBackExactly(o: Fields)
    requires Ints(o) && |Printed(o)| < BufSize
    ensures Parse(Cut(Printed(o)), Zeroed) == o <==> Clean(o)
  {
    hide Parse, Switch, Break, Printed;
    FieldsGrow(Printed(o), Zeroed);
    if Parse(Printed(o), Zeroed) == o {
      if o.prefix == [] {
        PrefixNeeded(o);
      } else if !OnePiece(o.prefix) {
        BrokenPrefix(o);
      } else if o.index == [] {
        IndexNeeded(o);
      } else if !OnePiece(o.index) {
        BrokenIndex(o);
      }
    }
    if o.prefix != [] && OnePiece(o.prefix) && o.index != [] && OnePiece(o.index) {
      UrlReadsBackExactly(o);
    }
  }

  /** With clean file names, it is up to the URL prefix. */
  lemma UrlReadsBackExactly(o: Fields)
    requires Ints(o) && o.prefix != [] && OnePiece(o.prefix) && o.index != [] && OnePiece(o.index)
    ensures Parse(Printed(o), Zeroed) == o <==> OnePiece(o.url)
  {
    hide Parse, Switch, Break;
    FileNamesRead(o);
    var f := o.(url := "");
    ParseOption(" -", 'u', " " + o.url, f);
    if OnePiece(o.url) {
      assert o.url + [] == o.url;
      SwitchTakesValue('u', o.url, [], f);
      ParseNothing(o);
    } else {
      BrokenUrl(o.url, f);
    }
  }
}

/** The reading as the segmenter does it, into the arrays of its options. */
module OptionParser {
  import opened OptionText

  /** The array holds `v` and zeros behind it. */
  ghost predicate Holds(a: array<char>, v: string)
    reads a
  {
    && |v| < a.Length == BufSize
    && a[..|v|] == v
    && forall k :: |v| <= k < BufSize ==> a[k] == '\0'
  }

  /** strncpy of all of `v`. */
  method StrNCpy(a: array<char>, v: string, ghost before: string)
    requires Holds(a, before) && |v| < BufSize
    modifies a
    ensures Holds(a, Overlay(before, v))
  {
    forall i | 0 <= i < |v| {
      a[i] := v[i];
    }
  }

  class Options {
    var segmentDuration: int
    var numSegments: int
    const outputPrefix: array<char>
    const m3u8File: array<char>
    const urlPrefix: array<char>

    ghost predicate Are(f: Fields)
      reads this, outputPrefix, m3u8File, urlPrefix
    {
      && outputPrefix != m3u8File && outputPrefix != urlPrefix && m3u8File != urlPrefix
      && segmentDuration == f.duration && numSegments == f.num
      && Holds(outputPrefix, f.prefix) && Holds(m3u8File, f.index) && Holds(urlPrefix, f.url)
    }

    /** The memset in front of the parse. */
    constructor ()
      ensures Are(Zeroed)
      ensures fresh(outputPrefix) && fresh(m3u8File) && fresh(urlPrefix)
    {
      segmentDuration, numSegments := 0, 0;
      outputPrefix := new char[BufSize](_ => '\0');
      m3u8File := new char[BufSize](_ => '\0');
      urlPrefix := new char[BufSize](_ => '\0');
    }

    /** istb_m3u8_parse_options: one pass over the text, which is shorter than main's buffer. */
    method ParseOptions(text: string, ghost f0: Fields)
      requires Are(f0) && |text| < BufSize
      modifies this, outputPrefix, m3u8File, urlPrefix
      ensures Are(Parse(text, f0))
    {
      var tmp, found := 0, true;
      ghost var f := f0;
      assert text[0..] == text;
      while found
        invariant tmp <= |text| && Are(f)
        invariant Parse(text, f0) == if found then Parse(text[tmp..], f) else f
        decreases found, |text| - tmp
      {
        hide Parse, Are, Switch;
        found, tmp, f := TakeOption(text, tmp, f);
      }
    }

    /** One turn of the scan, which always comes further on if it finds another hyphen. */
    method TakeOption(text: string, from: nat, ghost f: Fields) returns (found: bool, tmp: nat, ghost g: Fields)
      requires Are(f) && from <= |text| < BufSize
      modifies this, outputPrefix, m3u8File, urlPrefix
      ensures tmp <= |text| && (found ==> from < tmp) && Are(g)
      ensures Parse(text[from..], f) == if found then Parse(text[tmp..], g) else g
    {
      hide Parse, Are, Switch, Hyphen;
      ParseStep(text, from, f);
      tmp, g := from + Hyphen(text[from..]), f;
      found := tmp + 1 < |text|;
      if found {
        tmp, g := Store(text[tmp + 1], text, tmp + 2, f);
      }
    }

    /** The switch. */
    method Store(ch: char, text: string, from: nat, ghost f: Fields) returns (tmp: nat, ghost g: Fields)
      requires Are(f) && from <= |text| < BufSize
      modifies this, outputPrefix, m3u8File, urlPrefix
      ensures from <= tmp <= |text| && (g, text[tmp..]) == Switch(ch, text[from..], f) && Are(g)
    {
      g, tmp := Switch(ch, text[from..], f).0, from;
      match ch
      case 'd' =>
        var r := Strtol(text[from..]);
        StrtolSuffix(text[from..]);
        segmentDuration, tmp := r.0, |text| - |r.1|;
      case 'n' =>
        var r := Strtol(text[from..]);
        StrtolSuffix(text[from..]);
        numSegments, tmp := r.0, |text| - |r.1|;
      case 'p' =>
        tmp := TakeValue(outputPrefix, text, from, f.prefix);
      case 'm' =>
        tmp := TakeValue(m3u8File, text, from, f.index);
      case 'u' =>
        tmp := TakeValue(urlPrefix, text, from, f.url);
      case _ =>
    }
  }

  lemma ParseStep(text: string, i: nat, f: Fields)
    requires i <= |text|
    ensures var k := i + Hyphen(text[i..]);
            Parse(text[i..], f) ==
              if k + 1 >= |text| then f
              else Parse(Switch(text[k + 1], text[k + 2..], f).1, Switch(text[k + 1], text[k + 2..], f).0)
  {
    hide Switch;
    var t := text[i..];
    var k := Hyphen(t);
    if k + 1 < |t| {
      assert t[k + 2..] == text[i + k + 2..];
    }
  }

  /** The cases 'p', 'm' and 'u': the spaces are passed, and all before the next option is copied. */
  method TakeValue(a: array<char>, text: string, from: nat, ghost before: string) returns (tmp: nat)
    requires Holds(a, before) && from <= |text| < BufSize
    modifies a
    ensures from <= tmp <= |text|
    ensures var t := SkipSpaces(text[from..]);
            text[tmp..] == t[Break(t)..] && Holds(a, Overlay(before, t[..Break(t)]))
  {
    tmp := from;
    while tmp < |text| && text[tmp] == ' '
      invariant from <= tmp <= |text| && SkipSpaces(text[tmp..]) == SkipSpaces(text[from..])
    {
      assert text[tmp..][1..] == text[tmp + 1..];
      tmp := tmp + 1;
    }
    var t := text[tmp..];
    assert SkipSpaces(t) == t;
    var next := Break(t);
    StrNCpy(a, t[..next], before);
    tmp := tmp + next;
  }
}
