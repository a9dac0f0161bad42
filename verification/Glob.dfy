/** The glob patterns of the web server and their matcher, match_prefix. */
module Glob {
  import opened Common

  /** `lowercase`, in the C locale. */
  function Lower(c: char): char {
    if 'A' <= c <= 'Z' then c + ('a' - 'A') else c
  }

  /** How many pattern characters the star at the front takes: two for `**`. */
  function StarWidth(p: string): (w: nat)
    requires p != [] && p[0] == '*'
    ensures 0 < w <= |p|
  {
    if |p| > 1 && p[1] == '*' then 2 else 1
  }

  /** Pattern `p`, without alternatives, matches the first `n` characters of `s` when its stars stand for `e[0]`,
      `e[1]`, ... characters: `?` is any character, `*` any characters but a slash, `**` any characters; `$` is the
      end of `s` and ends the pattern; everything else stands for itself in either case. */
  ghost predicate Expands(p: string, s: string, e: seq<nat>, n: nat) {
    if p == [] then e == [] && n == 0
    else if p[0] == '?' then s != [] && n > 0 && Expands(p[1..], s[1..], e, n - 1)
    else if p[0] == '$' then s == [] && e == [] && n == 0
    else if p[0] == '*' then
      && e != [] && e[0] <= |s| && e[0] <= n
      && (StarWidth(p) == 1 ==> '/' !in s[..e[0]])
      && Expands(p[StarWidth(p)..], s[e[0]..], e[1..], n - e[0])
    else s != [] && n > 0 && Lower(p[0]) == Lower(s[0]) && Expands(p[1..], s[1..], e, n - 1)
  }

  ghost predicate Matches(p: string, s: string, n: nat) {
    exists e :: Expands(p, s, e, n)
  }

  /** `d` does not come before `e`: at the first star where they differ, `e` is longer. */
  ghost predicate AtMost(d: seq<nat>, e: seq<nat>) {
    d == [] || (e != [] && (d[0] < e[0] || (d[0] == e[0] && AtMost(d[1..], e[1..]))))
  }

  ghost predicate Greatest(p: string, s: string, e: seq<nat>, n: nat) {
    && Expands(p, s, e, n)
    && forall d: seq<nat>, m: nat :: Expands(p, s, d, m) ==> AtMost(d, e)
  }

  /** The answer for a pattern without alternatives: -1 if nothing matches, else the length matched when each star,
      from the left, is given as much as it can take. */
  ghost predicate Verdict(p: string, s: string, r: int) {
    if r < 0 then r == -1 && forall e: seq<nat>, n: nat :: !Expands(p, s, e, n)
    else exists e :: Greatest(p, s, e, r)
  }

  /** Matching can go on at `p[i..]` and `s[j..]`: the matches of the whole are those of the rest, moved by `j`. */
  ghost predicate Reaches(p: string, s: string, i: nat, j: nat) {
    && i <= |p| && j <= |s|
    && forall e: seq<nat>, n: nat :: Expands(p, s, e, n) <==> n >= j && Expands(p[i..], s[j..], e, n - j)
  }

  lemma ReachNext(p: string, s: string, i: nat, j: nat)
    requires Reaches(p, s, i, j) && i < |p| && j < |s|
    requires p[i] == '?' || (p[i] != '$' && p[i] != '*' && Lower(p[i]) == Lower(s[j]))
    ensures Reaches(p, s, i + 1, j + 1)
  {
    assert p[i..][1..] == p[i + 1..] && s[j..][1..] == s[j + 1..];
  }

  lemma ReachVerdict(p: string, s: string, i: nat, j: nat, r: int)
    requires Reaches(p, s, i, j) && Verdict(p[i..], s[j..], r)
    ensures Verdict(p, s, if r < 0 then -1 else j + r)
  {
    if r >= 0 {
      var e :| Greatest(p[i..], s[j..], e, r);
      assert Expands(p, s, e, j + r) <==> j + r >= j && Expands(p[i..], s[j..], e, j + r - j);
      assert Greatest(p, s, e, j + r);
    }
  }

  /** strcspn(s, "/") */
  function Span(s: string): (n: nat)
    ensures n <= |s| && '/' !in s[..n] && (n < |s| ==> s[n] == '/')
  {
    if s == [] || s[0] == '/' then 0 else 1 + Span(s[1..])
  }

  /** The most that a star at the front of `p` can take. */
  function StarReach(p: string, s: string): (n: nat)
    requires p != [] && p[0] == '*'
    ensures n <= |s|
  {
    if StarWidth(p) == 2 then |s| else Span(s)
  }

  lemma StarBound(p: string, s: string, k: nat)
    requires p != [] && p[0] == '*' && k <= |s|
    ensures k <= StarReach(p, s) <==> (StarWidth(p) == 1 ==> '/' !in s[..k])
  {
    if StarWidth(p) == 1 && k > Span(s) {
      assert s[..k][Span(s)] == '/';
    } else if StarWidth(p) == 1 {
      assert s[..k] <= s[..Span(s)];
    }
  }

  /** All ways in which the star at the front takes more than `len` characters have failed. */
  ghost predicate Tried(p: string, s: string, len: int)
    requires p != [] && p[0] == '*'
  {
    forall e: seq<nat>, n: nat :: Expands(p, s, e, n) ==> e[0] <= len
  }

  lemma TryNext(p: string, s: string, len: nat)
    requires p != [] && p[0] == '*' && Tried(p, s, len) && len <= StarReach(p, s)
    requires Verdict(p[StarWidth(p)..], s[len..], -1)
    ensures Tried(p, s, len - 1)
  {
  }

  lemma StarFound(p: string, s: string, len: nat, r: nat)
    requires p != [] && p[0] == '*' && Tried(p, s, len) && len <= StarReach(p, s)
    requires Verdict(p[StarWidth(p)..], s[len..], r)
    ensures Verdict(p, s, len + r)
  {
    var w := StarWidth(p);
    var e :| Greatest(p[w..], s[len..], e, r);
    var f := [len] + e;
    StarBound(p, s, len);
    assert f[1..] == e;
    assert Expands(p, s, f, len + r);
    forall d: seq<nat>, m: nat | Expands(p, s, d, m)
      ensures AtMost(d, f)
    {
      if d[0] == len {
        assert Expands(p[w..], s[len..], d[1..], m - len);
      }
    }
    assert Greatest(p, s, f, len + r);
  }

  lemma AllTried(p: string, s: string)
    requires p != [] && p[0] == '*'
    ensures Tried(p, s, StarReach(p, s))
  {
    forall e: seq<nat>, n: nat | Expands(p, s, e, n)
      ensures e[0] <= StarReach(p, s)
    {
      StarBound(p, s, e[0]);
    }
  }

  /** The part of match_prefix after the search for '|'. `after` is the character behind the pattern, which the test
      for a second star may look at. */
  method MatchPlain(pattern: string, after: char, str: string) returns (r: int)
    requires '\0' !in pattern && after != '*'
    ensures Verdict(pattern, str, r)
    decreases |pattern|
  {
    var i, j := 0, 0;
    while i < |pattern|
      invariant Reaches(pattern, str, i, j)
    {
      if pattern[i] == '?' && j < |str| {
        ReachNext(pattern, str, i, j);
      } else if pattern[i] == '$' {
        r := if j == |str| then j else -1;
        assert j == |str| ==> Greatest(pattern[i..], str[j..], [], 0);
        ReachVerdict(pattern, str, i, j, if j == |str| then 0 else -1);
        return;
      } else if pattern[i] == '*' {
        r := MatchStar(pattern[i..], after, str[j..]);
        ReachVerdict(pattern, str, i, j, r);
        r := if r == -1 then -1 else j + r;
        return;
      } else if j == |str| || Lower(pattern[i]) != Lower(str[j]) {
        ReachVerdict(pattern, str, i, j, -1);
        return -1;
      } else {
        ReachNext(pattern, str, i, j);
      }
      i, j := i + 1, j + 1;
    }
    assert Greatest(pattern[i..], str[j..], [], 0);
    ReachVerdict(pattern, str, i, j, 0);
    r := j;
  }

  /** The branch of match_prefix for a star, seen from the position of the star. */
  method MatchStar(pattern: string, after: char, str: string) returns (r: int)
    requires '\0' !in pattern && after != '*' && pattern != [] && pattern[0] == '*'
    ensures Verdict(pattern, str, r)
    decreases |pattern|, 0
  {
    var i, len := 1, 0;
    if (if i < |pattern| then pattern[i] else after) == '*' {
      i := i + 1;
      len := |str|;
    } else {
      len := Span(str);
    }
    AllTried(pattern, str);
    if i == |pattern| {
      assert pattern[StarWidth(pattern)..] == [];
      assert Greatest([], str[len..], [], 0);
      StarFound(pattern, str, len, 0);
      return len;
    }
    var res := MatchPlain(pattern[i..], after, str[len..]);
    while res == -1 && len > 0
      invariant 0 <= len <= StarReach(pattern, str) && Tried(pattern, str, len)
      invariant Verdict(pattern[i..], str[len..], res)
      decreases len
    {
      TryNext(pattern, str, len);
      len := len - 1;
      res := MatchPlain(pattern[i..], after, str[len..]);
    }
    if res == -1 {
      TryNext(pattern, str, len);
      return -1;
    }
    StarFound(pattern, str, len, res);
    r := res + len;
  }

  /** The alternatives of a pattern, between the bars. */
  function Alternatives(p: string): (a: seq<string>)
    ensures a != []
  {
    if '|' !in p then [p] else var k := Find(p, '|'); [p[..k]] + Alternatives(p[k + 1..])
  }

  /** Alternative `k` is the one that decides: the first with a positive answer, or else the last. */
  ghost predicate Decides(a: seq<string>, k: nat, s: string, r: int) {
    && k < |a| && Verdict(a[k], s, r) && (r > 0 || k == |a| - 1)
    && forall j: nat :: j < k ==> NoLength(a[j], s)
  }

  /** The answer for `p` is -1 or 0. */
  ghost predicate NoLength(p: string, s: string) {
    exists q :: q <= 0 && Verdict(p, s, q)
  }

  lemma LaterDecides(first: string, a: seq<string>, k: nat, s: string, r: int)
    requires NoLength(first, s) && Decides(a, k, s, r)
    ensures Decides([first] + a, k + 1, s, r)
  {
    assert forall j: nat :: 0 < j < k + 1 ==> ([first] + a)[j] == a[j - 1];
  }

  /** match_prefix */
  method MatchPrefix(pattern: string, after: char, str: string) returns (r: int)
    requires '\0' !in pattern && after != '*'
    ensures exists k: nat :: Decides(Alternatives(pattern), k, str, r)
    decreases |pattern|
  {
    if '|' in pattern {
      var k := Find(pattern, '|');
      var first, others := pattern[..k], pattern[k + 1..];
      ghost var a := Alternatives(pattern);
      r := MatchPlain(first, '|', str);
      if r > 0 {
        assert Decides(a, 0, str, r);
        return r;
      }
      assert NoLength(first, str);
      r := MatchPrefix(others, after, str);
      ghost var n: nat :| Decides(Alternatives(others), n, str, r);
      LaterDecides(first, Alternatives(others), n, str, r);
    } else {
      r := MatchPlain(pattern, after, str);
      assert Decides(Alternatives(pattern), 0, str, r);
    }
  }

  lemma {:induction false} AtMostBoth(d: seq<nat>, e: seq<nat>)
    requires AtMost(d, e) && AtMost(e, d)
    ensures d == e
  {
    if d != [] {
      AtMostBoth(d[1..], e[1..]);
      assert d == [d[0]] + d[1..] && e == [e[0]] + e[1..];
    }
  }

  lemma {:induction false} LengthUnique(p: string, s: string, e: seq<nat>, n: nat, m: nat)
    requires Expands(p, s, e, n) && Expands(p, s, e, m)
    ensures n == m
    decreases |p|
  {
    if p == [] || p[0] == '$' {
    } else if p[0] == '*' {
      LengthUnique(p[StarWidth(p)..], s[e[0]..], e[1..], n - e[0], m - e[0]);
    } else {
      LengthUnique(p[1..], s[1..], e, n - 1, m - 1);
    }
  }

  /** The relation leaves no choice: a pattern and a string have one answer. */
  lemma VerdictUnique(p: string, s: string, r: int, q: int)
    requires Verdict(p, s, r) && Verdict(p, s, q)
    ensures r == q
  {
    if r >= 0 {
      var e :| Greatest(p, s, e, r);
      if q >= 0 {
        var d :| Greatest(p, s, d, q);
        AtMostBoth(d, e);
        LengthUnique(p, s, e, r, q);
      }
    }
  }

  /** When the greatest expansion takes nothing, no expansion takes anything. */
  lemma {:induction false} GreatestEmpty(p: string, s: string, e: seq<nat>, d: seq<nat>, m: nat)
    requires Expands(p, s, e, 0) && Expands(p, s, d, m) && AtMost(d, e)
    ensures m == 0
    decreases |p|
  {
    if p != [] && p[0] == '*' {
      GreatestEmpty(p[StarWidth(p)..], s[0..], e[1..], d[1..], m);
    }
  }

  lemma VerdictPositive(p: string, s: string, r: int)
    requires Verdict(p, s, r)
    ensures r > 0 <==> exists n :: n > 0 && Matches(p, s, n)
    ensures r >= 0 <==> exists n :: Matches(p, s, n)
  {
    if r >= 0 {
      var e :| Greatest(p, s, e, r);
      assert Matches(p, s, r);
      forall n: nat | Matches(p, s, n)
        ensures r == 0 ==> n == 0
      {
        var d :| Expands(p, s, d, n);
        if r == 0 {
          GreatestEmpty(p, s, e, d, n);
        }
      }
    }
  }

  /** With alternatives, the answer is positive exactly when some alternative has a match of positive length. */
  lemma PrefixPositive(p: string, s: string, r: int, k: nat)
    requires Decides(Alternatives(p), k, s, r)
    ensures r > 0 <==> exists a, n :: a in Alternatives(p) && n > 0 && Matches(a, s, n)
  {
    var alternatives := Alternatives(p);
    VerdictPositive(alternatives[k], s, r);
    if r > 0 {
      assert alternatives[k] in alternatives;
    } else {
      forall a, n | a in alternatives && n > 0
        ensures !Matches(a, s, n)
      {
        var j :| 0 <= j < |alternatives| && alternatives[j] == a;
        if j < k {
          var q :| q <= 0 && Verdict(a, s, q);
          VerdictPositive(a, s, q);
        }
      }
    }
  }

  // What the patterns mean, without `Lower` and `Expands`.

  function Capital(i: nat): char
    requires i < 26
  {
    "ABCDEFGHIJKLMNOPQRSTUVWXYZ"[i]
  }

  function Small(i: nat): char
    requires i < 26
  {
    "abcdefghijklmnopqrstuvwxyz"[i]
  }

  lemma LetterAt(i: nat)
    requires i < 26
    ensures Capital(i) == 'A' + i as char && Small(i) == 'a' + i as char
  {
  }

  /** The two cases of one letter. */
  ghost predicate OtherCase(c: char, d: char) {
    exists i: nat :: i < 26 && ((c == Capital(i) && d == Small(i)) || (c == Small(i) && d == Capital(i)))
  }

  ghost predicate Same(c: char, d: char) { c == d || OtherCase(c, d) }

  /** `Lower` brings together the two cases of each letter and nothing else. */
  lemma SameCase(c: char, d: char)
    ensures Lower(c) == Lower(d) <==> Same(c, d)
  {
    hide Capital, Small;
    if Lower(c) == Lower(d) && c != d {
      LetterAt(Lower(c) as int - 'a' as int);
    }
    if OtherCase(c, d) {
      CasesMeet(c, d);
    }
  }

  lemma CasesMeet(c: char, d: char)
    requires OtherCase(c, d)
    ensures Lower(c) == Lower(d)
  {
    hide Capital, Small;
    var i: nat :| i < 26 && ((c == Capital(i) && d == Small(i)) || (c == Small(i) && d == Capital(i)));
    LetterAt(i);
  }

  /** No character with a meaning. */
  predicate Plain(f: string) {
    forall c :: c in f ==> c !in "?*$|"
  }

  ghost predicate Begins(s: string, f: string) {
    |f| <= |s| && forall i :: 0 <= i < |f| ==> Same(f[i], s[i])
  }

  lemma {:induction false} PlainFront(f: string, q: string, s: string, e: seq<nat>, n: nat)
    requires Plain(f)
    ensures Expands(f + q, s, e, n) <==> Begins(s, f) && |f| <= n && Expands(q, s[|f|..], e, n - |f|)
  {
    if f == "" {
      assert f + q == q && s[0..] == s;
    } else {
      assert f[0] in f && (f + q)[1..] == f[1..] + q;
      if s != "" {
        SameCase(f[0], s[0]);
        assert |f| <= |s| ==> s[1..][|f| - 1..] == s[|f|..];
        if n > 0 {
          PlainFront(f[1..], q, s[1..], e, n - 1);
        }
        assert Begins(s, f) <==> Same(f[0], s[0]) && Begins(s[1..], f[1..]);
      }
    }
  }

  /** A plain pattern matches what begins with it in either case; behind it the answer is that of the rest. */
  lemma PlainFrontVerdict(f: string, q: string, s: string, r: int)
    requires Plain(f)
    ensures Begins(s, f) && Verdict(q, s[|f|..], r) ==> Verdict(f + q, s, if r < 0 then -1 else |f| + r)
    ensures !Begins(s, f) ==> Verdict(f + q, s, -1)
  {
    hide Same;
    forall e: seq<nat>, n: nat
      ensures Expands(f + q, s, e, n) <==> Begins(s, f) && |f| <= n && Expands(q, s[|f|..], e, n - |f|)
    {
      PlainFront(f, q, s, e, n);
    }
    if Begins(s, f) && Verdict(q, s[|f|..], r) && r >= 0 {
      var e :| Greatest(q, s[|f|..], e, r);
      assert Expands(f + q, s, e, |f| + r) <==> Expands(q, s[|f|..], e, |f| + r - |f|);
      assert Greatest(f + q, s, e, |f| + r);
    }
  }

  lemma PlainAnswer(f: string, s: string)
    requires Plain(f)
    ensures Verdict(f, s, if Begins(s, f) then |f| else -1)
  {
    hide Same;
    if Begins(s, f) {
      assert Greatest("", s[|f|..], [], 0);
    }
    PlainFrontVerdict(f, "", s, 0);
    assert f + "" == f;
  }

  lemma ExactAnswer(f: string, s: string)
    requires Plain(f)
    ensures Verdict(f + "$", s, if Begins(s, f) && |s| == |f| then |f| else -1)
  {
    hide Same;
    if Begins(s, f) && |s| == |f| {
      assert Greatest("$", s[|f|..], [], 0);
    }
    PlainFrontVerdict(f, "$", s, if |s| == |f| then 0 else -1);
  }

  lemma QuestionAnswer(q: string, s: string, r: int)
    ensures s != "" && Verdict(q, s[1..], r) ==> Verdict("?" + q, s, if r < 0 then -1 else 1 + r)
    ensures s == "" ==> Verdict("?" + q, s, -1)
  {
    assert ("?" + q)[1..] == q;
    if s != "" && Verdict(q, s[1..], r) {
      assert Reaches("?" + q, s, 1, 1);
      ReachVerdict("?" + q, s, 1, 1, r);
    }
  }

  /** A star at the end takes everything up to the first slash, two stars take everything. */
  lemma StarAnswer(f: string, s: string, n: nat)
    requires Plain(f) && |f| <= n <= |s| && '/' !in s[|f|..n] && (n < |s| ==> s[n] == '/')
    ensures Verdict(f + "*", s, if Begins(s, f) then n else -1)
    ensures Verdict(f + "**", s, if Begins(s, f) then |s| else -1)
  {
    hide Same;
    var t := s[|f|..];
    assert t[..n - |f|] == s[|f|..n];
    LastStar(t, n - |f|);
    PlainFrontVerdict(f, "*", s, n - |f|);
    PlainFrontVerdict(f, "**", s, |t|);
  }

  lemma LastStar(t: string, n: nat)
    requires n <= |t| && '/' !in t[..n] && (n < |t| ==> t[n] == '/')
    ensures Verdict("*", t, n) && Verdict("**", t, |t|)
  {
    assert "*"[1..] == "" && "**"[2..] == "";
    assert [n][1..] == [] && [|t|][1..] == [];
    forall d: seq<nat>, m: nat | Expands("*", t, d, m)
      ensures AtMost(d, [n])
    {
      FirstSlash(t, n, d[0]);
      NothingBehind("*", t, d, m);
      AtMostOne(d, n);
    }
    forall d: seq<nat>, m: nat | Expands("**", t, d, m)
      ensures AtMost(d, [|t|])
    {
      NothingBehind("**", t, d, m);
      AtMostOne(d, |t|);
    }
    assert Greatest("*", t, [n], n);
    assert Greatest("**", t, [|t|], |t|);
  }

  lemma FirstSlash(t: string, n: nat, m: nat)
    requires m <= |t| && n <= |t| && '/' !in t[..m] && (n < |t| ==> t[n] == '/')
    ensures m <= n
  {
    assert forall i :: 0 <= i < m ==> t[i] == t[..m][i];
  }

  lemma NothingBehind(p: string, t: string, d: seq<nat>, m: nat)
    requires p != "" && p[0] == '*' && StarWidth(p) == |p| && Expands(p, t, d, m)
    ensures d != [] && d[1..] == []
  {
    assert p[|p|..] == "";
  }

  lemma AtMostOne(d: seq<nat>, n: nat)
    requires d != [] && d[1..] == [] && d[0] <= n
    ensures AtMost(d, [n])
  {
  }

  /** The suffix patterns of the server's options, as in `**.shtml$`. */
  lemma SuffixAnswer(f: string, s: string)
    requires Plain(f)
    ensures Verdict("**" + f + "$", s, if |f| <= |s| && Begins(s[|s| - |f|..], f) then |s| else -1)
  {
    hide Same;
    var p := "**" + f + "$";
    assert p[2..] == f + "$";
    forall e: seq<nat>, n: nat
      ensures Expands(p, s, e, n)
         <==> |f| <= |s| && Begins(s[|s| - |f|..], f) && e == [|s| - |f|] && n == |s|
    {
      SuffixExpands(f, s, e, n);
    }
    if |f| <= |s| && Begins(s[|s| - |f|..], f) {
      AtMostOne([|s| - |f|], |s| - |f|);
      assert Greatest(p, s, [|s| - |f|], |s|);
    }
  }

  lemma SuffixExpands(f: string, s: string, e: seq<nat>, n: nat)
    requires Plain(f)
    ensures Expands("**" + f + "$", s, e, n)
       <==> |f| <= |s| && Begins(s[|s| - |f|..], f) && e == [|s| - |f|] && n == |s|
  {
    hide Same;
    assert ("**" + f + "$")[2..] == f + "$";
    if e != [] && e[0] <= |s| && e[0] <= n {
      PlainFront(f, "$", s[e[0]..], e[1..], n - e[0]);
      assert e == [e[0]] + e[1..];
    }
  }

  /** match_prefix on a plain pattern. */
  lemma PlainMatch(p: string, s: string, k: nat, r: int)
    requires Plain(p) && Decides(Alternatives(p), k, s, r)
    ensures r == if Begins(s, p) then |p| else -1
  {
    hide Begins;
    PlainAnswer(p, s);
    VerdictUnique(p, s, r, if Begins(s, p) then |p| else -1);
  }

  /** The alternatives with a bar between two of them. */
  function Joined(a: seq<string>): string
    requires a != []
  {
    if |a| == 1 then a[0] else a[0] + "|" + Joined(a[1..])
  }

  /** They are the pattern cut at its bars. */
  lemma {:induction false} AlternativesJoin(p: string)
    ensures Joined(Alternatives(p)) == p && forall a :: a in Alternatives(p) ==> '|' !in a
  {
    if '|' in p {
      var k := Find(p, '|');
      AlternativesJoin(p[k + 1..]);
      assert p == p[..k] + "|" + p[k + 1..];
    }
  }
}
