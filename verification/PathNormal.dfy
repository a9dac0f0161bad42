/** Removal of repeated separators and of double dots behind a separator, in place. */
module PathNormal {
  predicate IsSep(c: char) { c == '/' || c == '\\' }

  predicate StartsWithDots(s: string) { |s| >= 2 && s[0] == '.' && s[1] == '.' }

  /** What the inner loop leaves: the string without separators and double dots at its front. */
  function Skip(s: string): (r: string)
    ensures |r| <= |s|
    ensures !StartsWithDots(r) && (r != [] ==> !IsSep(r[0]))
    decreases |s|
  {
    if s != [] && IsSep(s[0]) then Skip(s[1..])
    else if StartsWithDots(s) then Skip(s[2..])
    else s
  }

  function Normal(s: string): string
    decreases |s|
  {
    if s == [] then []
    else if IsSep(s[0]) then [s[0]] + Normal(Skip(s[1..]))
    else [s[0]] + Normal(s[1..])
  }

  /** No two adjacent separators, and no double dots directly behind a separator. */
  predicate IsNormal(s: string) {
    forall k :: 0 <= k < |s| - 1 && IsSep(s[k]) ==> !IsSep(s[k + 1]) && !StartsWithDots(s[k + 1..])
  }

  /** `a` is what is left of `b` when some characters are taken out. */
  predicate Subsequence(a: string, b: string) {
    if a == [] then true
    else if b == [] then false
    else if a[0] == b[0] && Subsequence(a[1..], b[1..]) then true
    else Subsequence(a, b[1..])
  }

  /** `s` is what `buf` held: its first `i` chars have become `p` chars, the rest is still there. */
  ghost predicate Progress(s: string, buf: array<char>, i: nat, p: nat)
    reads buf
  {
    && p <= i <= |s| < buf.Length
    && Normal(s) == buf[..p] + Normal(s[i..])
    && buf[i..|s|] == s[i..]
  }

  /** remove_double_dots_and_double_slashes, on the first `len` chars of `buf`; `p` is where the zero goes. */
  method RemoveDoubleDots(buf: array<char>, len: nat) returns (p: nat)
    requires len < buf.Length
    modifies buf
    ensures p <= len && buf[..p] == Normal(old(buf[..len])) && buf[p] == '\0'
  {
    ghost var s := buf[..len];
    var i := 0;
    p := 0;
    assert s[0..] == s;
    while i < len
      invariant i <= len && Progress(s, buf, i, p)
    {
      hide Progress;
      i := CopyOne(s, buf, len, i, p);
      p := p + 1;
    }
    ghost var done := buf[..p];
    buf[p] := '\0';
    assert buf[..p] == done;
  }

  /** One turn of the outer loop. */
  method CopyOne(ghost s: string, buf: array<char>, len: nat, i: nat, p: nat) returns (next: nat)
    requires |s| == len && i < len && Progress(s, buf, i, p)
    modifies buf
    ensures i < next <= len && Progress(s, buf, next, p + 1)
  {
    hide Skip;
    var c := buf[i];
    assert c == s[i..][0] == s[i] && buf[i..len][1..] == buf[i + 1..len] && s[i..][1..] == s[i + 1..];
    next := i + 1;
    if IsSep(c) {
      forall k | next <= k < len
        ensures buf[k] == s[k]
      {
        assert buf[next..len][k - next] == s[next..][k - next];
      }
      next := SkipRun(buf, next, len, s);
    }
    assert buf[next..len] == s[next..];
    NormalNext(buf[..p], c, s[next..], s[i..]);
    StoreAt(buf, len, next, p, c);
  }

  lemma NormalNext(done: string, c: char, rest: string, s: string)
    requires s != [] && s[0] == c && rest == if IsSep(c) then Skip(s[1..]) else s[1..]
    ensures done + Normal(s) == done + [c] + Normal(rest)
  {
    assert done + ([c] + Normal(rest)) == done + [c] + Normal(rest);
  }

  /** A store at the write position leaves what has not been read. */
  method StoreAt(buf: array<char>, len: nat, i: nat, p: nat, c: char)
    requires p < i <= len < buf.Length
    modifies buf
    ensures buf[..p + 1] == old(buf[..p]) + [c] && buf[i..len] == old(buf[i..len])
  {
    buf[p] := c;
  }

  /** The inner loop; `s` is the whole string, of which the part from `from` on is still in the array. */
  method SkipRun(buf: array<char>, from: nat, len: nat, ghost s: string) returns (i: nat)
    requires from <= len == |s| < buf.Length
    requires forall k :: from <= k < len ==> buf[k] == s[k]
    ensures from <= i <= len && s[i..] == Skip(s[from..])
  {
    i := from;
    ghost var r := Skip(s[from..]);
    hide Skip;
    while i < len
      invariant from <= i <= len && r == Skip(s[i..])
    {
      SkipStep(s, i);
      if IsSep(buf[i]) {
        i := i + 1;
      } else if buf[i] == '.' && i + 1 < len && buf[i + 1] == '.' {
        i := i + 2;
      } else {
        return;
      }
    }
    SkipEnd(s);
  }

  lemma SkipEnd(s: string)
    ensures Skip(s[|s|..]) == s[|s|..]
  {
  }

  lemma SkipStep(s: string, i: nat)
    requires i < |s|
    ensures Skip(s[i..]) ==
              if IsSep(s[i]) then Skip(s[i + 1..])
              else if s[i] == '.' && i + 1 < |s| && s[i + 1] == '.' then Skip(s[i + 2..])
              else s[i..]
  {
    assert s[i..][1..] == s[i + 1..];
    if i + 1 < |s| {
      assert s[i..][2..] == s[i + 2..];
    }
  }

  // What the result is like.

  lemma IsNormalTail(s: string)
    requires s != []
    ensures IsNormal(s) <==>
              IsNormal(s[1..]) && (IsSep(s[0]) && |s| > 1 ==> !IsSep(s[1]) && !StartsWithDots(s[1..]))
  {
    var t := s[1..];
    if IsNormal(s) {
      forall k | 0 <= k < |t| - 1 && IsSep(t[k])
        ensures !IsSep(t[k + 1]) && !StartsWithDots(t[k + 1..])
      {
        assert IsSep(s[k + 1]) && t[k + 1..] == s[k + 1 + 1..];
      }
    }
    if IsNormal(t) {
      forall k | 0 < k < |s| - 1 && IsSep(s[k])
        ensures !IsSep(s[k + 1]) && !StartsWithDots(s[k + 1..])
      {
        assert IsSep(t[k - 1]) && t[k - 1 + 1..] == s[k + 1..];
      }
    }
  }

  /** The result begins like its input, and is normal. */
  lemma {:induction false} NormalIsNormal(s: string)
    ensures IsNormal(Normal(s))
    ensures s != [] ==> Normal(s) != [] && Normal(s)[0] == s[0]
    ensures StartsWithDots(Normal(s)) ==> StartsWithDots(s)
    decreases |s|
  {
    if s != [] {
      var rest := if IsSep(s[0]) then Skip(s[1..]) else s[1..];
      NormalIsNormal(rest);
      IsNormalTail(Normal(s));
      assert Normal(s)[1..] == Normal(rest);
    }
  }

  /** A string is left alone exactly when it is normal. */
  lemma {:induction false} UnchangedExactly(s: string)
    ensures Normal(s) == s <==> IsNormal(s)
    decreases |s|
  {
    if s != [] {
      UnchangedExactly(s[1..]);
      IsNormalTail(s);
      NormalIsNormal(s);
      if IsNormal(s) {
        assert Skip(s[1..]) == s[1..] || !IsSep(s[0]);
        assert [s[0]] + s[1..] == s;
      }
    }
  }

  lemma Idempotent(s: string)
    ensures Normal(Normal(s)) == Normal(s)
  {
    NormalIsNormal(s);
    UnchangedExactly(Normal(s));
  }

  lemma {:induction false} SubsequenceLater(a: string, b: string, n: nat)
    requires n <= |b| && Subsequence(a, b[n..])
    ensures Subsequence(a, b)
    decreases n
  {
    if n > 0 {
      assert b[1..][n - 1..] == b[n..];
      SubsequenceLater(a, b[1..], n - 1);
    } else {
      assert b[0..] == b;
    }
  }

  lemma SubsequenceHead(c: char, a: string, b: string)
    requires b != [] && b[0] == c && Subsequence(a, b[1..])
    ensures Subsequence([c] + a, b)
  {
    assert ([c] + a)[1..] == a;
  }

  /** The inner loop drops a front part and changes nothing else. */
  lemma {:induction false} SkipIsSuffix(s: string)
    ensures Skip(s) == s[|s| - |Skip(s)|..]
    decreases |s|
  {
    if s != [] && IsSep(s[0]) {
      SkipIsSuffix(s[1..]);
    } else if StartsWithDots(s) {
      SkipIsSuffix(s[2..]);
    }
  }

  lemma {:induction false} NormalIsSubsequence(s: string)
    ensures Subsequence(Normal(s), s)
    decreases |s|
  {
    hide Subsequence, Skip;
    if s == [] {
      SubsequenceOfEmpty();
    } else {
      var rest := if IsSep(s[0]) then Skip(s[1..]) else s[1..];
      NormalIsSubsequence(rest);
      SkipIsSuffix(s[1..]);
      SubsequenceLater(Normal(rest), s[1..], |s[1..]| - |rest|);
      SubsequenceHead(s[0], Normal(rest), s);
    }
  }

  lemma SubsequenceOfEmpty()
    ensures Subsequence([], [])
  {
  }

  // The same without `IsSep` and `StartsWithDots`.

  /** Slashes, backslashes and double dots. */
  predicate Droppable(d: string) {
    if d == "" then true
    else if d[0] == '/' || d[0] == '\\' then Droppable(d[1..])
    else |d| > 1 && d[0] == '.' && d[1] == '.' && Droppable(d[2..])
  }

  /** What is dropped behind a separator is exactly the run of slashes, backslashes and double dots there. */
  lemma {:induction false} SkipDropsRun(s: string)
    ensures Droppable(s[..|s| - |Skip(s)|])
    ensures var r := Skip(s);
            r != "" ==> r[0] != '/' && r[0] != '\\' && !(|r| > 1 && r[0] == '.' && r[1] == '.')
    decreases |s|
  {
    SkipIsSuffix(s);
    var d := s[..|s| - |Skip(s)|];
    if s != "" && IsSep(s[0]) {
      SkipDropsRun(s[1..]);
      assert d[1..] == s[1..][..|s[1..]| - |Skip(s[1..])|];
    } else if StartsWithDots(s) {
      SkipDropsRun(s[2..]);
      assert d[2..] == s[2..][..|s[2..]| - |Skip(s[2..])|];
    }
  }

  /** Only such runs go, and only behind a separator. */
  lemma NormalDropsRuns(s: string)
    ensures s != "" ==>
      Normal(s) == [s[0]] + Normal(if s[0] == '/' || s[0] == '\\' then Skip(s[1..]) else s[1..])
    ensures Normal("") == ""
  {
  }

  /** No way up is left behind a separator. */
  lemma NoWayUp(s: string, k: nat)
    requires k + 1 < |Normal(s)| && (Normal(s)[k] == '/' || Normal(s)[k] == '\\')
    ensures var c := Normal(s)[k + 1]; c != '/' && c != '\\'
    ensures k + 2 < |Normal(s)| ==> !(Normal(s)[k + 1] == '.' && Normal(s)[k + 2] == '.')
  {
    NormalIsNormal(s);
    hide Normal;
    assert IsSep(Normal(s)[k]);
  }
}
