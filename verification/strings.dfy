/** The handful of Rust `str` operations the compiler and the player rely on:
    `trim`, `lines`, `split`, `find`, `join` and `chunks(2)`, plus decimal
    rendering of counters for the `Display` implementations. A string is a
    sequence of Unicode scalar values, as a Rust `&str` is. */
module Strings {

  /** Unicode White_Space: the class Rust's `str::trim` removes and the
      regular-expression class `\s` matches. */
  predicate IsWhitespace(c: char) {
    || c == '\t' || c == '\n' || c == '\U{B}' || c == '\U{C}' || c == '\r' || c == ' '
    || c == '\U{85}' || c == '\U{A0}' || c == '\U{1680}'
    || ('\U{2000}' <= c <= '\U{200A}')
    || c == '\U{2028}' || c == '\U{2029}' || c == '\U{202F}' || c == '\U{205F}' || c == '\U{3000}'
  }

  predicate AllWhitespace(s: string) {
    forall i :: 0 <= i < |s| ==> IsWhitespace(s[i])
  }

  /** `s` holds a character that trimming never removes. */
  predicate HasVisible(s: string) {
    exists i :: 0 <= i < |s| && !IsWhitespace(s[i])
  }

  /** Neither end of `s` is whitespace. */
  predicate IsTrimmed(s: string) {
    s == [] || (!IsWhitespace(s[0]) && !IsWhitespace(s[|s| - 1]))
  }

  lemma HasVisibleConcat(a: string, b: string)
    ensures HasVisible(a + b) <==> HasVisible(a) || HasVisible(b)
  {
    if HasVisible(a + b) {
      var i :| 0 <= i < |a + b| && !IsWhitespace((a + b)[i]);
      if i >= |a| {
        assert b[i - |a|] == (a + b)[i];
      }
    }
    if HasVisible(a) {
      var i :| 0 <= i < |a| && !IsWhitespace(a[i]);
      assert (a + b)[i] == a[i];
    }
    if HasVisible(b) {
      var i :| 0 <= i < |b| && !IsWhitespace(b[i]);
      assert (a + b)[|a| + i] == b[i];
    }
  }

  lemma BlankNotVisible(s: string)
    requires AllWhitespace(s)
    ensures !HasVisible(s)
  {
  }

  /** `str::trim_start`: drops the leading whitespace and nothing else. */
  function TrimStart(s: string): (r: string)
    ensures |r| <= |s| && r == s[|s| - |r|..]
    ensures AllWhitespace(s[..|s| - |r|])
    ensures r == [] || !IsWhitespace(r[0])
    decreases |s|
  {
    if s != [] && IsWhitespace(s[0]) then
      var r := TrimStart(s[1..]);
      TrimStartStep(s, r);
      r
    else
      s
  }

  /** One more leading whitespace character in front of a trimmed suffix. */
  lemma TrimStartStep(s: string, r: string)
    requires s != [] && IsWhitespace(s[0])
    requires |r| <= |s| - 1 && r == s[1..][|s| - 1 - |r|..]
    requires AllWhitespace(s[1..][..|s| - 1 - |r|])
    ensures r == s[|s| - |r|..]
    ensures AllWhitespace(s[..|s| - |r|])
  {
    var n := |s| - |r|;
    assert s[1..][n - 1..] == s[n..];
    forall i | 0 <= i < n ensures IsWhitespace(s[..n][i]) {
      if i > 0 {
        assert s[..n][i] == s[1..][..n - 1][i - 1];
      }
    }
  }

  /** `str::trim_end`: drops the trailing whitespace and nothing else. */
  function TrimEnd(s: string): (r: string)
    ensures |r| <= |s| && r == s[..|r|]
    ensures AllWhitespace(s[|r|..])
    ensures r == [] || !IsWhitespace(r[|r| - 1])
    decreases |s|
  {
    if s != [] && IsWhitespace(s[|s| - 1]) then
      var r := TrimEnd(s[..|s| - 1]);
      TrimEndStep(s, r);
      r
    else
      s
  }

  /** One more trailing whitespace character after a trimmed prefix. */
  lemma TrimEndStep(s: string, r: string)
    requires s != [] && IsWhitespace(s[|s| - 1])
    requires |r| <= |s| - 1 && r == s[..|s| - 1][..|r|]
    requires AllWhitespace(s[..|s| - 1][|r|..])
    ensures r == s[..|r|]
    ensures AllWhitespace(s[|r|..])
  {
    var m := |r|;
    forall i | 0 <= i < |s| - m ensures IsWhitespace(s[m..][i]) {
      if m + i < |s| - 1 {
        assert s[m..][i] == s[..|s| - 1][m..][i];
      }
    }
  }

  lemma TrimStartVisible(s: string)
    ensures HasVisible(TrimStart(s)) <==> HasVisible(s)
  {
    var a := TrimStart(s);
    assert s == s[..|s| - |a|] + a;
    HasVisibleConcat(s[..|s| - |a|], a);
    BlankNotVisible(s[..|s| - |a|]);
  }

  lemma TrimEndVisible(s: string)
    ensures HasVisible(TrimEnd(s)) <==> HasVisible(s)
  {
    var r := TrimEnd(s);
    assert s == r + s[|r|..];
    HasVisibleConcat(r, s[|r|..]);
    BlankNotVisible(s[|r|..]);
  }

  /** `str::trim`. The result keeps every visible character of `s`, so it is
      empty exactly when `s` is blank. */
  function Trim(s: string): (r: string)
    ensures IsTrimmed(r)
    ensures HasVisible(r) <==> HasVisible(s)
    ensures r == [] <==> !HasVisible(s)
  {
    var a := TrimStart(s);
    var r := TrimEnd(a);
    TrimStartVisible(s);
    TrimEndVisible(a);
    assert r != [] ==> !IsWhitespace(r[0]);
    assert r != [] ==> HasVisible(r);
    r
  }

  /** The trimmed string is the slice of `s` left between a whitespace
      prefix and a whitespace suffix. */
  lemma TrimSlice(s: string)
    ensures var r := Trim(s);
      exists i :: 0 <= i <= |s| - |r| && s[i..][..|r|] == r
                  && AllWhitespace(s[..i]) && AllWhitespace(s[i + |r|..])
  {
    var a := TrimStart(s);
    var r := TrimEnd(a);
    var i := |s| - |a|;
    assert s[i..][..|r|] == r by {
      assert s[i..] == a;
    }
    assert AllWhitespace(s[i + |r|..]) by {
      assert s[i..] == a;
      assert s[i + |r|..] == a[|r|..];
    }
    assert AllWhitespace(s[..i]);
  }

  /** Trimming leaves a string with visible ends alone, so it is idempotent. */
  lemma TrimTrimmed(s: string)
    requires IsTrimmed(s)
    ensures Trim(s) == s
  {
  }

  lemma TrimIdempotent(s: string)
    ensures Trim(Trim(s)) == Trim(s)
  {
    TrimTrimmed(Trim(s));
  }

  /** A string with a single whitespace character in front and visible
      characters at both ends of the rest trims to that rest. */
  lemma TrimOneLeading(t: string)
    requires |t| >= 2 && IsWhitespace(t[0])
    requires !IsWhitespace(t[1]) && !IsWhitespace(t[|t| - 1])
    ensures Trim(t) == t[1..]
  {
    assert TrimStart(t[1..]) == t[1..];
    assert TrimStart(t) == t[1..];
  }

  /** `str::find` for one character: the index of the first `c`, or `|s|`. */
  function IndexOf(s: string, c: char): (i: nat)
    ensures i <= |s|
    ensures forall k :: 0 <= k < i ==> s[k] != c
    ensures i < |s| ==> s[i] == c
  {
    if s == [] || s[0] == c then 0 else 1 + IndexOf(s[1..], c)
  }

  lemma IndexOfAfter(a: string, c: char, b: string)
    requires c !in a
    ensures IndexOf(a + [c] + b, c) == |a|
  {
    var s := a + [c] + b;
    assert s[|a|] == c;
    assert forall k :: 0 <= k < |a| ==> s[k] == a[k];
  }

  /** The first `c` is at `k` when `s[k]` is a `c` and none comes before. */
  lemma IndexOfAt(s: string, c: char, k: nat)
    requires k < |s| && s[k] == c
    requires forall i :: 0 <= i < k ==> s[i] != c
    ensures IndexOf(s, c) == k
  {
  }

  lemma IndexOfAbsent(s: string, c: char)
    requires c !in s
    ensures IndexOf(s, c) == |s|
  {
  }

  /** `str::rfind` for one character: the index of the last `c`, or -1. */
  function LastIndexOf(s: string, c: char): (i: int)
    ensures -1 <= i < |s|
    ensures forall k :: i < k < |s| ==> s[k] != c
    ensures i >= 0 ==> s[i] == c
  {
    if s == [] then -1
    else if s[|s| - 1] == c then |s| - 1
    else LastIndexOf(s[..|s| - 1], c)
  }

  lemma {:induction false} LastIndexOfBefore(a: string, c: char, b: string)
    requires c !in b
    ensures LastIndexOf(a + [c] + b, c) == |a|
    decreases |b|
  {
    var s := a + [c] + b;
    if b != [] {
      assert s[|s| - 1] == b[|b| - 1];
      assert s[..|s| - 1] == a + [c] + b[..|b| - 1];
      LastIndexOfBefore(a, c, b[..|b| - 1]);
    }
  }

  /** Number of occurrences of `c` in `s`. */
  function Count(s: string, c: char): nat {
    if s == [] then 0 else (if s[0] == c then 1 else 0) + Count(s[1..], c)
  }

  lemma CountConcat(a: string, b: string, c: char)
    ensures Count(a + b, c) == Count(a, c) + Count(b, c)
  {
    if a == [] {
      assert a + b == b;
    } else {
      assert (a + b)[0] == a[0];
      assert (a + b)[1..] == a[1..] + b;
      CountConcat(a[1..], b, c);
    }
  }

  lemma CountAbsent(s: string, c: char)
    ensures c !in s <==> Count(s, c) == 0
  {
    if s != [] {
      CountAbsent(s[1..], c);
      assert s == [s[0]] + s[1..];
    }
  }

  /** `slice.join(sep)`. */
  function JoinWith(parts: seq<string>, sep: string): string {
    if |parts| == 0 then []
    else if |parts| == 1 then parts[0]
    else parts[0] + sep + JoinWith(parts[1..], sep)
  }

  /** `str::split` on one character. Joining the parts with that character
      gives back `s`, and no part contains it. */
  function Split(s: string, c: char): (parts: seq<string>)
    ensures |parts| >= 1
    ensures forall k :: 0 <= k < |parts| ==> c !in parts[k]
    ensures JoinWith(parts, [c]) == s
    decreases |s|
  {
    var i := IndexOf(s, c);
    if i == |s| then
      [s]
    else
      var rest := Split(s[i + 1..], c);
      assert s == s[..i] + [c] + s[i + 1..];
      var parts := [s[..i]] + rest;
      assert parts[1..] == rest;
      parts
  }

  /** `Split` is the inverse of `JoinWith` on parts free of the separator. */
  lemma {:induction false} SplitJoin(parts: seq<string>, c: char)
    requires |parts| >= 1
    requires forall k :: 0 <= k < |parts| ==> c !in parts[k]
    ensures Split(JoinWith(parts, [c]), c) == parts
    decreases |parts|
  {
    if |parts| == 1 {
      IndexOfAbsent(parts[0], c);
    } else {
      var s := JoinWith(parts, [c]);
      var tail := JoinWith(parts[1..], [c]);
      assert s == parts[0] + [c] + tail;
      IndexOfAfter(parts[0], c, tail);
      assert s[|parts[0]| + 1..] == tail;
      assert s[..|parts[0]|] == parts[0];
      SplitJoin(parts[1..], c);
      assert parts == [parts[0]] + parts[1..];
    }
  }

  lemma JoinCount(parts: seq<string>, c: char)
    requires |parts| >= 1
    requires forall k :: 0 <= k < |parts| ==> c !in parts[k]
    ensures Count(JoinWith(parts, [c]), c) + 1 == |parts|
    decreases |parts|
  {
    CountAbsent(parts[0], c);
    if |parts| > 1 {
      JoinCount(parts[1..], c);
      CountConcat(parts[0], [c], c);
      CountConcat(parts[0] + [c], JoinWith(parts[1..], [c]), c);
    }
  }

  /** `split` yields one part more than there are separators. */
  lemma {:induction false} SplitCount(s: string, c: char)
    ensures |Split(s, c)| == Count(s, c) + 1
  {
    JoinCount(Split(s, c), c);
  }

  /** One line of `str::lines`: the `"\n"` is already gone; a `"\r"` before it goes too. */
  function StripCarriageReturn(l: string): string {
    if |l| > 0 && l[|l| - 1] == '\r' then l[..|l| - 1] else l
  }

  /** `str::lines`: split at every `"\n"` (dropping a `"\r"` just before it),
      with no trailing empty line for a final `"\n"` and no line at all for `""`. */
  function Lines(s: string): (r: seq<string>)
    ensures forall k :: 0 <= k < |r| ==> '\n' !in r[k]
    decreases |s|
  {
    if s == [] then []
    else
      var i := IndexOf(s, '\n');
      if i == |s| then [s]
      else [StripCarriageReturn(s[..i])] + Lines(s[i + 1..])
  }

  /** `Lines` undoes a newline join of lines that hold no line ending and
      whose last line is not empty. */
  lemma {:induction false} LinesJoin(ls: seq<string>)
    requires |ls| >= 1 && ls[|ls| - 1] != []
    requires forall k :: 0 <= k < |ls| ==> '\n' !in ls[k]
    requires forall k :: 0 <= k < |ls| ==> ls[k] == [] || ls[k][|ls[k]| - 1] != '\r'
    ensures Lines(JoinWith(ls, "\n")) == ls
    decreases |ls|
  {
    if |ls| == 1 {
      IndexOfAbsent(ls[0], '\n');
    } else {
      var tail := JoinWith(ls[1..], "\n");
      assert JoinWith(ls, "\n") == ls[0] + "\n" + tail;
      LinesCons(ls[0], tail);
      assert forall k :: 0 <= k < |ls| - 1 ==> ls[1..][k] == ls[k + 1];
      LinesJoin(ls[1..]);
      assert ls == [ls[0]] + ls[1..];
    }
  }

  /** A first line without line ending is split off at its newline. */
  lemma LinesCons(head: string, tail: string)
    requires '\n' !in head && (head == [] || head[|head| - 1] != '\r')
    ensures Lines(head + "\n" + tail) == [head] + Lines(tail)
  {
    var s := head + "\n" + tail;
    assert IndexOf(s, '\n') == |head| by {
      IndexOfAfter(head, '\n', tail);
    }
    assert s[..|head|] == head && s[|head| + 1..] == tail;
    assert StripCarriageReturn(head) == head;
  }

  predicate SomeVisible(ls: seq<string>) {
    exists k :: 0 <= k < |ls| && HasVisible(ls[k])
  }

  lemma StripCarriageReturnVisible(l: string)
    ensures HasVisible(StripCarriageReturn(l)) <==> HasVisible(l)
  {
    if |l| > 0 && l[|l| - 1] == '\r' {
      assert l == l[..|l| - 1] + "\r";
      HasVisibleConcat(l[..|l| - 1], "\r");
    }
  }

  lemma SomeVisibleCons(l: string, rest: seq<string>)
    ensures SomeVisible([l] + rest) <==> HasVisible(l) || SomeVisible(rest)
  {
    var r := [l] + rest;
    assert r[0] == l;
    if SomeVisible(rest) {
      var k :| 0 <= k < |rest| && HasVisible(rest[k]);
      assert r[k + 1] == rest[k];
    }
    if SomeVisible(r) {
      var k :| 0 <= k < |r| && HasVisible(r[k]);
      if k > 0 {
        assert rest[k - 1] == r[k];
      }
    }
  }

  /** Removing one whitespace character between two parts leaves the
      visible characters alone. */
  lemma VisibleAround(s: string, i: nat)
    requires i < |s| && IsWhitespace(s[i])
    ensures HasVisible(s) <==> HasVisible(s[..i]) || HasVisible(s[i + 1..])
  {
    assert s == s[..i] + [s[i]] + s[i + 1..];
    HasVisibleConcat(s[..i], [s[i]]);
    HasVisibleConcat(s[..i] + [s[i]], s[i + 1..]);
    BlankNotVisible([s[i]]);
  }

  /** Splitting into lines loses only line endings, which are whitespace:
      some line is visible exactly when the text is. */
  lemma {:induction false} LinesVisible(s: string)
    ensures SomeVisible(Lines(s)) <==> HasVisible(s)
    decreases |s|
  {
    if s != [] {
      var i := IndexOf(s, '\n');
      if i < |s| {
        var a := StripCarriageReturn(s[..i]);
        var rest := Lines(s[i + 1..]);
        assert Lines(s) == [a] + rest;
        LinesVisible(s[i + 1..]);
        StripCarriageReturnVisible(s[..i]);
        VisibleAround(s, i);
        SomeVisibleCons(a, rest);
      } else {
        assert Lines(s) == [s];
        SomeVisibleCons(s, []);
      }
    }
  }

  /** A window of a suffix is a window of the whole sequence. */
  lemma SliceShift<T>(s: seq<T>, a: nat, i: nat, j: nat)
    requires a <= |s| && i <= j <= |s| - a
    ensures s[a..][i..j] == s[a + i..a + j]
  {
    assert forall k :: 0 <= k < j - i ==> s[a..][i..j][k] == s[a + i + k];
  }

  function Min(a: int, b: int): int {
    if a <= b then a else b
  }

  /** `slice.chunks(2)`: consecutive pairs, the last one cut short when
      the length is odd. */
  function Chunks2(ls: seq<string>): (r: seq<seq<string>>)
    ensures |r| == (|ls| + 1) / 2
    decreases |ls|
  {
    if ls == [] then []
    else if |ls| <= 2 then [ls]
    else [ls[..2]] + Chunks2(ls[2..])
  }

  /** Chunk `k` is the window `[2k, 2k + 2)` of `ls`, cut short at the end. */
  lemma {:induction false} ChunksWindow(ls: seq<string>)
    ensures forall k :: 0 <= k < |Chunks2(ls)| ==> Chunks2(ls)[k] == ls[2 * k .. Min(2 * k + 2, |ls|)]
    ensures forall k :: 0 <= k < |Chunks2(ls)| ==> 1 <= |Chunks2(ls)[k]| <= 2
    decreases |ls|
  {
    if |ls| > 2 {
      var rest := Chunks2(ls[2..]);
      var r := Chunks2(ls);
      assert r == [ls[..2]] + rest;
      ChunksWindow(ls[2..]);
      forall k | 1 <= k < |r|
        ensures r[k] == ls[2 * k .. Min(2 * k + 2, |ls|)]
      {
        assert r[k] == rest[k - 1];
        var hi := Min(2 * (k - 1) + 2, |ls| - 2);
        assert hi + 2 == Min(2 * k + 2, |ls|);
        SliceShift(ls, 2, 2 * (k - 1), hi);
      }
    }
  }

  /** Chunk `k` holds lines `2k` and `2k + 1`, or only line `2k` when that
      is the last. */
  lemma PairAt(ls: seq<string>, k: nat)
    requires k < |Chunks2(ls)|
    ensures 2 * k < |ls|
    ensures 2 * k + 1 < |ls| ==> Chunks2(ls)[k] == [ls[2 * k], ls[2 * k + 1]]
    ensures 2 * k + 1 >= |ls| ==> Chunks2(ls)[k] == [ls[2 * k]]
  {
    ChunksWindow(ls);
    var c := Chunks2(ls)[k];
    assert c == ls[2 * k .. Min(2 * k + 2, |ls|)];
  }

  /** Element `j` of chunk `k` is line `2k + j`. */
  lemma ChunkAt(ls: seq<string>, k: nat, j: nat)
    requires k < |Chunks2(ls)| && j < |Chunks2(ls)[k]|
    ensures 2 * k + j < |ls| && Chunks2(ls)[k][j] == ls[2 * k + j]
  {
    var lo, hi := 2 * k, Min(2 * k + 2, |ls|);
    ChunksWindow(ls);
    assert Chunks2(ls)[k] == ls[lo..hi];
  }

  /** Line `j` is element `j % 2` of chunk `j / 2`. */
  lemma LineInChunk(ls: seq<string>, j: nat)
    requires j < |ls|
    ensures j / 2 < |Chunks2(ls)| && j % 2 < |Chunks2(ls)[j / 2]|
    ensures Chunks2(ls)[j / 2][j % 2] == ls[j]
  {
    var k := j / 2;
    var lo, hi := 2 * k, Min(2 * k + 2, |ls|);
    assert lo <= j < hi;
    ChunksWindow(ls);
    assert Chunks2(ls)[k] == ls[lo..hi];
  }

  function Digit(d: nat): char
    requires d < 10
  {
    "0123456789"[d]
  }

  predicate IsDigit(c: char) {
    '0' <= c <= '9'
  }

  function DigitValue(c: char): nat
    requires IsDigit(c)
  {
    (c as int - '0' as int) as nat
  }

  /** Decimal rendering of a counter, as `{}` prints a `usize`. */
  function NatToString(n: nat): (s: string)
    ensures s != []
    ensures forall i :: 0 <= i < |s| ==> IsDigit(s[i])
    decreases n
  {
    if n < 10 then [Digit(n)] else NatToString(n / 10) + [Digit(n % 10)]
  }

  function ParseNat(s: string): nat
    requires forall i :: 0 <= i < |s| ==> IsDigit(s[i])
  {
    if s == [] then 0 else 10 * ParseNat(s[..|s| - 1]) + DigitValue(s[|s| - 1])
  }

  /** Reading back a rendered counter gives the counter. */
  lemma {:induction false} ParseNatToString(n: nat)
    ensures ParseNat(NatToString(n)) == n
    decreases n
  {
    if n >= 10 {
      var s := NatToString(n);
      assert s[..|s| - 1] == NatToString(n / 10);
      ParseNatToString(n / 10);
    }
  }
}
