/** The lexical and semantic alphabets of the script format
    (dlg/src/parser/tokens.rs), and a lexer with the same lexical rules.

    Every structured pattern starts with a character the others cannot start
    with (a whitespace character followed by `@`, `#` or `:`, or else `{` or
    `/`), so at any position at most one pattern applies; the lexer takes its
    longest match there and otherwise emits a one-character `Text` lexeme. */
module Tokens {
  import opened Strings
  import opened Results

  /** `Token`: the lexer's alphabet. `TextKind` is the error fallback. */
  datatype TokenKind = MentionKind | LinkKind | CommandKind | InlineBlockKind | CommentKind | TextKind

  /** A lexer token together with the slice of the input it covers. */
  datatype Lexeme = Lexeme(kind: TokenKind, slice: string)

  /** `MentionToken`: what a mention says about the speaker. */
  datatype MentionToken = Narrator | Name(name: string) | State(state: string) | NameState(name: string, state: string)

  /** `SemanticToken`: the alphabet the document builder folds over. */
  datatype SemanticToken =
    | Mention(variant: MentionToken)
    | Text(paragraphs: seq<string>)
    | Link(target: string)
    | Command(command: string, args: string)
    | InlineBlock(raw: string)

  // ---------------------------------------------------------------------
  // The lexical rules

  predicate IsIdentStart(c: char) {
    ('a' <= c <= 'z') || ('A' <= c <= 'Z') || c == '_'
  }

  predicate IsIdentChar(c: char) {
    IsIdentStart(c) || ('0' <= c <= '9')
  }

  /** `[a-zA-Z_][a-zA-Z_0-9]*` */
  predicate IsIdent(s: string) {
    |s| > 0 && IsIdentStart(s[0]) && forall i :: 1 <= i < |s| ==> IsIdentChar(s[i])
  }

  predicate IsIdentOpt(s: string) {
    s == [] || IsIdent(s)
  }

  /** What follows `@` in a mention: `ident? :? ident?`. */
  predicate MentionBody(b: string) {
    || IsIdentOpt(b)
    || exists k :: 0 <= k < |b| && b[k] == ':' && IsIdentOpt(b[..k]) && IsIdentOpt(b[k + 1..])
  }

  /** `\s@([a-zA-Z_][a-zA-Z_0-9]*)?:?([a-zA-Z_][a-zA-Z_0-9]*)?` */
  predicate MentionShape(t: string) {
    |t| >= 2 && IsWhitespace(t[0]) && t[1] == '@' && MentionBody(t[2..])
  }

  /** `\s#([a-zA-Z_][a-zA-Z_0-9]*)` */
  predicate LinkShape(t: string) {
    |t| >= 3 && IsWhitespace(t[0]) && t[1] == '#' && IsIdent(t[2..])
  }

  /** `\s:([a-zA-Z_][a-zA-Z_0-9]*)(\([^\)]*\))?` */
  predicate CommandShape(t: string) {
    && |t| >= 3 && IsWhitespace(t[0]) && t[1] == ':'
    && (|| IsIdent(t[2..])
        || exists k :: 2 < k < |t| - 1 && t[k] == '(' && IsIdent(t[2..k])
                       && t[|t| - 1] == ')' && ')' !in t[k + 1..|t| - 1])
  }

  /** `\{[^\}]+\}` */
  predicate InlineBlockShape(t: string) {
    |t| >= 3 && t[0] == '{' && t[|t| - 1] == '}' && '}' !in t[1..|t| - 1]
  }

  /** `//[^\n]*\n` */
  predicate CommentShape(t: string) {
    |t| >= 3 && t[0] == '/' && t[1] == '/' && t[|t| - 1] == '\n' && '\n' !in t[2..|t| - 1]
  }

  /** The pattern of a structured token kind; `TextKind` has none. */
  predicate Shape(k: TokenKind, t: string) {
    match k
    case MentionKind => MentionShape(t)
    case LinkKind => LinkShape(t)
    case CommandKind => CommandShape(t)
    case InlineBlockKind => InlineBlockShape(t)
    case CommentKind => CommentShape(t)
    case TextKind => false
  }

  /** No structured pattern matches any prefix of `s`. */
  predicate NoMatch(s: string) {
    forall k: TokenKind, m: nat :: 0 < m <= |s| ==> !Shape(k, s[..m])
  }

  /** `s[..n]` is the longest prefix of `s` of kind `k`, and no other kind
      matches any prefix of `s`. */
  predicate LongestMatch(k: TokenKind, n: nat, s: string) {
    && 0 < n <= |s|
    && Shape(k, s[..n])
    && (forall m: nat :: n < m <= |s| ==> !Shape(k, s[..m]))
    && (forall k': TokenKind, m: nat :: k' != k && 0 < m <= |s| ==> !Shape(k', s[..m]))
  }

  /** `l` is what the lexer must produce in front of `rest`. */
  predicate WellLexed(l: Lexeme, rest: string) {
    && |l.slice| <= |rest| && rest[..|l.slice|] == l.slice
    && (l.kind == TextKind ==> |l.slice| == 1 && NoMatch(rest))
    && (l.kind != TextKind ==> LongestMatch(l.kind, |l.slice|, rest))
  }

  // ---------------------------------------------------------------------
  // Scanners

  /** Length of the longest run of identifier characters at the start of `s`. */
  function IdentCharsLen(s: string): (n: nat)
    ensures n <= |s|
    ensures forall i :: 0 <= i < n ==> IsIdentChar(s[i])
    ensures n < |s| ==> !IsIdentChar(s[n])
  {
    if s == [] || !IsIdentChar(s[0]) then 0 else 1 + IdentCharsLen(s[1..])
  }

  /** Length of the identifier at the start of `s`, 0 when there is none. */
  function IdentLen(s: string): (n: nat)
    ensures n <= |s|
    ensures n > 0 ==> IsIdent(s[..n])
    ensures n == 0 ==> s == [] || !IsIdentStart(s[0])
    ensures 0 < n < |s| ==> !IsIdentChar(s[n])
    ensures forall m :: 0 < m <= |s| && IsIdent(s[..m]) ==> m <= n
  {
    if s == [] || !IsIdentStart(s[0]) then 0
    else
      var n := 1 + IdentCharsLen(s[1..]);
      assert forall m :: 0 < m <= |s| && IsIdent(s[..m]) ==> m <= n by {
        forall m | 0 < m <= |s| && IsIdent(s[..m])
          ensures m <= n
        {
          assert forall i :: 1 <= i < m ==> IsIdentChar(s[..m][i]);
        }
      }
      n
  }

  /** An identifier-or-nothing ended by a non-identifier character is exactly
      what `IdentLen` measures. */
  lemma IdentLenAt(s: string, k: nat)
    requires k < |s| && !IsIdentChar(s[k]) && IsIdentOpt(s[..k])
    ensures IdentLen(s) == k
  {
    var n := IdentLen(s);
    if k == 0 {
      assert !IsIdentStart(s[0]);
    } else {
      assert IsIdent(s[..k]);
      assert forall i :: 1 <= i < n ==> IsIdentChar(s[..n][i]);
    }
  }

  /** Length of the mention at the start of `s`, 0 when none starts there. */
  function MatchMention(s: string): (n: nat)
    ensures n <= |s|
  {
    if |s| >= 2 && IsWhitespace(s[0]) && s[1] == '@' then
      var p := 2 + IdentLen(s[2..]);
      if p < |s| && s[p] == ':' then p + 1 + IdentLen(s[p + 1..]) else p
    else
      0
  }

  lemma MatchMentionShape(s: string)
    ensures MatchMention(s) > 0 ==> MentionShape(s[..MatchMention(s)])
    ensures MatchMention(s) == 0 ==> !(|s| >= 2 && IsWhitespace(s[0]) && s[1] == '@')
  {
    if |s| >= 2 && IsWhitespace(s[0]) && s[1] == '@' {
      var p := 2 + IdentLen(s[2..]);
      if p < |s| && s[p] == ':' {
        MentionWithStateShape(s, p);
      } else {
        MentionNameShape(s, p);
      }
    }
  }

  lemma MentionNameShape(s: string, p: nat)
    requires |s| >= 2 && IsWhitespace(s[0]) && s[1] == '@'
    requires p == 2 + IdentLen(s[2..])
    ensures MentionShape(s[..p])
  {
    assert s[..p][2..] == s[2..][..p - 2];
    assert MentionBody(s[..p][2..]);
  }

  lemma MentionWithStateShape(s: string, p: nat)
    requires |s| >= 2 && IsWhitespace(s[0]) && s[1] == '@'
    requires p == 2 + IdentLen(s[2..]) && p < |s| && s[p] == ':'
    ensures MentionShape(s[..p + 1 + IdentLen(s[p + 1..])])
  {
    var a := p - 2;
    var b := IdentLen(s[p + 1..]);
    var n := p + 1 + b;
    var body := s[..n][2..];
    assert body[..a] == s[2..][..a];
    assert body[a] == ':';
    assert body[a + 1..] == s[p + 1..][..b];
    assert IsIdentOpt(body[..a]) && IsIdentOpt(body[a + 1..]);
    assert MentionBody(body);
  }

  lemma MentionLongest(s: string, m: nat)
    requires 0 < m <= |s| && MentionShape(s[..m])
    ensures m <= MatchMention(s)
  {
    var b := s[..m][2..];
    assert b == s[2..][..m - 2];
    if IsIdentOpt(b) {
      MentionNameLongest(s, m);
    } else {
      var k :| 0 <= k < |b| && b[k] == ':' && IsIdentOpt(b[..k]) && IsIdentOpt(b[k + 1..]);
      MentionStateLongest(s, m, k);
    }
  }

  lemma MentionNameLongest(s: string, m: nat)
    requires 2 <= m <= |s| && IsWhitespace(s[0]) && s[1] == '@' && IsIdentOpt(s[2..][..m - 2])
    ensures m <= MatchMention(s)
  {
  }

  lemma MentionStateLongest(s: string, m: nat, k: nat)
    requires 2 + k < m <= |s| && IsWhitespace(s[0]) && s[1] == '@'
    requires var b := s[2..][..m - 2];
      b[k] == ':' && IsIdentOpt(b[..k]) && IsIdentOpt(b[k + 1..])
    ensures m <= MatchMention(s)
  {
    var b := s[2..][..m - 2];
    assert IdentLen(s[2..]) == k by {
      assert s[2..][k] == ':';
      assert s[2..][..k] == b[..k];
      IdentLenAt(s[2..], k);
    }
    var p := 2 + k;
    assert s[p] == ':';
    if b[k + 1..] != [] {
      assert s[p + 1..][..m - p - 1] == b[k + 1..];
    }
  }

  /** Length of the link at the start of `s`, 0 when none starts there. */
  function MatchLink(s: string): (n: nat)
    ensures n <= |s|
  {
    if |s| >= 3 && IsWhitespace(s[0]) && s[1] == '#' && IdentLen(s[2..]) > 0 then
      2 + IdentLen(s[2..])
    else
      0
  }

  lemma MatchLinkLongest(s: string)
    ensures MatchLink(s) > 0 ==> LinkShape(s[..MatchLink(s)])
    ensures forall m :: 0 < m <= |s| && LinkShape(s[..m]) ==> m <= MatchLink(s)
  {
    LinkPrefix(s);
    var n := MatchLink(s);
    if n > 0 {
      assert s[..n][2..] == s[2..][..n - 2];
    }
  }

  lemma LinkPrefix(s: string)
    ensures forall m :: 0 < m <= |s| && LinkShape(s[..m]) ==>
      IsWhitespace(s[0]) && s[1] == '#' && IsIdent(s[2..][..m - 2])
  {
    forall m | 0 < m <= |s| && LinkShape(s[..m])
      ensures IsIdent(s[2..][..m - 2])
    {
      assert s[..m][2..] == s[2..][..m - 2];
    }
  }

  /** Length of the command at the start of `s`, 0 when none starts there:
      the name, then the parenthesised arguments when a `)` closes them. */
  function MatchCommand(s: string): (n: nat)
    ensures n <= |s|
  {
    if |s| >= 3 && IsWhitespace(s[0]) && s[1] == ':' && IdentLen(s[2..]) > 0 then
      var p := 2 + IdentLen(s[2..]);
      if p < |s| && s[p] == '(' && p + 1 + IndexOf(s[p + 1..], ')') < |s| then
        p + 2 + IndexOf(s[p + 1..], ')')
      else
        p
    else
      0
  }

  lemma MatchCommandShape(s: string)
    ensures MatchCommand(s) > 0 ==> CommandShape(s[..MatchCommand(s)])
    ensures MatchCommand(s) == 0 ==> forall m :: 0 < m <= |s| ==> !CommandShape(s[..m])
  {
    if |s| >= 3 && IsWhitespace(s[0]) && s[1] == ':' && IdentLen(s[2..]) > 0 {
      var p := 2 + IdentLen(s[2..]);
      if p < |s| && s[p] == '(' && p + 1 + IndexOf(s[p + 1..], ')') < |s| {
        CommandWithArgsShape(s, p, p + 1 + IndexOf(s[p + 1..], ')'));
      } else {
        assert s[..p][2..] == s[2..][..p - 2];
      }
    } else {
      CommandPrefix(s);
    }
  }

  lemma CommandWithArgsShape(s: string, p: nat, q: nat)
    requires |s| >= 3 && IsWhitespace(s[0]) && s[1] == ':'
    requires p == 2 + IdentLen(s[2..]) && p > 2
    requires p < q < |s| && s[p] == '(' && q == p + 1 + IndexOf(s[p + 1..], ')')
    ensures CommandShape(s[..q + 1])
  {
    var t := s[..q + 1];
    assert t[2..p] == s[2..][..p - 2];
    assert t[p + 1..q] == s[p + 1..][..q - p - 1];
    assert t[|t| - 1] == ')';
  }

  /** A command's name is an identifier right after the `:`. */
  lemma CommandPrefix(s: string)
    ensures forall m :: 0 < m <= |s| && CommandShape(s[..m]) ==>
      IsWhitespace(s[0]) && s[1] == ':' && IdentLen(s[2..]) > 0
  {
    forall m | 0 < m <= |s| && CommandShape(s[..m])
      ensures IdentLen(s[2..]) > 0
    {
      var t := s[..m];
      if IsIdent(t[2..]) {
        assert t[2..] == s[2..][..m - 2];
      } else {
        var k :| 2 < k < |t| - 1 && t[k] == '(' && IsIdent(t[2..k]);
        assert t[2..k] == s[2..][..k - 2];
      }
    }
  }

  lemma CommandLongest(s: string, m: nat)
    requires 0 < m <= |s| && CommandShape(s[..m])
    ensures m <= MatchCommand(s)
  {
    var t := s[..m];
    if IsIdent(t[2..]) {
      CommandNameLongest(s, m);
    } else {
      var k :| 2 < k < |t| - 1 && t[k] == '(' && IsIdent(t[2..k])
               && t[|t| - 1] == ')' && ')' !in t[k + 1..|t| - 1];
      CommandArgsLongest(s, m, k);
    }
  }

  lemma CommandNameLongest(s: string, m: nat)
    requires 3 <= m <= |s| && IsWhitespace(s[0]) && s[1] == ':' && IsIdent(s[..m][2..])
    ensures m <= MatchCommand(s)
  {
    assert s[..m][2..] == s[2..][..m - 2];
  }

  lemma CommandArgsLongest(s: string, m: nat, k: nat)
    requires 2 < k < m - 1 && m <= |s| && IsWhitespace(s[0]) && s[1] == ':'
    requires var t := s[..m];
      t[k] == '(' && IsIdent(t[2..k]) && t[|t| - 1] == ')' && ')' !in t[k + 1..|t| - 1]
    ensures MatchCommand(s) == m
  {
    var t := s[..m];
    var p := 2 + IdentLen(s[2..]);
    assert p == k by {
      assert s[2..][..k - 2] == t[2..k];
      assert s[2..][k - 2] == '(';
      IdentLenAt(s[2..], k - 2);
    }
    var rest := s[k + 1..];
    assert IndexOf(rest, ')') == m - k - 2 by {
      assert rest[m - k - 2] == ')';
      assert forall i :: 0 <= i < m - k - 2 ==> rest[i] == t[k + 1..|t| - 1][i];
      IndexOfAt(rest, ')', m - k - 2);
    }
  }

  /** Length of the inline block at the start of `s`, 0 when none starts there. */
  function MatchInlineBlock(s: string): (n: nat)
    ensures n <= |s|
  {
    if |s| >= 3 && s[0] == '{' && 2 <= 1 + IndexOf(s[1..], '}') < |s| then
      2 + IndexOf(s[1..], '}')
    else
      0
  }

  lemma MatchInlineBlockOnly(s: string)
    ensures MatchInlineBlock(s) > 0 ==> InlineBlockShape(s[..MatchInlineBlock(s)])
    ensures forall m :: 0 < m <= |s| && InlineBlockShape(s[..m]) ==> m == MatchInlineBlock(s)
  {
    InlineBlockPrefix(s);
    var n := MatchInlineBlock(s);
    if n > 0 {
      var q := n - 1;
      assert s[..q + 1][1..q] == s[1..][..q - 1];
    }
  }

  /** An inline block ends at the first `}`. */
  lemma InlineBlockPrefix(s: string)
    ensures forall m :: 0 < m <= |s| && InlineBlockShape(s[..m]) ==>
      |s| >= 3 && s[0] == '{' && IndexOf(s[1..], '}') == m - 2
  {
    forall m | 0 < m <= |s| && InlineBlockShape(s[..m])
      ensures IndexOf(s[1..], '}') == m - 2
    {
      var t := s[..m];
      assert s[1..][m - 2] == '}';
      assert forall i :: 0 <= i < m - 2 ==> s[1..][i] == t[1..m - 1][i];
    }
  }

  /** Length of the line comment at the start of `s`, 0 when none starts there. */
  function MatchComment(s: string): (n: nat)
    ensures n <= |s|
  {
    if |s| >= 3 && s[0] == '/' && s[1] == '/' && 2 + IndexOf(s[2..], '\n') < |s| then
      3 + IndexOf(s[2..], '\n')
    else
      0
  }

  lemma MatchCommentOnly(s: string)
    ensures MatchComment(s) > 0 ==> CommentShape(s[..MatchComment(s)])
    ensures forall m :: 0 < m <= |s| && CommentShape(s[..m]) ==> m == MatchComment(s)
  {
    CommentPrefix(s);
    var n := MatchComment(s);
    if n > 0 {
      var q := n - 1;
      assert s[..q + 1][2..q] == s[2..][..q - 2];
    }
  }

  /** A line comment ends at the first newline after `//`. */
  lemma CommentPrefix(s: string)
    ensures forall m :: 0 < m <= |s| && CommentShape(s[..m]) ==>
      |s| >= 3 && s[0] == '/' && s[1] == '/' && IndexOf(s[2..], '\n') == m - 3
  {
    forall m | 0 < m <= |s| && CommentShape(s[..m])
      ensures IndexOf(s[2..], '\n') == m - 3
    {
      var t := s[..m];
      assert s[2..][m - 3] == '\n';
      assert forall i :: 0 <= i < m - 3 ==> s[2..][i] == t[2..m - 1][i];
    }
  }

  /** The structured token starting at `s`, if any: its kind and length. */
  function MatchAt(s: string): (r: Option<(TokenKind, nat)>)
    ensures r.Some? ==> r.value.0 != TextKind && 0 < r.value.1 <= |s|
  {
    var mention := MatchMention(s);
    var link := MatchLink(s);
    var command := MatchCommand(s);
    var block := MatchInlineBlock(s);
    var comment := MatchComment(s);
    if mention > 0 then Some((MentionKind, mention))
    else if link > 0 then Some((LinkKind, link))
    else if command > 0 then Some((CommandKind, command))
    else if block > 0 then Some((InlineBlockKind, block))
    else if comment > 0 then Some((CommentKind, comment))
    else None
  }

  /** `MatchAt` finds the longest match of the one pattern that applies. */
  lemma MatchAtLongest(s: string)
    ensures MatchAt(s).Some? ==> LongestMatch(MatchAt(s).value.0, MatchAt(s).value.1, s)
    ensures MatchAt(s).None? ==> NoMatch(s)
  {
    var mention := MatchMention(s);
    var link := MatchLink(s);
    var command := MatchCommand(s);
    var block := MatchInlineBlock(s);
    var comment := MatchComment(s);
    MatchMentionShape(s);
    MatchLinkLongest(s);
    MatchCommandShape(s);
    MatchInlineBlockOnly(s);
    MatchCommentOnly(s);
    assert forall m :: 0 < m <= |s| && MentionShape(s[..m]) ==> m <= mention by {
      forall m | 0 < m <= |s| && MentionShape(s[..m]) ensures m <= mention {
        MentionLongest(s, m);
      }
    }
    assert forall m :: 0 < m <= |s| && CommandShape(s[..m]) ==> m <= command by {
      forall m | 0 < m <= |s| && CommandShape(s[..m]) ensures m <= command {
        CommandLongest(s, m);
      }
    }
    assert forall k: TokenKind, m: nat :: 0 < m <= |s| && Shape(k, s[..m]) ==>
      (k == MentionKind ==> mention > 0) && (k == LinkKind ==> link > 0)
      && (k == CommandKind ==> command > 0) && (k == InlineBlockKind ==> block > 0)
      && (k == CommentKind ==> comment > 0);
  }

  /** The input a sequence of lexemes covers. */
  function Concat(ls: seq<Lexeme>): string {
    if ls == [] then [] else ls[0].slice + Concat(ls[1..])
  }

  /** Every lexeme is what the lexer must produce in front of the rest. */
  predicate AllWellLexed(r: seq<Lexeme>) {
    forall i :: 0 <= i < |r| ==> WellLexed(r[i], Concat(r[i..]))
  }

  lemma WellLexedCons(s: string, l: Lexeme, rest: seq<Lexeme>)
    requires WellLexed(l, s) && s == l.slice + Concat(rest)
    requires AllWellLexed(rest)
    ensures Concat([l] + rest) == s
    ensures AllWellLexed([l] + rest)
  {
    var r := [l] + rest;
    assert r[1..] == rest;
    forall i | 0 <= i < |r| ensures WellLexed(r[i], Concat(r[i..])) {
      if i == 0 {
        assert r[0..] == r;
      } else {
        assert r[i..] == rest[i - 1..];
      }
    }
  }

  /** The lexeme at the start of a non-empty input. */
  function NextLexeme(s: string): (l: Lexeme)
    requires s != []
    ensures 0 < |l.slice| <= |s| && l.slice == s[..|l.slice|]
  {
    match MatchAt(s)
    case Some(m) => Lexeme(m.0, s[..m.1])
    case None => Lexeme(TextKind, s[..1])
  }

  lemma NextLexemeWellLexed(s: string)
    requires s != []
    ensures WellLexed(NextLexeme(s), s)
  {
    MatchAtLongest(s);
  }

  lemma ConcatCons(l: Lexeme, rest: seq<Lexeme>)
    ensures Concat([l] + rest) == l.slice + Concat(rest)
  {
    assert ([l] + rest)[1..] == rest;
  }

  /** A scanner that always consumes a non-empty prefix of its input. */
  ghost predicate Consumes(next: string --> Lexeme) {
    forall x: string :: x != [] ==> next.requires(x) && 0 < |next(x).slice| <= |x| && next(x).slice == x[..|next(x).slice|]
  }

  /** The scanning loop: `next` is applied until the input is used up, so
      the slices it returns, read in order, are the input. */
  function LexWith(next: string --> Lexeme, s: string): (r: seq<Lexeme>)
    requires Consumes(next)
    ensures Concat(r) == s
    decreases |s|
  {
    if s == [] then []
    else
      var l := next(s);
      var rest := LexWith(next, s[|l.slice|..]);
      ConcatCons(l, rest);
      [l] + rest
  }

  /** The lexer: the longest structured token at each position, or a single
      character of `Text` where none starts. It never fails, and the slices
      it produces, read in order, are the input. */
  function Lex(s: string): (r: seq<Lexeme>)
    ensures Concat(r) == s
  {
    LexWith(NextLexeme, s)
  }

  /** Each lexeme is the one the lexical rules demand in front of the rest
      of the input. */
  lemma {:induction false} LexWellLexed(s: string)
    ensures AllWellLexed(Lex(s))
    decreases |s|
  {
    if s != [] {
      var l := NextLexeme(s);
      var rest := Lex(s[|l.slice|..]);
      assert Lex(s) == [l] + rest;
      LexWellLexed(s[|l.slice|..]);
      NextLexemeWellLexed(s);
      assert s == l.slice + Concat(rest);
      WellLexedCons(s, l, rest);
    }
  }

  /** Every structured lexeme's slice matches its kind's pattern. */
  lemma LexShapes(s: string)
    ensures forall i :: 0 <= i < |Lex(s)| && Lex(s)[i].kind != TextKind ==> Shape(Lex(s)[i].kind, Lex(s)[i].slice)
  {
    var r := Lex(s);
    LexWellLexed(s);
    forall i | 0 <= i < |r| && r[i].kind != TextKind
      ensures Shape(r[i].kind, r[i].slice)
    {
      assert WellLexed(r[i], Concat(r[i..]));
    }
  }

  /** A slice of a lexeme occurs inside the input. */
  lemma {:induction false} SliceInInput(ls: seq<Lexeme>, i: nat, j: nat)
    requires i < |ls| && j < |ls[i].slice|
    ensures ls[i].slice[j] in Concat(ls)
    decreases i
  {
    if i == 0 {
      assert Concat(ls)[j] == ls[0].slice[j];
    } else {
      SliceInInput(ls[1..], i - 1, j);
      var rest := Concat(ls[1..]);
      var k :| 0 <= k < |rest| && rest[k] == ls[i].slice[j];
      assert Concat(ls)[|ls[0].slice| + k] == rest[k];
    }
  }

  /** Every comment the lexer produces ends with a newline of the input. */
  lemma CommentsEndInNewline(s: string)
    ensures forall i :: 0 <= i < |Lex(s)| && Lex(s)[i].kind == CommentKind ==> '\n' in s
  {
    var r := Lex(s);
    forall i | 0 <= i < |r| && r[i].kind == CommentKind
      ensures '\n' in s
    {
      LexShapes(s);
      SliceInInput(r, i, |r[i].slice| - 1);
    }
  }

  /** A `//` with no newline anywhere after it never becomes a comment: a
      text without `"\n"` lexes to no comment at all. */
  lemma CommentNeedsNewline(s: string)
    requires '\n' !in s
    ensures forall i :: 0 <= i < |Lex(s)| ==> Lex(s)[i].kind != CommentKind
  {
    CommentsEndInNewline(s);
  }

  /** Every structured pattern starts with whitespace, `{` or `/`. */
  lemma ShapeStart(k: TokenKind, t: string)
    ensures Shape(k, t) ==> |t| > 0 && (IsWhitespace(t[0]) || t[0] == '{' || t[0] == '/')
  {
  }

  /** A `@`, `#` or `:` at the very start of the input is plain text: the
      patterns need a whitespace character in front. */
  lemma LeadingDelimiterIsText(s: string)
    requires |s| > 0 && (s[0] == '@' || s[0] == '#' || s[0] == ':')
    ensures Lex(s)[0] == Lexeme(TextKind, [s[0]])
  {
    forall k: TokenKind, m: nat | 0 < m <= |s|
      ensures !Shape(k, s[..m])
    {
      ShapeStart(k, s[..m]);
    }
    MatchAtLongest(s);
    assert Lex(s)[0] == NextLexeme(s);
    assert s[..1] == [s[0]];
  }

}
