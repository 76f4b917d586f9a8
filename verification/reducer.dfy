/** `Dialog::from_str` (dlg/src/parser/mod.rs): the lexemes are turned into
    semantic tokens — consecutive text is buffered and split into paragraphs,
    every other lexeme is decoded from its trimmed slice — and the result is
    folded by `parse_semantics`. */
module Reducer {
  import opened Strings
  import opened Results
  import opened Tokens
  import Dialogs
  import Builder
  import BP = BuilderProperties

  // ---------------------------------------------------------------------
  // Paragraphs of buffered text

  predicate AllEmpty(ps: seq<string>) {
    forall k :: 0 <= k < |ps| ==> ps[k] == []
  }

  predicate NoneEmpty(ps: seq<string>) {
    forall k :: 0 <= k < |ps| ==> ps[k] != []
  }

  /** `filter_map` keeping the non-empty strings, in order. */
  function DropEmpty(ps: seq<string>): (r: seq<string>)
    ensures |r| <= |ps| && NoneEmpty(r)
    ensures r == [] <==> AllEmpty(ps)
    ensures NoneEmpty(ps) ==> r == ps
  {
    if ps == [] then []
    else
      var rest := DropEmpty(ps[1..]);
      assert forall k :: 1 <= k < |ps| ==> ps[k] == ps[1..][k - 1];
      (if ps[0] == [] then [] else [ps[0]]) + rest
  }

  /** Every string kept comes from the input. */
  lemma {:induction false} DropEmptyFrom(ps: seq<string>)
    ensures forall i :: 0 <= i < |DropEmpty(ps)| ==> DropEmpty(ps)[i] in ps
  {
    if ps != [] {
      DropEmptyFrom(ps[1..]);
      var rest := DropEmpty(ps[1..]);
      var r := DropEmpty(ps);
      var head := if ps[0] == [] then [] else [ps[0]];
      assert r == head + rest;
      forall i | 0 <= i < |r| ensures r[i] in ps {
        if i < |head| {
          assert r[i] == ps[0];
        } else {
          assert r[i] == rest[i - |head|];
          var k :| 0 <= k < |ps[1..]| && ps[1..][k] == rest[i - |head|];
          assert ps[k + 1] == r[i];
        }
      }
    }
  }

  /** Each chunk of lines joined with `"\n"` and trimmed. */
  function JoinChunks(cs: seq<seq<string>>): (r: seq<string>)
    ensures |r| == |cs|
    ensures forall k :: 0 <= k < |cs| ==> r[k] == Trim(JoinWith(cs[k], "\n"))
  {
    seq(|cs|, k requires 0 <= k < |cs| => Trim(JoinWith(cs[k], "\n")))
  }

  /** A chunk of one or two lines shows something exactly when one of its
      lines does. */
  lemma ChunkVisible(c: seq<string>)
    requires 1 <= |c| <= 2
    ensures HasVisible(JoinWith(c, "\n")) <==> SomeVisible(c)
  {
    if |c| == 2 {
      assert JoinWith(c, "\n") == c[0] + "\n" + c[1];
      HasVisibleConcat(c[0], "\n");
      HasVisibleConcat(c[0] + "\n", c[1]);
      BlankNotVisible("\n");
    }
  }

  /** The paragraphs of a text run: its lines taken two at a time, each pair
      joined and trimmed, blank pairs dropped. There are none exactly when
      the run is blank. */
  function Paragraphs(buf: string): (r: seq<string>)
    ensures r == [] <==> !HasVisible(buf)
  {
    ParagraphsVisible(buf);
    DropEmpty(JoinChunks(Chunks2(Lines(buf))))
  }

  predicate AllTrimmed(ps: seq<string>) {
    forall k :: 0 <= k < |ps| ==> IsTrimmed(ps[k])
  }

  lemma JoinChunksTrimmed(cs: seq<seq<string>>)
    ensures AllTrimmed(JoinChunks(cs))
  {
    var r := JoinChunks(cs);
    forall k | 0 <= k < |r| ensures IsTrimmed(r[k]) {
      assert r[k] == Trim(JoinWith(cs[k], "\n"));
    }
  }

  /** Dropping the empty strings keeps the rest trimmed. */
  lemma {:induction false} DropEmptyTrimmed(ps: seq<string>)
    requires AllTrimmed(ps)
    ensures AllTrimmed(DropEmpty(ps))
  {
    if ps != [] {
      assert AllTrimmed(ps[1..]) by {
        forall k | 0 <= k < |ps[1..]| ensures IsTrimmed(ps[1..][k]) {
          assert ps[1..][k] == ps[k + 1];
        }
      }
      DropEmptyTrimmed(ps[1..]);
      var rest := DropEmpty(ps[1..]);
      var head := if ps[0] == [] then [] else [ps[0]];
      assert DropEmpty(ps) == head + rest;
      forall i | 0 <= i < |head + rest| ensures IsTrimmed((head + rest)[i]) {
        if i >= |head| {
          assert (head + rest)[i] == rest[i - |head|];
        }
      }
    }
  }

  /** Every paragraph is non-empty and trimmed. */
  lemma ParagraphsTrimmed(buf: string)
    ensures ParagraphsWellFormed(Paragraphs(buf))
  {
    var ps := JoinChunks(Chunks2(Lines(buf)));
    assert Paragraphs(buf) == DropEmpty(ps);
    JoinChunksTrimmed(Chunks2(Lines(buf)));
    DropEmptyTrimmed(ps);
  }

  /** Some chunk is visible exactly when the run is. */
  lemma ParagraphsVisible(buf: string)
    ensures !AllEmpty(JoinChunks(Chunks2(Lines(buf)))) <==> HasVisible(buf)
  {
    LinesVisible(buf);
    ChunksVisible(Lines(buf));
  }

  lemma ChunksVisible(ls: seq<string>)
    ensures !AllEmpty(JoinChunks(Chunks2(ls))) <==> SomeVisible(ls)
  {
    if SomeVisible(ls) {
      LineShowsChunk(ls);
    }
    if !AllEmpty(JoinChunks(Chunks2(ls))) {
      ChunkShowsLine(ls);
    }
  }

  lemma LineShowsChunk(ls: seq<string>)
    requires SomeVisible(ls)
    ensures !AllEmpty(JoinChunks(Chunks2(ls)))
  {
    var cs := Chunks2(ls);
    var j :| 0 <= j < |ls| && HasVisible(ls[j]);
    LineInChunk(ls, j);
    PairAt(ls, j / 2);
    ChunkVisible(cs[j / 2]);
    assert JoinChunks(cs)[j / 2] != [];
  }

  lemma ChunkShowsLine(ls: seq<string>)
    requires !AllEmpty(JoinChunks(Chunks2(ls)))
    ensures SomeVisible(ls)
  {
    var cs := Chunks2(ls);
    var ps := JoinChunks(cs);
    var k :| 0 <= k < |cs| && ps[k] != [];
    PairAt(ls, k);
    ChunkVisible(cs[k]);
    var j :| 0 <= j < |cs[k]| && HasVisible(cs[k][j]);
    ChunkAt(ls, k, j);
  }

  /** When every line shows something, lines `2k` and `2k + 1`, joined
      by a newline, make paragraph `k`; an odd last line makes one alone. */
  lemma ParagraphsPairLines(buf: string)
    requires forall j :: 0 <= j < |Lines(buf)| ==> HasVisible(Lines(buf)[j])
    ensures var ls := Lines(buf); |Paragraphs(buf)| == (|ls| + 1) / 2
    ensures var ls := Lines(buf);
      forall k :: 0 <= k < |Paragraphs(buf)| && 2 * k + 1 < |ls| ==>
        Paragraphs(buf)[k] == Trim(ls[2 * k] + "\n" + ls[2 * k + 1])
    ensures var ls := Lines(buf);
      forall k :: 0 <= k < |Paragraphs(buf)| && 2 * k + 1 == |ls| ==>
        Paragraphs(buf)[k] == Trim(ls[2 * k])
  {
    PairLines(Lines(buf));
  }

  lemma PairLines(ls: seq<string>)
    requires forall j :: 0 <= j < |ls| ==> HasVisible(ls[j])
    ensures |DropEmpty(JoinChunks(Chunks2(ls)))| == (|ls| + 1) / 2
    ensures var ps := DropEmpty(JoinChunks(Chunks2(ls)));
      forall k :: 0 <= k < |ps| && 2 * k + 1 < |ls| ==> ps[k] == Trim(ls[2 * k] + "\n" + ls[2 * k + 1])
    ensures var ps := DropEmpty(JoinChunks(Chunks2(ls)));
      forall k :: 0 <= k < |ps| && 2 * k + 1 == |ls| ==> ps[k] == Trim(ls[2 * k])
  {
    var cs := Chunks2(ls);
    var ps := JoinChunks(cs);
    PairsAllVisible(ls);
    forall k | 0 <= k < |ps|
      ensures 2 * k + 1 < |ls| ==> ps[k] == Trim(ls[2 * k] + "\n" + ls[2 * k + 1])
      ensures 2 * k + 1 == |ls| ==> ps[k] == Trim(ls[2 * k])
    {
      PairAt(ls, k);
      if 2 * k + 1 < |ls| {
        assert JoinWith(cs[k], "\n") == ls[2 * k] + "\n" + ls[2 * k + 1];
      }
    }
  }

  /** No pair of visible lines is dropped. */
  lemma PairsAllVisible(ls: seq<string>)
    requires forall j :: 0 <= j < |ls| ==> HasVisible(ls[j])
    ensures DropEmpty(JoinChunks(Chunks2(ls))) == JoinChunks(Chunks2(ls))
  {
    var cs := Chunks2(ls);
    var ps := JoinChunks(cs);
    ChunksWindow(ls);
    forall k | 0 <= k < |cs| ensures ps[k] != [] {
      ChunkAt(ls, k, 0);
      ChunkVisible(cs[k]);
    }
    assert NoneEmpty(ps);
  }

  /** The text token a non-empty buffer flushes to, none when it is blank. */
  function Flush(buf: string): (r: seq<SemanticToken>)
    ensures |r| <= 1
    ensures r == [] <==> !HasVisible(buf)
    ensures r != [] ==> r[0].Text? && r[0].paragraphs != []
  {
    if buf == [] then []
    else
      var lines := Paragraphs(buf);
      if lines == [] then [] else [Text(lines)]
  }

  /** A flushed text token is well formed. */
  lemma FlushTexts(buf: string)
    ensures TextsWellFormed(Flush(buf))
  {
    if HasVisible(buf) {
      ParagraphsTrimmed(buf);
      FlushVisible(buf, Paragraphs(buf));
    }
  }

  lemma FlushVisible(buf: string, ps: seq<string>)
    requires HasVisible(buf) && ps == Paragraphs(buf) && ParagraphsWellFormed(ps)
    ensures TextsWellFormed(Flush(buf))
  {
    assert buf != [] by {
      var i :| 0 <= i < |buf| && !IsWhitespace(buf[i]);
    }
    assert ps != [];
    assert Flush(buf) == [Text(ps)];
  }

  /** Flushing adds no token but text. */
  lemma FlushNonText(buf: string)
    ensures NonText(Flush(buf)) == []
  {
    var f := Flush(buf);
    if f != [] {
      assert f == [f[0]];
      assert NonText(f) == NonText(f[1..]);
    }
  }

  // ---------------------------------------------------------------------
  // Decoding a lexeme

  /** A mention's trimmed slice: `@` alone is the narrator, otherwise the
      rest is split at `:` into a name and a state, a blank name meaning
      "same character". More than one `:` is a crash of the original. */
  function DecodeMention(value: string): (r: Result<MentionToken, Dialogs.CompileError>)
    ensures |value| == 1 ==> r == Ok(Narrator)
    ensures r.Ok? && |value| > 1 ==> !r.value.Narrator?
  {
    if value == [] then Err(Dialogs.SliceOutOfRange)
    else if |value| == 1 then Ok(Narrator)
    else
      var parts := Split(value[1..], ':');
      if |parts| == 1 then Ok(Name(parts[0]))
      else if |parts| == 2 then
        if Trim(parts[0]) == [] then Ok(State(parts[1])) else Ok(NameState(parts[0], parts[1]))
      else Err(Dialogs.MalformedMention)
  }

  /** Decoding fails exactly on an empty slice and on more than one `:`. */
  lemma DecodeMentionFails(value: string)
    ensures DecodeMention(value).Err? <==> value == [] || (|value| > 1 && Count(value[1..], ':') > 1)
  {
    if |value| > 1 {
      SplitCount(value[1..], ':');
    }
  }

  /** What a mention is written as. */
  function EncodeMention(m: MentionToken): string {
    match m
    case Narrator => "@"
    case Name(n) => "@" + n
    case State(s) => "@:" + s
    case NameState(n, s) => "@" + n + ":" + s
  }

  /** The mentions `EncodeMention` writes unambiguously: no `:` inside a
      name or state, a non-empty name, and a name that is not blank. */
  predicate Writable(m: MentionToken) {
    match m
    case Narrator => true
    case Name(n) => n != [] && ':' !in n
    case State(s) => ':' !in s
    case NameState(n, s) => HasVisible(n) && ':' !in n && ':' !in s
  }

  lemma SplitOne(s: string)
    requires ':' !in s
    ensures Split(s, ':') == [s]
  {
    SplitJoin([s], ':');
  }

  lemma SplitTwo(a: string, b: string)
    requires ':' !in a && ':' !in b
    ensures Split(a + ":" + b, ':') == [a, b]
  {
    assert JoinWith([a, b], [':']) == a + ":" + b;
    SplitJoin([a, b], ':');
  }

  /** Decoding undoes writing. */
  lemma DecodeEncodeMention(m: MentionToken)
    requires Writable(m)
    ensures DecodeMention(EncodeMention(m)) == Ok(m)
  {
    var v := EncodeMention(m);
    match m
    case Narrator =>
    case Name(n) =>
      assert v[1..] == n;
      SplitOne(n);
    case State(s) =>
      assert v[1..] == [] + ":" + s;
      SplitTwo([], s);
    case NameState(n, s) =>
      assert v[1..] == n + ":" + s;
      SplitTwo(n, s);
  }

  /** Writing undoes decoding, for every slice the lexer calls a mention
      once its leading whitespace is trimmed. */
  lemma EncodeDecodeMention(v: string)
    requires |v| >= 1 && v[0] == '@' && MentionBody(v[1..])
    ensures DecodeMention(v).Ok?
    ensures Writable(DecodeMention(v).value)
    ensures EncodeMention(DecodeMention(v).value) == v
  {
    var b := v[1..];
    if IsIdentOpt(b) {
      MentionNameOnly(v);
    } else {
      var k :| 0 <= k < |b| && b[k] == ':' && IsIdentOpt(b[..k]) && IsIdentOpt(b[k + 1..]);
      MentionWithState(v, k);
    }
  }

  lemma MentionNameOnly(v: string)
    requires |v| >= 1 && v[0] == '@' && IsIdentOpt(v[1..])
    ensures DecodeMention(v).Ok? && Writable(DecodeMention(v).value)
    ensures EncodeMention(DecodeMention(v).value) == v
  {
    var b := v[1..];
    IdentNoColon(b);
    var m := if b == [] then Narrator else Name(b);
    assert DecodeMention(v) == Ok(m) by {
      if b != [] {
        SplitOne(b);
      }
    }
    assert v == "@" + b;
  }

  lemma MentionWithState(v: string, k: nat)
    requires |v| >= 1 && v[0] == '@'
    requires var b := v[1..];
      k < |b| && b[k] == ':' && IsIdentOpt(b[..k]) && IsIdentOpt(b[k + 1..])
    ensures DecodeMention(v).Ok? && Writable(DecodeMention(v).value)
    ensures EncodeMention(DecodeMention(v).value) == v
  {
    var b := v[1..];
    var x, y := b[..k], b[k + 1..];
    var m := if x == [] then State(y) else NameState(x, y);
    assert DecodeMention(v) == Ok(m) by {
      SplitAtColon(b, k);
      IdentVisible(x);
      DecodeMentionParts(v, [x, y]);
    }
    assert Writable(m) by {
      IdentNoColon(x);
      IdentNoColon(y);
    }
    assert EncodeMention(m) == v by {
      assert b == x + ":" + y;
      MentionText(v, x, y);
    }
  }

  /** Two identifiers around one `:` split back into themselves. */
  lemma SplitAtColon(b: string, k: nat)
    requires k < |b| && b[k] == ':' && IsIdentOpt(b[..k]) && IsIdentOpt(b[k + 1..])
    ensures Split(b, ':') == [b[..k], b[k + 1..]]
  {
    var x, y := b[..k], b[k + 1..];
    IdentNoColon(x);
    IdentNoColon(y);
    assert b == x + ":" + y;
    SplitTwo(x, y);
  }

  /** A non-empty identifier is not blank. */
  lemma IdentVisible(x: string)
    requires IsIdentOpt(x)
    ensures x != [] ==> HasVisible(x)
  {
    if x != [] {
      assert !IsWhitespace(x[0]);
    }
  }

  /** A mention's text is `@`, the name, `:` and the state. */
  lemma MentionText(v: string, x: string, y: string)
    requires |v| >= 1 && v[1..] == x + ":" + y
    ensures v[0] == '@' ==> v == "@" + x + ":" + y
    ensures v[0] == '@' && x == [] ==> v == "@:" + y
  {
    assert v == [v[0]] + v[1..];
  }

  /** How a mention with a name, a state or both decodes from its parts. */
  lemma DecodeMentionParts(v: string, parts: seq<string>)
    requires |v| > 1 && Split(v[1..], ':') == parts
    ensures |parts| == 1 ==> DecodeMention(v) == Ok(Name(parts[0]))
    ensures |parts| == 2 ==>
      DecodeMention(v) == Ok(if Trim(parts[0]) == [] then State(parts[1]) else NameState(parts[0], parts[1]))
  {
  }

  lemma IdentNoColon(s: string)
    requires IsIdentOpt(s)
    ensures ':' !in s
  {
    forall i | 0 <= i < |s| ensures s[i] != ':' {
      assert i == 0 || IsIdentChar(s[i]);
    }
  }

  /** A link's trimmed slice without its `#`. */
  function DecodeLink(value: string): (r: Result<string, Dialogs.CompileError>)
    ensures r.Err? <==> value == []
    ensures r.Ok? ==> [value[0]] + r.value == value
  {
    if value == [] then Err(Dialogs.SliceOutOfRange) else Ok(value[1..])
  }

  lemma DecodeEncodeLink(target: string)
    ensures DecodeLink("#" + target) == Ok(target)
  {
  }

  /** A command's trimmed slice: the name between `:` and the first `(`, and
      the arguments between that `(` and the last character; without `(`
      the whole rest is the name and there are no arguments. */
  function DecodeCommand(value: string): (r: Result<(string, string), Dialogs.CompileError>)
    ensures r.Err? <==> value == [] || (IndexOf(value, '(') < |value| && !(1 <= IndexOf(value, '(') <= |value| - 2))
    ensures r.Ok? ==> '(' !in r.value.0
  {
    if value == [] then Err(Dialogs.SliceOutOfRange)
    else
      var i := IndexOf(value, '(');
      if i < |value| then
        if 1 <= i <= |value| - 2 then
          assert forall k :: 0 <= k < |value[1..i]| ==> value[1..i][k] == value[k + 1];
          Ok((value[1..i], value[i + 1..|value| - 1]))
        else
          Err(Dialogs.SliceOutOfRange)
      else
        assert forall k :: 0 <= k < |value[1..]| ==> value[1..][k] == value[k + 1];
        Ok((value[1..], []))
  }

  /** What a command with arguments is written as. */
  function EncodeCommand(name: string, args: string): string {
    ":" + name + "(" + args + ")"
  }

  /** Decoding undoes writing, with or without the parentheses. */
  lemma DecodeEncodeCommand(name: string, args: string)
    requires '(' !in name
    ensures DecodeCommand(EncodeCommand(name, args)) == Ok((name, args))
    ensures DecodeCommand(":" + name) == Ok((name, []))
  {
    var v := EncodeCommand(name, args);
    assert v == (":" + name) + ['('] + (args + ")");
    IndexOfAfter(":" + name, '(', args + ")");
    assert v[1..|name| + 1] == name;
    assert v[|name| + 2..|v| - 1] == args;
    IndexOfAbsent(":" + name, '(');
  }

  /** Writing undoes decoding for every slice the lexer calls a command,
      once its leading whitespace is trimmed. */
  lemma EncodeDecodeCommand(t: string)
    requires CommandShape(t)
    ensures DecodeCommand(t[1..]).Ok?
    ensures var (name, args) := DecodeCommand(t[1..]).value;
      t[1..] == (if '(' in t then EncodeCommand(name, args) else ":" + name)
  {
    if IsIdent(t[2..]) {
      CommandNameOnly(t);
    } else {
      var k :| 2 < k < |t| - 1 && t[k] == '(' && IsIdent(t[2..k]) && t[|t| - 1] == ')' && ')' !in t[k + 1..|t| - 1];
      CommandWithArgs(t, k);
    }
  }

  lemma CommandNameOnly(t: string)
    requires |t| >= 3 && IsWhitespace(t[0]) && t[1] == ':' && IsIdent(t[2..])
    ensures '(' !in t
    ensures DecodeCommand(t[1..]) == Ok((t[2..], []))
  {
    var v := t[1..];
    IdentNoParen(t[2..]);
    assert v == ":" + t[2..];
    IndexOfAbsent(v, '(');
    assert '(' !in t by {
      assert t[0] != '(';
      assert forall i :: 2 <= i < |t| ==> t[i] == t[2..][i - 2];
    }
  }

  lemma CommandWithArgs(t: string, k: nat)
    requires 2 < k < |t| - 1 && t[1] == ':' && t[k] == '(' && IsIdent(t[2..k]) && t[|t| - 1] == ')'
    ensures '(' in t
    ensures DecodeCommand(t[1..]) == Ok((t[2..k], t[k + 1..|t| - 1]))
    ensures t[1..] == EncodeCommand(t[2..k], t[k + 1..|t| - 1])
  {
    var v := t[1..];
    var name, args := t[2..k], t[k + 1..|t| - 1];
    IdentNoParen(name);
    assert v == (":" + name) + ['('] + (args + ")");
    assert IndexOf(v, '(') == k - 1 by {
      IndexOfAfter(":" + name, '(', args + ")");
    }
    assert v[1..k - 1] == name && v[k..|v| - 1] == args;
    assert t[k] in t;
  }

  lemma IdentNoParen(s: string)
    requires IsIdentOpt(s)
    ensures '(' !in s
  {
    forall i | 0 <= i < |s| ensures s[i] != '(' {
      assert i == 0 || IsIdentChar(s[i]);
    }
  }

  /** The semantic token of a non-text lexeme, none for a comment. */
  function DecodeLexeme(l: Lexeme): (r: Result<Option<SemanticToken>, Dialogs.CompileError>)
    ensures r.Ok? && r.value.None? <==> l.kind == CommentKind || l.kind == TextKind
    ensures l.kind == InlineBlockKind ==> r == Ok(Some(InlineBlock(Trim(l.slice))))
    ensures r.Ok? && r.value.Some? ==> !r.value.value.Text?
  {
    var value := Trim(l.slice);
    match l.kind
    case MentionKind =>
      var m :- DecodeMention(value);
      Ok(Some(Mention(m)))
    case InlineBlockKind => Ok(Some(InlineBlock(value)))
    case LinkKind =>
      var target :- DecodeLink(value);
      Ok(Some(Link(target)))
    case CommandKind =>
      var c :- DecodeCommand(value);
      Ok(Some(Command(c.0, c.1)))
    case CommentKind => Ok(None)
    case TextKind => Ok(None)
  }

  /** Every lexeme of a structured kind decodes without a crash. */
  lemma ShapedDecodes(l: Lexeme)
    requires l.kind != TextKind && Shape(l.kind, l.slice)
    ensures DecodeLexeme(l).Ok?
  {
    match l.kind
    case MentionKind => MentionDecodes(l.slice);
    case LinkKind => LinkDecodes(l.slice);
    case CommandKind => CommandDecodes(l.slice);
    case InlineBlockKind =>
    case CommentKind =>
  }

  lemma MentionDecodes(t: string)
    requires MentionShape(t)
    ensures DecodeMention(Trim(t)).Ok?
  {
    MentionEndsVisible(t);
    TrimOneLeading(t);
    assert t[1..][1..] == t[2..];
    EncodeDecodeMention(t[1..]);
  }

  /** A mention ends with `@`, `:` or an identifier character. */
  lemma MentionEndsVisible(t: string)
    requires MentionShape(t)
    ensures !IsWhitespace(t[|t| - 1])
  {
    if |t| > 2 {
      var b := t[2..];
      BodyEnd(b);
      assert t[|t| - 1] == b[|b| - 1];
    }
  }

  /** A non-empty mention body ends with `:` or an identifier character. */
  lemma BodyEnd(b: string)
    requires MentionBody(b) && b != []
    ensures b[|b| - 1] == ':' || IsIdentChar(b[|b| - 1])
  {
    if IsIdentOpt(b) {
      IdentEnd(b);
    } else {
      var k :| 0 <= k < |b| && b[k] == ':' && IsIdentOpt(b[..k]) && IsIdentOpt(b[k + 1..]);
      var c := b[k + 1..];
      if c != [] {
        IdentEnd(c);
        assert c[|c| - 1] == b[|b| - 1];
      }
    }
  }

  lemma IdentEnd(s: string)
    requires IsIdent(s)
    ensures IsIdentChar(s[|s| - 1])
  {
    if |s| > 1 {
      assert 1 <= |s| - 1 < |s|;
    }
  }

  lemma LinkDecodes(t: string)
    requires LinkShape(t)
    ensures DecodeLink(Trim(t)).Ok?
  {
    assert t[|t| - 1] == t[2..][|t| - 3];
    TrimOneLeading(t);
  }

  lemma CommandDecodes(t: string)
    requires CommandShape(t)
    ensures DecodeCommand(Trim(t)).Ok?
  {
    if IsIdent(t[2..]) {
      assert t[|t| - 1] == t[2..][|t| - 3];
    }
    TrimOneLeading(t);
    EncodeDecodeCommand(t);
  }

  // ---------------------------------------------------------------------
  // The token loop

  /** The loop of `from_str` from some point on, with the text buffered so
      far: text is appended to the buffer; any other lexeme first flushes
      the buffer, then adds its own token; the end flushes what is left.
      A crash while decoding aborts everything. */
  function Reduce(ls: seq<Lexeme>, buf: string): Result<seq<SemanticToken>, Dialogs.CompileError>
    decreases |ls|
  {
    if ls == [] then Ok(Flush(buf))
    else if ls[0].kind == TextKind then Reduce(ls[1..], buf + ls[0].slice)
    else
      var t :- DecodeLexeme(ls[0]);
      var rest :- Reduce(ls[1..], []);
      Ok(Flush(buf) + (if t.Some? then [t.value] else []) + rest)
  }

  /** Every text token of the result has paragraphs, and each paragraph is
      non-empty and trimmed. */
  predicate TextsWellFormed(ts: seq<SemanticToken>) {
    forall i :: 0 <= i < |ts| && ts[i].Text? ==>
      ts[i].paragraphs != [] && ParagraphsWellFormed(ts[i].paragraphs)
  }

  /** Each paragraph is non-empty and trimmed. */
  predicate ParagraphsWellFormed(ps: seq<string>) {
    forall j :: 0 <= j < |ps| ==> ps[j] != [] && IsTrimmed(ps[j])
  }

  lemma {:induction false} ReduceTexts(ls: seq<Lexeme>, buf: string)
    ensures Reduce(ls, buf).Ok? ==> TextsWellFormed(Reduce(ls, buf).value)
    decreases |ls|
  {
    if ls == [] {
      FlushTexts(buf);
    } else if ls[0].kind == TextKind {
      ReduceTexts(ls[1..], buf + ls[0].slice);
    } else {
      ReduceTexts(ls[1..], []);
      var d := DecodeLexeme(ls[0]);
      var r := Reduce(ls[1..], []);
      if d.Ok? && r.Ok? {
        var mid := if d.value.Some? then [d.value.value] else [];
        assert Reduce(ls, buf) == Ok(Flush(buf) + mid + r.value);
        FlushTexts(buf);
        assert TextsWellFormed(mid);
        TextsAppend(Flush(buf), mid);
        TextsAppend(Flush(buf) + mid, r.value);
      }
    }
  }

  lemma TextsAppend(a: seq<SemanticToken>, b: seq<SemanticToken>)
    requires TextsWellFormed(a) && TextsWellFormed(b)
    ensures TextsWellFormed(a + b)
  {
    var c := a + b;
    forall i | 0 <= i < |c| && c[i].Text?
      ensures c[i].paragraphs != [] && ParagraphsWellFormed(c[i].paragraphs)
    {
      if i < |a| {
        assert c[i] == a[i];
      } else {
        assert c[i] == b[i - |a|];
      }
    }
  }

  /** Every lexeme of a structured kind has that kind's shape. */
  predicate Shaped(ls: seq<Lexeme>) {
    forall i :: 0 <= i < |ls| && ls[i].kind != TextKind ==> Shape(ls[i].kind, ls[i].slice)
  }

  lemma {:induction false} ReduceShaped(ls: seq<Lexeme>, buf: string)
    requires Shaped(ls)
    ensures Reduce(ls, buf).Ok?
    decreases |ls|
  {
    if ls != [] {
      assert Shaped(ls[1..]) by {
        assert forall i :: 1 <= i < |ls| ==> ls[1..][i - 1] == ls[i];
      }
      if ls[0].kind == TextKind {
        ReduceShaped(ls[1..], buf + ls[0].slice);
      } else {
        ShapedDecodes(ls[0]);
        ReduceShaped(ls[1..], []);
      }
    }
  }

  /** A run of text lexemes collapses into at most one text token: the
      paragraphs of everything buffered. */
  lemma {:induction false} ReduceTextRun(ls: seq<Lexeme>, buf: string)
    requires AllText(ls)
    ensures Reduce(ls, buf) == Ok(Flush(buf + Concat(ls)))
    decreases |ls|
  {
    if ls == [] {
      assert buf + Concat(ls) == buf;
    } else {
      var buf' := buf + ls[0].slice;
      AllTextTail(ls);
      ReduceTextRun(ls[1..], buf');
      ReduceTextHead(ls, buf);
      ConcatHead(ls, buf);
    }
  }

  /** Every lexeme is text. */
  predicate AllText(ls: seq<Lexeme>) {
    forall i :: 0 <= i < |ls| ==> ls[i].kind == TextKind
  }

  lemma AllTextTail(ls: seq<Lexeme>)
    requires ls != [] && AllText(ls)
    ensures ls[0].kind == TextKind && AllText(ls[1..])
  {
    forall i | 0 <= i < |ls[1..]| ensures ls[1..][i].kind == TextKind {
      assert ls[1..][i] == ls[i + 1];
    }
  }

  /** A text head goes into the buffer. */
  lemma ReduceTextHead(ls: seq<Lexeme>, buf: string)
    requires ls != [] && ls[0].kind == TextKind
    ensures Reduce(ls, buf) == Reduce(ls[1..], buf + ls[0].slice)
  {
  }

  lemma ConcatHead(ls: seq<Lexeme>, buf: string)
    requires ls != []
    ensures (buf + ls[0].slice) + Concat(ls[1..]) == buf + Concat(ls)
  {
    assert Concat(ls) == ls[0].slice + Concat(ls[1..]);
  }

  /** The tokens that are not text, in order. */
  function NonText(ts: seq<SemanticToken>): (r: seq<SemanticToken>)
    ensures |r| <= |ts|
  {
    if ts == [] then []
    else (if ts[0].Text? then [] else [ts[0]]) + NonText(ts[1..])
  }

  lemma {:induction false} NonTextAppend(a: seq<SemanticToken>, b: seq<SemanticToken>)
    ensures NonText(a + b) == NonText(a) + NonText(b)
    decreases |a|
  {
    if a == [] {
      assert a + b == b;
    } else {
      assert (a + b)[1..] == a[1..] + b;
      NonTextAppend(a[1..], b);
    }
  }

  /** The decoded structured lexemes in order, comments dropped. */
  function Decoded(ls: seq<Lexeme>): Result<seq<SemanticToken>, Dialogs.CompileError>
    decreases |ls|
  {
    if ls == [] then Ok([])
    else
      var t :- DecodeLexeme(ls[0]);
      var rest :- Decoded(ls[1..]);
      Ok((if t.Some? then [t.value] else []) + rest)
  }

  /** Apart from the text tokens, the result is exactly the structured
      lexemes decoded one by one: buffering text never reorders, drops or
      adds anything else, and the loop crashes exactly when a decode does. */
  lemma {:induction false} ReduceNonText(ls: seq<Lexeme>, buf: string)
    ensures Reduce(ls, buf).Ok? <==> Decoded(ls).Ok?
    ensures Reduce(ls, buf).Ok? ==> NonText(Reduce(ls, buf).value) == Decoded(ls).value
    decreases |ls|
  {
    if ls == [] {
      FlushNonText(buf);
    } else if ls[0].kind == TextKind {
      ReduceNonText(ls[1..], buf + ls[0].slice);
      assert DecodeLexeme(ls[0]) == Ok(None);
    } else {
      ReduceNonText(ls[1..], []);
      var d := DecodeLexeme(ls[0]);
      var r := Reduce(ls[1..], []);
      if d.Ok? && r.Ok? {
        var mid := if d.value.Some? then [d.value.value] else [];
        assert Reduce(ls, buf) == Ok(Flush(buf) + mid + r.value);
        assert Decoded(ls) == Ok(mid + Decoded(ls[1..]).value);
        NonTextSplice(Flush(buf), mid, r.value);
      }
    }
  }

  /** Splicing a flushed buffer and a structured token in front of a run of
      tokens adds just that token to the non-text ones. */
  lemma NonTextSplice(f: seq<SemanticToken>, mid: seq<SemanticToken>, rest: seq<SemanticToken>)
    requires NonText(f) == []
    requires |mid| <= 1 && (mid != [] ==> !mid[0].Text?)
    ensures NonText(f + mid + rest) == mid + NonText(rest)
  {
    NonTextAppend(f, mid);
    NonTextAppend(f + mid, rest);
    assert NonText(mid) == mid by {
      if mid != [] {
        assert mid == [mid[0]];
        assert NonText(mid) == [mid[0]] + NonText(mid[1..]);
      }
    }
  }

  // ---------------------------------------------------------------------
  // The whole compiler

  /** `Dialog::from_str`. */
  function FromStr(raw: string): Result<Dialogs.Dialog, Dialogs.CompileError> {
    var ts :- Reduce(Lex(raw), []);
    Builder.ParseSemantics(ts)
  }

  /** The semantic tokens of a script. */
  lemma LexedReduces(raw: string)
    ensures Reduce(Lex(raw), []).Ok?
    ensures TextsWellFormed(Reduce(Lex(raw), []).value)
  {
    LexShapes(raw);
    ReduceShaped(Lex(raw), []);
    ReduceTexts(Lex(raw), []);
  }

  /** What every compiled document satisfies: every phrase has at least one
      segment, every requirement list is well formed and every speaking
      character has an entry in the character table. */
  predicate Compiled(d: Dialogs.Dialog) {
    && BP.PhrasesNonEmpty(d)
    && Dialogs.RequirementsWellFormed(d.characters)
    && BP.PhrasesKnown(d)
  }

  /** Compiling any script either succeeds with a well-formed document or
      stops with an error of the builder other than an empty text: decoding
      never crashes and no text token is ever empty. */
  lemma FromStrOutcomes(raw: string)
    ensures FromStr(raw).Err? ==> BP.FromBuilder(FromStr(raw).error) && FromStr(raw).error != Dialogs.EmptyText
    ensures FromStr(raw).Ok? ==> Compiled(FromStr(raw).value)
  {
    LexedReduces(raw);
    var ts := Reduce(Lex(raw), []).value;
    assert BP.TextsNonEmpty(ts);
    BP.ParseSemanticsNonEmpty(ts);
    BP.ParseSemanticsWellFormed(ts);
    BP.ParseSemanticsErrors(ts);
  }
}
