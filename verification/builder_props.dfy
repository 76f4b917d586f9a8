/** What the fold of `parse_semantics` guarantees about the documents it
    builds, over all token sequences. */
module BuilderProperties {
  import opened Results
  import opened Dialogs
  import opened Builder
  import Sections
  import T = Tokens

  /** The loop runs token by token: folding a concatenation folds the
      second part from where the first left off. */
  lemma {:induction false} FoldAppend(b: Builder, a: seq<T.SemanticToken>, c: seq<T.SemanticToken>)
    ensures Fold(b, a + c) == (match Fold(b, a) case Err(e) => Err(e) case Ok(b') => Fold(b', c))
    decreases |a|
  {
    if a == [] {
      assert a + c == c;
    } else {
      assert (a + c)[0] == a[0];
      assert (a + c)[1..] == a[1..] + c;
      match Step(b, a[0])
      case Err(_) =>
      case Ok(b') => FoldAppend(b', a[1..], c);
    }
  }

  // ---------------------------------------------------------------------
  // The character table

  predicate SpeakerKnown(characters: map<Alias, Requirements>, m: Mention) {
    m.Character? ==> m.alias in characters
  }

  /** Every phrase's speaker that is a character has an entry in the table. */
  predicate PhrasesKnown(d: Dialog) {
    forall s, i :: s in d.sections && 0 <= i < |d.sections[s]| && d.sections[s][i].Phrase? ==>
      SpeakerKnown(d.characters, d.sections[s][i].speaker)
  }

  /** What the fold keeps true of its accumulator. */
  predicate Inv(b: Builder) {
    && RequirementsWellFormed(b.dialog.characters)
    && SpeakerKnown(b.dialog.characters, b.speaker)
    && PhrasesKnown(b.dialog)
  }

  lemma PushLineKnown(d: Dialog, s: Sections.Section, line: Line)
    requires PhrasesKnown(d)
    requires line.Phrase? ==> SpeakerKnown(d.characters, line.speaker)
    ensures PhrasesKnown(PushLine(d, s, line))
  {
    var r := PushLine(d, s, line);
    forall x, i | x in r.sections && 0 <= i < |r.sections[x]| && r.sections[x][i].Phrase?
      ensures SpeakerKnown(r.characters, r.sections[x][i].speaker)
    {
      if x == s && i < |LinesOf(d, s)| {
        assert r.sections[x][i] == d.sections[s][i];
      }
    }
  }

  lemma TouchKnown(d: Dialog, s: Sections.Section)
    requires PhrasesKnown(d)
    ensures PhrasesKnown(Touch(d, s))
  {
  }

  lemma MoreCharactersKnown(d: Dialog, characters: map<Alias, Requirements>)
    requires PhrasesKnown(d)
    requires d.characters.Keys <= characters.Keys
    ensures PhrasesKnown(d.(characters := characters))
  {
  }

  lemma CloseMenuKnown(b: Builder)
    requires PhrasesKnown(b.dialog)
    ensures PhrasesKnown(CloseMenu(b))
  {
    if b.menu.Some? {
      PushLineKnown(b.dialog, b.section, MenuLine(WithPending(b.menu.value, b.option)));
    }
  }

  lemma MentionKeepsInv(b: Builder, v: T.MentionToken)
    requires Inv(b)
    requires MentionStep(b, v).Ok?
    ensures Inv(MentionStep(b, v).value)
  {
    var r := MentionStep(b, v).value;
    var chars := if v.Name? then Register(b.dialog.characters, Alias(v.name)) else b.dialog.characters;
    EnsureKeepsWellFormed(chars, r.speaker);
    MoreCharactersKnown(b.dialog, r.dialog.characters);
    assert r.dialog == b.dialog.(characters := r.dialog.characters);
  }

  lemma TextKeepsInv(b: Builder, paragraphs: seq<string>)
    requires Inv(b)
    requires TextStep(b, paragraphs).Ok?
    ensures Inv(TextStep(b, paragraphs).value)
  {
    var r := TextStep(b, paragraphs).value;
    if b.menu.None? {
      PushLineKnown(b.dialog, b.section, Phrase(b.speaker, paragraphs));
    } else if |paragraphs| > 1 && r.option.Some? {
      var m :| r.dialog == PushLine(b.dialog, b.section, MenuLine(WithPending(m, r.option)))
               && m.options == b.menu.value.options;
      PushLineKnown(b.dialog, b.section, MenuLine(WithPending(m, r.option)));
    }
  }

  lemma StepKeepsInv(b: Builder, t: T.SemanticToken)
    requires Inv(b)
    requires Step(b, t).Ok?
    ensures Inv(Step(b, t).value)
  {
    var b0 := b.(dialog := Touch(b.dialog, b.section));
    TouchKnown(b.dialog, b.section);
    match t
    case Mention(v) =>
      assert Step(b, t) == MentionStep(b0, v);
      MentionKeepsInv(b0, v);
    case Link(_) =>
      CloseMenuKnown(b0);
    case Text(paragraphs) =>
      assert Step(b, t) == TextStep(b0, paragraphs);
      TextKeepsInv(b0, paragraphs);
    case Command(c, a) =>
      assert Step(b, t) == CommandStep(b0, c, a);
    case InlineBlock(_) =>
  }

  lemma {:induction false} FoldKeepsInv(b: Builder, ts: seq<T.SemanticToken>)
    requires Inv(b)
    ensures Fold(b, ts).Ok? ==> Inv(Fold(b, ts).value)
    decreases |ts|
  {
    if ts != [] && Step(b, ts[0]).Ok? {
      StepKeepsInv(b, ts[0]);
      FoldKeepsInv(Step(b, ts[0]).value, ts[1..]);
    }
  }

  /** Every compiled document lists each named state of a character once,
      never lists `Default`, and has a table entry for every character that
      speaks a phrase. */
  lemma ParseSemanticsWellFormed(ts: seq<T.SemanticToken>)
    ensures ParseSemantics(ts).Ok? ==>
      && RequirementsWellFormed(ParseSemantics(ts).value.characters)
      && PhrasesKnown(ParseSemantics(ts).value)
  {
    FoldKeepsInv(Start(), ts);
    if Fold(Start(), ts).Ok? {
      CloseMenuKnown(Fold(Start(), ts).value);
    }
  }

  // ---------------------------------------------------------------------
  // Errors

  /** The errors `parse_semantics` itself reports. */
  predicate FromBuilder(e: CompileError) {
    e.StateOnNarrator? || e.EmptyText? || e.TextAfterMenu? || e.OptionWithoutMenu? || e.InlineBlockUnsupported?
  }

  lemma {:induction false} FoldErrors(b: Builder, ts: seq<T.SemanticToken>)
    ensures Fold(b, ts).Err? ==> FromBuilder(Fold(b, ts).error)
    decreases |ts|
  {
    if ts != [] {
      var b0 := b.(dialog := Touch(b.dialog, b.section));
      match ts[0] {
        case Mention(v) => assert Step(b, ts[0]) == MentionStep(b0, v);
        case Text(p) => assert Step(b, ts[0]) == TextStep(b0, p);
        case Command(c, a) => assert Step(b, ts[0]) == CommandStep(b0, c, a);
        case Link(_) =>
        case InlineBlock(_) =>
      }
      if Step(b, ts[0]).Ok? {
        FoldErrors(Step(b, ts[0]).value, ts[1..]);
      }
    }
  }

  /** The builder fails only with its own errors, never with a decoding
      error of the compiler. */
  lemma ParseSemanticsErrors(ts: seq<T.SemanticToken>)
    ensures ParseSemantics(ts).Err? ==> FromBuilder(ParseSemantics(ts).error)
  {
    FoldErrors(Start(), ts);
  }

  // ---------------------------------------------------------------------
  // Text tokens

  /** Every text token carries at least one paragraph, as the text flush of
      the compiler guarantees. */
  predicate TextsNonEmpty(ts: seq<T.SemanticToken>) {
    forall i :: 0 <= i < |ts| && ts[i].Text? ==> ts[i].paragraphs != []
  }

  /** Every phrase has at least one segment. */
  predicate PhrasesNonEmpty(d: Dialog) {
    forall s, i :: s in d.sections && 0 <= i < |d.sections[s]| && d.sections[s][i].Phrase? ==>
      d.sections[s][i].lines != []
  }

  lemma PushLineNonEmpty(d: Dialog, s: Sections.Section, line: Line)
    requires PhrasesNonEmpty(d)
    requires line.Phrase? ==> line.lines != []
    ensures PhrasesNonEmpty(PushLine(d, s, line))
  {
    var r := PushLine(d, s, line);
    forall x, i | x in r.sections && 0 <= i < |r.sections[x]| && r.sections[x][i].Phrase?
      ensures r.sections[x][i].lines != []
    {
      if x == s && i < |LinesOf(d, s)| {
        assert r.sections[x][i] == d.sections[s][i];
      }
    }
  }

  lemma TextNonEmpty(b: Builder, paragraphs: seq<string>)
    requires PhrasesNonEmpty(b.dialog)
    requires paragraphs != []
    requires TextStep(b, paragraphs).Ok?
    ensures PhrasesNonEmpty(TextStep(b, paragraphs).value.dialog)
  {
    var r := TextStep(b, paragraphs).value;
    if b.menu.None? {
      PushLineNonEmpty(b.dialog, b.section, Phrase(b.speaker, paragraphs));
    } else if |paragraphs| > 1 && r.option.Some? {
      var m :| r.dialog == PushLine(b.dialog, b.section, MenuLine(WithPending(m, r.option)))
               && m.options == b.menu.value.options;
      PushLineNonEmpty(b.dialog, b.section, MenuLine(WithPending(m, r.option)));
    }
  }

  lemma StepNonEmpty(b: Builder, t: T.SemanticToken)
    requires PhrasesNonEmpty(b.dialog)
    requires t.Text? ==> t.paragraphs != []
    ensures Step(b, t) != Err(EmptyText)
    ensures Step(b, t).Ok? ==> PhrasesNonEmpty(Step(b, t).value.dialog)
  {
    var b0 := b.(dialog := Touch(b.dialog, b.section));
    assert PhrasesNonEmpty(b0.dialog);
    match t
    case Mention(v) =>
      assert Step(b, t) == MentionStep(b0, v);
    case Link(_) =>
      if b0.menu.Some? {
        PushLineNonEmpty(b0.dialog, b0.section, MenuLine(WithPending(b0.menu.value, b0.option)));
      }
    case Text(paragraphs) =>
      assert Step(b, t) == TextStep(b0, paragraphs);
      if TextStep(b0, paragraphs).Ok? {
        TextNonEmpty(b0, paragraphs);
      }
    case Command(c, a) =>
      assert Step(b, t) == CommandStep(b0, c, a);
    case InlineBlock(_) =>
  }

  lemma {:induction false} FoldNonEmpty(b: Builder, ts: seq<T.SemanticToken>)
    requires PhrasesNonEmpty(b.dialog) && TextsNonEmpty(ts)
    ensures Fold(b, ts) != Err(EmptyText)
    ensures Fold(b, ts).Ok? ==> PhrasesNonEmpty(Fold(b, ts).value.dialog)
    decreases |ts|
  {
    if ts != [] {
      StepNonEmpty(b, ts[0]);
      if Step(b, ts[0]).Ok? {
        FoldNonEmpty(Step(b, ts[0]).value, ts[1..]);
      }
    }
  }

  /** When every text token has a paragraph, the "0 lines in text token"
      failure cannot happen and every phrase gets at least one segment. */
  lemma ParseSemanticsNonEmpty(ts: seq<T.SemanticToken>)
    requires TextsNonEmpty(ts)
    ensures ParseSemantics(ts) != Err(EmptyText)
    ensures ParseSemantics(ts).Ok? ==> PhrasesNonEmpty(ParseSemantics(ts).value)
  {
    FoldNonEmpty(Start(), ts);
    if Fold(Start(), ts).Ok? {
      var b := Fold(Start(), ts).value;
      if b.menu.Some? {
        PushLineNonEmpty(b.dialog, b.section, MenuLine(WithPending(b.menu.value, b.option)));
      }
    }
  }

  // ---------------------------------------------------------------------
  // Mentions

  /** `@:state` right after the narrator takes over never compiles,
      whatever comes before or after it. */
  lemma StateAfterNarratorFails(prefix: seq<T.SemanticToken>, state: string, rest: seq<T.SemanticToken>)
    ensures ParseSemantics(prefix + [T.Mention(T.Narrator), T.Mention(T.State(state))] + rest).Err?
  {
    var pair := [T.Mention(T.Narrator), T.Mention(T.State(state))];
    var ts := prefix + pair + rest;
    assert ts == prefix + (pair + rest);
    FoldAppend(Start(), prefix, pair + rest);
    match Fold(Start(), prefix)
    case Err(_) =>
    case Ok(b) =>
      var b1 := Step(b, pair[0]).value;
      assert b1.speaker == Narrator;
      assert (pair + rest)[1..] == [pair[1]] + rest;
      assert Step(b1, pair[1]).Err?;
  }

  // ---------------------------------------------------------------------
  // Menus

  /** The tokens of `:opt(args)` followed by a one-paragraph title, for
      each `(args, title)` in turn. */
  function OptionTokens(opts: seq<(string, string)>): seq<T.SemanticToken> {
    if opts == [] then []
    else [T.Command("opt", opts[0].0), T.Text([opts[0].1])] + OptionTokens(opts[1..])
  }

  /** The options those tokens declare, in declaration order. */
  function Declared(opts: seq<(string, string)>): seq<MenuOption> {
    if opts == [] then [] else [MenuOption(Some(opts[0].1), opts[0].0)] + Declared(opts[1..])
  }

  /** The menu as it would be closed now. */
  function Closed(b: Builder): Menu
    requires b.menu.Some?
  {
    WithPending(b.menu.value, b.option)
  }

  lemma {:induction false} OptionsFold(b: Builder, opts: seq<(string, string)>)
    requires b.menu.Some? && b.menu.value.title.Some?
    requires b.section in b.dialog.sections
    ensures Fold(b, OptionTokens(opts)).Ok?
    ensures var b' := Fold(b, OptionTokens(opts)).value;
      && b'.dialog == b.dialog && b'.section == b.section && b'.menu.Some?
      && Closed(b').title == Closed(b).title
      && Closed(b').options == Closed(b).options + Declared(opts)
    decreases |opts|
  {
    if opts != [] {
      var (args, title) := opts[0];
      var two := [T.Command("opt", args), T.Text([title])];
      assert OptionTokens(opts) == two + OptionTokens(opts[1..]);
      FoldAppend(b, two, OptionTokens(opts[1..]));
      var b1 := Step(b, two[0]).value;
      assert b1.option == Some(MenuOption(None, args));
      var b2 := Step(b1, two[1]).value;
      assert b2.option == Some(MenuOption(Some(title), args));
      assert b2.menu == b1.menu;
      assert two[1..] == [two[1]] && [two[1]][1..] == [];
      assert Fold(b, two) == Fold(b1, [two[1]]);
      assert Fold(b1, [two[1]]) == Fold(b2, []);
      OptionsFold(b2, opts[1..]);
      assert Declared(opts) == [MenuOption(Some(title), args)] + Declared(opts[1..]);
    }
  }

  /** A menu with a title and any number of options, each followed by its
      one-paragraph title, compiles to one menu line whose options are the
      declared ones in declaration order. */
  lemma MenuOptionsInOrder(title: string, opts: seq<(string, string)>)
    ensures ParseSemantics([T.Command("menu", ""), T.Text([title])] + OptionTokens(opts))
         == Ok(Dialog(map[], map[Sections.Initial := [MenuLine(Menu(Some(title), Declared(opts)))]]))
  {
    var head := [T.Command("menu", ""), T.Text([title])];
    FoldAppend(Start(), head, OptionTokens(opts));
    var b1 := Step(Start(), head[0]).value;
    var b2 := Step(b1, head[1]).value;
    assert head[1..] == [head[1]] && [head[1]][1..] == [];
    assert Fold(Start(), head) == Fold(b1, [head[1]]);
    assert Fold(b1, [head[1]]) == Fold(b2, []);
    assert b2.menu == Some(Menu(Some(title), [])) && b2.option == None;
    assert b2.dialog == Dialog(map[], map[Sections.Initial := []]);
    OptionsFold(b2, opts);
    var b' := Fold(b2, OptionTokens(opts)).value;
    assert Fold(Start(), [T.Command("menu", ""), T.Text([title])] + OptionTokens(opts)) == Ok(b');
    assert Closed(b') == Menu(Some(title), Declared(opts));
    assert CloseMenu(b') == PushLine(b2.dialog, Sections.Initial, MenuLine(Closed(b')));
    var line := MenuLine(Menu(Some(title), Declared(opts)));
    assert LinesOf(b2.dialog, Sections.Initial) + [line] == [line];
    assert b2.dialog.sections[Sections.Initial := [line]] == map[Sections.Initial := [line]];
  }

  // ---------------------------------------------------------------------
  // Sections

  /** The sections the links of `ts` open. */
  function LinkTargets(ts: seq<T.SemanticToken>): set<Sections.Section> {
    set i | 0 <= i < |ts| && ts[i].Link? :: Sections.Named(ts[i].target)
  }

  lemma LinkTargetsTail(ts: seq<T.SemanticToken>)
    requires ts != []
    ensures LinkTargets(ts) == LinkTargets(ts[1..]) + (if ts[0].Link? then {Sections.Named(ts[0].target)} else {})
  {
    var a := LinkTargets(ts);
    var b := LinkTargets(ts[1..]) + (if ts[0].Link? then {Sections.Named(ts[0].target)} else {});
    forall x | x in a ensures x in b {
      var i :| 0 <= i < |ts| && ts[i].Link? && x == Sections.Named(ts[i].target);
      if i > 0 {
        assert ts[1..][i - 1] == ts[i];
      }
    }
    forall x | x in b ensures x in a {
      if x in LinkTargets(ts[1..]) {
        var i :| 0 <= i < |ts[1..]| && ts[1..][i].Link? && x == Sections.Named(ts[1..][i].target);
        assert ts[i + 1] == ts[1..][i];
      } else {
        assert ts[0].Link?;
      }
    }
  }

  lemma {:induction false} FoldSections(b: Builder, ts: seq<T.SemanticToken>)
    ensures Fold(b, ts).Ok? ==>
      && Fold(b, ts).value.dialog.sections.Keys <= b.dialog.sections.Keys + {b.section} + LinkTargets(ts)
      && Fold(b, ts).value.section in {b.section} + LinkTargets(ts)
      && b.dialog.sections.Keys <= Fold(b, ts).value.dialog.sections.Keys
      && (ts != [] ==> b.section in Fold(b, ts).value.dialog.sections)
    decreases |ts|
  {
    if ts != [] && Step(b, ts[0]).Ok? {
      var b1 := Step(b, ts[0]).value;
      FoldSections(b1, ts[1..]);
      LinkTargetsTail(ts);
      assert b1.dialog.sections.Keys <= b.dialog.sections.Keys + {b.section};
      assert b1.section == b.section || (ts[0].Link? && b1.section == Sections.Named(ts[0].target));
    }
  }

  /** The sections opened by a link that some token follows. */
  function LiveLinkTargets(ts: seq<T.SemanticToken>): set<Sections.Section> {
    set i | 0 <= i < |ts| - 1 && ts[i].Link? :: Sections.Named(ts[i].target)
  }

  lemma LiveLinkTargetsTail(ts: seq<T.SemanticToken>)
    requires ts != []
    ensures LiveLinkTargets(ts) ==
      LiveLinkTargets(ts[1..]) + (if |ts| > 1 && ts[0].Link? then {Sections.Named(ts[0].target)} else {})
  {
    var a := LiveLinkTargets(ts);
    var b := LiveLinkTargets(ts[1..]) + (if |ts| > 1 && ts[0].Link? then {Sections.Named(ts[0].target)} else {});
    forall x | x in a ensures x in b {
      var i :| 0 <= i < |ts| - 1 && ts[i].Link? && x == Sections.Named(ts[i].target);
      if i > 0 {
        assert ts[1..][i - 1] == ts[i];
      }
    }
    forall x | x in b ensures x in a {
      if x in LiveLinkTargets(ts[1..]) {
        var i :| 0 <= i < |ts[1..]| - 1 && ts[1..][i].Link? && x == Sections.Named(ts[1..][i].target);
        assert ts[i + 1] == ts[1..][i];
      } else {
        assert ts[0].Link?;
      }
    }
  }

  /** Exactly the sections current while some token was processed get an
      entry: the one current at the start, when there is a token, and every
      section a link opened before another token. An open menu always
      belongs to a section that has an entry. */
  lemma {:induction false} FoldEntries(b: Builder, ts: seq<T.SemanticToken>)
    requires b.menu.Some? ==> b.section in b.dialog.sections
    ensures Fold(b, ts).Ok? ==>
      && Fold(b, ts).value.dialog.sections.Keys ==
           b.dialog.sections.Keys + (if ts == [] then {} else {b.section}) + LiveLinkTargets(ts)
      && (Fold(b, ts).value.menu.Some? ==> Fold(b, ts).value.section in Fold(b, ts).value.dialog.sections)
    decreases |ts|
  {
    if ts != [] && Step(b, ts[0]).Ok? {
      var b1 := Step(b, ts[0]).value;
      assert Fold(b, ts) == Fold(b1, ts[1..]);
      FoldEntries(b1, ts[1..]);
      LiveLinkTargetsTail(ts);
    }
  }

  /** A section has an entry only when some token was processed while it was
      current: `Initial` exactly when there is a token at all, and a named
      section exactly when a link opened it and another token follows the
      link. A link that is the last token therefore leaves no entry behind. */
  lemma ParseSemanticsSections(ts: seq<T.SemanticToken>)
    ensures ParseSemantics(ts).Ok? ==>
      && ParseSemantics(ts).value.sections.Keys <= {Sections.Initial} + LinkTargets(ts)
      && (Sections.Initial in ParseSemantics(ts).value.sections <==> ts != [])
    ensures ParseSemantics(ts).Ok? ==>
      ParseSemantics(ts).value.sections.Keys == (if ts == [] then {} else {Sections.Initial}) + LiveLinkTargets(ts)
    ensures ParseSemantics(ts).Ok? ==> forall n: string ::
      Sections.Named(n) in ParseSemantics(ts).value.sections <==> exists i :: 0 <= i < |ts| - 1 && ts[i] == T.Link(n)
  {
    FoldSections(Start(), ts);
    FoldEntries(Start(), ts);
    if ts == [] {
      assert Fold(Start(), ts) == Ok(Start());
    }
    forall n: string
      ensures Sections.Named(n) in LiveLinkTargets(ts) <==> exists i :: 0 <= i < |ts| - 1 && ts[i] == T.Link(n)
    {
      LiveLinkNamed(ts, n);
    }
  }

  lemma LiveLinkNamed(ts: seq<T.SemanticToken>, n: string)
    ensures Sections.Named(n) in LiveLinkTargets(ts) <==> exists i :: 0 <= i < |ts| - 1 && ts[i] == T.Link(n)
  {
    if Sections.Named(n) in LiveLinkTargets(ts) {
      var i :| 0 <= i < |ts| - 1 && ts[i].Link? && Sections.Named(n) == Sections.Named(ts[i].target);
      assert ts[i] == T.Link(n);
    }
  }
}
