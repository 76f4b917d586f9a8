/** `Dialog::parse_semantics` (dlg/src/parser/mod.rs): one left-to-right
    fold over the semantic tokens, carrying the current speaker, the current
    section, the menu being built and its pending option. */
module Builder {
  import opened Results
  import opened Dialogs
  import Sections
  import T = Tokens

  /** The fold's accumulator: the document so far and the four variables the
      loop carries. */
  datatype Builder = Builder(
    dialog: Dialog,
    speaker: Mention,
    section: Sections.Section,
    menu: Option<Menu>,
    option: Option<MenuOption>)

  /** The state before the first token. */
  function Start(): Builder {
    Builder(Empty(), Narrator, Sections.Initial, None, None)
  }

  /** `sections.entry(section).or_default()`. */
  function Touch(d: Dialog, s: Sections.Section): (r: Dialog)
    ensures r.characters == d.characters
    ensures r.sections.Keys == d.sections.Keys + {s}
    ensures forall x :: x in d.sections ==> r.sections[x] == d.sections[x]
    ensures LinesOf(r, s) == LinesOf(d, s)
  {
    if s in d.sections then d else d.(sections := d.sections[s := []])
  }

  /** `sections.entry(section).or_default().push(line)`. */
  function PushLine(d: Dialog, s: Sections.Section, line: Line): (r: Dialog)
    ensures r.characters == d.characters
    ensures r.sections.Keys == d.sections.Keys + {s}
    ensures r.sections[s] == LinesOf(d, s) + [line]
    ensures forall x :: x in d.sections && x != s ==> r.sections[x] == d.sections[x]
  {
    d.(sections := d.sections[s := LinesOf(d, s) + [line]])
  }

  /** The menu with the pending option, if any, pushed after its options. */
  function WithPending(m: Menu, o: Option<MenuOption>): (r: Menu)
    ensures r.title == m.title
    ensures o.Some? ==> r.options == m.options + [o.value]
    ensures o.None? ==> r.options == m.options
  {
    match o
    case Some(opt) => m.(options := m.options + [opt])
    case None => m
  }

  /** Closing the open menu, if any: the pending option is pushed and the
      menu becomes the next line of the current section. */
  function CloseMenu(b: Builder): (d: Dialog)
    ensures b.menu.None? ==> d == b.dialog
    ensures b.menu.Some? ==> d == PushLine(b.dialog, b.section, MenuLine(WithPending(b.menu.value, b.option)))
  {
    match b.menu
    case None => b.dialog
    case Some(m) => PushLine(b.dialog, b.section, MenuLine(WithPending(m, b.option)))
  }

  /** A name mention registers the alias (`entry().or_default()`). */
  function Register(characters: map<Alias, Requirements>, a: Alias): (r: map<Alias, Requirements>)
    ensures r.Keys == characters.Keys + {a}
    ensures forall x :: x in characters ==> r[x] == characters[x]
    ensures a !in characters ==> r[a] == Requirements([])
  {
    if a in characters then characters else characters[a := Requirements([])]
  }

  /** The builder after a mention. Only the speaker and the character table
      change; `@:state` keeps the speaker's alias and fails for the narrator. */
  function MentionStep(b: Builder, v: T.MentionToken): (r: Result<Builder, CompileError>)
    ensures r.Err? <==> v.State? && b.speaker.Narrator?
    ensures r.Err? ==> r.error == StateOnNarrator
    ensures r.Ok? ==> && r.value.section == b.section && r.value.menu == b.menu
                      && r.value.option == b.option
                      && r.value.dialog.sections == b.dialog.sections
    ensures r.Ok? && v.Narrator? ==> r.value.speaker == Narrator && r.value.dialog == b.dialog
    ensures r.Ok? && v.Name? ==> r.value.speaker == Character(Alias(v.name), Default)
    ensures r.Ok? && v.State? ==> r.value.speaker == Character(b.speaker.alias, Named(v.state))
    ensures r.Ok? && v.NameState? ==> r.value.speaker == Character(Alias(v.name), Named(v.state))
    ensures r.Ok? ==> r.value.dialog.characters
                      == EnsureCharacterRequirement(
                           if v.Name? then Register(b.dialog.characters, Alias(v.name)) else b.dialog.characters,
                           r.value.speaker)
  {
    var chars := b.dialog.characters;
    match v
    case Name(name) =>
      var speaker := Character(Alias(name), Default);
      var chars' := EnsureCharacterRequirement(Register(chars, Alias(name)), speaker);
      Ok(b.(speaker := speaker, dialog := b.dialog.(characters := chars')))
    case State(state) =>
      if b.speaker.Character? then
        var speaker := Character(b.speaker.alias, Named(state));
        Ok(b.(speaker := speaker, dialog := b.dialog.(characters := EnsureCharacterRequirement(chars, speaker))))
      else
        Err(StateOnNarrator)
    case NameState(name, state) =>
      var speaker := Character(Alias(name), Named(state));
      Ok(b.(speaker := speaker, dialog := b.dialog.(characters := EnsureCharacterRequirement(chars, speaker))))
    case Narrator =>
      Ok(b.(speaker := Narrator))
  }

  /** A menu after the first paragraph of a text inside it: an untitled
      menu takes the paragraph as its title, a titled one is unchanged. */
  function TitleMenu(m: Menu, title: string): (r: Menu)
    ensures r.options == m.options && r.title.Some?
    ensures m.title.Some? ==> r == m
    ensures m.title.None? ==> r.title == Some(title)
  {
    if m.title.None? then m.(title := Some(title)) else m
  }

  /** The builder after a text token. Outside a menu the paragraphs become
      one phrase of the current speaker. Inside one, the first paragraph
      titles the menu, or else the pending option; further paragraphs close
      the menu when an option is pending (and are otherwise dropped). */
  function TextStep(b: Builder, paragraphs: seq<string>): (r: Result<Builder, CompileError>)
    ensures b.menu.None? ==> r == Ok(b.(dialog := PushLine(b.dialog, b.section, Phrase(b.speaker, paragraphs))))
    ensures b.menu.Some? && paragraphs == [] ==> r == Err(EmptyText)
    ensures b.menu.Some? && paragraphs != [] ==>
      (r.Err? <==> b.menu.value.title.Some? && b.option.None?)
    ensures r.Err? ==> r.error == EmptyText || r.error == TextAfterMenu
    ensures paragraphs != [] && r.Err? ==> r.error == TextAfterMenu
    ensures r.Ok? ==> r.value.speaker == b.speaker && r.value.section == b.section
    ensures r.Ok? && b.menu.Some? && b.menu.value.title.None? ==>
      r.value.option == b.option
    ensures r.Ok? && b.menu.Some? && b.menu.value.title.Some? ==>
      r.value.option == Some(MenuOption(Some(paragraphs[0]), b.option.value.args))
    ensures r.Ok? && b.menu.Some? && paragraphs != [] && (|paragraphs| > 1 && r.value.option.Some?) ==>
      && r.value.menu.None?
      && r.value.dialog ==
           PushLine(b.dialog, b.section, MenuLine(WithPending(TitleMenu(b.menu.value, paragraphs[0]), r.value.option)))
    ensures r.Ok? && b.menu.Some? && paragraphs != [] && !(|paragraphs| > 1 && r.value.option.Some?) ==>
      r.value.dialog == b.dialog && r.value.menu == Some(TitleMenu(b.menu.value, paragraphs[0]))
  {
    match b.menu
    case None =>
      Ok(b.(dialog := PushLine(b.dialog, b.section, Phrase(b.speaker, paragraphs))))
    case Some(m) =>
      if paragraphs == [] then
        Err(EmptyText)
      else
        var title := paragraphs[0];
        var left := paragraphs[1..];
        var titled: Result<(Menu, Option<MenuOption>), CompileError> :=
          if m.title.None? then Ok((TitleMenu(m, title), b.option))
          else if b.option.Some? then Ok((m, Some(b.option.value.(title := Some(title)))))
          else Err(TextAfterMenu);
        match titled
        case Err(e) => Err(e)
        case Ok((menu, option)) =>
          if left != [] && option.Some? then
            Ok(b.(dialog := PushLine(b.dialog, b.section, MenuLine(WithPending(menu, option))),
                  menu := None, option := option))
          else
            Ok(b.(menu := Some(menu), option := option))
  }

  /** The builder after a command: `:menu` opens a fresh menu (discarding
      one already open), `:opt` pushes the pending option and starts a new
      one, and any other command changes nothing. */
  function CommandStep(b: Builder, command: string, args: string): (r: Result<Builder, CompileError>)
    ensures r.Err? <==> command != "menu" && command == "opt" && b.menu.None?
    ensures r.Err? ==> r.error == OptionWithoutMenu
    ensures r.Ok? ==> r.value.dialog == b.dialog && r.value.speaker == b.speaker && r.value.section == b.section
    ensures command == "menu" ==> r == Ok(b.(menu := Some(Menu(None, []))))
    ensures command == "opt" && r.Ok? ==>
      && r.value.menu == Some(WithPending(b.menu.value, b.option))
      && r.value.option == Some(MenuOption(None, args))
    ensures command != "menu" && command != "opt" ==> r == Ok(b)
  {
    if command == "menu" then
      Ok(b.(menu := Some(Menu(None, []))))
    else if command == "opt" then
      match b.menu
      case Some(m) => Ok(b.(menu := Some(WithPending(m, b.option)), option := Some(MenuOption(None, args))))
      case None => Err(OptionWithoutMenu)
    else
      Ok(b)
  }

  /** One iteration of the loop: the current section gets an entry, then
      the token takes effect. */
  function Step(b: Builder, t: T.SemanticToken): (r: Result<Builder, CompileError>)
    ensures t.Link? ==> r == Ok(Builder(CloseMenu(b.(dialog := Touch(b.dialog, b.section))),
                                        Narrator, Sections.Named(t.target), None, None))
    ensures t.InlineBlock? ==> r == Err(InlineBlockUnsupported(t.raw))
    ensures r.Ok? ==> b.section in r.value.dialog.sections
    ensures r.Ok? ==> b.dialog.sections.Keys <= r.value.dialog.sections.Keys
    ensures r.Ok? ==> r.value.dialog.sections.Keys == b.dialog.sections.Keys + {b.section}
    ensures r.Ok? ==> r.value.section == (if t.Link? then Sections.Named(t.target) else b.section)
    ensures r.Ok? && t.Link? ==> r.value.menu.None?
  {
    var b := b.(dialog := Touch(b.dialog, b.section));
    match t
    case Mention(v) => MentionStep(b, v)
    case Link(name) => Ok(Builder(CloseMenu(b), Narrator, Sections.Named(name), None, None))
    case Text(paragraphs) => TextStep(b, paragraphs)
    case Command(command, args) => CommandStep(b, command, args)
    case InlineBlock(v) => Err(InlineBlockUnsupported(v))
  }

  /** The whole loop: the first error aborts it. */
  function Fold(b: Builder, ts: seq<T.SemanticToken>): Result<Builder, CompileError>
    decreases |ts|
  {
    if ts == [] then Ok(b)
    else
      match Step(b, ts[0])
      case Err(e) => Err(e)
      case Ok(b') => Fold(b', ts[1..])
  }

  /** After the loop: a menu still open is closed into the current section. */
  function Finish(b: Builder): Dialog {
    CloseMenu(b)
  }

  /** `parse_semantics` on an empty document. */
  function ParseSemantics(ts: seq<T.SemanticToken>): Result<Dialog, CompileError> {
    match Fold(Start(), ts)
    case Err(e) => Err(e)
    case Ok(b) => Ok(Finish(b))
  }
}
