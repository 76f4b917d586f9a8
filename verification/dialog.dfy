/** The compiled document (dlg/src/parser/mod.rs): characters with the
    states the script asks of them, and the lines of every section. */
module Dialogs {
  import opened Results
  import Sections
  import Cursors

  /** A character's identifier, unique key of the character table. */
  datatype Alias = Alias(name: string)

  /** A character's variant at a point of the script. */
  datatype State = Default | Named(name: string)

  /** The distinct named states a character is ever shown in. */
  datatype Requirements = Requirements(states: seq<State>)

  /** Who speaks a phrase (`Mention`; the player calls it the speaker). */
  datatype Mention = Narrator | Character(alias: Alias, state: State)

  /** A menu entry: its title, once the script gives one, and its raw
      arguments (currently `#<section>`, the jump target). */
  datatype MenuOption = MenuOption(title: Option<string>, args: string)

  /** A menu: its title and its options in declaration order. */
  datatype Menu = Menu(title: Option<string>, options: seq<MenuOption>)

  /** A phrase is split into segments revealed one after another. */
  datatype Line = Phrase(speaker: Mention, lines: seq<string>) | MenuLine(menu: Menu)

  datatype Dialog = Dialog(characters: map<Alias, Requirements>, sections: map<Sections.Section, seq<Line>>)

  /** Everything that aborts compilation: the one `Err` of the builder and
      every `panic!` on the way from text to document. */
  datatype CompileError =
    | StateOnNarrator             // `@:state` while the narrator speaks
    | EmptyText                   // a text token without paragraphs
    | TextAfterMenu               // text inside a menu with nothing left to title
    | OptionWithoutMenu           // `:opt` with no open menu
    | InlineBlockUnsupported(raw: string)
    | MalformedMention            // a mention with more than one `:`
    | SliceOutOfRange             // a slice bound outside a token's text

  /** `Dialog::default()`. */
  function Empty(): Dialog {
    Dialog(map[], map[])
  }

  /** The lines of a section, none when it has no entry. */
  function LinesOf(d: Dialog, s: Sections.Section): seq<Line> {
    if s in d.sections then d.sections[s] else []
  }

  /** `get_line_by_cursor`: the line the cursor addresses, if there is one. */
  function GetLineByCursor(d: Dialog, c: Cursors.Cursor): (r: Option<Line>)
    ensures r.Some? <==> c.line < |LinesOf(d, c.section)|
    ensures r.Some? ==> r.value == LinesOf(d, c.section)[c.line]
  {
    if c.section in d.sections && c.line < |d.sections[c.section]| then
      Some(d.sections[c.section][c.line])
    else
      None
  }

  predicate NoDuplicates(states: seq<State>) {
    forall i, j :: 0 <= i < j < |states| ==> states[i] != states[j]
  }

  predicate OnlyNamed(states: seq<State>) {
    forall i :: 0 <= i < |states| ==> states[i].Named?
  }

  /** Requirement lists hold only named states, each at most once. */
  predicate RequirementsWellFormed(characters: map<Alias, Requirements>) {
    forall a :: a in characters ==> NoDuplicates(characters[a].states) && OnlyNamed(characters[a].states)
  }

  function StatesOf(characters: map<Alias, Requirements>, a: Alias): seq<State> {
    if a in characters then characters[a].states else []
  }

  /** `ensure_character_requirement`: a character speaker gets an entry in
      the table, and a named state it shows is appended to that entry's list
      unless the list already has it; the narrator changes nothing. */
  function EnsureCharacterRequirement(characters: map<Alias, Requirements>, m: Mention): (r: map<Alias, Requirements>)
    ensures m.Narrator? ==> r == characters
    ensures m.Character? ==> r.Keys == characters.Keys + {m.alias}
    ensures forall a :: a in characters && !(m.Character? && a == m.alias) ==> a in r && r[a] == characters[a]
    ensures m.Character? && m.state.Named? && m.state !in StatesOf(characters, m.alias) ==>
      r[m.alias].states == StatesOf(characters, m.alias) + [m.state]
    ensures m.Character? && (m.state.Default? || m.state in StatesOf(characters, m.alias)) ==>
      r[m.alias].states == StatesOf(characters, m.alias)
  {
    match m
    case Narrator => characters
    case Character(alias, state) =>
      var req := if alias in characters then characters[alias] else Requirements([]);
      if state.Named? && state !in req.states then
        characters[alias := Requirements(req.states + [state])]
      else
        characters[alias := req]
  }

  /** Recording a requirement keeps every list free of duplicates and of
      `Default`. */
  lemma EnsureKeepsWellFormed(characters: map<Alias, Requirements>, m: Mention)
    requires RequirementsWellFormed(characters)
    ensures RequirementsWellFormed(EnsureCharacterRequirement(characters, m))
  {
    var r := EnsureCharacterRequirement(characters, m);
    if m.Character? {
      var old_ := StatesOf(characters, m.alias);
      var new_ := r[m.alias].states;
      assert NoDuplicates(old_) && OnlyNamed(old_);
      if m.state.Named? && m.state !in old_ {
        assert new_ == old_ + [m.state];
        forall i, j | 0 <= i < j < |new_| ensures new_[i] != new_[j] {
          if j == |old_| {
            assert new_[i] == old_[i];
          }
        }
      }
    }
  }
}
