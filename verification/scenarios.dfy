/** Worked scenarios from the repository's tests, stated on the semantic
    tokens the tests' scripts compile to, and a debugger session through
    the menu script. */
module Scenarios {
  import opened Results
  import Sections
  import Cursors
  import opened Dialogs
  import T = Tokens
  import Builder
  import BP = BuilderProperties
  import Player
  import Debugger

  /** The tokens of the two-speaker script of tests/basic_dialog.rs. */
  function BasicTokens(): seq<T.SemanticToken> {
    [ T.Mention(T.Narrator), T.Text(["Narrator's text"]),
      T.Mention(T.NameState("bob", "state")), T.Text(["Bob's text"]) ]
  }

  function Bob(): Alias {
    Alias("bob")
  }

  /** A narrator phrase and a phrase of `bob` in state `state`; `bob` is
      required in that state. */
  lemma BasicDialog()
    ensures Builder.ParseSemantics(BasicTokens()) == Ok(Dialog(
              map[Bob() := Requirements([Named("state")])],
              map[Sections.Initial := [
                Phrase(Narrator, ["Narrator's text"]),
                Phrase(Character(Bob(), Named("state")), ["Bob's text"])]]))
  {
    var ts := BasicTokens();
    var p1 := Phrase(Narrator, ["Narrator's text"]);
    var bob := Character(Bob(), Named("state"));
    var p2 := Phrase(bob, ["Bob's text"]);
    var chars := map[Bob() := Requirements([Named("state")])];
    var b0 := Builder.Start();
    var b1 := Builder.Builder(Dialog(map[], map[Sections.Initial := []]), Narrator, Sections.Initial, None, None);
    var b2 := b1.(dialog := Dialog(map[], map[Sections.Initial := [p1]]));
    var b3 := b2.(speaker := bob, dialog := Dialog(chars, map[Sections.Initial := [p1]]));
    var b4 := b3.(dialog := Dialog(chars, map[Sections.Initial := [p1, p2]]));
    assert Builder.Step(b0, ts[0]) == Ok(b1);
    assert Builder.Step(b1, ts[1]) == Ok(b2) by {
      assert [] + [p1] == [p1];
      assert map[Sections.Initial := []][Sections.Initial := [p1]] == map[Sections.Initial := [p1]];
    }
    assert Builder.Step(b2, ts[2]) == Ok(b3) by {
      assert [] + [Named("state")] == [Named("state")];
      assert map[][Bob() := Requirements([Named("state")])] == chars;
      assert EnsureCharacterRequirement(map[], bob) == chars;
    }
    assert Builder.Step(b3, ts[3]) == Ok(b4) by {
      assert [p1] + [p2] == [p1, p2];
      assert map[Sections.Initial := [p1]][Sections.Initial := [p1, p2]] == map[Sections.Initial := [p1, p2]];
    }
    assert Builder.Fold(b4, ts[4..]) == Ok(b4);
    assert Builder.Fold(b3, ts[3..]) == Ok(b4);
    assert Builder.Fold(b2, ts[2..]) == Ok(b4);
    assert Builder.Fold(b1, ts[1..]) == Ok(b4);
  }

  /** The tokens of the menu script of tests/menu.rs. */
  function MenuTokens(): seq<T.SemanticToken> {
    [ T.Command("menu", ""), T.Text(["Title"]),
      T.Command("opt", "#section_1"), T.Text(["Section 1"]),
      T.Command("opt", "#section_2"), T.Text(["Section 2"]),
      T.Link("section_1"), T.Text(["Text in section 1"]),
      T.Link("section_2"), T.Text(["Text in section 2"]) ]
  }

  function TitledMenu(): Menu {
    Menu(Some("Title"), [MenuOption(Some("Section 1"), "#section_1"), MenuOption(Some("Section 2"), "#section_2")])
  }

  /** The document tests/menu.rs expects: the menu alone in the initial
      section and one narrator phrase in each target section. */
  function MenuDialog(): Dialog {
    Dialog(map[], map[
      Sections.Initial := [MenuLine(TitledMenu())],
      Sections.Named("section_1") := [Phrase(Narrator, ["Text in section 1"])],
      Sections.Named("section_2") := [Phrase(Narrator, ["Text in section 2"])]])
  }

  /** The builder once both options have their titles: the menu holds the
      first option and the second is pending. */
  function OpenMenu(): Builder.Builder {
    Builder.Builder(
      Dialog(map[], map[Sections.Initial := []]), Narrator, Sections.Initial,
      Some(Menu(Some("Title"), [MenuOption(Some("Section 1"), "#section_1")])),
      Some(MenuOption(Some("Section 2"), "#section_2")))
  }

  /** One token of a fold, unrolled. */
  lemma FoldStep(b: Builder.Builder, ts: seq<T.SemanticToken>, next: Builder.Builder)
    requires ts != [] && Builder.Step(b, ts[0]) == Ok(next)
    ensures Builder.Fold(b, ts) == Builder.Fold(next, ts[1..])
  {
  }

  /** The builder after `:menu`, its title and the first `:opt`. */
  function FirstOptionOpened(): Builder.Builder {
    Builder.Builder(
      Dialog(map[], map[Sections.Initial := []]), Narrator, Sections.Initial,
      Some(Menu(Some("Title"), [])), Some(MenuOption(None, "#section_1")))
  }

  /** The first six tokens open the menu and title it and its options. */
  lemma MenuOpened()
    ensures Builder.Fold(Builder.Start(), MenuTokens()) == Builder.Fold(OpenMenu(), MenuTokens()[6..])
  {
    MenuTitled();
    BothOptionsTitled();
    assert MenuTokens()[3..][3..] == MenuTokens()[6..];
  }

  /** `:menu`, the title and `:opt(#section_1)`. */
  lemma MenuTitled()
    ensures Builder.Fold(Builder.Start(), MenuTokens()) == Builder.Fold(FirstOptionOpened(), MenuTokens()[3..])
  {
    var ts := MenuTokens();
    var b1 := Builder.Builder(Dialog(map[], map[Sections.Initial := []]), Narrator, Sections.Initial, Some(Menu(None, [])), None);
    var b2 := b1.(menu := Some(Menu(Some("Title"), [])));
    assert Builder.Step(Builder.Start(), ts[0]) == Ok(b1);
    FoldStep(Builder.Start(), ts, b1);
    assert Builder.Step(b1, ts[1]) == Ok(b2);
    FoldStep(b1, ts[1..], b2);
    assert Builder.Step(b2, ts[2]) == Ok(FirstOptionOpened());
    FoldStep(b2, ts[2..], FirstOptionOpened());
    assert ts[2..][1..] == ts[3..];
  }

  /** The first option's title, `:opt(#section_2)` and its title. */
  lemma BothOptionsTitled()
    ensures Builder.Fold(FirstOptionOpened(), MenuTokens()[3..]) == Builder.Fold(OpenMenu(), MenuTokens()[3..][3..])
  {
    var ts := MenuTokens()[3..];
    var o1 := MenuOption(Some("Section 1"), "#section_1");
    var b2 := FirstOptionOpened().(option := None);
    var b4 := b2.(option := Some(o1));
    var b5 := b2.(menu := Some(Menu(Some("Title"), [o1])), option := Some(MenuOption(None, "#section_2")));
    assert Builder.Step(FirstOptionOpened(), ts[0]) == Ok(b4);
    FoldStep(FirstOptionOpened(), ts, b4);
    assert Builder.Step(b4, ts[1]) == Ok(b5) by {
      assert Builder.WithPending(Menu(Some("Title"), []), Some(o1)) == Menu(Some("Title"), [o1]);
    }
    FoldStep(b4, ts[1..], b5);
    assert Builder.Step(b5, ts[2]) == Ok(OpenMenu());
    FoldStep(b5, ts[2..], OpenMenu());
    assert ts[2..][1..] == ts[3..];
  }

  function Section1Phrase(): Line {
    Phrase(Narrator, ["Text in section 1"])
  }

  function Section2Phrase(): Line {
    Phrase(Narrator, ["Text in section 2"])
  }

  /** After `#section_1`: the menu is a line of the initial section. */
  function Closed(): Builder.Builder {
    Builder.Builder(Dialog(map[], map[Sections.Initial := [MenuLine(TitledMenu())]]),
                    Narrator, Sections.Named("section_1"), None, None)
  }

  function InSection1(): Builder.Builder {
    var d := Closed().dialog;
    Closed().(dialog := d.(sections := d.sections[Sections.Named("section_1") := [Section1Phrase()]]))
  }

  function InSection2(): Builder.Builder {
    InSection1().(section := Sections.Named("section_2"))
  }

  function Done(): Builder.Builder {
    var d := InSection2().dialog;
    InSection2().(dialog := d.(sections := d.sections[Sections.Named("section_2") := [Section2Phrase()]]))
  }

  /** A link pushes the open menu, pending option last, into the section
      it closes. */
  lemma LinkClosesMenu()
    ensures Builder.Step(OpenMenu(), T.Link("section_1")) == Ok(Closed())
  {
    var o1 := MenuOption(Some("Section 1"), "#section_1");
    var o2 := MenuOption(Some("Section 2"), "#section_2");
    assert [o1] + [o2] == [o1, o2];
    assert Builder.WithPending(Menu(Some("Title"), [o1]), Some(o2)) == TitledMenu();
    assert [] + [MenuLine(TitledMenu())] == [MenuLine(TitledMenu())];
    assert map[Sections.Initial := []][Sections.Initial := [MenuLine(TitledMenu())]]
        == map[Sections.Initial := [MenuLine(TitledMenu())]];
  }

  lemma FirstSectionText()
    ensures Builder.Step(Closed(), T.Text(["Text in section 1"])) == Ok(InSection1())
  {
    var s1 := Sections.Named("section_1");
    var d := Closed().dialog;
    assert [] + [Section1Phrase()] == [Section1Phrase()];
    assert d.sections[s1 := []][s1 := [Section1Phrase()]] == d.sections[s1 := [Section1Phrase()]];
  }

  lemma SecondLink()
    ensures Builder.Step(InSection1(), T.Link("section_2")) == Ok(InSection2())
  {
  }

  lemma SecondSectionText()
    ensures Builder.Step(InSection2(), T.Text(["Text in section 2"])) == Ok(Done())
  {
    var s2 := Sections.Named("section_2");
    var d := InSection2().dialog;
    assert [] + [Section2Phrase()] == [Section2Phrase()];
    assert d.sections[s2 := []][s2 := [Section2Phrase()]] == d.sections[s2 := [Section2Phrase()]];
  }

  /** The first link closes the menu into the initial section; each text
      after a link is a narrator phrase of the linked section. */
  lemma MenuClosed()
    ensures Builder.Fold(OpenMenu(), MenuTokens()[6..]) == Ok(Done())
    ensures Builder.Finish(Done()) == MenuDialog()
  {
    var ts := MenuTokens()[6..];
    assert ts == [T.Link("section_1"), T.Text(["Text in section 1"]), T.Link("section_2"), T.Text(["Text in section 2"])];
    LinkClosesMenu();
    FoldStep(OpenMenu(), ts, Closed());
    FirstSectionText();
    FoldStep(Closed(), ts[1..], InSection1());
    SecondLink();
    FoldStep(InSection1(), ts[2..], InSection2());
    SecondSectionText();
    FoldStep(InSection2(), ts[3..], Done());
    assert ts[3..][1..] == [];
  }

  /** tests/menu.rs: the whole script compiles to the expected document. */
  lemma MenuScript()
    ensures Builder.ParseSemantics(MenuTokens()) == Ok(MenuDialog())
  {
    MenuOpened();
    MenuClosed();
  }

  // ---------------------------------------------------------------------
  // A debugger session through the menu script

  /** Graphemes counted as characters, enough for these ASCII texts. */
  function CharCount(): string -> nat {
    (s: string) => |s|
  }

  function Launched(): Debugger.App {
    Debugger.App(Debugger.NextAnimationFrame, MenuDialog(), Player.StartState())
  }

  function Choosing(selection: nat): Debugger.App {
    Launched().(view := Debugger.Input(Debugger.MenuMode(selection, TitledMenu())))
  }

  function InSecondSection(current: nat, target: nat): Debugger.App {
    Debugger.App(Debugger.NextAnimationFrame, MenuDialog(),
                 Player.DialogState(Cursors.Cursor(Sections.Named("section_2"), 0, 0), Player.Animation(current, target, 0)))
  }

  function PastSecondSection(): Debugger.App {
    Debugger.App(Debugger.NextAnimationFrame, MenuDialog(),
                 Player.DialogState(Cursors.Cursor(Sections.Named("section_2"), 1, 0), Player.ZeroAnimation()))
  }

  /** The first frame finds the menu and selects its first option. */
  lemma MenuFirstFrame()
    ensures Debugger.Frame(Launched(), None, false, CharCount()) == Ok(Debugger.Running(Choosing(0)))
  {
  }

  /** Up on the first option wraps to the last one. */
  lemma UpWraps()
    ensures Debugger.Frame(Choosing(0), Some(Debugger.Up), false, CharCount()) == Ok(Debugger.Running(Choosing(1)))
  {
    assert Debugger.TruncRem(-1, 2) == -1;
  }

  /** Enter follows `#section_2` and starts a fresh animation there. */
  lemma EnterFollowsOption()
    ensures Debugger.Frame(Choosing(1), Some(Debugger.Enter), true, CharCount()) == Ok(Debugger.Running(InSecondSection(0, 0)))
  {
    assert "#section_2"[1..] == "section_2";
  }

  /** The next frame measures the segment and the timer reveals one grapheme. */
  lemma AnimationStarts()
    ensures Debugger.Frame(InSecondSection(0, 0), None, true, CharCount()) == Ok(Debugger.Running(InSecondSection(1, 17)))
  {
    assert |"Text in section 2"| == 17;
  }

  /** Enter while animating reveals the whole segment at once. */
  lemma EnterSkipsAnimation()
    ensures Debugger.Frame(InSecondSection(1, 17), Some(Debugger.Enter), false, CharCount()) == Ok(Debugger.Running(InSecondSection(17, 17)))
  {
    assert |"Text in section 2"| == 17;
  }

  /** The fully shown last segment waits for Enter, which leaves the line. */
  lemma EnterLeavesLine()
    ensures Debugger.Frame(InSecondSection(17, 17), Some(Debugger.Enter), false, CharCount()) == Ok(Debugger.Running(PastSecondSection()))
  {
    assert |"Text in section 2"| == 17;
  }

  /** Past the section's last line the dialog ends. */
  lemma SessionEnds()
    ensures Debugger.Frame(PastSecondSection(), None, false, CharCount()) == Ok(Debugger.Quit)
  {
  }

  /** The whole session: show the menu, wrap the selection up to the second
      option, follow it, let one tick pass, skip the animation, leave the
      line, and the dialog is over. */
  lemma MenuSession()
    ensures Debugger.Session(Launched(),
              [ Debugger.Event(None, false), Debugger.Event(Some(Debugger.Up), false),
                Debugger.Event(Some(Debugger.Enter), true), Debugger.Event(None, true),
                Debugger.Event(Some(Debugger.Enter), false), Debugger.Event(Some(Debugger.Enter), false),
                Debugger.Event(None, false) ],
              CharCount()) == Ok(Debugger.Quit)
  {
    var es := [ Debugger.Event(None, false), Debugger.Event(Some(Debugger.Up), false),
                Debugger.Event(Some(Debugger.Enter), true), Debugger.Event(None, true),
                Debugger.Event(Some(Debugger.Enter), false), Debugger.Event(Some(Debugger.Enter), false),
                Debugger.Event(None, false) ];
    var c := CharCount();
    MenuFirstFrame();
    UpWraps();
    EnterFollowsOption();
    AnimationStarts();
    EnterSkipsAnimation();
    EnterLeavesLine();
    SessionEnds();
    assert Debugger.Session(PastSecondSection(), es[6..], c) == Ok(Debugger.Quit);
    assert Debugger.Session(InSecondSection(17, 17), es[5..], c) == Ok(Debugger.Quit);
    assert Debugger.Session(InSecondSection(1, 17), es[4..], c) == Ok(Debugger.Quit);
    assert Debugger.Session(InSecondSection(0, 0), es[3..], c) == Ok(Debugger.Quit);
    assert Debugger.Session(Choosing(1), es[2..], c) == Ok(Debugger.Quit);
    assert Debugger.Session(Choosing(0), es[1..], c) == Ok(Debugger.Quit);
  }

  /** The console player cannot choose an option: on the menu script it
      never ends, however long it runs. */
  lemma ConsolePlayerStuck(fuel: nat)
    ensures Player.Play(MenuDialog(), fuel) == Player.OutOfFuel(Player.StartState())
  {
    Player.RunStuckAtMenu(MenuDialog(), Player.StartState(), fuel);
  }

  /** The tokens of the script of tests/all_dialog_features.rs, in three
      parts: the narrator's phrase, `bob`'s first phrase, and his phrases in
      named states. */
  function FeatureTokens(): seq<T.SemanticToken> {
    NarratorTokens() + BobTokens() + StateTokens()
  }

  function NarratorTokens(): seq<T.SemanticToken> {
    [T.Mention(T.Narrator), T.Text(["Narrator's text"])]
  }

  function BobTokens(): seq<T.SemanticToken> {
    [T.Mention(T.Name("bob")), T.Text(["Bob without state"])]
  }

  function StateTokens(): seq<T.SemanticToken> {
    [ T.Mention(T.State("state_1")), T.Text(["Bob with state_1"]),
      T.Mention(T.NameState("bob", "state_2")), T.Text(["Bob with state_2"]) ]
  }

  /** The builder after `bob`'s first phrase: he speaks in his default
      state and has no requirement yet. */
  function BobIntroduced(): Builder.Builder {
    Builder.Builder(
      Dialog(map[Bob() := Requirements([])],
             map[Sections.Initial := [Phrase(Narrator, ["Narrator's text"]),
                                      Phrase(Character(Bob(), Default), ["Bob without state"])]]),
      Character(Bob(), Default), Sections.Initial, None, None)
  }

  function NarratorSpoke(): Builder.Builder {
    Builder.Builder(Dialog(map[], map[Sections.Initial := [Phrase(Narrator, ["Narrator's text"])]]),
                    Narrator, Sections.Initial, None, None)
  }

  lemma NarratorPhrase()
    ensures Builder.Fold(Builder.Start(), NarratorTokens()) == Ok(NarratorSpoke())
  {
    var ts := NarratorTokens();
    var p0 := Phrase(Narrator, ["Narrator's text"]);
    var b1 := Builder.Builder(Dialog(map[], map[Sections.Initial := []]), Narrator, Sections.Initial, None, None);
    assert Builder.Step(Builder.Start(), ts[0]) == Ok(b1);
    assert Builder.Step(b1, ts[1]) == Ok(NarratorSpoke()) by {
      assert [] + [p0] == [p0];
      assert map[Sections.Initial := []][Sections.Initial := [p0]] == map[Sections.Initial := [p0]];
    }
    FoldStep(Builder.Start(), ts, b1);
    FoldStep(b1, ts[1..], NarratorSpoke());
  }

  /** A name mention registers `bob` without a requirement. */
  lemma BobPhrase()
    ensures Builder.Fold(NarratorSpoke(), BobTokens()) == Ok(BobIntroduced())
  {
    var ts := BobTokens();
    var p0 := Phrase(Narrator, ["Narrator's text"]);
    var p1 := Phrase(Character(Bob(), Default), ["Bob without state"]);
    var c1 := map[Bob() := Requirements([])];
    var b3 := NarratorSpoke().(speaker := Character(Bob(), Default), dialog := NarratorSpoke().dialog.(characters := c1));
    assert Builder.Step(NarratorSpoke(), ts[0]) == Ok(b3) by {
      assert Builder.Register(map[], Bob()) == c1;
      assert c1[Bob() := Requirements([])] == c1;
      assert EnsureCharacterRequirement(c1, Character(Bob(), Default)) == c1;
    }
    assert Builder.Step(b3, ts[1]) == Ok(BobIntroduced()) by {
      assert [p0] + [p1] == [p0, p1];
      assert map[Sections.Initial := [p0]][Sections.Initial := [p0, p1]] == map[Sections.Initial := [p0, p1]];
    }
    FoldStep(NarratorSpoke(), ts, b3);
    FoldStep(b3, ts[1..], BobIntroduced());
  }

  /** `@:state_1` keeps `bob` as the speaker and adds his first requirement. */
  lemma FirstState(b: Builder.Builder)
    requires b.speaker == Character(Bob(), Default) && b.dialog.characters == map[Bob() := Requirements([])]
    ensures Builder.Step(b, T.Mention(T.State("state_1"))).Ok?
    ensures Builder.Step(b, T.Mention(T.State("state_1"))).value.dialog.characters
            == map[Bob() := Requirements([Named("state_1")])]
  {
    assert [] + [Named("state_1")] == [Named("state_1")];
    assert b.dialog.characters[Bob() := Requirements([Named("state_1")])] == map[Bob() := Requirements([Named("state_1")])];
  }

  /** `@bob:state_2` appends the second requirement after the first. */
  lemma SecondState(b: Builder.Builder)
    requires b.dialog.characters == map[Bob() := Requirements([Named("state_1")])]
    ensures Builder.Step(b, T.Mention(T.NameState("bob", "state_2"))).Ok?
    ensures Builder.Step(b, T.Mention(T.NameState("bob", "state_2"))).value.dialog.characters
            == map[Bob() := Requirements([Named("state_1"), Named("state_2")])]
  {
    assert Named("state_2") != Named("state_1");
    assert [Named("state_1")] + [Named("state_2")] == [Named("state_1"), Named("state_2")];
    assert b.dialog.characters[Bob() := Requirements([Named("state_1"), Named("state_2")])]
        == map[Bob() := Requirements([Named("state_1"), Named("state_2")])];
  }

  /** The named-state phrases require both states, in order. */
  lemma StatePhrases()
    ensures Builder.Fold(BobIntroduced(), StateTokens()).Ok?
    ensures Builder.Fold(BobIntroduced(), StateTokens()).value.dialog.characters
            == map[Bob() := Requirements([Named("state_1"), Named("state_2")])]
  {
    var ts := StateTokens();
    FirstState(BobIntroduced());
    var b5 := Builder.Step(BobIntroduced(), ts[0]).value;
    FoldStep(BobIntroduced(), ts, b5);
    var b6 := Builder.Step(b5, ts[1]).value;
    FoldStep(b5, ts[1..], b6);
    SecondState(b6);
    var b7 := Builder.Step(b6, ts[2]).value;
    FoldStep(b6, ts[2..], b7);
    var b8 := Builder.Step(b7, ts[3]).value;
    FoldStep(b7, ts[3..], b8);
    assert ts[3..][1..] == [];
  }

  /** tests/all_dialog_features.rs: `bob` speaks in his default state, then
      `@:state_1` keeps him as the speaker in a new state; both named states
      are required, in the order they first appear. */
  lemma FeatureRequirements()
    ensures Builder.ParseSemantics(FeatureTokens()).Ok?
    ensures Builder.ParseSemantics(FeatureTokens()).value.characters
            == map[Bob() := Requirements([Named("state_1"), Named("state_2")])]
  {
    var a, b, c := NarratorTokens(), BobTokens(), StateTokens();
    assert Builder.Fold(Builder.Start(), a + b) == Ok(BobIntroduced()) by {
      NarratorPhrase();
      BobPhrase();
      BP.FoldAppend(Builder.Start(), a, b);
    }
    assert Builder.Fold(Builder.Start(), FeatureTokens()) == Builder.Fold(BobIntroduced(), c) by {
      BP.FoldAppend(Builder.Start(), a + b, c);
    }
    StatePhrases();
  }

  // ---------------------------------------------------------------------
  // tests/mentions.rs

  /** The tokens of the script of tests/mentions.rs, in three parts: two
      narrator phrases, `bob` before and after `@:calm`, and the narrator
      again. */
  function MentionsTokens(): seq<T.SemanticToken> {
    TwoNarratorTokens() + BobNameTokens() + CalmStateTokens() + NarratorAgainTokens()
  }

  function TwoNarratorTokens(): seq<T.SemanticToken> {
    [T.Mention(T.Narrator), T.Text(["narrator"]), T.Mention(T.Narrator), T.Text(["narrator"])]
  }

  function BobNameTokens(): seq<T.SemanticToken> {
    [T.Mention(T.Name("bob")), T.Text(["bob"])]
  }

  function CalmStateTokens(): seq<T.SemanticToken> {
    [T.Mention(T.State("calm")), T.Text(["calm bob"])]
  }

  function NarratorAgainTokens(): seq<T.SemanticToken> {
    [T.Mention(T.Narrator), T.Text(["narrator"])]
  }

  function NarratorLine(): Line {
    Phrase(Narrator, ["narrator"])
  }

  function CalmBob(): Mention {
    Character(Bob(), Named("calm"))
  }

  function CalmRequired(): map<Alias, Requirements> {
    map[Bob() := Requirements([Named("calm")])]
  }

  /** The lines of the initial section once `bob` spoke in his default
      state, and once he spoke calmly. */
  function BobLines(): seq<Line> {
    [NarratorLine(), NarratorLine(), Phrase(Character(Bob(), Default), ["bob"])]
  }

  function CalmLines(): seq<Line> {
    BobLines() + [Phrase(CalmBob(), ["calm bob"])]
  }

  function BobSpoke(): Builder.Builder {
    Builder.Builder(Dialog(map[Bob() := Requirements([])], map[Sections.Initial := BobLines()]),
                    Character(Bob(), Default), Sections.Initial, None, None)
  }

  function NarratedTwice(): Builder.Builder {
    Builder.Builder(Dialog(map[], map[Sections.Initial := [NarratorLine(), NarratorLine()]]),
                    Narrator, Sections.Initial, None, None)
  }

  function BobCalmed(): Builder.Builder {
    Builder.Builder(Dialog(CalmRequired(), map[Sections.Initial := CalmLines()]),
                    CalmBob(), Sections.Initial, None, None)
  }

  function MentionsDone(): Builder.Builder {
    Builder.Builder(Dialog(CalmRequired(), map[Sections.Initial := CalmLines() + [NarratorLine()]]),
                    Narrator, Sections.Initial, None, None)
  }

  /** A lone `@` makes the narrator speak, twice in a row. */
  lemma TwoNarratorPhrases()
    ensures Builder.Fold(Builder.Start(), TwoNarratorTokens()) == Ok(NarratedTwice())
  {
    var ts := TwoNarratorTokens();
    var n := NarratorLine();
    var b1 := Builder.Builder(Dialog(map[], map[Sections.Initial := []]), Narrator, Sections.Initial, None, None);
    var b2 := b1.(dialog := Dialog(map[], map[Sections.Initial := [n]]));
    assert Builder.Step(Builder.Start(), ts[0]) == Ok(b1);
    FoldStep(Builder.Start(), ts, b1);
    assert Builder.Step(b1, ts[1]) == Ok(b2) by {
      assert [] + [n] == [n];
      assert map[Sections.Initial := []][Sections.Initial := [n]] == map[Sections.Initial := [n]];
    }
    FoldStep(b1, ts[1..], b2);
    assert Builder.Step(b2, ts[2]) == Ok(b2);
    FoldStep(b2, ts[2..], b2);
    assert Builder.Step(b2, ts[3]) == Ok(NarratedTwice()) by {
      assert [n] + [n] == [n, n];
      assert map[Sections.Initial := [n]][Sections.Initial := [n, n]] == map[Sections.Initial := [n, n]];
    }
    FoldStep(b2, ts[3..], NarratedTwice());
    assert ts[3..][1..] == [];
  }

  /** `@bob` registers `bob` without a requirement. */
  lemma BobNamed()
    ensures Builder.Fold(NarratedTwice(), BobNameTokens()) == Ok(BobSpoke())
  {
    var ts := BobNameTokens();
    var n := NarratorLine();
    var pb := Phrase(Character(Bob(), Default), ["bob"]);
    var c1 := map[Bob() := Requirements([])];
    var b1 := NarratedTwice().(speaker := Character(Bob(), Default), dialog := NarratedTwice().dialog.(characters := c1));
    assert Builder.Step(NarratedTwice(), ts[0]) == Ok(b1) by {
      assert Builder.Register(map[], Bob()) == c1;
      assert EnsureCharacterRequirement(c1, Character(Bob(), Default)) == c1;
    }
    FoldStep(NarratedTwice(), ts, b1);
    assert Builder.Step(b1, ts[1]) == Ok(BobSpoke()) by {
      assert [n, n] + [pb] == [n, n, pb];
      assert map[Sections.Initial := [n, n]][Sections.Initial := [n, n, pb]] == map[Sections.Initial := [n, n, pb]];
    }
    FoldStep(b1, ts[1..], BobSpoke());
  }

  /** `@:calm` keeps `bob` as the speaker and only changes his state, which
      becomes his one requirement. */
  lemma BobCalms()
    ensures Builder.Fold(BobSpoke(), CalmStateTokens()) == Ok(BobCalmed())
  {
    var ts := CalmStateTokens();
    var pc := Phrase(CalmBob(), ["calm bob"]);
    var b1 := BobSpoke().(speaker := CalmBob(), dialog := BobSpoke().dialog.(characters := CalmRequired()));
    assert Builder.Step(BobSpoke(), ts[0]) == Ok(b1) by {
      assert [] + [Named("calm")] == [Named("calm")];
      assert map[Bob() := Requirements([])][Bob() := Requirements([Named("calm")])] == CalmRequired();
    }
    FoldStep(BobSpoke(), ts, b1);
    assert Builder.Step(b1, ts[1]) == Ok(BobCalmed()) by {
      assert BobLines() + [pc] == CalmLines();
      assert map[Sections.Initial := BobLines()][Sections.Initial := CalmLines()] == map[Sections.Initial := CalmLines()];
    }
    FoldStep(b1, ts[1..], BobCalmed());
  }

  /** `@` hands the word back to the narrator. */
  lemma NarratorReturns()
    ensures Builder.Fold(BobCalmed(), NarratorAgainTokens()) == Ok(MentionsDone())
  {
    var ts := NarratorAgainTokens();
    var b1 := BobCalmed().(speaker := Narrator);
    assert Builder.Step(BobCalmed(), ts[0]) == Ok(b1);
    FoldStep(BobCalmed(), ts, b1);
    assert Builder.Step(b1, ts[1]) == Ok(MentionsDone()) by {
      assert map[Sections.Initial := CalmLines()][Sections.Initial := CalmLines() + [NarratorLine()]]
          == map[Sections.Initial := CalmLines() + [NarratorLine()]];
    }
    FoldStep(b1, ts[1..], MentionsDone());
  }

  /** tests/mentions.rs: a lone `@` is the narrator, `@:calm` changes only
      the state of the character speaking, and `calm` is `bob`'s one
      requirement. */
  lemma MentionsScript()
    ensures Builder.ParseSemantics(MentionsTokens())
         == Ok(Dialog(CalmRequired(), map[Sections.Initial := CalmLines() + [NarratorLine()]]))
  {
    var a := TwoNarratorTokens();
    var b := a + BobNameTokens();
    var c := b + CalmStateTokens();
    assert Builder.Fold(Builder.Start(), b) == Ok(BobSpoke()) by {
      TwoNarratorPhrases();
      BobNamed();
      BP.FoldAppend(Builder.Start(), a, BobNameTokens());
    }
    assert Builder.Fold(Builder.Start(), c) == Ok(BobCalmed()) by {
      BobCalms();
      BP.FoldAppend(Builder.Start(), b, CalmStateTokens());
    }
    assert Builder.Fold(Builder.Start(), MentionsTokens()) == Ok(MentionsDone()) by {
      NarratorReturns();
      BP.FoldAppend(Builder.Start(), c, NarratorAgainTokens());
    }
  }
}
