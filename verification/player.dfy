/** Playback (dlg/src/player/mod.rs): the typing animation, the player's
    state and the console player's loop, which walks the cursor through the
    dialog one line or segment at a time. */
module Player {
  import opened Results
  import opened Strings
  import Sections
  import Cursors
  import opened Dialogs

  /** How many graphemes of the current segment are revealed (`current`),
      how many it has (`target`), and a wait counter. */
  datatype Animation = Animation(current: nat, target: nat, waited: nat)

  /** `Animation::default()`: nothing revealed, nothing to reveal. */
  function ZeroAnimation(): Animation {
    Animation(0, 0, 0)
  }

  /** `Display for Animation`: `<current>..<target>`. */
  function DisplayAnimation(a: Animation): (r: string)
    ensures |r| >= 4
  {
    NatToString(a.current) + ".." + NatToString(a.target)
  }

  /** Reads a rendered animation back: the digits before the first `.`,
      then `..`, then digits. */
  function ParseAnimation(r: string): Option<(nat, nat)> {
    var i := IndexOf(r, '.');
    if i + 1 >= |r| || r[i + 1] != '.' then None
    else
      var current := r[..i];
      var target := r[i + 2..];
      if !Cursors.AllDigits(current) || !Cursors.AllDigits(target) then None
      else Some((ParseNat(current), ParseNat(target)))
  }

  /** The rendering shows exactly the two counters: both can be read back. */
  lemma ParseDisplayAnimation(a: Animation)
    ensures ParseAnimation(DisplayAnimation(a)) == Some((a.current, a.target))
  {
    var c := NatToString(a.current);
    var t := NatToString(a.target);
    var r := DisplayAnimation(a);
    assert '.' !in c by {
      forall k | 0 <= k < |c| ensures c[k] != '.' {
        assert IsDigit(c[k]);
      }
    }
    assert r == c + ['.'] + ("." + t);
    IndexOfAfter(c, '.', "." + t);
    assert r[..|c|] == c;
    assert r[|c| + 2..] == t;
    ParseNatToString(a.current);
    ParseNatToString(a.target);
  }

  /** `DialogState`: where the player is and how far the segment is shown. */
  datatype DialogState = DialogState(cursor: Cursors.Cursor, animation: Animation)

  /** `DialogState::default()`: the start of the dialog, nothing shown. */
  function StartState(): DialogState {
    DialogState(Cursors.Default(), ZeroAnimation())
  }

  /** `process_line`: a phrase shows its next segment and moves past it, or
      moves to the next line once every segment was shown; a menu is only
      displayed, the console player has no way to choose an option. */
  function ProcessLine(s: DialogState, l: Line): (r: DialogState)
    ensures r.animation == s.animation
    ensures r.cursor == s.cursor <==> l.MenuLine?
    ensures l.Phrase? ==> Cursors.Precedes(s.cursor, r.cursor)
    ensures l.Phrase? && r.cursor.line == s.cursor.line ==> s.cursor.segment < |l.lines|
    ensures l.Phrase? && r.cursor.line != s.cursor.line ==> s.cursor.segment >= |l.lines| && r.cursor.segment == 0
  {
    match l
    case Phrase(_, lines) =>
      if s.cursor.segment < |lines| then s.(cursor := Cursors.NextPhraseIndex(s.cursor))
      else s.(cursor := Cursors.NextLineIndex(s.cursor))
    case MenuLine(_) => s
  }

  /** How the player loop stops: the cursor left the section's lines, or
      the step budget ran out first. */
  datatype Outcome = Ended(state: DialogState) | OutOfFuel(state: DialogState)

  /** The `while let` loop of `play`, at most `fuel` iterations. */
  function Run(d: Dialog, s: DialogState, fuel: nat): Outcome
    decreases fuel
  {
    match GetLineByCursor(d, s.cursor)
    case None => Ended(s)
    case Some(l) => if fuel == 0 then OutOfFuel(s) else Run(d, ProcessLine(s, l), fuel - 1)
  }

  /** `play`: the loop from the default state. */
  function Play(d: Dialog, fuel: nat): Outcome {
    Run(d, StartState(), fuel)
  }

  /** The loop stops exactly when no line is addressed: it ends at once
      without a line, and an ended run's cursor addresses none. */
  lemma {:induction false} RunEndsWithoutLine(d: Dialog, s: DialogState, fuel: nat)
    ensures GetLineByCursor(d, s.cursor).None? ==> Run(d, s, fuel) == Ended(s)
    ensures Run(d, s, fuel).Ended? ==> GetLineByCursor(d, Run(d, s, fuel).state.cursor).None?
    ensures Run(d, s, fuel).OutOfFuel? ==> GetLineByCursor(d, Run(d, s, fuel).state.cursor).Some?
    decreases fuel
  {
    match GetLineByCursor(d, s.cursor)
    case None =>
    case Some(l) =>
      if fuel > 0 {
        RunEndsWithoutLine(d, ProcessLine(s, l), fuel - 1);
      }
  }

  /** The loop never leaves the section it starts in and never touches the
      animation: only a menu option can change the section. */
  lemma {:induction false} RunKeepsSection(d: Dialog, s: DialogState, fuel: nat)
    ensures Run(d, s, fuel).state.cursor.section == s.cursor.section
    ensures Run(d, s, fuel).state.animation == s.animation
    ensures Run(d, s, fuel).state.cursor.line >= s.cursor.line
    decreases fuel
  {
    match GetLineByCursor(d, s.cursor)
    case None =>
    case Some(l) =>
      if fuel > 0 {
        RunKeepsSection(d, ProcessLine(s, l), fuel - 1);
      }
  }

  /** A menu stops the console player for good: however many iterations it
      is given, the cursor stays on the menu. */
  lemma {:induction false} RunStuckAtMenu(d: Dialog, s: DialogState, fuel: nat)
    requires GetLineByCursor(d, s.cursor).Some? && GetLineByCursor(d, s.cursor).value.MenuLine?
    ensures Run(d, s, fuel) == OutOfFuel(s)
    decreases fuel
  {
    if fuel > 0 {
      RunStuckAtMenu(d, s, fuel - 1);
    }
  }

  predicate AllPhrases(ls: seq<Line>) {
    forall i :: 0 <= i < |ls| ==> ls[i].Phrase?
  }

  /** Iterations left from line `i`, segment `j` of a section made only of
      phrases: one per segment still to show, plus one to leave each line. */
  function Remaining(ls: seq<Line>, i: nat, j: nat): nat
    requires AllPhrases(ls)
    requires i < |ls| ==> j <= |ls[i].lines|
    decreases |ls| - i
  {
    if i >= |ls| then 0 else |ls[i].lines| + 1 - j + Remaining(ls, i + 1, 0)
  }

  /** In a section of phrases the loop ends if and only if it is given
      `Remaining` iterations, and it ends just past the last line. */
  lemma {:induction false} RunPhrases(d: Dialog, s: DialogState, fuel: nat)
    requires AllPhrases(LinesOf(d, s.cursor.section))
    requires s.cursor.line < |LinesOf(d, s.cursor.section)| ==>
               s.cursor.segment <= |LinesOf(d, s.cursor.section)[s.cursor.line].lines|
    ensures Run(d, s, fuel).Ended? <==>
              fuel >= Remaining(LinesOf(d, s.cursor.section), s.cursor.line, s.cursor.segment)
    ensures Run(d, s, fuel).Ended? && s.cursor.line < |LinesOf(d, s.cursor.section)| ==>
              Run(d, s, fuel).state.cursor == Cursors.Cursor(s.cursor.section, |LinesOf(d, s.cursor.section)|, 0)
    decreases fuel
  {
    var c := s.cursor;
    var ls := LinesOf(d, c.section);
    if c.line < |ls| && fuel > 0 {
      var l := ls[c.line];
      var s' := ProcessLine(s, l);
      RunPhrases(d, s', fuel - 1);
    }
  }

  /** `play` on a dialog whose initial section holds only phrases: it
      finishes exactly when given one iteration per segment plus one per
      line, with the cursor just past the section's end. */
  lemma PlayPhrases(d: Dialog, fuel: nat)
    requires AllPhrases(LinesOf(d, Sections.Initial))
    ensures Play(d, fuel).Ended? <==> fuel >= Remaining(LinesOf(d, Sections.Initial), 0, 0)
    ensures Play(d, fuel).Ended? ==>
              Play(d, fuel).state == DialogState(Cursors.Cursor(Sections.Initial, |LinesOf(d, Sections.Initial)|, 0), ZeroAnimation())
  {
    RunPhrases(d, StartState(), fuel);
    RunKeepsSection(d, StartState(), fuel);
    RunEndsWithoutLine(d, StartState(), fuel);
  }
}
