/** The player's address inside a dialog (dlg/src/player/cursor.rs): a
    section, a line index into it and a segment index into that line. */
module Cursors {
  import opened Results
  import opened Strings
  import Sections

  datatype Cursor = Cursor(section: Sections.Section, line: nat, segment: nat)

  /** `Cursor::default()`: the first segment of the first line of `Initial`. */
  function Default(): Cursor {
    Cursor(Sections.Initial, 0, 0)
  }

  /** `set_section_internal`: jump to the start of `section`. */
  function SetSectionInternal(c: Cursor, section: Sections.Section): (r: Cursor)
    ensures r.section == section && r.line == 0 && r.segment == 0
  {
    Cursor(section, 0, 0)
  }

  /** `reset`: back to the start of the dialog. */
  function Reset(c: Cursor): (r: Cursor)
    ensures r == Default()
  {
    SetSectionInternal(c, Sections.Initial)
  }

  /** `set_section(name)`: to the start of section `#name`. */
  function SetSection(c: Cursor, name: string): (r: Cursor)
    ensures r.section == Sections.Named(name)
    ensures r.line == 0 && r.segment == 0
  {
    SetSectionInternal(c, Sections.Named(name))
  }

  /** `next_line_index`: first segment of the next line of the same section. */
  function NextLineIndex(c: Cursor): (r: Cursor)
    ensures r.section == c.section
    ensures r.line == c.line + 1 && r.segment == 0
  {
    c.(line := c.line + 1, segment := 0)
  }

  /** `next_phrase_index`: next segment of the same line. */
  function NextPhraseIndex(c: Cursor): (r: Cursor)
    ensures r.section == c.section && r.line == c.line
    ensures r.segment == c.segment + 1
  {
    c.(segment := c.segment + 1)
  }

  /** `b` lies strictly further into the same section than `a`. */
  predicate Precedes(a: Cursor, b: Cursor) {
    a.section == b.section
    && (a.line < b.line || (a.line == b.line && a.segment < b.segment))
  }

  /** The four operations that change a cursor. */
  datatype Move = ResetMove | SetSectionMove(name: string) | NextLine | NextPhrase

  function Apply(c: Cursor, m: Move): Cursor {
    match m
    case ResetMove => Reset(c)
    case SetSectionMove(name) => SetSection(c, name)
    case NextLine => NextLineIndex(c)
    case NextPhrase => NextPhraseIndex(c)
  }

  predicate IsJump(m: Move) {
    m.ResetMove? || m.SetSectionMove?
  }

  /** Only `reset` and `set_section` change the section or move back to an
      earlier line; the other two always move strictly forward. */
  lemma OnlyJumpsGoBack(c: Cursor, m: Move)
    ensures !IsJump(m) ==> Precedes(c, Apply(c, m))
    ensures Apply(c, m).section != c.section || Apply(c, m).line < c.line ==> IsJump(m)
  {
  }

  function ApplyAll(c: Cursor, ms: seq<Move>): Cursor
    decreases |ms|
  {
    if ms == [] then c else ApplyAll(Apply(c, ms[0]), ms[1..])
  }

  /** Without a jump, any sequence of moves keeps the section and never goes
      back: the cursor only moves forward. */
  lemma {:induction false} NoJumpMonotone(c: Cursor, ms: seq<Move>)
    requires forall k :: 0 <= k < |ms| ==> !IsJump(ms[k])
    ensures ms != [] ==> Precedes(c, ApplyAll(c, ms))
    ensures ApplyAll(c, ms).section == c.section
    ensures ApplyAll(c, ms).line >= c.line
    decreases |ms|
  {
    if ms != [] {
      OnlyJumpsGoBack(c, ms[0]);
      NoJumpMonotone(Apply(c, ms[0]), ms[1..]);
    }
  }

  /** `Display for Cursor`: `<section>:<line>:<segment>`. */
  function Display(c: Cursor): string {
    Sections.Display(c.section) + ":" + NatToString(c.line) + ":" + NatToString(c.segment)
  }

  predicate AllDigits(s: string) {
    forall i :: 0 <= i < |s| ==> IsDigit(s[i])
  }

  /** Reads a rendered cursor back, taking the two numbers from the right,
      since a section name may itself contain `:`. */
  function Parse(r: string): Option<Cursor> {
    var j := LastIndexOf(r, ':');
    if j < 0 then None
    else
      var front := r[..j];
      var i := LastIndexOf(front, ':');
      if i < 0 then None
      else
        var line := front[i + 1..];
        var segment := r[j + 1..];
        if !AllDigits(line) || !AllDigits(segment) then None
        else
          match Sections.Parse(front[..i])
          case None => None
          case Some(section) => Some(Cursor(section, ParseNat(line), ParseNat(segment)))
  }

  /** The rendering of a cursor determines the cursor. */
  lemma ParseDisplay(c: Cursor)
    ensures Parse(Display(c)) == Some(c)
  {
    var sec := Sections.Display(c.section);
    var l := NatToString(c.line);
    var g := NatToString(c.segment);
    var r := Display(c);
    assert ':' !in g;
    assert ':' !in l;
    assert r == (sec + ":" + l) + [':'] + g;
    LastIndexOfBefore(sec + ":" + l, ':', g);
    var front := r[..|sec + ":" + l|];
    assert front == sec + [':'] + l;
    LastIndexOfBefore(sec, ':', l);
    assert front[..|sec|] == sec;
    assert front[|sec| + 1..] == l;
    assert r[|sec + ":" + l| + 1..] == g;
    Sections.ParseDisplay(c.section);
    ParseNatToString(c.line);
    ParseNatToString(c.segment);
  }
}
