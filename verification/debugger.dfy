/** The terminal debugger's state machine (dlg-debugger/src/main.rs): every
    frame resolves what the view shows from the line under the cursor, then
    a key press and the animation timer change the state. Drawing itself,
    the terminal and the clock are left out; a grapheme counter is a
    parameter. */
module Debugger {
  import opened Results
  import Cursors
  import opened Dialogs
  import Player
  import BP = BuilderProperties
  import Reducer

  /** What the player waits for after the segment is fully shown. */
  datatype InputMode = NextPhraseMode | NextLineMode | MenuMode(selection: nat, menu: Menu)

  /** What the current frame shows: an animation in progress, a prompt, or
      the end of the dialog. */
  datatype ViewMode = NextAnimationFrame | Input(mode: InputMode) | End

  datatype App = App(view: ViewMode, dialog: Dialog, state: Player.DialogState)

  /** The keys the loop tells apart; `Interrupt` is Ctrl-C. */
  datatype Key = Enter | Up | Down | Escape | Interrupt | Other

  /** Every `panic!` the loop can hit, named after its cause. */
  datatype Fault =
    | NoSegment                      // a phrase addressed past its last segment
    | RevealPastEnd                  // more graphemes revealed than the segment has
    | UntitledOption                 // a menu option without a title is drawn
    | UntitledMenu                   // a menu without a title is drawn
    | SelectionOutOfBounds(selection: nat, len: nat)
    | RemainderByZero                // moving the selection of an empty menu
    | ArgsTooShort                   // `args[1..]` of empty option arguments
    | ArgsNotCharBoundary            // `args[1..]` inside a multi-byte character

  /** The result of handling a key: the loop goes on, or returns. */
  datatype Outcome = Running(app: App) | Quit

  // ---------------------------------------------------------------------
  // Selection arithmetic

  /** Rust's `%` on `isize`: the remainder takes the sign of the dividend. */
  function TruncRem(a: int, n: int): (r: int)
    requires n > 0
    ensures -n < r < n
    ensures a >= 0 ==> r >= 0
    ensures a < 0 ==> r <= 0
  {
    if a >= 0 then a % n else -((-a) % n)
  }

  /** `rem + len * (rem < 0)` with `rem = raw % len`: a selection brought
      back into range; dividing by an empty list panics. */
  function WrapSelection(raw: int, len: nat): (r: Result<nat, Fault>)
    ensures r.Err? <==> len == 0
    ensures r.Err? ==> r.error == RemainderByZero
    ensures r.Ok? ==> r.value < len
  {
    if len == 0 then Err(RemainderByZero)
    else
      var rem := TruncRem(raw, len);
      Ok(if rem < 0 then rem + len else rem)
  }

  /** A positive multiple of `n` is at least `n`. */
  lemma {:induction false} MulAtLeast(d: int, n: int)
    requires d >= 1 && n > 0
    ensures d * n >= n
    decreases d
  {
    if d > 1 {
      MulAtLeast(d - 1, n);
      assert d * n == (d - 1) * n + n;
    }
  }

  /** `a % n == r` whenever `a` is `k` multiples of `n` plus `r`. */
  lemma ModUnique(a: int, n: int, k: int, r: int)
    requires n > 0 && 0 <= r < n && a == k * n + r
    ensures a % n == r
  {
    var q := a / n;
    assert a == q * n + a % n;
    var d := k - q;
    assert d * n == k * n - q * n;
    if d >= 1 {
      MulAtLeast(d, n);
    } else if d <= -1 {
      MulAtLeast(-d, n);
    }
  }

  /** The truncating remainder corrected by one `len` is the floor
      remainder: the wrapped selection is `raw` modulo `len`. */
  lemma WrapIsFloorMod(raw: int, len: nat)
    requires len > 0
    ensures WrapSelection(raw, len) == Ok(raw % len)
  {
    if raw < 0 {
      var m := -raw;
      var q := m / len;
      var r := m % len;
      assert m == q * len + r;
      if r == 0 {
        ModUnique(raw, len, -q, 0);
      } else {
        ModUnique(raw, len, -q - 1, len - r);
      }
    }
  }

  /** The raw selection after a key: one up, one down, or unchanged. */
  function MoveSelection(selection: nat, key: Key, len: nat): (r: Result<nat, Fault>)
    ensures r.Err? <==> len == 0
  {
    var raw := if key.Up? then selection - 1 else if key.Down? then selection + 1 else selection;
    WrapSelection(raw, len)
  }

  /** Up and Down wrap around the ends of the list; other keys keep the
      selection. */
  lemma MoveWraps(selection: nat, key: Key, len: nat)
    requires selection < len
    ensures key.Up? ==> MoveSelection(selection, key, len) == Ok(if selection == 0 then len - 1 else selection - 1)
    ensures key.Down? ==> MoveSelection(selection, key, len) == Ok(if selection == len - 1 then 0 else selection + 1)
    ensures !key.Up? && !key.Down? ==> MoveSelection(selection, key, len) == Ok(selection)
  {
    var raw := if key.Up? then selection - 1 else if key.Down? then selection + 1 else selection;
    WrapIsFloorMod(raw, len);
    if key.Up? && selection == 0 {
      ModUnique(raw, len, -1, len - 1);
    } else if key.Down? && selection == len - 1 {
      ModUnique(raw, len, 1, 0);
    } else {
      ModUnique(raw, len, 0, raw);
    }
  }

  // ---------------------------------------------------------------------
  // One frame

  predicate OptionsTitled(options: seq<MenuOption>) {
    forall k :: 0 <= k < |options| ==> options[k].title.Some?
  }

  /** The selection a menu view starts from: the previous frame's when it
      already showed a menu, 0 otherwise. */
  function KeptSelection(v: ViewMode): nat {
    if v.Input? && v.mode.MenuMode? then v.mode.selection else 0
  }

  /** Drawing the line under the cursor panics: a phrase addressed past its
      segments or revealed past its end, or a menu missing a title. */
  predicate DrawFaults(app: App, count: string -> nat) {
    match GetLineByCursor(app.dialog, app.state.cursor)
    case None => false
    case Some(Phrase(_, lines)) =>
      app.state.cursor.segment >= |lines| || app.state.animation.current > count(lines[app.state.cursor.segment])
    case Some(MenuLine(m)) => !OptionsTitled(m.options) || m.title.None?
  }

  /** `dialog_ui`: the view the line under the cursor asks for. A phrase
      segment's grapheme count becomes the animation's target; the reveal is
      in progress until `current` reaches it. A menu keeps the selection
      only when the previous frame already showed a menu. */
  function Draw(app: App, count: string -> nat): (r: Result<App, Fault>)
    ensures r.Ok? ==> r.value.dialog == app.dialog && r.value.state.cursor == app.state.cursor
    ensures r.Ok? ==> r.value.state.animation.current == app.state.animation.current
    ensures r.Ok? && r.value.view.End? <==>
              app.view.End? || GetLineByCursor(app.dialog, app.state.cursor).None?
    ensures r.Err? <==> !app.view.End? && DrawFaults(app, count)
    ensures r.Ok? && !r.value.view.End? ==> Shows(r.value, app.view, count)
  {
    if app.view.End? then Ok(app)
    else
      match GetLineByCursor(app.dialog, app.state.cursor)
      case None => Ok(app.(view := End))
      case Some(Phrase(_, lines)) =>
        var segment := app.state.cursor.segment;
        if segment >= |lines| then Err(NoSegment)
        else
          var target := count(lines[segment]);
          var current := app.state.animation.current;
          if current > target then Err(RevealPastEnd)
          else
            var view := if current < target then NextAnimationFrame
                        else if segment == |lines| - 1 then Input(NextLineMode)
                        else Input(NextPhraseMode);
            Ok(App(view, app.dialog, app.state.(animation := app.state.animation.(target := target))))
      case Some(MenuLine(menu)) =>
        var selection := KeptSelection(app.view);
        if !OptionsTitled(menu.options) then Err(UntitledOption)
        else if menu.title.None? then Err(UntitledMenu)
        else Ok(app.(view := Input(MenuMode(selection, menu))))
  }

  /** The view agrees with the line under the cursor. A phrase: the target
      is the grapheme count of the addressed segment, and the view animates
      while `current` is below it, then waits for the next line after the
      last segment and for the next segment before it. A titled menu: shown
      with the selection kept from the view `prev`. */
  predicate Shows(app: App, prev: ViewMode, count: string -> nat) {
    var seg, current, target := app.state.cursor.segment, app.state.animation.current, app.state.animation.target;
    match GetLineByCursor(app.dialog, app.state.cursor)
    case None => false
    case Some(Phrase(_, lines)) =>
      && seg < |lines| && target == count(lines[seg]) && current <= target
      && (app.view.NextAnimationFrame? <==> current < target)
      && (app.view == Input(NextLineMode) <==> current == target && seg + 1 == |lines|)
      && (app.view == Input(NextPhraseMode) <==> current == target && seg + 1 < |lines|)
    case Some(MenuLine(m)) =>
      && m.title.Some? && OptionsTitled(m.options)
      && app.view == Input(MenuMode(KeptSelection(prev), m))
  }

  /** The state after the cursor moves: a fresh animation at `c`. */
  function Advance(app: App, c: Cursors.Cursor): App {
    App(NextAnimationFrame, app.dialog, Player.DialogState(c, Player.ZeroAnimation()))
  }

  /** The key handler of `run_dialog`. Escape and Ctrl-C quit; Enter skips
      the animation, moves to the next segment or line, or follows the
      selected option; the arrows move the menu selection. */
  function HandleKey(app: App, key: Key): (r: Result<Outcome, Fault>)
    ensures r == Ok(Quit) <==> key.Escape? || key.Interrupt? || app.view.End?
    ensures r.Err? ==> app.view.Input? && app.view.mode.MenuMode?
    ensures r.Ok? && r.value.Running? ==> r.value.app.dialog == app.dialog
    ensures r.Ok? && r.value.Running? && !key.Enter? ==> r.value.app.state == app.state
    ensures r.Ok? && r.value.Running? && r.value.app.state.cursor != app.state.cursor ==>
              r.value.app == Advance(app, r.value.app.state.cursor)
    ensures ((app.view.NextAnimationFrame? || app.view == Input(NextLineMode) || app.view == Input(NextPhraseMode))
             && !key.Escape? && !key.Interrupt? && !key.Enter?) ==> r == Ok(Running(app))
    ensures app.view.NextAnimationFrame? && key.Enter? ==>
              r == Ok(Running(app.(state := app.state.(animation := app.state.animation.(current := app.state.animation.target)))))
    ensures app.view == Input(NextLineMode) && key.Enter? ==>
              r == Ok(Running(Advance(app, Cursors.NextLineIndex(app.state.cursor))))
    ensures app.view == Input(NextPhraseMode) && key.Enter? ==>
              r == Ok(Running(Advance(app, Cursors.NextPhraseIndex(app.state.cursor))))
    ensures app.view.Input? && app.view.mode.MenuMode? && key.Enter? ==>
              var sel, options := app.view.mode.selection, app.view.mode.menu.options;
              && (sel >= |options| ==> r == Err(SelectionOutOfBounds(sel, |options|)))
              && (sel < |options| && options[sel].args == [] ==> r == Err(ArgsTooShort))
              && (sel < |options| && options[sel].args != [] && options[sel].args[0] as int >= 0x80 ==>
                    r == Err(ArgsNotCharBoundary))
              && (sel < |options| && options[sel].args != [] && options[sel].args[0] as int < 0x80 ==>
                    r == Ok(Running(Advance(app, Cursors.SetSection(app.state.cursor, options[sel].args[1..])))))
    ensures app.view.Input? && app.view.mode.MenuMode? && !key.Enter? && !key.Escape? && !key.Interrupt? ==>
              var sel, menu := app.view.mode.selection, app.view.mode.menu;
              && (menu.options == [] <==> r == Err(RemainderByZero))
              && (menu.options != [] ==>
                    r == Ok(Running(app.(view := Input(MenuMode(MoveSelection(sel, key, |menu.options|).value, menu))))))
  {
    if key.Escape? || key.Interrupt? then Ok(Quit)
    else
      match app.view
      case End => Ok(Quit)
      case NextAnimationFrame =>
        if key.Enter? then
          Ok(Running(app.(state := app.state.(animation := app.state.animation.(current := app.state.animation.target)))))
        else Ok(Running(app))
      case Input(NextLineMode) =>
        if key.Enter? then Ok(Running(Advance(app, Cursors.NextLineIndex(app.state.cursor))))
        else Ok(Running(app))
      case Input(NextPhraseMode) =>
        if key.Enter? then Ok(Running(Advance(app, Cursors.NextPhraseIndex(app.state.cursor))))
        else Ok(Running(app))
      case Input(MenuMode(selection, menu)) =>
        if key.Enter? then
          if selection >= |menu.options| then Err(SelectionOutOfBounds(selection, |menu.options|))
          else
            var args := menu.options[selection].args;
            if args == [] then Err(ArgsTooShort)
            else if args[0] as int >= 0x80 then Err(ArgsNotCharBoundary)
            else Ok(Running(Advance(app, Cursors.SetSection(app.state.cursor, args[1..]))))
        else
          match MoveSelection(selection, key, |menu.options|)
          case Err(e) => Err(e)
          case Ok(s) => Ok(Running(app.(view := Input(MenuMode(s, menu)))))
  }

  /** In a menu with a selection inside it, Up and Down move the selection
      by one, wrapping around the ends, and change nothing else. */
  lemma HandleArrows(app: App, key: Key)
    requires app.view.Input? && app.view.mode.MenuMode?
    requires app.view.mode.selection < |app.view.mode.menu.options|
    requires key.Up? || key.Down?
    ensures var sel, menu := app.view.mode.selection, app.view.mode.menu;
            var n := |menu.options|;
            var moved := if key.Up? then (if sel == 0 then n - 1 else sel - 1)
                         else (if sel == n - 1 then 0 else sel + 1);
            HandleKey(app, key) == Ok(Running(app.(view := Input(MenuMode(moved, menu)))))
  {
    MoveWraps(app.view.mode.selection, key, |app.view.mode.menu.options|);
  }

  /** The timer: while the view animates, one more grapheme is revealed. */
  function Tick(app: App): (r: App)
    ensures r.view == app.view && r.dialog == app.dialog && r.state.cursor == app.state.cursor
    ensures r.state.animation.target == app.state.animation.target
    ensures app.state.animation.current <= app.state.animation.target ==>
              r.state.animation.current <= r.state.animation.target
    ensures r.state.animation.current != app.state.animation.current <==>
              app.view.NextAnimationFrame? && app.state.animation.current < app.state.animation.target
    ensures app.view.NextAnimationFrame? && app.state.animation.current < app.state.animation.target ==>
              r.state.animation.current == app.state.animation.current + 1
    ensures !(app.view.NextAnimationFrame? && app.state.animation.current < app.state.animation.target) ==> r == app
  {
    if app.view.NextAnimationFrame? && app.state.animation.current < app.state.animation.target then
      app.(state := app.state.(animation := app.state.animation.(current := app.state.animation.current + 1)))
    else app
  }

  /** One turn of the `run_dialog` loop: draw, stop at the end, handle the
      key if one arrived, then tick if the timer elapsed. Following a menu
      option skips the tick (`continue`). */
  function Frame(app: App, key: Option<Key>, tick: bool, count: string -> nat): Result<Outcome, Fault> {
    match Draw(app, count)
    case Err(e) => Err(e)
    case Ok(drawn) =>
      if drawn.view.End? then Ok(Quit)
      else
        var handled: Result<Outcome, Fault> := if key.None? then Ok(Running(drawn)) else HandleKey(drawn, key.value);
        var skip := key == Some(Enter) && drawn.view.Input? && drawn.view.mode.MenuMode?;
        match handled
        case Err(e) => Err(e)
        case Ok(Quit) => Ok(Quit)
        case Ok(Running(a)) => Ok(Running(if tick && !skip then Tick(a) else a))
  }

  /** What happens between two frames: maybe a key, maybe a timer tick. */
  datatype Event = Event(key: Option<Key>, tick: bool)

  /** The loop over a sequence of events, until it returns or panics. */
  function Session(app: App, events: seq<Event>, count: string -> nat): Result<Outcome, Fault>
    decreases |events|
  {
    if events == [] then Ok(Running(app))
    else
      match Frame(app, events[0].key, events[0].tick, count)
      case Err(e) => Err(e)
      case Ok(Quit) => Ok(Quit)
      case Ok(Running(a)) => Session(a, events[1..], count)
  }

  /** `main` with a script: the text is wrapped in newlines, compiled, and
      the loop starts animating the first line. */
  function Load(raw: string): (r: Result<App, CompileError>)
    ensures r.Ok? ==> r.value.view == NextAnimationFrame && r.value.state == Player.StartState()
    ensures r.Ok? ==> Reducer.Compiled(r.value.dialog)
    ensures r.Err? ==> BP.FromBuilder(r.error)
  {
    Reducer.FromStrOutcomes("\n" + raw + "\n");
    match Reducer.FromStr("\n" + raw + "\n")
    case Err(e) => Err(e)
    case Ok(d) => Ok(App(NextAnimationFrame, d, Player.StartState()))
  }

  // ---------------------------------------------------------------------
  // Safety of the loop

  /** A menu the debugger can show and follow: titled, with titled options
      whose arguments start with a one-byte character. */
  predicate Playable(m: Menu) {
    && m.title.Some?
    && |m.options| > 0
    && OptionsTitled(m.options)
    && forall k :: 0 <= k < |m.options| ==> m.options[k].args != [] && m.options[k].args[0] as int < 0x80
  }

  predicate MenusPlayable(d: Dialog) {
    forall s, i :: s in d.sections && 0 <= i < |d.sections[s]| && d.sections[s][i].MenuLine? ==>
      Playable(d.sections[s][i].menu)
  }

  /** The line under the cursor is a menu the debugger cannot play. */
  predicate AtUnplayableMenu(app: App) {
    match GetLineByCursor(app.dialog, app.state.cursor)
    case Some(MenuLine(m)) => !Playable(m)
    case _ => false
  }

  /** The animation's target is the grapheme count of the segment under the
      cursor. */
  predicate TargetIsSegment(app: App, count: string -> nat) {
    match GetLineByCursor(app.dialog, app.state.cursor)
    case Some(Phrase(_, lines)) =>
      app.state.cursor.segment < |lines| && app.state.animation.target == count(lines[app.state.cursor.segment])
    case _ => false
  }

  /** A phrase under the cursor has the segment the cursor names. */
  predicate SegmentExists(app: App) {
    match GetLineByCursor(app.dialog, app.state.cursor)
    case Some(Phrase(_, lines)) => app.state.cursor.segment < |lines|
    case _ => true
  }

  /** A menu view shows the menu under the cursor, with a selection inside
      it (or the initial 0). */
  predicate MenuViewValid(app: App) {
    app.view.Input? && app.view.mode.MenuMode? ==>
      && GetLineByCursor(app.dialog, app.state.cursor) == Some(MenuLine(app.view.mode.menu))
      && (app.view.mode.selection == 0 || app.view.mode.selection < |app.view.mode.menu.options|)
  }

  /** What holds between two frames. */
  predicate Inv(app: App, count: string -> nat) {
    && BP.PhrasesNonEmpty(app.dialog)
    && SegmentExists(app)
    && app.state.animation.current <= app.state.animation.target
    && (app.state.animation.target > 0 ==> TargetIsSegment(app, count))
    && MenuViewValid(app)
  }

  /** What holds after a frame was drawn and did not end the dialog: the
      view agrees with the line under the cursor. */
  predicate Drawn(app: App, count: string -> nat) {
    && BP.PhrasesNonEmpty(app.dialog)
    && app.state.animation.current <= app.state.animation.target
    && match GetLineByCursor(app.dialog, app.state.cursor)
       case None => false
       case Some(Phrase(_, lines)) =>
         && app.state.cursor.segment < |lines|
         && app.state.animation.target == count(lines[app.state.cursor.segment])
         && (app.view.NextAnimationFrame? <==> app.state.animation.current < app.state.animation.target)
         && (app.view.NextAnimationFrame? || app.view == Input(NextLineMode) || app.view == Input(NextPhraseMode))
         && (app.view == Input(NextPhraseMode) ==> app.state.cursor.segment + 1 < |lines|)
         && (app.view == Input(NextLineMode) ==> app.state.cursor.segment + 1 == |lines|)
       case Some(MenuLine(m)) =>
         && app.view.Input? && app.view.mode.MenuMode? && app.view.mode.menu == m
         && (app.view.mode.selection == 0 || app.view.mode.selection < |m.options|)
         && app.state.animation.target == 0
  }

  /** The debugger starts in the invariant on every compiled document. */
  lemma LoadInv(raw: string, count: string -> nat)
    requires Load(raw).Ok?
    ensures Inv(Load(raw).value, count)
  {
    var app := Load(raw).value;
    match GetLineByCursor(app.dialog, app.state.cursor)
    case Some(Phrase(_, lines)) =>
      assert app.dialog.sections[app.state.cursor.section][app.state.cursor.line].lines != [];
    case _ =>
  }

  /** Drawing from the invariant either ends the dialog, faults only on a
      menu it cannot play, or shows a view that agrees with the line. */
  lemma DrawSafe(app: App, count: string -> nat)
    requires Inv(app, count) && !app.view.End?
    ensures Draw(app, count).Err? ==> AtUnplayableMenu(app)
    ensures Draw(app, count).Ok? && !Draw(app, count).value.view.End? ==> Drawn(Draw(app, count).value, count)
  {
  }

  /** A fresh animation at a cursor that names an existing segment of any
      phrase it lands on keeps the invariant. */
  lemma AdvanceInv(app: App, c: Cursors.Cursor, count: string -> nat)
    requires BP.PhrasesNonEmpty(app.dialog)
    requires SegmentExists(Advance(app, c))
    ensures Inv(Advance(app, c), count)
  {
  }

  /** A landing at the start of a line always names an existing segment. */
  lemma LineStartSegment(app: App, c: Cursors.Cursor)
    requires BP.PhrasesNonEmpty(app.dialog) && c.segment == 0
    ensures SegmentExists(Advance(app, c))
  {
    match GetLineByCursor(app.dialog, c)
    case Some(Phrase(_, lines)) =>
      assert app.dialog.sections[c.section][c.line].lines != [];
    case _ =>
  }

  /** Handling a key on a drawn view keeps the invariant, and faults only on
      a menu the debugger cannot play. */
  lemma HandleKeySafe(app: App, key: Key, count: string -> nat)
    requires Drawn(app, count)
    ensures HandleKey(app, key).Err? ==> AtUnplayableMenu(app)
    ensures HandleKey(app, key).Ok? && HandleKey(app, key).value.Running? ==> Inv(HandleKey(app, key).value.app, count)
  {
    if key.Escape? || key.Interrupt? {
    } else {
      match app.view
      case End =>
      case NextAnimationFrame =>
      case Input(NextLineMode) =>
        if key.Enter? {
          LineStartSegment(app, Cursors.NextLineIndex(app.state.cursor));
          AdvanceInv(app, Cursors.NextLineIndex(app.state.cursor), count);
        }
      case Input(NextPhraseMode) =>
        if key.Enter? {
          AdvanceInv(app, Cursors.NextPhraseIndex(app.state.cursor), count);
        }
      case Input(MenuMode(selection, menu)) =>
        if key.Enter? {
          if selection < |menu.options| && menu.options[selection].args != [] {
            var c := Cursors.SetSection(app.state.cursor, menu.options[selection].args[1..]);
            LineStartSegment(app, c);
            AdvanceInv(app, c, count);
          }
        } else if |menu.options| > 0 {
          assert GetLineByCursor(app.dialog, app.state.cursor) == Some(MenuLine(menu));
        }
    }
  }

  /** The timer keeps the invariant. */
  lemma TickInv(app: App, count: string -> nat)
    requires Inv(app, count)
    ensures Inv(Tick(app), count)
  {
  }

  /** One frame from the invariant either ends, keeps the invariant, or
      faults on a menu the debugger cannot play. */
  lemma FrameSafe(app: App, key: Option<Key>, tick: bool, count: string -> nat)
    requires Inv(app, count)
    ensures Frame(app, key, tick, count).Err? ==> AtUnplayableMenu(app)
    ensures Frame(app, key, tick, count).Ok? && Frame(app, key, tick, count).value.Running? ==>
              Inv(Frame(app, key, tick, count).value.app, count)
  {
    if !app.view.End? {
      DrawSafe(app, count);
      match Draw(app, count)
      case Err(_) =>
      case Ok(drawn) =>
        if !drawn.view.End? {
          if key.Some? {
            HandleKeySafe(drawn, key.value, count);
            match HandleKey(drawn, key.value)
            case Err(_) =>
            case Ok(Quit) =>
            case Ok(Running(a)) => TickInv(a, count);
          } else {
            assert Inv(drawn, count);
            TickInv(drawn, count);
          }
        }
    }
  }

  /** On a document whose every menu is playable the debugger never panics,
      whatever keys arrive and however the timer fires. */
  lemma {:induction false} SessionSafe(app: App, events: seq<Event>, count: string -> nat)
    requires Inv(app, count) && MenusPlayable(app.dialog)
    ensures Session(app, events, count).Ok?
    decreases |events|
  {
    if events != [] {
      FrameSafe(app, events[0].key, events[0].tick, count);
      match Frame(app, events[0].key, events[0].tick, count)
      case Err(_) =>
        assert false;
      case Ok(Quit) =>
      case Ok(Running(a)) =>
        SessionSafe(a, events[1..], count);
    }
  }

  /** A compiled script whose menus are all playable runs in the debugger
      without a panic. */
  lemma LoadedSessionSafe(raw: string, events: seq<Event>, count: string -> nat)
    requires Load(raw).Ok? && MenusPlayable(Load(raw).value.dialog)
    ensures Session(Load(raw).value, events, count).Ok?
  {
    LoadInv(raw, count);
    SessionSafe(Load(raw).value, events, count);
  }

  /** The converse for titles and empty menus: a menu under the cursor
      without its titles faults at the next frame, and an empty one at the
      next key other than quitting. */
  lemma UnplayableMenuFaults(app: App, key: Key, count: string -> nat)
    requires Inv(app, count) && !app.view.End?
    requires GetLineByCursor(app.dialog, app.state.cursor).Some?
    requires GetLineByCursor(app.dialog, app.state.cursor).value.MenuLine?
    ensures var m := GetLineByCursor(app.dialog, app.state.cursor).value.menu;
            m.title.None? || !OptionsTitled(m.options) ==> Frame(app, Some(key), false, count).Err?
    ensures var m := GetLineByCursor(app.dialog, app.state.cursor).value.menu;
            m.options == [] && !key.Escape? && !key.Interrupt? ==> Frame(app, Some(key), false, count).Err?
  {
  }
}
