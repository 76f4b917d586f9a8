/** Sections of a dialog (dlg/src/parser/section.rs). */
module Sections {
  import opened Results

  /** An addressable block of a dialog: the entry block, or the block a
      `#name` link opens. Equality is structural, as the derived `Eq` is. */
  datatype Section = Initial | Named(name: string)

  /** `Display for Section`: `initial`, or the name behind a `#`. */
  function Display(s: Section): (r: string)
    ensures s.Named? <==> (|r| > 0 && r[0] == '#')
    ensures s.Named? ==> r[1..] == s.name
    ensures s.Initial? ==> r == "initial"
  {
    match s
    case Initial => "initial"
    case Named(name) => "#" + name
  }

  /** Reads a rendered section back. */
  function Parse(r: string): Option<Section> {
    if r == "initial" then Some(Initial)
    else if |r| > 0 && r[0] == '#' then Some(Named(r[1..]))
    else None
  }

  /** Every rendering reads back as the section it came from. */
  lemma ParseDisplay(s: Section)
    ensures Parse(Display(s)) == Some(s)
  {
    if s.Named? {
      assert Display(s) != "initial";
    }
  }

  /** Two sections render alike only when they are the same section. */
  lemma DisplayInjective(a: Section, b: Section)
    ensures Display(a) == Display(b) ==> a == b
  {
    ParseDisplay(a);
    ParseDisplay(b);
  }
}
