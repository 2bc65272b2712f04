/** The closed set of page sections the header tracks and the menu bar
    offers (the `MenuItem` union of the landing page and the `active` /
    `onSelect` key type of the menu bar). */
module Sections {
  import opened Maybe

  datatype Section = Home | About | Contact

  /** The sections in menu order. */
  const All: seq<Section> := [Home, About, Contact]

  /** The identifier a section goes by: its URL fragment, its DOM id, and
      the string carried by a selection event. */
  function Name(s: Section): string {
    match s
    case Home => "home"
    case About => "about"
    case Contact => "contact"
  }

  /** The label its menu button shows. */
  function Label(s: Section): string {
    match s
    case Home => "Home"
    case About => "About"
    case Contact => "Contact"
  }

  /** The section a string names, if it names one. */
  function Parse(name: string): (r: Option<Section>)
    ensures r.Some? ==> Name(r.value) == name
    ensures r.None? <==> name != "home" && name != "about" && name != "contact"
  {
    if name == "home" then Some(Home)
    else if name == "about" then Some(About)
    else if name == "contact" then Some(Contact)
    else None
  }

  /** Every section is recovered from its name, and `All` lists each one
      exactly once. */
  lemma NameRoundTrip(s: Section)
    ensures Parse(Name(s)) == Some(s)
    ensures s in All
    ensures forall i, j :: 0 <= i < j < |All| ==> All[i] != All[j]
  {
  }
}
