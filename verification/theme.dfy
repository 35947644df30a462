/**
 * The theme toggle: the `light` class on the root element and the `theme`
 * entry in local storage, which the page reads back on the next load.
 */
module Theme {
  import opened Wrappers

  /** `light` is the root element's class; `stored` the `theme` storage entry, if any. */
  datatype Theme = Theme(light: bool, stored: Option<string>)

  /** The storage value written for a class state. */
  function Preference(light: bool): (v: string)
    ensures v == "light" <==> light
    ensures v in {"light", "dark"}
  {
    if light then "light" else "dark"
  }

  /**
   * Page load: a non-empty stored value decides the class (`light` only for
   * the value "light"); without one the class the markup ships with stays.
   */
  function Load(markupLight: bool, stored: Option<string>): (t: Theme)
    ensures t.stored == stored
    ensures Truthy(stored) ==> (t.light <==> stored == Some("light"))
    ensures !Truthy(stored) ==> t.light == markupLight
  {
    Theme(if Truthy(stored) then stored == Some("light") else markupLight, stored)
  }

  /** A click on the toggle: flip the class and store the new preference. */
  function Toggle(t: Theme): (r: Theme)
    ensures r.light == !t.light
    ensures r.stored == Some(Preference(r.light))
  {
    var light := !t.light;
    Theme(light, Some(Preference(light)))
  }

  /** The stored preference agrees with the class. */
  predicate Consistent(t: Theme)
  {
    t.stored == Some(Preference(t.light))
  }

  /** Toggling twice restores the class, and the stored preference whenever it agreed with the class. */
  lemma ToggleTwice(t: Theme)
    ensures Toggle(Toggle(t)).light == t.light
    ensures Consistent(Toggle(Toggle(t)))
    ensures Consistent(t) ==> Toggle(Toggle(t)) == t
  {
  }

  /** After any toggle, reloading the page in any markup state restores the chosen theme. */
  lemma TogglePersists(t: Theme, markupLight: bool)
    ensures Load(markupLight, Toggle(t).stored) == Toggle(t)
  {
  }

  /**
   * A non-empty stored value other than "light" or "dark" loads as dark
   * whatever the markup says, and disagrees with the class until the first
   * toggle stores a real preference.
   */
  lemma ForeignValueLoadsDark(markupLight: bool, v: string)
    requires v != "" && v != "light" && v != "dark"
    ensures !Load(markupLight, Some(v)).light
    ensures !Consistent(Load(markupLight, Some(v)))
    ensures Consistent(Toggle(Load(markupLight, Some(v))))
  {
  }

  /** The empty string is falsy: it leaves the markup's class, which need not agree with it. */
  lemma EmptyValueKeepsMarkup(markupLight: bool)
    ensures Load(markupLight, Some("")).light == markupLight
    ensures !Consistent(Load(markupLight, Some("")))
  {
  }
}
