/** The two little state machines behind the day-23 HTML fragments
    (src/day23.rs): the colour of a present, which advances red, blue,
    purple and back to red on each click, and an ornament that toggles
    between on and off. Any other state in the route is answered with the
    "I'm a teapot" status. The HTML around the states is not modelled. */
module Festive {
  import opened Wrappers

  const Red: string := "red"
  const Blue: string := "blue"
  const Purple: string := "purple"

  predicate IsColor(color: string) {
    color == Red || color == Blue || color == Purple
  }

  /** `present`: the colour the next click asks for, or None for the teapot answer. */
  function NextColor(color: string): (next: Option<string>)
    ensures next.Some? <==> IsColor(color)
    ensures color == Red ==> next == Some(Blue)
    ensures color == Blue ==> next == Some(Purple)
    ensures color == Purple ==> next == Some(Red)
  {
    if color == Red then Some(Blue)
    else if color == Blue then Some(Purple)
    else if color == Purple then Some(Red)
    else None
  }

  /** Three clicks bring a present back to its colour, and no fewer do. */
  lemma ColorCycle(color: string)
    requires IsColor(color)
    ensures var c1 := NextColor(color).value;
      var c2 := NextColor(c1).value;
      c2 != color && NextColor(c2) == Some(color)
  {
  }

  /** The class an ornament shows and the state its next request asks for. */
  datatype Ornament = Ornament(cssClass: string, next: string)

  const On: string := "on"
  const Off: string := "off"

  /** `ornament`: "on" shows the lit class and asks for "off"; "off" shows
      the plain class and asks for "on"; anything else is the teapot answer. */
  function OrnamentStep(state: string): (r: Option<Ornament>)
    ensures r.Some? <==> state == On || state == Off
    ensures r.Some? ==> (r.value.next == On || r.value.next == Off) && r.value.next != state
    ensures r.Some? ==> r.value.cssClass == if state == On then "ornament on" else "ornament"
  {
    if state == On then Some(Ornament("ornament on", Off))
    else if state == Off then Some(Ornament("ornament", On))
    else None
  }

  /** Two requests bring an ornament back to the state it started in. */
  lemma OrnamentToggle(state: string)
    requires state == On || state == Off
    ensures OrnamentStep(OrnamentStep(state).value.next).value.next == state
  {
  }
}
