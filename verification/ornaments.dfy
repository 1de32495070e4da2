/**
 The two small state machines behind the festive HTML fragments: a present
 whose colour cycles red, blue, purple, and an ornament that toggles on and
 off. Each state has a canonical name; parsing accepts exactly those names.
 The HTML templates themselves are not part of this model: a handler's
 success value is the record it hands to its template.
 */
module Ornaments {
  import opened Outcomes

  /** `StatusCode::IM_A_TEAPOT`, returned for any name that does not parse. */
  const ImATeapot: nat := 418

  datatype PresentColor = Red | Blue | Purple

  /** Position of a colour on the cycle. */
  function ColorIndex(c: PresentColor): nat
  {
    match c
    case Red => 0
    case Blue => 1
    case Purple => 2
  }

  /** `PresentColor::next`: one step along the cycle of three colours. */
  function NextColor(c: PresentColor): (r: PresentColor)
    ensures ColorIndex(r) == (ColorIndex(c) + 1) % 3
    ensures r != c
  {
    match c
    case Red => Blue
    case Blue => Purple
    case Purple => Red
  }

  lemma ColorIndexInjective(c: PresentColor, d: PresentColor)
    ensures ColorIndex(c) == ColorIndex(d) <==> c == d
  {
  }

  /** Three steps come back to the start, and no fewer do. */
  lemma ColorCycle(c: PresentColor)
    ensures NextColor(NextColor(NextColor(c))) == c
    ensures NextColor(NextColor(c)) != c
  {
    ColorIndexInjective(NextColor(NextColor(NextColor(c))), c);
    ColorIndexInjective(NextColor(NextColor(c)), c);
  }

  /** `Display for PresentColor`. */
  function ColorName(c: PresentColor): string
  {
    match c
    case Red => "red"
    case Blue => "blue"
    case Purple => "purple"
  }

  /** `TryFrom<&str> for PresentColor`: accepts a colour's name and nothing else. */
  function ParseColor(s: string): (r: Result<PresentColor, string>)
    ensures r.Ok? <==> exists c :: ColorName(c) == s
    ensures r.Ok? ==> ColorName(r.value) == s
    ensures r.Err? ==> r.error == "meh"
  {
    if s == "red" then assert ColorName(Red) == s; Ok(Red)
    else if s == "blue" then assert ColorName(Blue) == s; Ok(Blue)
    else if s == "purple" then assert ColorName(Purple) == s; Ok(Purple)
    else Err("meh")
  }

  /** Printing then parsing a colour gives it back. */
  lemma ParseColorName(c: PresentColor)
    ensures ParseColor(ColorName(c)) == Ok(c)
  {
  }

  /** The fields of the present template: the current colour and the one a click moves to. */
  datatype PresentTemplateInput = PresentTemplateInput(curr: string, next: string)

  /** `From<PresentColor> for PresentTemplateInput`. */
  function TemplateInputOf(c: PresentColor): (t: PresentTemplateInput)
    ensures ParseColor(t.curr) == Ok(c)
    ensures ParseColor(t.next) == Ok(NextColor(c))
    ensures t.curr != t.next
  {
    PresentTemplateInput(ColorName(c), ColorName(NextColor(c)))
  }

  /** The `present` handler: the template input for a known colour, else 418. */
  function Present(color: string): (r: Result<PresentTemplateInput, nat>)
    ensures r.Ok? <==> color in {"red", "blue", "purple"}
    ensures r.Ok? ==> r.value.curr == color && r.value.next != color
    ensures r.Ok? ==> r.value.next == ColorName(NextColor(ParseColor(color).value))
    ensures r.Err? ==> r.error == ImATeapot
  {
    match ParseColor(color)
    case Ok(c) => Ok(TemplateInputOf(c))
    case Err(_) => Err(ImATeapot)
  }

  datatype OrnamentState = On | Off

  /** `OrnamentState::next`: the other state. */
  function NextState(s: OrnamentState): (r: OrnamentState)
    ensures r != s
  {
    match s
    case On => Off
    case Off => On
  }

  /** Toggling twice changes nothing. */
  lemma NextStateInvolution(s: OrnamentState)
    ensures NextState(NextState(s)) == s
  {
  }

  /** `Display for OrnamentState`. */
  function StateName(s: OrnamentState): string
  {
    match s
    case On => "on"
    case Off => "off"
  }

  /** `TryFrom<&str> for OrnamentState`: accepts a state's name and nothing else. */
  function ParseState(s: string): (r: Result<OrnamentState, string>)
    ensures r.Ok? <==> exists t :: StateName(t) == s
    ensures r.Ok? ==> StateName(r.value) == s
    ensures r.Err? ==> r.error == "ding"
  {
    if s == "on" then assert StateName(On) == s; Ok(On)
    else if s == "off" then assert StateName(Off) == s; Ok(Off)
    else Err("ding")
  }

  lemma ParseStateName(s: OrnamentState)
    ensures ParseState(StateName(s)) == Ok(s)
  {
  }

  /** The fields of the ornament template. */
  datatype OrnamentView = OrnamentView(n: string, state: string, nextState: OrnamentState)

  /**
   The `ornament` handler: for a known state, the view whose `state` is the
   CSS class suffix (" on" when lit, empty otherwise) and whose `nextState`
   is the toggled state; anything else is 418.
   */
  function Ornament(state: string, n: string): (r: Result<OrnamentView, nat>)
    ensures r.Ok? <==> state == "on" || state == "off"
    ensures r.Ok? ==> r.value.n == n
    ensures r.Ok? ==> (r.value.state == " on" <==> state == "on")
    ensures r.Ok? ==> (r.value.state == "" <==> state == "off")
    ensures r.Ok? ==> StateName(r.value.nextState) != state
    ensures r.Ok? ==> r.value.nextState == NextState(ParseState(state).value)
    ensures r.Err? ==> r.error == ImATeapot
  {
    match ParseState(state)
    case Ok(s) =>
      var next := NextState(s);
      var lit := match s
        case On => " on"
        case _ => "";
      Ok(OrnamentView(n, lit, next))
    case Err(_) => Err(ImATeapot)
  }
}
