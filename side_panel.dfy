/**
  The results side panel: whether it is open, and which icon its toggle
  button shows. Opening shows a vertical line, hovering over the open
  panel's button turns the line into a left chevron, leaving turns it back,
  and closing shows the right chevron again.
 */
module SidePanel {

  /** The two state cells: isOpen and iconState. */
  datatype PanelState = PanelState(isOpen: bool, iconState: string)

  const INITIAL: PanelState := PanelState(false, "right")

  /** The states the handlers can reach: closed with the right chevron, or open with the line or the left chevron. */
  predicate Reachable(s: PanelState) {
    (!s.isOpen ==> s.iconState == "right") && (s.isOpen ==> s.iconState == "line" || s.iconState == "left")
  }

  /** togglePanel: close and show the right chevron, or open and show the line. */
  function Toggle(s: PanelState): (t: PanelState)
    ensures t.isOpen == !s.isOpen
    ensures !t.isOpen ==> t.iconState == "right"
    ensures t.isOpen ==> t.iconState == "line"
  {
    if s.isOpen then PanelState(false, "right") else PanelState(true, "line")
  }

  /** handleMouseEnter: only an open panel showing the line changes, to the left chevron. */
  function MouseEnter(s: PanelState): (t: PanelState)
    ensures t.isOpen == s.isOpen
    ensures t != s <==> s.isOpen && s.iconState == "line"
    ensures t != s ==> t.iconState == "left"
  {
    if s.isOpen && s.iconState == "line" then s.(iconState := "left") else s
  }

  /** handleMouseLeave: an open panel shows the line; a closed one is left alone. */
  function MouseLeave(s: PanelState): (t: PanelState)
    ensures t.isOpen == s.isOpen
    ensures s.isOpen ==> t.iconState == "line"
    ensures !s.isOpen ==> t == s
  {
    if s.isOpen then s.(iconState := "line") else s
  }

  datatype Event = Click | Enter | Leave

  function Step(s: PanelState, e: Event): PanelState {
    match e
    case Click => Toggle(s)
    case Enter => MouseEnter(s)
    case Leave => MouseLeave(s)
  }

  /** The state after a sequence of events, the first event first. */
  function Run(s: PanelState, events: seq<Event>): PanelState
    decreases |events|
  {
    if |events| == 0 then s else Run(Step(s, events[0]), events[1..])
  }

  /** Each handler keeps the panel in a reachable state. */
  lemma StepPreservesReachable(s: PanelState, e: Event)
    requires Reachable(s)
    ensures Reachable(Step(s, e))
  {
  }

  /** From the initial state every sequence of events ends in a reachable state. */
  lemma {:induction false} RunPreservesReachable(s: PanelState, events: seq<Event>)
    requires Reachable(s)
    ensures Reachable(Run(s, events))
    decreases |events|
  {
    if |events| > 0 {
      StepPreservesReachable(s, events[0]);
      RunPreservesReachable(Step(s, events[0]), events[1..]);
    }
  }

  lemma EveryRunFromInitialIsReachable(events: seq<Event>)
    ensures Reachable(Run(INITIAL, events))
  {
    RunPreservesReachable(INITIAL, events);
  }

  /** Toggling a closed panel twice leaves it closed, showing the right chevron. */
  lemma ToggleTwiceFromClosed(s: PanelState)
    requires !s.isOpen
    ensures Toggle(Toggle(s)) == INITIAL
  {
  }

  /** Hovering twice is hovering once, and so is leaving twice. */
  lemma HoverIdempotent(s: PanelState)
    ensures MouseEnter(MouseEnter(s)) == MouseEnter(s)
    ensures MouseLeave(MouseLeave(s)) == MouseLeave(s)
  {
  }

  /** The glyphs the button can show. */
  datatype Glyph = ChevronRight | MinusVertical | ChevronLeft

  /** An icon as drawn: its glyph and its stroke width; all are 24 pixels and white. */
  datatype Icon = Icon(glyph: Glyph, stroke: nat)

  /** getIcon: the three named states have their own glyph; anything else shows the right chevron. */
  function GetIcon(iconState: string): (icon: Icon)
    ensures iconState == "line" <==> icon.glyph == MinusVertical
    ensures iconState == "left" <==> icon.glyph == ChevronLeft
    ensures icon.glyph == ChevronRight <==> iconState != "line" && iconState != "left"
    ensures icon.stroke == if icon.glyph == MinusVertical then 4 else 3
  {
    match iconState
    case "right" => Icon(ChevronRight, 3)
    case "line" => Icon(MinusVertical, 4)
    case "left" => Icon(ChevronLeft, 3)
    case _ => Icon(ChevronRight, 3)
  }

  /** In a reachable state the button shows the right chevron exactly when the panel is closed. */
  lemma IconShowsWhetherOpen(s: PanelState)
    requires Reachable(s)
    ensures GetIcon(s.iconState).glyph == ChevronRight <==> !s.isOpen
  {
  }

  /** The component, with its two state cells updated in place by the handlers. */
  class Panel {
    var isOpen: bool
    var iconState: string

    function State(): PanelState
      reads this
    {
      PanelState(isOpen, iconState)
    }

    /** useState(false), useState("right") */
    constructor()
      ensures isOpen == false && iconState == "right"
      ensures State() == INITIAL
    {
      isOpen := false;
      iconState := "right";
    }

    method TogglePanel()
      modifies this
      ensures isOpen == !old(isOpen)
      ensures iconState == if old(isOpen) then "right" else "line"
      ensures State() == Toggle(old(State()))
      ensures Reachable(State())
    {
      if isOpen {
        isOpen := false;
        iconState := "right";
      } else {
        isOpen := true;
        iconState := "line";
      }
    }

    method HandleMouseEnter()
      modifies this
      ensures isOpen == old(isOpen)
      ensures iconState == if old(isOpen) && old(iconState) == "line" then "left" else old(iconState)
      ensures State() == MouseEnter(old(State()))
      ensures Reachable(old(State())) ==> Reachable(State())
    {
      if isOpen && iconState == "line" {
        iconState := "left";
      }
    }

    method HandleMouseLeave()
      modifies this
      ensures isOpen == old(isOpen)
      ensures iconState == if old(isOpen) then "line" else old(iconState)
      ensures State() == MouseLeave(old(State()))
      ensures Reachable(old(State())) ==> Reachable(State())
    {
      if isOpen {
        iconState := "line";
      }
    }

    /** The icon the button renders in the current state. */
    method CurrentIcon() returns (icon: Icon)
      ensures icon == GetIcon(iconState)
      ensures Reachable(State()) ==> (icon.glyph == ChevronRight <==> !isOpen)
    {
      if Reachable(State()) {
        IconShowsWhetherOpen(State());
      }
      icon := GetIcon(iconState);
    }
  }
}
