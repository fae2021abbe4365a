/** The tooltip's lifecycle: while the plugin is started, a hover that finds
    an item tears down whatever tooltip was showing and opens a new one, with
    one mousemove listener that moves it; leaving the cell tears it down, and
    stopping the plugin tears it down and stops listening for hovers. */
module Lifecycle {
  import opened Common
  import opened TooltipPosition

  /** The plugin's fields and the parts of the page they own. Closures and
      elements are named by numbers drawn from `nextId`. */
  datatype Session = Session(
    started: bool,                 // the hover and leave handlers are registered
    handler: Option<nat>,          // the mousemove handler the plugin holds
    container: Option<nat>,        // the UI container the plugin holds
    placement: Option<Placement>,  // the tooltip element's position; kept after teardown
    listeners: set<nat>,           // mousemove listeners registered on the document
    attached: set<nat>,            // tooltip containers attached to the page
    nextId: nat)

  function OptionSet(o: Option<nat>): set<nat> {
    match o
    case Some(v) => {v}
    case None => {}
  }

  /** The page holds exactly the listener and the container the plugin
      holds, both already issued, and a live listener has a tooltip to move;
      a stopped plugin holds neither. */
  predicate Valid(s: Session) {
    && (!s.started ==> s.handler.None? && s.container.None?)
    && s.listeners == OptionSet(s.handler)
    && s.attached == OptionSet(s.container)
    && (s.handler.Some? ==> s.handler.value < s.nextId && s.placement.Some?)
    && (s.container.Some? ==> s.container.value < s.nextId)
  }

  /** The state when the plugin is loaded, before `start`: nothing shown. */
  const Initial := Session(false, None, None, None, {}, {}, 0)

  /** Unregisters the held handler and detaches the held container, if any. */
  function RemoveTooltip(s: Session): (r: Session)
    ensures r.handler.None? && r.container.None?
    ensures r.listeners == s.listeners - OptionSet(s.handler)
    ensures r.attached == s.attached - OptionSet(s.container)
    ensures r.placement == s.placement && r.nextId == s.nextId && r.started == s.started
    ensures Valid(s) ==> Valid(r) && r.listeners == {} && r.attached == {}
  {
    var s' :=
      match s.handler
      case Some(h) => s.(listeners := s.listeners - {h}, handler := None)
      case None => s;
    match s'.container
    case Some(c) => s'.(attached := s'.attached - {c}, container := None)
    case None => s'
  }

  /** Opens a tooltip for the pointer at (`x`, `y`): tears down first, then a
      fresh container, the initial position, and a fresh listener. */
  function ShowTooltip(s: Session, x: int, y: int, width: int, height: int, containerHeight: int): (r: Session)
    requires s.started
    ensures r.handler.Some? && r.container.Some? && r.started
    ensures Valid(s) ==> Valid(r) && |r.listeners| == 1 && |r.attached| == 1
    ensures Valid(s) ==> r.listeners !! s.listeners && r.attached !! s.attached
    ensures r.placement == Some(Resolve(x, y, width, height, containerHeight))
  {
    var t := RemoveTooltip(s);
    var ui := t.nextId;
    var hid := ui + 1;
    Session(
      t.started,
      Some(hid),
      Some(ui),
      Some(Resolve(x, y, width, height, containerHeight)),
      t.listeners + {hid},
      t.attached + {ui},
      hid + 1)
  }

  /** Pointer events as the plugin sees them. `Enter` carries whether the
      hovered cell resolved to an item, and the measured tooltip size. */
  datatype Event =
    | Enter(hit: bool, x: int, y: int, width: int, height: int, containerHeight: int)
    | MouseMove(x: int, y: int, width: int, height: int, containerHeight: int)
    | MouseOut
    | Start
    | Stop

  /** One event. Hovers and leaves reach the plugin only while it is started;
      a move re-places the tooltip only while a listener is live. */
  function Step(s: Session, e: Event): (r: Session)
    ensures Valid(s) ==> Valid(r) && |r.listeners| <= 1 && |r.attached| <= 1
    ensures (e.MouseOut? || e.Stop?) && Valid(s) ==> r.listeners == {} && r.attached == {}
    // a leave only tears down, and leaves the plugin started; a stop also stops it
    ensures e.MouseOut? && Valid(s) ==> r == RemoveTooltip(s)
    ensures e.MouseOut? && !s.started ==> r == s
    ensures e.Stop? ==> r == RemoveTooltip(s).(started := false)
    ensures e.MouseMove? && s.handler.None? ==> r == s
    // a started plugin opens a tooltip for a hover that finds an item; any other hover changes nothing
    ensures e.Enter? && e.hit && s.started ==> r == ShowTooltip(s, e.x, e.y, e.width, e.height, e.containerHeight)
    ensures e.Enter? && (!e.hit || !s.started) ==> r == s
    // stopping unregisters the hover handlers; starting registers them and changes nothing else
    ensures e.Stop? ==> !r.started
    ensures e.Start? ==> r == s.(started := true)
    // a move with a live listener re-places the tooltip by the position rule, and only that
    ensures e.MouseMove? && s.handler.Some? ==>
              r == s.(placement := Some(Resolve(e.x, e.y, e.width, e.height, e.containerHeight)))
    // identifiers only grow, and a listener or container is new or was already live
    ensures r.nextId >= s.nextId
    ensures forall id :: id in r.listeners && id !in s.listeners ==> s.nextId <= id < r.nextId
    ensures forall id :: id in r.attached && id !in s.attached ==> s.nextId <= id < r.nextId
  {
    match e
    case Enter(hit, x, y, w, h, ch) =>
      if hit && s.started then ShowTooltip(s, x, y, w, h, ch) else s
    case MouseMove(x, y, w, h, ch) =>
      if s.handler.Some? then s.(placement := Some(Resolve(x, y, w, h, ch))) else s
    case MouseOut => if s.started then RemoveTooltip(s) else s
    case Start => s.(started := true)
    case Stop => RemoveTooltip(s).(started := false)
  }

  /** A sequence of events, first to last. No listener or container that was
      torn down ever comes back: whatever is live at the end was live at the
      start or was issued during the run. */
  function Run(s: Session, events: seq<Event>): (r: Session)
    ensures r.nextId >= s.nextId
    ensures forall id :: id in r.listeners && id !in s.listeners ==> s.nextId <= id < r.nextId
    ensures forall id :: id in r.attached && id !in s.attached ==> s.nextId <= id < r.nextId
    decreases |events|
  {
    if |events| == 0 then s else Run(Step(s, events[0]), events[1..])
  }

  lemma {:induction false} RunSnoc(s: Session, events: seq<Event>, e: Event)
    ensures Run(s, events + [e]) == Step(Run(s, events), e)
    decreases |events|
  {
    if |events| > 0 {
      assert (events + [e])[1..] == events[1..] + [e];
      RunSnoc(Step(s, events[0]), events[1..], e);
    }
  }

  /** However the events come, the page holds at most one listener and one
      container, and they are the ones the plugin holds. */
  lemma {:induction false} RunKeepsAtMostOne(s: Session, events: seq<Event>)
    requires Valid(s)
    ensures Valid(Run(s, events))
    ensures |Run(s, events).listeners| <= 1 && |Run(s, events).attached| <= 1
    decreases |events|
  {
    if |events| > 0 {
      RunKeepsAtMostOne(Step(s, events[0]), events[1..]);
    }
  }

  /** After the pointer leaves or the plugin stops, nothing is left behind. */
  lemma EndsHiddenAfterTeardown(events: seq<Event>, last: Event)
    requires last.MouseOut? || last.Stop?
    ensures Run(Initial, events + [last]).listeners == {}
    ensures Run(Initial, events + [last]).attached == {}
    ensures Run(Initial, events + [last]).handler.None?
  {
    RunSnoc(Initial, events, last);
    RunKeepsAtMostOne(Initial, events);
  }

  /** After a stop, no hover opens a tooltip until the plugin starts again. */
  lemma {:induction false} StoppedIgnoresHovers(s: Session, events: seq<Event>)
    requires forall i :: 0 <= i < |events| ==> !events[i].Start?
    ensures Run(Step(s, Stop), events).handler.None?
    ensures !Run(Step(s, Stop), events).started
    decreases |events|
  {
    if |events| > 0 {
      var t := Step(s, Stop);
      assert Step(t, events[0]).handler.None? && !Step(t, events[0]).started;
      assert Step(t, events[0]) == Step(Step(t, events[0]), Stop);
      StoppedIgnoresHovers(Step(t, events[0]), events[1..]);
    }
  }
}
