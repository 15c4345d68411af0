/** The swipe-to-navigate hook: a touch start records where and when the finger went down, a touch end
    decides whether the gesture was a swipe and, if so, moves to the neighbouring entry of the nav list. */
module SwipeNavigation {
  import opened Wrappers
  import JsArray

  datatype NavItem = NavItem(path: string, caption: string)

  /** The pages reachable by swiping on a phone, in swipe order. */
  const MobileNavItems: seq<NavItem> := [
    NavItem("/", "About Me"),
    NavItem("/projects", "Projects"),
    NavItem("/skills", "Skills"),
    NavItem("/blog", "Blog"),
    NavItem("/contact", "Contact Me")
  ]

  /** The options the hook accepts; each one may be omitted. */
  datatype SwipeOptions = SwipeOptions(threshold: Option<real>, velocity: Option<real>)

  /** The thresholds in force: distance in pixels, speed in pixels per millisecond. */
  datatype SwipeConfig = SwipeConfig(threshold: real, velocity: real)

  const DefaultThreshold: real := 50.0
  const DefaultVelocity: real := 0.3

  /** Fills in the defaults for whatever the caller left out, including the options object itself. */
  function ResolveOptions(options: Option<SwipeOptions>): (r: SwipeConfig)
    ensures options.None? ==> r == SwipeConfig(DefaultThreshold, DefaultVelocity)
    ensures options.Some? && options.value.threshold.Some? ==> r.threshold == options.value.threshold.value
    ensures options.Some? && options.value.threshold.None? ==> r.threshold == DefaultThreshold
    ensures options.Some? && options.value.velocity.Some? ==> r.velocity == options.value.velocity.value
    ensures options.Some? && options.value.velocity.None? ==> r.velocity == DefaultVelocity
  {
    var o := options.GetOr(SwipeOptions(None, None));
    SwipeConfig(o.threshold.GetOr(DefaultThreshold), o.velocity.GetOr(DefaultVelocity))
  }

  /** The hook's refs: the last touch start and the index of the current page in the nav list. */
  datatype SwipeState = SwipeState(startX: real, startTime: int, currentPathIndex: int)

  /** The index of `pathname` in the nav list, or -1 when the current page is not listed. */
  function PathIndex(navItems: seq<NavItem>, pathname: string): (r: int)
    ensures -1 <= r < |navItems|
    ensures r == -1 <==> forall j :: 0 <= j < |navItems| ==> navItems[j].path != pathname
    ensures 0 <= r ==> navItems[r].path == pathname && forall j :: 0 <= j < r ==> navItems[j].path != pathname
  {
    JsArray.FindIndex(navItems, (item: NavItem) => item.path == pathname)
  }

  /** The index ref always holds a value `findIndex` could have returned. */
  predicate IndexInRange(s: SwipeState, navItems: seq<NavItem>) {
    -1 <= s.currentPathIndex < |navItems|
  }

  /** The refs on first render: both start refs are zero. */
  function InitialState(navItems: seq<NavItem>, pathname: string): (r: SwipeState)
    ensures r.startX == 0.0 && r.startTime == 0
    ensures r.currentPathIndex == PathIndex(navItems, pathname)
    ensures IndexInRange(r, navItems)
  {
    SwipeState(0.0, 0, PathIndex(navItems, pathname))
  }

  /** The effect run on every location change: only the index is recomputed. */
  function SyncLocation(s: SwipeState, navItems: seq<NavItem>, pathname: string): (r: SwipeState)
    ensures r.startX == s.startX && r.startTime == s.startTime
    ensures r.currentPathIndex == PathIndex(navItems, pathname)
    ensures IndexInRange(r, navItems)
  {
    s.(currentPathIndex := PathIndex(navItems, pathname))
  }

  /** A touch start overwrites both start refs and nothing else. */
  function HandleTouchStart(s: SwipeState, clientX: real, now: int): (r: SwipeState)
    ensures r.startX == clientX && r.startTime == now
    ensures r.currentPathIndex == s.currentPathIndex
  {
    s.(startX := clientX, startTime := now)
  }

  function Abs(x: real): (r: real)
    ensures r >= 0.0 && (r == x || r == -x)
  {
    if x < 0.0 then -x else x
  }

  /** A JavaScript number as `Math.abs(deltaX / deltaTime)` can produce it from finite operands. */
  datatype JsSpeed = Finite(value: real) | Infinity | NaN

  /** `Math.abs(deltaX / deltaTime)`: dividing by zero gives Infinity, or NaN when deltaX is zero too. */
  function CalculatedVelocity(deltaX: real, deltaTime: int): (r: JsSpeed)
    ensures r.Finite? <==> deltaTime != 0
    ensures r.Finite? ==> r.value >= 0.0
    ensures r.NaN? <==> deltaX == 0.0 && deltaTime == 0
  {
    if deltaTime != 0 then Finite(Abs(deltaX / deltaTime as real))
    else if deltaX == 0.0 then NaN
    else Infinity
  }

  /** JavaScript's `speed > v` for a finite `v`: Infinity exceeds everything, NaN nothing. */
  predicate Exceeds(speed: JsSpeed, v: real)
    ensures Exceeds(speed, v) ==> !speed.NaN?
    ensures speed.Infinity? ==> Exceeds(speed, v)
    ensures speed.Finite? ==> (Exceeds(speed, v) <==> speed.value > v)
  {
    match speed
    case Finite(x) => x > v
    case Infinity => true
    case NaN => false
  }

  /** The hook's test of a gesture: both thresholds are strict. */
  predicate Qualifies(config: SwipeConfig, deltaX: real, deltaTime: int)
    ensures Qualifies(config, deltaX, deltaTime) ==> Abs(deltaX) > config.threshold
    ensures Qualifies(config, deltaX, deltaTime) <==>
      Abs(deltaX) > config.threshold && FastEnough(deltaX, deltaTime, config.velocity)
  {
    VelocityTestWithoutDivision(deltaX, deltaTime, config.velocity);
    Abs(deltaX) > config.threshold && Exceeds(CalculatedVelocity(deltaX, deltaTime), config.velocity)
  }

  /** The speed test written without division: a zero duration passes on any movement. */
  predicate FastEnough(deltaX: real, deltaTime: int, v: real) {
    if deltaTime == 0 then deltaX != 0.0 else Abs(deltaX) > v * Abs(deltaTime as real)
  }

  /** The quotient test the hook performs is the cross-multiplied test. */
  lemma VelocityTestWithoutDivision(deltaX: real, deltaTime: int, v: real)
    ensures Exceeds(CalculatedVelocity(deltaX, deltaTime), v) <==> FastEnough(deltaX, deltaTime, v)
  {
  }

  /** The neighbour a swipe moves to: rightward goes back one entry, anything else forward one;
      neither wraps around. */
  function NeighbourIndex(currentPathIndex: int, length: nat, deltaX: real): (r: Option<nat>)
    requires -1 <= currentPathIndex < length
    ensures r.Some? ==> r.value < length
    ensures deltaX > 0.0 ==> (r.Some? <==> currentPathIndex >= 1)
    ensures deltaX <= 0.0 ==> (r.Some? <==> currentPathIndex < length - 1)
    ensures r.Some? && deltaX > 0.0 ==> r.value + 1 == currentPathIndex
    ensures r.Some? && deltaX <= 0.0 ==> r.value == currentPathIndex + 1
  {
    if deltaX > 0.0 then
      var prevIndex := currentPathIndex - 1;
      if prevIndex >= 0 then Some(prevIndex) else None
    else
      var nextIndex := currentPathIndex + 1;
      if nextIndex < length then Some(nextIndex) else None
  }

  /** A touch end: the path to navigate to, if the gesture was a swipe towards an existing neighbour. */
  function HandleTouchEnd(s: SwipeState, navItems: seq<NavItem>, config: SwipeConfig, clientX: real, now: int): (r: Option<string>)
    requires IndexInRange(s, navItems)
    ensures r.Some? ==> Qualifies(config, clientX - s.startX, now - s.startTime)
    ensures r.Some? ==> exists i :: (0 <= i < |navItems| && navItems[i].path == r.value
      && (i + 1 == s.currentPathIndex || i == s.currentPathIndex + 1))
  {
    var deltaX := clientX - s.startX;
    var deltaTime := now - s.startTime;
    if Qualifies(config, deltaX, deltaTime) then
      match NeighbourIndex(s.currentPathIndex, |navItems|, deltaX)
      case Some(i) => Some(navItems[i].path)
      case None => None
    else None
  }

  /** The path `HandleTouchEnd` would navigate to for a qualifying swipe, stated on the index alone. */
  lemma QualifyingSwipe(s: SwipeState, navItems: seq<NavItem>, config: SwipeConfig, clientX: real, now: int)
    requires IndexInRange(s, navItems)
    requires Qualifies(config, clientX - s.startX, now - s.startTime)
    ensures var i := s.currentPathIndex;
      var r := HandleTouchEnd(s, navItems, config, clientX, now);
      (clientX - s.startX > 0.0 && i >= 1 ==> r == Some(navItems[i - 1].path))
      && (clientX - s.startX > 0.0 && i <= 0 ==> r == None)
      && (clientX - s.startX < 0.0 && i < |navItems| - 1 ==> r == Some(navItems[i + 1].path))
      && (clientX - s.startX < 0.0 && i == |navItems| - 1 ==> r == None)
  {
  }

  /** A gesture that misses either threshold never navigates. */
  lemma NonQualifyingSwipeIgnored(s: SwipeState, navItems: seq<NavItem>, config: SwipeConfig, clientX: real, now: int)
    requires IndexInRange(s, navItems)
    requires !Qualifies(config, clientX - s.startX, now - s.startTime)
    ensures HandleTouchEnd(s, navItems, config, clientX, now) == None
  {
  }

  /** A displacement exactly equal to the distance threshold never navigates, however fast. */
  lemma ExactThresholdNeverNavigates(s: SwipeState, navItems: seq<NavItem>, config: SwipeConfig, clientX: real, now: int)
    requires IndexInRange(s, navItems)
    requires Abs(clientX - s.startX) == config.threshold
    ensures HandleTouchEnd(s, navItems, config, clientX, now) == None
  {
  }

  /** A swipe with no elapsed time passes the speed test on distance alone, without failing. */
  lemma ZeroDurationQualifiesOnDistance(config: SwipeConfig, deltaX: real)
    requires Abs(deltaX) > config.threshold && config.threshold >= 0.0
    ensures Qualifies(config, deltaX, 0)
  {
  }

  /** When the current page is not in the list, a leftward swipe lands on the first entry. */
  lemma UnlistedPageSwipesLeftToFirst(s: SwipeState, navItems: seq<NavItem>, config: SwipeConfig, clientX: real, now: int)
    requires |navItems| > 0 && s.currentPathIndex == -1
    requires clientX - s.startX < 0.0 && Qualifies(config, clientX - s.startX, now - s.startTime)
    ensures HandleTouchEnd(s, navItems, config, clientX, now) == Some(navItems[0].path)
  {
  }

  /** Only the latest touch start counts: an earlier one leaves no trace in the decision. */
  lemma LatestStartWins(s: SwipeState, navItems: seq<NavItem>, config: SwipeConfig,
                        x1: real, t1: int, x2: real, t2: int, endX: real, endTime: int)
    requires IndexInRange(s, navItems)
    ensures HandleTouchStart(HandleTouchStart(s, x1, t1), x2, t2) == HandleTouchStart(s, x2, t2)
    ensures HandleTouchEnd(HandleTouchStart(HandleTouchStart(s, x1, t1), x2, t2), navItems, config, endX, endTime)
         == HandleTouchEnd(HandleTouchStart(s, x2, t2), navItems, config, endX, endTime)
  {
  }

  /** `path` is the path of some entry of the nav list. */
  predicate Listed(navItems: seq<NavItem>, path: string) {
    exists i :: 0 <= i < |navItems| && navItems[i].path == path
  }

  /** No two entries share a path. */
  predicate PathsDistinct(navItems: seq<NavItem>) {
    forall i, j :: 0 <= i < j < |navItems| ==> navItems[i].path != navItems[j].path
  }

  lemma DistinctPathIndex(navItems: seq<NavItem>, i: nat)
    requires PathsDistinct(navItems) && i < |navItems|
    ensures PathIndex(navItems, navItems[i].path) == i
  {
  }

  /** A swipe back followed, once the page has changed, by a swipe forward returns to the start page. */
  lemma {:induction false} BackThenForwardReturns(navItems: seq<NavItem>, config: SwipeConfig, i: nat,
                                                 x0: real, t0: int, x1: real, t1: int,
                                                 x2: real, t2: int, x3: real, t3: int)
    requires PathsDistinct(navItems) && 1 <= i < |navItems|
    requires x1 - x0 > 0.0 && Qualifies(config, x1 - x0, t1 - t0)
    requires x3 - x2 < 0.0 && Qualifies(config, x3 - x2, t3 - t2)
    ensures var s := InitialState(navItems, navItems[i].path);
      var back := HandleTouchEnd(HandleTouchStart(s, x0, t0), navItems, config, x1, t1);
      back == Some(navItems[i - 1].path)
      && var s' := SyncLocation(HandleTouchStart(s, x0, t0), navItems, back.value);
         HandleTouchEnd(HandleTouchStart(s', x2, t2), navItems, config, x3, t3) == Some(navItems[i].path)
  {
    DistinctPathIndex(navItems, i);
    DistinctPathIndex(navItems, i - 1);
  }

  /** The mobile nav list has distinct paths, so every listed page has its own index. */
  lemma MobileNavPathsDistinct()
    ensures PathsDistinct(MobileNavItems)
  {
  }

  /** On the projects page with the default thresholds, a 100-pixel swipe over 50 ms goes to the
      neighbouring page: rightward to the about page, leftward to the skills page. */
  lemma ProjectsPageScenario()
    ensures var config := ResolveOptions(None);
      var s := InitialState(MobileNavItems, "/projects");
      HandleTouchEnd(HandleTouchStart(s, 100.0, 1000), MobileNavItems, config, 200.0, 1050) == Some("/")
      && HandleTouchEnd(HandleTouchStart(s, 200.0, 1000), MobileNavItems, config, 100.0, 1050) == Some("/skills")
  {
    MobileNavPathsDistinct();
    DistinctPathIndex(MobileNavItems, 1);
  }

  /** The events the hook sees. */
  datatype GestureEvent = TouchStart(clientX: real, now: int) | TouchEnd(clientX: real, now: int) | Navigated(pathname: string)

  function TouchEndCount(events: seq<GestureEvent>): nat {
    if |events| == 0 then 0 else (if events[0].TouchEnd? then 1 else 0) + TouchEndCount(events[1..])
  }

  /** Runs a series of events from a state; returns the final state and the paths navigated to.
      Each touch end navigates at most once and only ever to a listed page. */
  function Run(s: SwipeState, navItems: seq<NavItem>, config: SwipeConfig, events: seq<GestureEvent>): (r: (SwipeState, seq<string>))
    requires IndexInRange(s, navItems)
    ensures IndexInRange(r.0, navItems)
    ensures |r.1| <= TouchEndCount(events)
    ensures forall k :: 0 <= k < |r.1| ==> Listed(navItems, r.1[k])
    decreases |events|
  {
    if |events| == 0 then (s, [])
    else
      match events[0]
      case TouchStart(x, t) => Run(HandleTouchStart(s, x, t), navItems, config, events[1..])
      case Navigated(p) => Run(SyncLocation(s, navItems, p), navItems, config, events[1..])
      case TouchEnd(x, t) =>
        var rest := Run(s, navItems, config, events[1..]);
        match HandleTouchEnd(s, navItems, config, x, t)
        case Some(p) => (rest.0, [p] + rest.1)
        case None => rest
  }
}
