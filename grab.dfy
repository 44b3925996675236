/** The gesture classifier (src/grab.rs:168-333): the handlers the input hook runs for a
    left press, a left release, a right release, a mouse move and a wheel turn, and the
    deferred single-click check the worker pool runs later.

    Each handler is specified by a function on the classifier's state (`Clicks`) and on
    the registry's value, which returns the new state and the events emitted, in order.
    The methods of `Classifier` do the same work on the objects and are tied to those
    functions. Times are milliseconds on a monotonic clock, passed in as `now`. */
module Grab {
  import opened Errors
  import opened Utils
  import opened Polygons
  import opened Statics
  import opened View
  import opened Events
  import opened Desktop

  /** The longest press, in milliseconds, that still counts as a click. */
  const ClickMs: int := 150
  /** The window, in milliseconds since the previous click, for a double click. */
  const DoubleClickMs: int := 250

  /** What a left release over no polygon is taken to be. */
  datatype Gesture =
    | PendingClick    // a single click, confirmed by the deferred check
    | DoubleClicked
    | Dragged
    | NoGesture

  /** The three tests of the left-release handler, in the order the source makes them.
      Their conditions exclude each other, so each gesture holds exactly when its own
      test does, whatever the order. */
  function Classify(elapsed: int, lastClickElapsed: int, pos: Position, lastPos: Position,
                    pressPos: Position): (g: Gesture)
    ensures g == PendingClick <==> elapsed < ClickMs && lastClickElapsed > DoubleClickMs
    ensures g == DoubleClicked <==>
      elapsed < ClickMs && pos == lastPos && lastClickElapsed <= DoubleClickMs
    ensures g == Dragged <==> elapsed >= ClickMs && pos != pressPos
  {
    if elapsed < ClickMs && lastClickElapsed > DoubleClickMs then PendingClick
    else if elapsed < ClickMs && pos.x == lastPos.x && pos.y == lastPos.y
      && lastClickElapsed <= DoubleClickMs then DoubleClicked
    else if elapsed >= ClickMs && (pressPos.x != pos.x || pressPos.y != pos.y) then Dragged
    else NoGesture
  }

  /** The click history the handlers keep: the press time and position, the time and
      position of the last release over no polygon, the `IS_DOUBLE_CLICK` flag, and the
      positions of the single clicks whose deferred check has not run yet, oldest first. */
  datatype Clicks = Clicks(pressTime: int, pressPos: Position, lastClickTime: int,
                           lastClickPos: Position, isDoubleClick: bool, pending: seq<Position>)

  /** What `view::cursor_in()` tells a release handler: an error, or the ids under the
      cursor. Only whether the list is empty matters to the handlers. */
  function Hits(s: RegState): (h: Result<set<string>>)
    ensures h.Err? <==> !s.initialized
    ensures h.Err? ==> h.error == NotInitialized
    ensures h.Ok? ==> h.value == CursorInIds(s)
  {
    if s.initialized then Ok(CursorInIds(s)) else Err(NotInitialized)
  }

  /** A left press: remember when and where. */
  function Press(c: Clicks, now: int, pos: Position): (d: Clicks)
    ensures d.pressTime == now && d.pressPos == pos
    ensures d.(pressTime := c.pressTime, pressPos := c.pressPos) == c
  {
    c.(pressTime := now, pressPos := pos)
  }

  /** A left release at `pos`, with `hits` from `cursor_in()`. */
  function LeftRelease(c: Clicks, now: int, pos: Position, hits: Result<set<string>>): (r: (Clicks, seq<Event>))
    ensures |r.1| <= 1
    ensures r.0.pressTime == c.pressTime && r.0.pressPos == c.pressPos
    ensures hits.Err? ==> r == (c, [Event.Error(hits.error)])
    ensures hits.Ok? && hits.value != {} ==> r == (c, [])
    ensures hits == Ok({}) ==> r.0.lastClickTime == now && r.0.lastClickPos == pos
    ensures hits == Ok({}) ==>
      var g := Classify(now - c.pressTime, now - c.lastClickTime, pos, c.lastClickPos, c.pressPos);
      && (g == PendingClick ==> r.1 == [] && r.0.pending == c.pending + [pos] && r.0.isDoubleClick == c.isDoubleClick)
      && (g == DoubleClicked ==> r.1 == [DoubleClick(pos.x, pos.y)] && r.0.isDoubleClick && r.0.pending == c.pending)
      && (g == Dragged ==> r.1 == [Drag(c.pressPos, pos)] && r.0.isDoubleClick == c.isDoubleClick && r.0.pending == c.pending)
      && (g == NoGesture ==> r.1 == [] && r.0.isDoubleClick == c.isDoubleClick && r.0.pending == c.pending)
  {
    match hits
    case Err(e) => (c, [Event.Error(e)])
    case Ok(ids) =>
      if ids != {} then (c, [])
      else
        var d := c.(lastClickTime := now, lastClickPos := pos);
        match Classify(now - c.pressTime, now - c.lastClickTime, pos, c.lastClickPos, c.pressPos)
        case PendingClick => (d.(pending := c.pending + [pos]), [])
        case DoubleClicked => (d.(isDoubleClick := true), [DoubleClick(pos.x, pos.y)])
        case Dragged => (d, [Drag(c.pressPos, pos)])
        case NoGesture => (d, [])
  }

  /** The deferred check of the oldest pending click: it consumes the double-click flag
      and emits the click only if no double click set the flag meanwhile. */
  function Deferred(c: Clicks): (r: (Clicks, seq<Event>))
    requires |c.pending| > 0
    ensures !r.0.isDoubleClick && r.0.pending == c.pending[1..]
    ensures r.0.pressTime == c.pressTime && r.0.pressPos == c.pressPos
    ensures r.0.lastClickTime == c.lastClickTime && r.0.lastClickPos == c.lastClickPos
    ensures r.1 != [] <==> !c.isDoubleClick
    ensures r.1 != [] ==> r.1 == [LeftClick(c.pending[0].x, c.pending[0].y)]
  {
    var d := c.(isDoubleClick := false, pending := c.pending[1..]);
    if c.isDoubleClick then (d, []) else (d, [LeftClick(c.pending[0].x, c.pending[0].y)])
  }

  /** A right release at `pos`: a right click unless a polygon is under the cursor. */
  function RightRelease(hits: Result<set<string>>, pos: Position): (evs: seq<Event>)
    ensures hits.Err? ==> evs == [Event.Error(hits.error)]
    ensures evs == [RightClick(pos.x, pos.y)] <==> hits == Ok({})
    ensures hits.Ok? && hits.value != {} ==> evs == []
  {
    match hits
    case Err(e) => [Event.Error(e)]
    case Ok(ids) => if ids == {} then [RightClick(pos.x, pos.y)] else []
  }

  /** The registry after a mouse move to the physical point `pt`: every polygon's cursor
      flag says whether it contains `pt`, and nothing else changes. */
  function MoveCursor(s: RegState, pt: Point): (r: RegState)
    ensures r.initialized == s.initialized && r.ids == s.ids && r.polys.Keys == s.polys.Keys
    ensures forall k :: k in s.polys ==>
      r.polys[k] == s.polys[k].(cursorIn := Contained(s.polys[k], pt))
    ensures forall k :: k in CursorInIds(r) <==> k in s.polys && Contained(s.polys[k], pt)
    ensures Consistent(s) ==> Consistent(r)
  {
    s.(polys := map k | k in s.polys :: s.polys[k].(cursorIn := Contained(s.polys[k], pt)))
  }

  /** The enter/leave step of a mouse move, from the `MOUSE_IN_POLYGON` flag, the
      window's passthrough flag and the ids found under the cursor: the new flags and
      the event emitted. Afterwards the flag says whether any polygon is under the
      cursor, and the window passes the pointer through exactly when none is. */
  function Crossing(wasIn: bool, ignore: bool, ids: seq<string>): (r: (bool, bool, seq<Event>))
    ensures r.0 == (|ids| > 0)
    ensures r.2 == [MouseEnter(ids)] <==> |ids| > 0 && !wasIn
    ensures r.2 == [MouseLeave] <==> |ids| == 0 && wasIn
    ensures r.2 == [] <==> r.0 == wasIn
    ensures r.2 != [] ==> r.1 == !r.0
    ensures r.2 == [] ==> r.1 == ignore
  {
    if |ids| > 0 && !wasIn then (true, false, [MouseEnter(ids)])
    else if |ids| == 0 && wasIn then (false, true, [MouseLeave])
    else (wasIn, ignore, [])
  }

  /** A list whose members are the ids of `s` is empty exactly when `s` is. */
  lemma EmptyListedSet(v: seq<string>, s: set<string>)
    requires forall k :: k in v <==> k in s
    ensures |v| == 0 <==> s == {}
  {
    if |v| > 0 {
      assert v[0] in s;
    }
  }

  // ---------------------------------------------------------------------------------------
  // The handlers on objects.

  class Classifier {
    const app: Plugin
    var mouseX: real
    var mouseY: real
    var mouseInPolygon: bool
    var isDoubleClick: bool
    var pressTime: int
    var pressPos: Position
    var lastClickTime: int
    var lastClickPos: Position
    var pending: seq<Position>

    function State(): Clicks
      reads this
    {
      Clicks(pressTime, pressPos, lastClickTime, lastClickPos, isDoubleClick, pending)
    }

    /** `get_mouse_position`: the stored physical position in viewport coordinates. */
    function MousePosition(): Position
      reads this, app.reg
      requires app.reg.physicalWidth > 0.0
    {
      var p := Viewport(app.reg.physicalWidth, (mouseX, mouseY));
      Position(p.0, p.1)
    }

    /** `grab::init` at time `now`, with the process-wide cursor statics at their
        initial values: both times `now`, both positions the origin, both flags false. */
    constructor (app: Plugin, now: int)
      ensures this.app == app
      ensures State() == Clicks(now, Position(0.0, 0.0), now, Position(0.0, 0.0), false, [])
      ensures mouseX == 0.0 && mouseY == 0.0 && !mouseInPolygon
    {
      this.app := app;
      mouseX, mouseY := 0.0, 0.0;
      mouseInPolygon := false;
      isDoubleClick := false;
      pressTime, pressPos := now, Position(0.0, 0.0);
      lastClickTime, lastClickPos := now, Position(0.0, 0.0);
      pending := [];
    }

    method GetMousePosition() returns (p: Position)
      requires app.reg.physicalWidth > 0.0
      ensures p == MousePosition()
    {
      var x, y := ToViewport(app.reg.physicalWidth, mouseX, mouseY);
      p := Position(x, y);
    }

    /** `grab`'s `emit`: publish on the topic, then hand the event to the callback. */
    method EmitEvent(e: Event)
      modifies app`published, app`delivered
      ensures app.published == old(app.published) + [e]
      ensures app.delivered == old(app.delivered) + [e]
    {
      app.Publish(e);
      app.Emit(e);
    }

    method PressLeft(now: int)
      requires app.reg.physicalWidth > 0.0
      modifies this`pressTime, this`pressPos
      ensures State() == Press(old(State()), now, old(MousePosition()))
    {
      pressTime := now;
      pressPos := GetMousePosition();
    }

    method ReleaseLeft(now: int)
      requires app.reg.Valid() && app.reg.physicalWidth > 0.0
      modifies this`lastClickTime, this`lastClickPos, this`isDoubleClick, this`pending
      modifies app`published, app`delivered
      ensures var r := LeftRelease(old(State()), now, old(MousePosition()), old(Hits(app.reg.Abs())));
        && State() == r.0
        && app.published == old(app.published) + r.1
        && app.delivered == old(app.delivered) + r.1
    {
      var elapsed := now - pressTime;
      var polygons := View.CursorIn(app.reg);
      if polygons.Err? {
        EmitEvent(Event.Error(polygons.error));
        return;
      }
      EmptyListedSet(polygons.value, CursorInIds(app.reg.Abs()));
      if |polygons.value| == 0 {
        var pos := GetMousePosition();
        var lastClick := lastClickPos;
        lastClickPos := pos;
        var lastClickElapsed := now - lastClickTime;
        lastClickTime := now;

        if elapsed < ClickMs && lastClickElapsed > DoubleClickMs {
          pending := pending + [pos];
          return;
        }
        if elapsed < ClickMs && (pos.x == lastClick.x && pos.y == lastClick.y)
          && lastClickElapsed <= DoubleClickMs {
          isDoubleClick := true;
          EmitEvent(DoubleClick(pos.x, pos.y));
          return;
        }
        if elapsed >= ClickMs && (pressPos.x != pos.x || pressPos.y != pos.y) {
          var to := GetMousePosition();
          EmitEvent(Drag(pressPos, to));
          return;
        }
      }
    }

    method RunDeferred()
      requires |pending| > 0
      modifies this`isDoubleClick, this`pending, app`published, app`delivered
      ensures var r := Deferred(old(State()));
        && State() == r.0
        && app.published == old(app.published) + r.1
        && app.delivered == old(app.delivered) + r.1
    {
      var pos := pending[0];
      pending := pending[1..];
      var wasDoubleClick := isDoubleClick;
      isDoubleClick := false;
      if !wasDoubleClick {
        EmitEvent(LeftClick(pos.x, pos.y));
      }
    }

    method ReleaseRight()
      requires app.reg.Valid() && app.reg.physicalWidth > 0.0
      modifies app`published, app`delivered
      ensures var evs := RightRelease(old(Hits(app.reg.Abs())), old(MousePosition()));
        && app.published == old(app.published) + evs
        && app.delivered == old(app.delivered) + evs
    {
      var polygons := View.CursorIn(app.reg);
      if polygons.Err? {
        EmitEvent(Event.Error(polygons.error));
        return;
      }
      EmptyListedSet(polygons.value, CursorInIds(app.reg.Abs()));
      if |polygons.value| == 0 {
        var pos := GetMousePosition();
        EmitEvent(RightClick(pos.x, pos.y));
      }
    }

    /** A mouse move to the physical point `(x, y)`. The source unwraps the polygon map,
        so the registry must have been initialised. `ids` are the ids found under the
        cursor, in the map's iteration order. */
    method MouseMove(x: real, y: real) returns (ids: seq<string>)
      requires app.reg.Valid() && app.reg.initialized && app.reg.physicalWidth > 0.0
      modifies this`mouseX, this`mouseY, this`mouseInPolygon, app.reg.polys.Values
      modifies app`ignoreCursorEvents, app`published, app`delivered
      ensures app.reg.Valid()
      ensures app.reg.Abs() == MoveCursor(old(app.reg.Abs()), (x, y))
      ensures mouseX == x && mouseY == y
      ensures forall k :: k in ids <==> k in CursorInIds(app.reg.Abs())
      ensures forall i, j :: 0 <= i < j < |ids| ==> ids[i] != ids[j]
      ensures var r := Crossing(old(mouseInPolygon), old(app.ignoreCursorEvents), ids);
        var evs := r.2 + [Events.MouseMove(MousePosition().x, MousePosition().y)];
        && mouseInPolygon == r.0 && app.ignoreCursorEvents == r.1
        && app.published == old(app.published) + evs
        && app.delivered == old(app.delivered) + evs
    {
      ids := HitTest(x, y);
      ghost var moved := app.reg.Abs();
      assert mouseInPolygon == old(mouseInPolygon) && app.ignoreCursorEvents == old(app.ignoreCursorEvents);
      assert app.published == old(app.published) && app.delivered == old(app.delivered);
      Announce(ids);
      assert app.reg.Valid() && app.reg.Abs() == moved;
    }

    /** The first half of the mouse-move handler: store the position and run the
        hit-test loop. */
    method HitTest(x: real, y: real) returns (ids: seq<string>)
      requires app.reg.Valid()
      modifies this`mouseX, this`mouseY, app.reg.polys.Values
      ensures app.reg.Valid()
      ensures app.reg.Abs() == MoveCursor(old(app.reg.Abs()), (x, y))
      ensures mouseX == x && mouseY == y
      ensures forall k :: k in ids <==> k in CursorInIds(app.reg.Abs())
      ensures forall i, j :: 0 <= i < j < |ids| ==> ids[i] != ids[j]
    {
      mouseX, mouseY := x, y;
      assert app.reg.Valid() && app.reg.Abs() == old(app.reg.Abs());
      ids := FindUnder(app.reg, x, y);
    }

    /** The second half of the mouse-move handler: the enter/leave step, then the
        `MouseMove` event at the stored position. */
    method Announce(ids: seq<string>)
      requires app.reg.physicalWidth > 0.0
      modifies this`mouseInPolygon, app`ignoreCursorEvents, app`published, app`delivered
      ensures var r := Crossing(old(mouseInPolygon), old(app.ignoreCursorEvents), ids);
        var evs := r.2 + [Events.MouseMove(MousePosition().x, MousePosition().y)];
        && mouseInPolygon == r.0 && app.ignoreCursorEvents == r.1
        && app.published == old(app.published) + evs
        && app.delivered == old(app.delivered) + evs
    {
      EnterOrLeave(ids);
      var pos := GetMousePosition();
      EmitEvent(Events.MouseMove(pos.x, pos.y));
    }

    /** The enter/leave step of the mouse-move handler. */
    method EnterOrLeave(ids: seq<string>)
      modifies this`mouseInPolygon, app`ignoreCursorEvents, app`published, app`delivered
      ensures var r := Crossing(old(mouseInPolygon), old(app.ignoreCursorEvents), ids);
        && mouseInPolygon == r.0 && app.ignoreCursorEvents == r.1
        && app.published == old(app.published) + r.2
        && app.delivered == old(app.delivered) + r.2
    {
      if |ids| > 0 && !mouseInPolygon {
        app.SetIgnoreCursorEvents(false);
        mouseInPolygon := true;
        EmitEvent(MouseEnter(ids));
      } else if |ids| == 0 && mouseInPolygon {
        app.SetIgnoreCursorEvents(true);
        mouseInPolygon := false;
        EmitEvent(MouseLeave);
      }
    }

    method Wheel(dx: int, dy: int)
      modifies app`published, app`delivered
      ensures app.published == old(app.published) + [Events.Wheel(dx as real, dy as real)]
      ensures app.delivered == old(app.delivered) + [Events.Wheel(dx as real, dy as real)]
    {
      EmitEvent(Events.Wheel(dx as real, dy as real));
    }
  }

  /** The hit-test loop of the mouse-move handler: set each polygon's cursor flag to
      `pos_contained` and collect the ids of those that contain the point. */
  method FindUnder(reg: Registry, x: real, y: real) returns (ids: seq<string>)
    requires reg.Valid()
    modifies reg.polys.Values
    ensures reg.Valid()
    ensures reg.Abs() == MoveCursor(old(reg.Abs()), (x, y))
    ensures forall k :: k in ids <==> k in CursorInIds(reg.Abs())
    ensures forall i, j :: 0 <= i < j < |ids| ==> ids[i] != ids[j]
  {
    var registered := reg.polys;
    ghost var before := States(registered);
    ids := [];
    var rest := registered.Keys;
    while rest != {}
      invariant rest <= before.Keys
      invariant Live(registered)
      invariant Marked(registered, before, rest, (x, y))
      invariant forall k :: k in ids <==> k in before && k !in rest && Contained(before[k], (x, y))
      invariant forall i, j :: 0 <= i < j < |ids| ==> ids[i] != ids[j]
      decreases rest
    {
      var k :| k in rest;
      var b := MarkOne(registered, before, rest, k, x, y);
      if b {
        ids := ids + [registered[k].id];
      }
      rest := rest - {k};
    }
    MarkedAll(registered, before, (x, y));
  }

  /** Once no key is left, the states are those of `MoveCursor`. */
  lemma MarkedAll(m: map<string, Polygon>, before: map<string, PolygonState>, pt: Point)
    requires Marked(m, before, {}, pt)
    ensures States(m) == MoveCursor(RegState(true, {}, before), pt).polys
  {
  }

  /** One turn of the hit-test loop: set the flag of the polygon under `k`. */
  method MarkOne(m: map<string, Polygon>, ghost before: map<string, PolygonState>, rest: set<string>,
                 k: string, x: real, y: real) returns (b: bool)
    requires Live(m) && Marked(m, before, rest, (x, y)) && k in rest && k in m
    modifies m[k]
    ensures Live(m) && Marked(m, before, rest - {k}, (x, y))
    ensures b == Contained(before[k], (x, y))
    ensures m[k].id == k
  {
    var polygon := m[k];
    b := PosContained(polygon, x, y);
    polygon.SetCursorIn(b);
    forall j | j in m
      ensures m[j].id == j && !m[j].destroyed
      ensures m[j].State() ==
        if j in rest - {k} then before[j] else before[j].(cursorIn := Contained(before[j], (x, y)))
    {
      if j != k {
        assert m[j] != polygon;
        assert m[j].State() == old(m[j].State());
      }
    }
  }

  /** The polygons of `m` whose keys are not in `rest` have had their cursor flag set for
      `pt`; the others still hold their state in `before`. */
  ghost predicate Marked(m: map<string, Polygon>, before: map<string, PolygonState>, rest: set<string>, pt: Point)
    reads m.Values
  {
    && m.Keys == before.Keys
    && forall k :: k in m ==>
      m[k].State() == if k in rest then before[k] else before[k].(cursorIn := Contained(before[k], pt))
  }

  // ---------------------------------------------------------------------------------------
  // Properties that relate several handlers.

  /** A release over a polygon the last mouse move found under the cursor is left to the
      front end: neither button emits anything nor changes the click history. */
  lemma ReleaseOverPolygonIsSilent(s: RegState, pt: Point, k: string, c: Clicks, now: int, pos: Position)
    requires s.initialized && k in s.polys && Contained(s.polys[k], pt)
    ensures LeftRelease(c, now, pos, Hits(MoveCursor(s, pt))) == (c, [])
    ensures RightRelease(Hits(MoveCursor(s, pt)), pos) == []
  {
    assert k in CursorInIds(MoveCursor(s, pt));
  }

  /** A hidden polygon is never under the cursor, wherever the mouse moves. */
  lemma HiddenPolygonNeverUnderCursor(s: RegState, pt: Point, k: string)
    requires k in s.polys && !s.polys[k].display
    ensures k !in CursorInIds(MoveCursor(s, pt))
  {
  }

  /** A single click: a quick press and release with no click in the preceding 250 ms
      emits nothing at once, and the deferred check then emits one `LeftClick` there. */
  lemma SingleClick(c: Clicks, t: int, d: int, p: Position)
    requires c.pending == [] && !c.isDoubleClick
    requires 0 <= d < ClickMs && t + d - c.lastClickTime > DoubleClickMs
    ensures var r := LeftRelease(Press(c, t, p), t + d, p, Ok({}));
      && r.1 == [] && r.0.pending == [p]
      && Deferred(r.0).1 == [LeftClick(p.x, p.y)]
      && Deferred(r.0).0.pending == [] && !Deferred(r.0).0.isDoubleClick
  {
  }

  /** A double click: two quick clicks at one position, the second released within
      250 ms of the first. The second release emits `DoubleClick` at once, and the
      deferred check of the first click then emits nothing. */
  lemma DoubleClickSuppressesPendingClick(c: Clicks, t1: int, d1: int, t2: int, d2: int, p: Position)
    requires c.pending == [] && !c.isDoubleClick
    requires 0 <= d1 < ClickMs && 0 <= d2 < ClickMs
    requires t1 + d1 - c.lastClickTime > DoubleClickMs
    requires t1 + d1 <= t2 && (t2 + d2) - (t1 + d1) <= DoubleClickMs
    ensures var r1 := LeftRelease(Press(c, t1, p), t1 + d1, p, Ok({}));
      var r2 := LeftRelease(Press(r1.0, t2, p), t2 + d2, p, Ok({}));
      && r1.1 == [] && r2.1 == [DoubleClick(p.x, p.y)]
      && r2.0.pending == [p] && Deferred(r2.0).1 == []
      && Deferred(r2.0).0.pending == [] && !Deferred(r2.0).0.isDoubleClick
  {
    var r1 := LeftRelease(Press(c, t1, p), t1 + d1, p, Ok({}));
    assert r1.0.lastClickTime == t1 + d1 && r1.0.lastClickPos == p;
  }

  /** A drag: a press held for at least 150 ms and released elsewhere emits one `Drag`
      from the press position to the release position, and schedules no click. */
  lemma DragFromPressToRelease(c: Clicks, t: int, d: int, from: Position, to: Position)
    requires d >= ClickMs && from != to
    ensures var r := LeftRelease(Press(c, t, from), t + d, to, Ok({}));
      r.1 == [Drag(from, to)] && r.0.pending == c.pending && r.0.isDoubleClick == c.isDoubleClick
  {
  }

  /** The double-click flag is cleared only by a deferred check. A slow press and release
      followed within 250 ms by a quick click at the same place is a double click with
      no single click pending, so the flag stays set, and it then suppresses the next
      single click however much later it comes. */
  lemma DoubleClickFlagOutlivesItsClick(c: Clicks, t: int, later: int, p: Position)
    requires c.pending == [] && !c.isDoubleClick
    requires t - c.lastClickTime > DoubleClickMs && later >= 1000
    ensures var r1 := LeftRelease(Press(c, t, p), t + 200, p, Ok({}));
      var r2 := LeftRelease(Press(r1.0, t + 300, p), t + 350, p, Ok({}));
      var r3 := LeftRelease(Press(r2.0, t + later, p), t + later + 50, p, Ok({}));
      && r1.1 == [] && r2.1 == [DoubleClick(p.x, p.y)] && r3.1 == []
      && r3.0.pending == [p] && Deferred(r3.0).1 == []
  {
    var r1 := LeftRelease(Press(c, t, p), t + 200, p, Ok({}));
    assert r1.0.lastClickTime == t + 200 && r1.0.pending == [] && !r1.0.isDoubleClick;
    var r2 := LeftRelease(Press(r1.0, t + 300, p), t + 350, p, Ok({}));
    assert r2.0.lastClickTime == t + 350 && r2.0.pending == [] && r2.0.isDoubleClick;
  }
}
