/** One named region (src/polygon.rs). The source keeps the vertex buffer behind an
    atomic raw pointer and the two flags in atomic booleans; here they are plain fields
    that the methods overwrite. `destroyed` records that `distroy` has released the
    buffer and nulled the pointer, after which reading or replacing the vertices
    dereferences null. */
module Polygons {
  import opened Utils

  /** The value of a polygon at one moment: what a reader of its fields sees. */
  datatype PolygonState = PolygonState(id: string, points: seq<Point>, display: bool, cursorIn: bool)

  /** The placeholder geometry of a freshly registered polygon: three points at the origin. */
  const DefaultPoints: seq<Point> := [(0.0, 0.0), (0.0, 0.0), (0.0, 0.0)]

  /** The state of `Polygon::default(id)`. */
  function DefaultState(id: string): (s: PolygonState)
    ensures s.id == id && |s.points| == 3 && !s.display && !s.cursorIn
    ensures forall i :: 0 <= i < |s.points| ==> s.points[i] == (0.0, 0.0)
  {
    PolygonState(id, DefaultPoints, false, false)
  }

  /** The default polygon is never hit: its three vertices share one ordinate. */
  lemma DefaultPolygonNeverHit(p: Point)
    ensures !InPolygon(DefaultPoints, p)
  {
    FlatPolygonOutside(DefaultPoints, p);
  }

  class Polygon {
    const id: string
    var points: seq<Point>
    var display: bool
    var cursorIn: bool
    ghost var destroyed: bool

    function State(): PolygonState
      reads this
    {
      PolygonState(id, points, display, cursorIn)
    }

    /** `Polygon::new(id, points)`: the points in order, hidden, cursor outside. */
    constructor (id: string, points: seq<Point>)
      ensures State() == PolygonState(id, points, false, false)
      ensures !destroyed
    {
      this.id := id;
      this.points := points;
      this.display := false;
      this.cursorIn := false;
      this.destroyed := false;
    }

    /** `Polygon::default(id)`. */
    constructor Default(id: string)
      ensures State() == DefaultState(id)
      ensures !destroyed
    {
      this.id := id;
      this.points := DefaultPoints;
      this.display := false;
      this.cursorIn := false;
      this.destroyed := false;
    }

    /** `set_points`: replace the whole vertex list; it frees the previous buffer, so the
        polygon must not have been destroyed. */
    method SetPoints(ps: seq<Point>)
      requires !destroyed
      modifies this`points
      ensures points == ps
    {
      points := ps;
    }

    /** `points()`: a copy of the current vertex list; it unwraps the buffer pointer, so the
        polygon must not have been destroyed. */
    function Points(): (ps: seq<Point>)
      reads this
      requires !destroyed
      ensures ps == State().points
    {
      points
    }

    /** `hide`. */
    method Hide()
      modifies this`display
      ensures !display
    {
      display := false;
    }

    /** `show`. */
    method Show()
      modifies this`display
      ensures display
    {
      display := true;
    }

    /** `display()`. */
    function Display(): (b: bool)
      reads this
      ensures b == State().display
    {
      display
    }

    /** `set_cursor_in`. */
    method SetCursorIn(inPolygon: bool)
      modifies this`cursorIn
      ensures cursorIn == inPolygon
    {
      cursorIn := inPolygon;
    }

    /** `cursor_in()`. */
    function CursorIn(): (b: bool)
      reads this
      ensures b == State().cursorIn
    {
      cursorIn
    }

    /** `distroy`: release the vertex buffer and null the pointer. A second call would
        free the buffer twice, so it requires a live polygon. */
    method Destroy()
      requires !destroyed
      modifies this`points, this`destroyed
      ensures destroyed && points == []
    {
      points := [];
      destroyed := true;
    }
  }

  /** A client of the methods above: each setter changes its own field and no other,
      `show` and `hide` are idempotent, and `id` never changes. */
  method PolygonSetterFrames(id: string, ps: seq<Point>) returns (s: PolygonState)
    ensures s == PolygonState(id, ps, false, true)
  {
    var p := new Polygon(id, DefaultPoints);
    p.Show();
    p.Show();
    assert p.State() == PolygonState(id, DefaultPoints, true, false);
    p.SetPoints(ps);
    assert p.State() == PolygonState(id, ps, true, false);
    p.Hide();
    p.Hide();
    p.SetCursorIn(true);
    s := p.State();
  }
}
