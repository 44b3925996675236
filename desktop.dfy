/** The plugin facade (src/desktop.rs): each registry operation is forwarded to `view`,
    and an error is both returned and handed once, as an `Event::Error`, to the
    application's callback. `update` first scales the viewport points to physical space.

    The `Plugin` object also stands for the two pieces of the host it talks to: the
    application handle, whose topic emissions are logged in `published`, and the main
    window, whose pointer-passthrough flag is `ignoreCursorEvents`. The callback is
    opaque application code; here it is the log `delivered` of what it was given. */
module Desktop {
  import opened Errors
  import opened Utils
  import opened Statics
  import opened View
  import opened Events

  /** What the facade hands the callback after a registry call: the error, once, or nothing. */
  function Reported(r: Result<()>): (evs: seq<Event>)
    ensures r.Ok? <==> evs == []
    ensures r.Err? ==> evs == [Event.Error(r.error)]
  {
    if r.Err? then [Event.Error(r.error)] else []
  }

  /** The point conversion in `update`: every point scaled by `from_viewport`, in order. */
  function ConvertPoints(w: real, ps: seq<Point>): (r: seq<Point>)
    ensures |r| == |ps|
    ensures w != 0.0 ==> forall i :: 0 <= i < |ps| ==> r[i].0 / w == ps[i].0 && r[i].1 / w == ps[i].1
  {
    seq(|ps|, i requires 0 <= i < |ps| => FromViewport(w, ps[i]))
  }

  /** The inverse conversion, point by point. */
  function ViewportPoints(w: real, ps: seq<Point>): (r: seq<Point>)
    requires w > 0.0
    ensures |r| == |ps|
  {
    seq(|ps|, i requires 0 <= i < |ps| => Viewport(w, ps[i]))
  }

  /** Points inside the unit square come back unchanged after the facade's conversion. */
  lemma ConvertPointsRoundTrip(w: real, ps: seq<Point>)
    requires w > 0.0
    requires forall i :: 0 <= i < |ps| ==> 0.0 <= ps[i].0 <= 1.0 && 0.0 <= ps[i].1 <= 1.0
    ensures ViewportPoints(w, ConvertPoints(w, ps)) == ps
  {
    var back := ViewportPoints(w, ConvertPoints(w, ps));
    forall i | 0 <= i < |ps|
      ensures back[i] == ps[i]
    {
      ViewportRoundTrip(w, ps[i]);
    }
  }

  /** The conversion never changes how many points there are, so the three-point minimum
      of `view::update` applies to what the caller passed. */
  lemma ConvertKeepsMinimum(w: real, reg: RegState, id: string, ps: seq<Point>)
    ensures UpdateSpec(reg, id, ConvertPoints(w, ps)).0 == Err(PointsNotEnough(|ps|)) <==> |ps| < 3
  {
  }

  class Plugin {
    const reg: Registry
    var ignoreCursorEvents: bool
    var published: seq<Event>
    var delivered: seq<Event>

    /** The plugin as `init` builds it: nothing emitted, the window still taking input. */
    constructor (reg: Registry)
      ensures this.reg == reg
      ensures !ignoreCursorEvents && published == [] && delivered == []
    {
      this.reg := reg;
      ignoreCursorEvents := false;
      published := [];
      delivered := [];
    }

    /** `Polygon::emit`: call the application's callback with the event. */
    method Emit(e: Event)
      modifies this`delivered
      ensures delivered == old(delivered) + [e]
    {
      delivered := delivered + [e];
    }

    /** `AppHandle::emit`: publish the event on its topic to the front end. */
    method Publish(e: Event)
      modifies this`published
      ensures published == old(published) + [e]
    {
      published := published + [e];
    }

    /** `set_ignore_cursor_events` on the main window. */
    method SetIgnoreCursorEvents(ignore: bool)
      modifies this`ignoreCursorEvents
      ensures ignoreCursorEvents == ignore
    {
      ignoreCursorEvents := ignore;
    }

    /** The error-emit-and-return pattern every facade method ends with. */
    method Report(r: Result<()>)
      modifies this`delivered
      ensures delivered == old(delivered) + Reported(r)
    {
      match r {
        case Ok(_) =>
        case Err(e) =>
          Emit(Event.Error(e));
      }
    }

    method Register(id: string) returns (r: Result<()>)
      requires reg.Valid()
      modifies reg`ids, reg`polys, this`delivered
      ensures reg.Valid()
      ensures (r, reg.Abs()) == RegisterSpec(old(reg.Abs()), id)
      ensures delivered == old(delivered) + Reported(r)
    {
      r := View.Register(reg, id);
      Report(r);
    }

    method RegisterAll(ids: seq<string>) returns (r: Result<()>)
      requires reg.Valid()
      modifies reg`ids, reg`polys, this`delivered
      ensures reg.Valid()
      ensures (r, reg.Abs()) == RegisterAllSpec(old(reg.Abs()), ids)
      ensures delivered == old(delivered) + Reported(r)
    {
      r := View.RegisterAll(reg, ids);
      Report(r);
    }

    method Remove(id: string) returns (r: Result<()>)
      requires reg.Valid()
      modifies reg`ids, reg`polys, reg.polys.Values, this`delivered
      ensures reg.Valid()
      ensures (r, reg.Abs()) == RemoveSpec(old(reg.Abs()), id)
      ensures delivered == old(delivered) + Reported(r)
    {
      r := View.Remove(reg, id);
      Report(r);
    }

    method Show(id: string) returns (r: Result<()>)
      requires reg.Valid()
      modifies reg.polys.Values, this`delivered
      ensures reg.Valid()
      ensures (r, reg.Abs()) == SetDisplaySpec(old(reg.Abs()), id, true)
      ensures delivered == old(delivered) + Reported(r)
    {
      r := View.Show(reg, id);
      Report(r);
    }

    /** `hide` makes the window pass the pointer through before it looks the id up, so
        the window ignores the pointer even when the id is unknown. */
    method Hide(id: string) returns (r: Result<()>)
      requires reg.Valid()
      modifies reg.polys.Values, this`delivered, this`ignoreCursorEvents
      ensures reg.Valid()
      ensures ignoreCursorEvents
      ensures (r, reg.Abs()) == SetDisplaySpec(old(reg.Abs()), id, false)
      ensures delivered == old(delivered) + Reported(r)
    {
      SetIgnoreCursorEvents(true);
      r := View.Hide(reg, id);
      Report(r);
    }

    method Update(id: string, points: seq<Point>) returns (r: Result<()>)
      requires reg.Valid()
      modifies reg.polys.Values, this`delivered
      ensures reg.Valid()
      ensures (r, reg.Abs()) == UpdateSpec(old(reg.Abs()), id, ConvertPoints(reg.physicalWidth, points))
      ensures delivered == old(delivered) + Reported(r)
    {
      var converted := ConvertPoints(reg.physicalWidth, points);
      r := View.Update(reg, id, converted);
      Report(r);
    }

    method Clear() returns (r: Result<()>)
      requires reg.Valid()
      modifies reg`ids, reg`polys, reg.polys.Values, this`delivered
      ensures reg.Valid()
      ensures (r, reg.Abs()) == ClearSpec(old(reg.Abs()))
      ensures delivered == old(delivered) + Reported(r)
    {
      r := View.Clear(reg);
      Report(r);
    }
  }
}
