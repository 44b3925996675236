/** The process-wide state (src/statics.rs): the reserved-id set, the id-to-polygon map
    and the physical width. The two collections live in `OnceLock` cells that `init`
    fills once; before that every registry operation that looks them up fails. Here
    the pair of cells is one `initialized` flag, since `init` fills both together. */
module Statics {
  import opened Polygons

  /** The registry as a value: what its collections and polygons hold. */
  datatype RegState = RegState(initialized: bool, ids: set<string>, polys: map<string, PolygonState>)

  /** The registry's invariant: nothing is stored before `init`, the reserved ids are the
      map's keys, and each polygon is stored under its own id. */
  predicate Consistent(s: RegState)
  {
    && (!s.initialized ==> s.ids == {} && s.polys == map[])
    && s.ids == s.polys.Keys
    && forall k :: k in s.polys ==> s.polys[k].id == k
  }

  /** The ids whose polygon has its cursor-in flag set. */
  function CursorInIds(s: RegState): set<string>
  {
    set k | k in s.polys && s.polys[k].cursorIn
  }

  /** What the polygons of a map hold at this moment, key by key. */
  ghost function States(m: map<string, Polygon>): map<string, PolygonState>
    reads m.Values
  {
    map k | k in m :: m[k].State()
  }

  class Registry {
    var initialized: bool
    var ids: set<string>
    var polys: map<string, Polygon>
    var physicalWidth: real

    ghost predicate Valid()
      reads this, polys.Values
    {
      && (!initialized ==> ids == {} && polys == map[])
      && ids == polys.Keys
      && forall k :: k in polys ==> polys[k].id == k && !polys[k].destroyed
    }

    ghost function Abs(): RegState
      reads this, polys.Values
    {
      RegState(initialized, ids, States(polys))
    }

    lemma AbsConsistent()
      requires Valid()
      ensures Consistent(Abs())
    {
    }

    /** The statics before `init`: both cells empty, the width `0.0`. */
    constructor ()
      ensures Valid() && Abs() == RegState(false, {}, map[])
      ensures physicalWidth == 0.0
    {
      initialized := false;
      ids := {};
      polys := map[];
      physicalWidth := 0.0;
    }

    /** `init(win)`: store the window's outer width, then fill both cells with empty
        collections. The width is stored first, so a second call still overwrites it
        before the `OnceLock::set(...).unwrap()` on a filled cell panics; `ok` is false
        for that panic. */
    method Init(outerWidth: nat) returns (ok: bool)
      requires Valid()
      modifies this
      ensures Valid()
      ensures physicalWidth == outerWidth as real
      ensures ok == !old(initialized)
      ensures ok ==> Abs() == RegState(true, {}, map[])
      ensures !ok ==> Abs() == old(Abs())
    {
      physicalWidth := outerWidth as real;
      if initialized {
        return false;
      }
      initialized := true;
      ids := {};
      polys := map[];
      return true;
    }
  }
}
