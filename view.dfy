/** The registry operations (src/view.rs). Each operation is specified twice over: a
    function on `RegState` values says what it returns and what the registry holds
    afterwards, and a method does the same work on the `Registry` object and its
    `Polygon` objects, with an `ensures` that ties the two together. */
module View {
  import opened Errors
  import opened Utils
  import opened Polygons
  import opened Statics

  /** Key `k` holds the same reservation and the same polygon in `s` and `t`. */
  predicate SameEntry(s: RegState, t: RegState, k: string)
  {
    && (k in s.ids <==> k in t.ids)
    && (k in s.polys <==> k in t.polys)
    && (k in s.polys ==> s.polys[k] == t.polys[k])
  }

  /** The ids a list names. */
  function Listed(l: seq<string>): set<string>
  {
    set k | k in l
  }

  /** A default polygon for each listed id. */
  function Defaults(ids: seq<string>): map<string, PolygonState>
  {
    map k | k in ids :: DefaultState(k)
  }

  /** `register`: a reserved id is refused; otherwise the id is reserved and mapped to a
      default polygon. */
  function RegisterSpec(s: RegState, id: string): (r: (Result<()>, RegState))
    ensures r.0 == Err(NotInitialized) <==> !s.initialized
    ensures r.0 == Err(PolygonExists(id)) <==> s.initialized && id in s.ids
    ensures r.0.Err? ==> r.1 == s
    ensures r.0.Ok? ==> id in r.1.ids && id in r.1.polys && r.1.polys[id] == DefaultState(id)
    ensures r.0.Ok? ==> r.1.initialized && forall k :: k != id ==> SameEntry(s, r.1, k)
    ensures Consistent(s) ==> Consistent(r.1)
  {
    if !s.initialized then (Err(NotInitialized), s)
    else if id in s.ids then (Err(PolygonExists(id)), s)
    else (Ok(()), RegState(true, s.ids + {id}, s.polys[id := DefaultState(id)]))
  }

  /** `register_all`: every listed id is reserved and mapped to a fresh default polygon,
      overwriting any polygon it had; already reserved ids are not an error. */
  function RegisterAllSpec(s: RegState, ids: seq<string>): (r: (Result<()>, RegState))
    ensures r.0.Err? <==> !s.initialized
    ensures r.0.Err? ==> r.0.error == NotInitialized && r.1 == s
    ensures r.0.Ok? ==> r.1.initialized
    ensures r.0.Ok? ==> forall i :: 0 <= i < |ids| ==>
      ids[i] in r.1.ids && ids[i] in r.1.polys && r.1.polys[ids[i]] == DefaultState(ids[i])
    ensures r.0.Ok? ==> forall k :: k !in ids ==> SameEntry(s, r.1, k)
    ensures Consistent(s) ==> Consistent(r.1)
  {
    if !s.initialized then (Err(NotInitialized), s)
    else (Ok(()), RegState(true, s.ids + Listed(ids), s.polys + Defaults(ids)))
  }

  /** `remove`: an id that is not reserved is refused; otherwise it leaves both
      collections. */
  function RemoveSpec(s: RegState, id: string): (r: (Result<()>, RegState))
    ensures r.0 == Err(NotInitialized) <==> !s.initialized
    ensures r.0 == Err(PolygonNotFound(id)) <==> s.initialized && id !in s.ids
    ensures r.0.Err? ==> r.1 == s
    ensures r.0.Ok? ==> r.1.initialized && id !in r.1.ids && id !in r.1.polys
    ensures r.0.Ok? ==> forall k :: k != id ==> SameEntry(s, r.1, k)
    ensures Consistent(s) ==> Consistent(r.1)
  {
    if !s.initialized then (Err(NotInitialized), s)
    else if id !in s.ids then (Err(PolygonNotFound(id)), s)
    else (Ok(()), RegState(true, s.ids - {id}, s.polys - {id}))
  }

  /** `clear`: both collections end empty. */
  function ClearSpec(s: RegState): (r: (Result<()>, RegState))
    ensures r.0.Ok? <==> s.initialized
    ensures r.0.Err? ==> r.0.error == NotInitialized && r.1 == s
    ensures r.0.Ok? ==> r.1.initialized && r.1.ids == {} && r.1.polys == map[]
    ensures CursorInIds(r.1) == {} || r.1 == s
  {
    if !s.initialized then (Err(NotInitialized), s)
    else (Ok(()), RegState(true, {}, map[]))
  }

  /** `update`: fewer than three points are refused before anything else is looked at;
      then an id the map does not hold is refused; otherwise only that polygon's points
      change. */
  function UpdateSpec(s: RegState, id: string, ps: seq<Point>): (r: (Result<()>, RegState))
    ensures r.0 == Err(PointsNotEnough(|ps|)) <==> |ps| < 3
    ensures r.0 == Err(NotInitialized) <==> |ps| >= 3 && !s.initialized
    ensures r.0 == Err(PolygonNotFound(id)) <==> |ps| >= 3 && s.initialized && id !in s.polys
    ensures r.0.Err? ==> r.1 == s
    ensures r.0.Ok? ==> id in s.polys && id in r.1.polys && r.1.polys[id] == s.polys[id].(points := ps)
    ensures r.0.Ok? ==> r.1.initialized && forall k :: k != id ==> SameEntry(s, r.1, k)
    ensures r.0.Ok? ==> r.1.ids == s.ids
    ensures Consistent(s) ==> Consistent(r.1)
  {
    if |ps| < 3 then (Err(PointsNotEnough(|ps|)), s)
    else if !s.initialized then (Err(NotInitialized), s)
    else if id !in s.polys then (Err(PolygonNotFound(id)), s)
    else (Ok(()), s.(polys := s.polys[id := s.polys[id].(points := ps)]))
  }

  /** `show` (`on` true) and `hide` (`on` false): an id the map does not hold is refused;
      otherwise only that polygon's `display` changes. */
  function SetDisplaySpec(s: RegState, id: string, on: bool): (r: (Result<()>, RegState))
    ensures r.0 == Err(NotInitialized) <==> !s.initialized
    ensures r.0 == Err(PolygonNotFound(id)) <==> s.initialized && id !in s.polys
    ensures r.0.Err? ==> r.1 == s
    ensures r.0.Ok? ==> id in s.polys && id in r.1.polys && r.1.polys[id] == s.polys[id].(display := on)
    ensures r.0.Ok? ==> r.1.initialized && r.1.ids == s.ids && forall k :: k != id ==> SameEntry(s, r.1, k)
    ensures Consistent(s) ==> Consistent(r.1)
  {
    if !s.initialized then (Err(NotInitialized), s)
    else if id !in s.polys then (Err(PolygonNotFound(id)), s)
    else (Ok(()), s.(polys := s.polys[id := s.polys[id].(display := on)]))
  }

  /** The value `pos_contained` computes: hidden polygons contain nothing, visible ones
      contain what the ray-casting test says. */
  predicate Contained(p: PolygonState, pt: Point)
  {
    p.display && InPolygon(p.points, pt)
  }

  // ---------------------------------------------------------------------------------------
  // The operations on the registry object.

  method Register(reg: Registry, id: string) returns (r: Result<()>)
    requires reg.Valid()
    modifies reg`ids, reg`polys
    ensures reg.Valid()
    ensures (r, reg.Abs()) == RegisterSpec(old(reg.Abs()), id)
  {
    if !reg.initialized {
      return Err(NotInitialized);
    }
    if id in reg.ids {
      return Err(PolygonExists(id));
    }
    reg.ids := reg.ids + {id};

    var polygon := new Polygon.Default(id);

    reg.polys := reg.polys[id := polygon];
    r := Ok(());
    assert States(reg.polys) == old(States(reg.polys))[id := DefaultState(id)];
  }

  method RegisterAll(reg: Registry, idList: seq<string>) returns (r: Result<()>)
    requires reg.Valid()
    modifies reg`ids, reg`polys
    ensures reg.Valid()
    ensures (r, reg.Abs()) == RegisterAllSpec(old(reg.Abs()), idList)
  {
    if !reg.initialized {
      return Err(NotInitialized);
    }
    InsertDefaults(reg, idList);
    ReserveAll(reg, idList);
    r := Ok(());
  }

  /** The first loop of `register_all`: map each listed id to a fresh default polygon,
      in list order, so a later duplicate replaces an earlier one. */
  method InsertDefaults(reg: Registry, idList: seq<string>)
    requires Live(reg.polys)
    modifies reg`polys
    ensures reg.polys.Keys == old(reg.polys.Keys) + Listed(idList)
    ensures Live(reg.polys)
    ensures States(reg.polys) == old(States(reg.polys)) + Defaults(idList)
  {
    ghost var before := States(reg.polys);
    for i := 0 to |idList|
      invariant Live(reg.polys)
      invariant StatesAre(reg.polys, before + Defaults(idList[..i]))
    {
      ghost var m := reg.polys;
      var polygon := new Polygon.Default(idList[i]);
      reg.polys := reg.polys[idList[i] := polygon];
      LiveAfterInsert(m, idList[i], polygon);
      StatesAfterInsert(m, before + Defaults(idList[..i]), idList[i], polygon);
      DefaultsSnoc(idList, i);
      UnionUpdate(before, Defaults(idList[..i]), idList[i], DefaultState(idList[i]));
    }
    assert idList[..|idList|] == idList;
    assert States(reg.polys).Keys == reg.polys.Keys;
  }

  /** The second loop of `register_all`: reserve every listed id. */
  method ReserveAll(reg: Registry, idList: seq<string>)
    modifies reg`ids
    ensures reg.ids == old(reg.ids) + Listed(idList)
  {
    for i := 0 to |idList|
      invariant reg.ids == old(reg.ids) + Listed(idList[..i])
    {
      reg.ids := reg.ids + {idList[i]};
      DefaultsSnoc(idList, i);
    }
    assert idList[..|idList|] == idList;
  }

  /** Every polygon of `m` is stored under its own id and has not been destroyed. */
  ghost predicate Live(m: map<string, Polygon>)
    reads m.Values
  {
    forall k :: k in m ==> m[k].id == k && !m[k].destroyed
  }

  lemma LiveAfterInsert(m: map<string, Polygon>, k: string, p: Polygon)
    requires Live(m) && p.id == k && !p.destroyed
    ensures Live(m[k := p])
  {
  }

  /** The polygons of `m` hold the states `s`. */
  ghost predicate StatesAre(m: map<string, Polygon>, s: map<string, PolygonState>)
    reads m.Values
  {
    States(m) == s
  }

  lemma StatesAfterInsert(m: map<string, Polygon>, s: map<string, PolygonState>, k: string, p: Polygon)
    requires StatesAre(m, s)
    ensures StatesAre(m[k := p], s[k := p.State()])
  {
  }

  lemma UnionUpdate<K, V>(a: map<K, V>, b: map<K, V>, k: K, v: V)
    ensures (a + b)[k := v] == a + b[k := v]
  {
  }

  lemma DefaultsSnoc(l: seq<string>, i: nat)
    requires i < |l|
    ensures Listed(l[..i + 1]) == Listed(l[..i]) + {l[i]}
    ensures Defaults(l[..i + 1]) == Defaults(l[..i])[l[i] := DefaultState(l[i])]
  {
    assert l[..i + 1] == l[..i] + [l[i]];
  }

  method Remove(reg: Registry, id: string) returns (r: Result<()>)
    requires reg.Valid()
    modifies reg`ids, reg`polys, reg.polys.Values
    ensures reg.Valid()
    ensures (r, reg.Abs()) == RemoveSpec(old(reg.Abs()), id)
    ensures r.Ok? ==> old(reg.polys[id]).destroyed
  {
    if !reg.initialized {
      return Err(NotInitialized);
    }
    if id !in reg.ids {
      return Err(PolygonNotFound(id));
    }

    if id in reg.polys {
      var polygon := reg.polys[id];
      reg.polys := reg.polys - {id};
      polygon.Destroy();
    }

    reg.ids := reg.ids - {id};
    r := Ok(());
    assert States(reg.polys) == old(States(reg.polys)) - {id};
  }

  method Clear(reg: Registry) returns (r: Result<()>)
    requires reg.Valid()
    modifies reg`ids, reg`polys, reg.polys.Values
    ensures reg.Valid()
    ensures (r, reg.Abs()) == ClearSpec(old(reg.Abs()))
    ensures r.Ok? ==> forall p :: p in old(reg.polys.Values) ==> p.destroyed
  {
    if !reg.initialized {
      return Err(NotInitialized);
    }

    var rest := reg.polys.Keys;
    while rest != {}
      invariant rest <= reg.polys.Keys
      invariant reg.polys == old(reg.polys)
      invariant forall k :: k in reg.polys ==> reg.polys[k].id == k
      invariant forall k :: k in reg.polys ==> (reg.polys[k].destroyed <==> k !in rest)
      decreases rest
    {
      var k :| k in rest;
      reg.polys[k].Destroy();
      rest := rest - {k};
    }

    reg.polys := map[];

    reg.ids := {};
    r := Ok(());
  }

  method Update(reg: Registry, id: string, points: seq<Point>) returns (r: Result<()>)
    requires reg.Valid()
    modifies reg.polys.Values
    ensures reg.Valid()
    ensures (r, reg.Abs()) == UpdateSpec(old(reg.Abs()), id, points)
  {
    if |points| < 3 {
      return Err(PointsNotEnough(|points|));
    }
    if !reg.initialized {
      return Err(NotInitialized);
    }

    if id in reg.polys {
      reg.polys[id].SetPoints(points);
      r := Ok(());
      assert States(reg.polys) == old(States(reg.polys))[id := old(reg.polys[id].State()).(points := points)];
    } else {
      r := Err(PolygonNotFound(id));
    }
  }

  method Hide(reg: Registry, id: string) returns (r: Result<()>)
    requires reg.Valid()
    modifies reg.polys.Values
    ensures reg.Valid()
    ensures (r, reg.Abs()) == SetDisplaySpec(old(reg.Abs()), id, false)
  {
    if !reg.initialized {
      return Err(NotInitialized);
    }

    if id in reg.polys {
      reg.polys[id].Hide();
      r := Ok(());
      assert States(reg.polys) == old(States(reg.polys))[id := old(reg.polys[id].State()).(display := false)];
    } else {
      r := Err(PolygonNotFound(id));
    }
  }

  method Show(reg: Registry, id: string) returns (r: Result<()>)
    requires reg.Valid()
    modifies reg.polys.Values
    ensures reg.Valid()
    ensures (r, reg.Abs()) == SetDisplaySpec(old(reg.Abs()), id, true)
  {
    if !reg.initialized {
      return Err(NotInitialized);
    }

    if id in reg.polys {
      reg.polys[id].Show();
      r := Ok(());
      assert States(reg.polys) == old(States(reg.polys))[id := old(reg.polys[id].State()).(display := true)];
    } else {
      r := Err(PolygonNotFound(id));
    }
  }

  /** `cursor_in`: the ids whose polygon has its cursor-in flag set, each once, in the
      map's iteration order (which the source leaves unspecified). */
  method CursorIn(reg: Registry) returns (r: Result<seq<string>>)
    requires reg.Valid()
    ensures r.Err? <==> !reg.initialized
    ensures r.Err? ==> r.error == NotInitialized
    ensures r.Ok? ==> forall k :: k in r.value <==> k in CursorInIds(reg.Abs())
    ensures r.Ok? ==> forall i, j :: 0 <= i < j < |r.value| ==> r.value[i] != r.value[j]
  {
    var v := [];
    if !reg.initialized {
      return Err(NotInitialized);
    }

    var rest := reg.polys.Keys;
    while rest != {}
      invariant rest <= reg.polys.Keys
      invariant forall k :: k in v <==> k in reg.polys && k !in rest && reg.polys[k].cursorIn
      invariant forall i, j :: 0 <= i < j < |v| ==> v[i] != v[j]
      decreases rest
    {
      var id :| id in rest;
      if reg.polys[id].CursorIn() {
        v := v + [id];
      }
      rest := rest - {id};
    }
    return Ok(v);
  }

  /** `pos_contained`. */
  method PosContained(polygon: Polygon, x: real, y: real) returns (b: bool)
    requires !polygon.destroyed
    ensures b == Contained(polygon.State(), (x, y))
  {
    if polygon.Display() {
      b := IsPointInPolygon(polygon.Points(), (x, y));
    } else {
      b := false;
    }
  }

  // ---------------------------------------------------------------------------------------
  // Properties that relate several operations.

  /** Registering an id twice: the second call fails and leaves the polygon the first
      call created untouched. */
  lemma RegisterTwice(s: RegState, id: string)
    requires Consistent(s) && s.initialized && id !in s.ids
    ensures var t := RegisterSpec(s, id).1;
      RegisterSpec(t, id) == (Err(PolygonExists(id)), t) && t.polys[id] == DefaultState(id)
  {
  }

  /** After `remove`, the id is never reported under the cursor, and it can be registered
      again. */
  lemma RemoveThenRegister(s: RegState, id: string)
    requires Consistent(s) && s.initialized && id in s.ids
    ensures var t := RemoveSpec(s, id).1;
      id !in CursorInIds(t) && RegisterSpec(t, id).0 == Ok(())
  {
  }

  /** `register_all` twice with overlapping lists: no error, and every listed id ends with
      a default polygon, not the geometry it had after the first call. */
  lemma RegisterAllTwice(s: RegState, a: seq<string>, b: seq<string>, ps: seq<Point>)
    requires Consistent(s) && s.initialized
    requires |ps| >= 3 && |a| > 0
    ensures var t := RegisterAllSpec(s, a).1;
      var u := UpdateSpec(t, a[0], ps).1;
      var w := RegisterAllSpec(u, a + b);
      w.0 == Ok(()) && forall k :: k in a + b ==> k in w.1.polys && w.1.polys[k] == DefaultState(k)
  {
    var w := RegisterAllSpec(UpdateSpec(RegisterAllSpec(s, a).1, a[0], ps).1, a + b);
    forall k | k in a + b
      ensures k in w.1.polys && w.1.polys[k] == DefaultState(k)
    {
      var i :| 0 <= i < |a + b| && (a + b)[i] == k;
    }
  }

  /** After `clear`, no id is under the cursor and updating any id fails with "not found". */
  lemma ClearThenUpdate(s: RegState, id: string, ps: seq<Point>)
    requires s.initialized && |ps| >= 3
    ensures var t := ClearSpec(s).1;
      CursorInIds(t) == {} && UpdateSpec(t, id, ps).0 == Err(PolygonNotFound(id))
  {
  }
}
