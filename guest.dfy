/** The front-end subscription table (guest-js/index.ts:52-132): the seven event names
    a page may subscribe to, one callback list per name, `on` and `off`, and the topic
    listeners that call a list's callbacks when the back end publishes an event.

    A callback is a function value compared by reference (`!==`); here it is a number
    that names it. */
module GuestApi {
  import opened Models
  import Ev = Events

  type Callback = nat

  /** `Events`: the subscribable names. `MouseEnter` and `MouseLeave` are not among them. */
  const Events: seq<string> := ["LeftClick", "DoubleClick", "RightClick", "Drag", "MouseMove", "Wheel", "Error"]

  /** The seven names are distinct, and neither enter nor leave can be subscribed to. */
  lemma EventsFacts()
    ensures |Events| == 7
    ensures forall i, j :: 0 <= i < j < |Events| ==> Events[i] != Events[j]
    ensures "MouseEnter" !in Events && "MouseLeave" !in Events
  {
  }

  /** The result of `on` or `off`: it returns, or it throws an `Error` with a message. */
  datatype Outcome = Done | Thrown(message: string)

  /** `Array.prototype.join`. */
  function Join(l: seq<string>, sep: string): string
  {
    if |l| == 0 then ""
    else if |l| == 1 then l[0]
    else l[0] + sep + Join(l[1..], sep)
  }

  /** The message `on` and `off` throw for a name outside `Events`. */
  function UnknownEventMessage(evt: string): string
  {
    "Event [" + evt + "] does not exist. Available event: " + Join(Events, ", ")
  }

  /** The message names the refused event between its brackets and then lists the seven
      names, the first of them right after the colon. */
  lemma UnknownEventMessageNamesEvent(evt: string)
    ensures var m := UnknownEventMessage(evt);
      var tail := "] does not exist. Available event: ";
      && m[..7] == "Event [" && m[7..7 + |evt|] == evt
      && m[7 + |evt|..7 + |evt| + |tail|] == tail
      && m[7 + |evt| + |tail|..][..|Events[0]|] == Events[0]
  {
    var tail := "] does not exist. Available event: ";
    var list := Join(Events, ", ");
    assert list == Events[0] + ", " + Join(Events[1..], ", ");
    var m := UnknownEventMessage(evt);
    assert m == "Event [" + evt + tail + list;
    assert m[7 + |evt| + |tail|..] == list;
  }

  /** `filter((c) => c !== callback)`. */
  function Without(l: seq<Callback>, cb: Callback): (r: seq<Callback>)
    ensures |r| <= |l|
    ensures forall x :: x in r <==> x in l && x != cb
  {
    if l == [] then []
    else if l[0] == cb then Without(l[1..], cb)
    else [l[0]] + Without(l[1..], cb)
  }

  /** Filtering keeps the order of what it keeps: it distributes over concatenation. */
  lemma {:induction false} WithoutConcat(a: seq<Callback>, b: seq<Callback>, cb: Callback)
    ensures Without(a + b, cb) == Without(a, cb) + Without(b, cb)
  {
    if a != [] {
      assert (a + b)[1..] == a[1..] + b;
      WithoutConcat(a[1..], b, cb);
    } else {
      assert a + b == b;
    }
  }

  /** A list without `cb` is left as it is. */
  lemma {:induction false} WithoutAbsent(l: seq<Callback>, cb: Callback)
    requires cb !in l
    ensures Without(l, cb) == l
  {
    if l != [] {
      WithoutAbsent(l[1..], cb);
    }
  }

  /** `off` twice is `off` once. */
  lemma WithoutIdempotent(l: seq<Callback>, cb: Callback)
    ensures Without(Without(l, cb), cb) == Without(l, cb)
  {
    WithoutAbsent(Without(l, cb), cb);
  }

  /** `on` then `off` of a callback not yet in the list gives the list back. */
  lemma OnThenOff(l: seq<Callback>, cb: Callback)
    requires cb !in l
    ensures Without(l + [cb], cb) == l
  {
    WithoutConcat(l, [cb], cb);
    WithoutAbsent(l, cb);
    assert Without([cb], cb) == [];
  }

  /** The listener each published topic reaches: the seven `listen` calls. */
  function ListenerFor(topic: string): (r: Option<string>)
    ensures r.Some? ==> r.value in Events
  {
    if topic == "POLYGON_LEFT_CLICK" then Some("LeftClick")
    else if topic == "POLYGON_DOUBLE_CLICK" then Some("DoubleClick")
    else if topic == "POLYGON_RIGHT_CLICK" then Some("RightClick")
    else if topic == "POLYGON_DRAG" then Some("Drag")
    else if topic == "POLYGON_WHEEL" then Some("Wheel")
    else if topic == "POLYGON_MOUSE_MOVE" then Some("MouseMove")
    else if topic == "POLYGON_ERROR" then Some("Error")
    else None
  }

  /** Every event the back end publishes reaches a listener except `MouseEnter` and
      `MouseLeave`, which no page callback ever sees. */
  lemma PublishedTopicsReachListeners(e: Ev.Event)
    ensures ListenerFor(Ev.Topic(e)).None? <==> e.MouseEnter? || e.MouseLeave?
  {
  }

  class EventCallbacks {
    var lists: map<string, seq<Callback>>

    ghost predicate Valid()
      reads this
    {
      forall e :: e in lists <==> e in Events
    }

    /** The table as the module creates it: an empty list per name. */
    constructor ()
      ensures Valid()
      ensures forall e :: e in lists ==> lists[e] == []
    {
      lists := map e | e in Events :: [];
    }

    /** `on(evt, callback)`: refuse an unknown name; otherwise append the callback to that
        name's list, even if it is there already. */
    method On(evt: string, cb: Callback) returns (o: Outcome)
      requires Valid()
      modifies this
      ensures Valid()
      ensures evt !in Events ==> o == Thrown(UnknownEventMessage(evt)) && lists == old(lists)
      ensures evt in Events ==> o == Done && lists == old(lists)[evt := old(lists)[evt] + [cb]]
    {
      if evt !in Events {
        return Thrown(UnknownEventMessage(evt));
      }
      lists := lists[evt := lists[evt] + [cb]];
      o := Done;
    }

    /** `off(evt, callback)`: refuse an unknown name; otherwise drop every occurrence of
        the callback from that name's list. */
    method Off(evt: string, cb: Callback) returns (o: Outcome)
      requires Valid()
      modifies this
      ensures Valid()
      ensures evt !in Events ==> o == Thrown(UnknownEventMessage(evt)) && lists == old(lists)
      ensures evt in Events ==> o == Done && lists == old(lists)[evt := Without(old(lists)[evt], cb)]
    {
      if evt !in Events {
        return Thrown(UnknownEventMessage(evt));
      }
      lists := lists[evt := Without(lists[evt], cb)];
      o := Done;
    }

    /** The `listen` handler of `topic`: call each callback of its list with the payload,
        in list order. `called` is the sequence of calls made. */
    method Dispatch(topic: string) returns (called: seq<Callback>)
      requires Valid()
      ensures ListenerFor(topic).None? ==> called == []
      ensures ListenerFor(topic).Some? ==> called == lists[ListenerFor(topic).value]
    {
      called := [];
      var listener := ListenerFor(topic);
      if listener.None? {
        return;
      }
      var callbacks := lists[listener.value];
      for i := 0 to |callbacks|
        invariant called == callbacks[..i]
      {
        called := called + [callbacks[i]];
      }
      assert callbacks[..|callbacks|] == callbacks;
    }
  }
}
