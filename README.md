# tauri-plugin-polygon, modelled in Dafny

The plugin makes a transparent, always-on-top window click-through everywhere except
inside a set of registered polygons. Input outside every visible polygon reaches the
desktop, and the plugin turns it into gesture events for the application: left click,
double click, right click, drag, mouse move and wheel. Input inside a polygon reaches
the window itself.

The project models the plugin's core:

- `errors.dfy` (`Errors`): the six error kinds, the message each renders as, and the `From` conversions.
- `models.dfy` (`Models`): the `ok`/`err` command responses.
- `utils.dfy` (`Utils`): viewport/physical scaling by the screen width, with clamping on the way out. Also the ray-casting point-in-polygon test with its `1e-10` bias, as a loop proved against a crossing count.
- `polygon.dfy` (`Polygons`): the polygon object, with its id, vertex list, `display` flag and `cursor_in` flag.
- `statics.dfy` (`Statics`): the process-wide registry object. It holds the reserved-id set, the id-to-polygon map, the physical width and the one-time `init`. `RegState` is the registry's value.
- `view.dfy` (`View`): `register`, `register_all`, `remove`, `clear`, `update`, `show`, `hide`, `cursor_in` and `pos_contained`.
  - Each is a method on the registry object, tied by its `ensures` to a function on `RegState`.
  - That function's own contract states the error cases and the new registry.
- `events.dfy` (`Events`): the nine event kinds and their `POLYGON_*` topic names.
- `desktop.dfy` (`Desktop`), the facade:
  - Each registry call forwards to `View`. An error is returned and also handed once, as `Event::Error`, to the application's callback.
  - `update` scales the points first.
  - `hide` makes the window pass the pointer through before the lookup.
- `grab.dfy` (`Grab`): the input-hook handlers for left press, left release, right release, mouse move and wheel, plus the deferred single-click check.
  - Each handler is a method of the `Classifier` object.
  - Each method is tied to a function on the click history (`Clicks`) and the registry value. The function returns the new history and the events emitted.
- `guest.dfy` (`GuestApi`): the front-end subscription table of `guest-js/index.ts`. It has the seven subscribable names, `on`, `off`, and the topic listeners that call each list's callbacks in order.

The host is represented as follows:
- Published topic emissions are the log `Plugin.published`.
- The application callback is the log `Plugin.delivered`.
- The main window's pointer-passthrough state is `Plugin.ignoreCursorEvents`.
- Times are milliseconds on a monotonic clock, passed to the handlers as `now`.

## Model

| member | source | states |
|---|---|---|
| Errors.Decimal | src/error.rs:21-22 | the count in the `PointsNotEnough` message is a non-empty string of decimal digits |
| Errors.DecimalRoundTrip | src/error.rs:21-22 | reading the numeral back gives the count it was formatted from |
| Errors.PointsNotEnoughMessageCarriesCount | src/error.rs:21-22 | the message is "At least 3 points needed but got " + the count + "."; the count reads back from it |
| Errors.FirstChar | src/error.rs:13-26 | each message is non-empty and begins with the character given per kind |
| Errors.SuffixesDiffer | src/error.rs:17-20 | a "not found" message never equals an "already exists" message, whatever the ids |
| Errors.MessageInjective | src/error.rs:11-27 | two errors with the same message are the same error, so a message identifies its kind and payload |
| Errors.FromIoError | src/error.rs:29-33 | an I/O error becomes `PluginInitializationError`, whose message is the fixed prefix followed by the I/O error's text |
| Errors.FromPoisonError | src/error.rs:35-51 | a poisoned-lock error of any guard type becomes `LockError`, whose message is the fixed prefix followed by the poison error's text |
| Models.OkResponse | src/models.rs:15-20 | `ok()` is the `Ok` variant with `ok == true` and no error |
| Models.ErrResponse | src/models.rs:21-26 | `err(e)` is the `Err` variant with `ok == false` and `error == Some(message of e)` |
| Models.ErrResponseInjective | src/models.rs:15-26 | two error responses are equal exactly when their errors are; no error response equals the success response |
| Utils.FromViewport | src/utils.rs:12-16 | both coordinates are multiplied by the width, with no clamping: dividing the result by a non-zero width gives the input back |
| Utils.Clamp | src/utils.rs:20-35 | the clamp lies in [0,1], keeps a value already there, and sends a value below 0 to 0 and one above 1 to 1 |
| Utils.ToViewport | src/utils.rs:17-37 | for a positive width both results lie in [0,1], and each is the clamped quotient of its coordinate by the width |
| Utils.ViewportRoundTrip | src/utils.rs:12-37 | for a positive width, a point in the unit square survives `from_viewport` followed by `to_viewport` unchanged |
| Utils.EdgeCrosses | src/utils.rs:59-60 | an edge can count as crossed only when its end points have different ordinates, so the division is never by zero |
| Utils.IsPointInPolygon | src/utils.rs:44-67 | the loop's result is true exactly when the number of crossed edges is odd; an empty vertex list gives false |
| Utils.FlatPolygonNoCrossings | src/utils.rs:59-63 | an edge between vertices of equal ordinate is never crossed, so a polygon whose vertices share one ordinate has no crossings |
| Utils.FlatPolygonOutside | src/utils.rs:44-67 | such a polygon contains no point |
| Utils.UnitSquareExamples | src/utils.rs:44-67 | the unit square contains (0.5, 0.5) and does not contain (1.5, 0.5) |
| Polygons.DefaultState | src/polygon.rs:31-33 | the default polygon has the given id, exactly three points all at the origin, is hidden and has the cursor outside |
| Polygons.DefaultPolygonNeverHit | src/polygon.rs:31-33 | the default polygon contains no point |
| Polygons.Polygon.constructor | src/polygon.rs:19-30 | `new` keeps the id and the points in order, hidden, cursor outside |
| Polygons.Polygon.Default | src/polygon.rs:31-33 | `default(id)` is the default state |
| Polygons.Polygon.SetPoints | src/polygon.rs:37-49 | the points become exactly the given list; no other field changes; the polygon must not have been destroyed |
| Polygons.Polygon.Points | src/polygon.rs:50-60 | returns the stored points; it requires a polygon that has not been destroyed |
| Polygons.Polygon.Hide | src/polygon.rs:61-63 | `display` becomes false and no other field changes |
| Polygons.Polygon.Show | src/polygon.rs:64-66 | `display` becomes true and no other field changes |
| Polygons.Polygon.SetCursorIn | src/polygon.rs:67-69 | `cursor_in` becomes the given flag and no other field changes |
| Polygons.Polygon.CursorIn | src/polygon.rs:70-72 | returns the stored cursor flag |
| Polygons.Polygon.Display | src/polygon.rs:73-75 | returns the stored display flag |
| Polygons.Polygon.Destroy | src/polygon.rs:76-81 | the vertex buffer is released and the polygon is marked destroyed; a second call is excluded |
| Polygons.PolygonSetterFrames | src/polygon.rs:37-72 | setters change only their own field, `show` and `hide` are idempotent, and the id never changes |
| Statics.Registry.constructor | src/statics.rs:11-14 | before `init`: not initialised, no ids, no polygons, width 0.0 |
| Statics.Registry.Init | src/statics.rs:16-28 | The width becomes the window's outer width. A first call leaves both collections empty. A second call fails and leaves everything else as it was. |
| Statics.Registry.AbsConsistent | src/statics.rs:11-13 | the object invariant gives the value invariant: the ids are the map's keys, each polygon is stored under its own id, and nothing is stored before `init` |
| View.RegisterSpec | src/view.rs:6-22 | Fails with `NotInitialized` exactly before `init`, and with `PolygonExists(id)` exactly for a reserved id; an error changes nothing. On success the id is reserved and mapped to a default polygon, every other entry is unchanged, and consistency is kept. |
| View.Register | src/view.rs:6-22 | the registry object does what `RegisterSpec` says |
| View.RegisterAllSpec | src/view.rs:24-46 | Only `NotInitialized` is possible, never `PolygonExists`. On success every listed id is reserved and maps to a fresh default polygon, overwriting an earlier one. Unlisted entries are unchanged and consistency is kept. |
| View.RegisterAll | src/view.rs:24-46 | the registry object does what `RegisterAllSpec` says |
| View.InsertDefaults | src/view.rs:35-37 | the first loop maps every listed id to a fresh default polygon and keeps the other polygons |
| View.ReserveAll | src/view.rs:39-43 | the second loop adds every listed id to the reserved set |
| View.RemoveSpec | src/view.rs:48-66 | Fails with `NotInitialized` exactly before `init`, and with `PolygonNotFound(id)` exactly when the id is not reserved; an error changes nothing. On success the id leaves both collections, every other entry is unchanged, and consistency is kept. |
| View.Remove | src/view.rs:48-66 | the registry object does what `RemoveSpec` says, and the removed polygon is destroyed |
| View.ClearSpec | src/view.rs:68-84 | fails only before `init`, changing nothing; on success both collections are empty |
| View.Clear | src/view.rs:68-84 | the registry object does what `ClearSpec` says, and every polygon it held is destroyed |
| View.UpdateSpec | src/view.rs:86-102 | Fewer than three points give `PointsNotEnough(count)` before any other check. Then `NotInitialized` before `init`, and `PolygonNotFound` for an id not in the map; an error changes nothing. Otherwise only that polygon's points change. |
| View.Update | src/view.rs:86-102 | the registry object does what `UpdateSpec` says |
| View.SetDisplaySpec | src/view.rs:104-130 | `show`/`hide` fail with `NotInitialized` before `init` and with `PolygonNotFound` for an unknown id, changing nothing; otherwise only that polygon's `display` changes |
| View.Hide | src/view.rs:104-116 | the registry object does what `SetDisplaySpec` says with `display` false |
| View.Show | src/view.rs:118-130 | the registry object does what `SetDisplaySpec` says with `display` true |
| View.CursorIn | src/view.rs:132-145 | returns `NotInitialized` exactly before `init`; otherwise returns exactly the ids whose polygon has its cursor flag set, each once |
| View.PosContained | src/view.rs:147-153 | false for a hidden polygon; otherwise the point-in-polygon test on its points |
| View.RegisterTwice | src/view.rs:6-22 | a second `register` of the same id fails with `PolygonExists` and leaves the default polygon of the first |
| View.RemoveThenRegister | src/view.rs:48-66 | after `remove` the id is never under the cursor and can be registered again |
| View.RegisterAllTwice | src/view.rs:24-46 | A second `register_all` over overlapping ids succeeds. Every listed id then has a default polygon, even one whose points were updated in between. |
| View.ClearThenUpdate | src/view.rs:68-102 | after `clear` no id is under the cursor and `update` of any id fails with `PolygonNotFound` |
| Events.Topic | src/grab.rs:44-58 | every topic name starts with `POLYGON_` |
| Events.TopicsDistinct | src/grab.rs:44-58 | two events share a topic exactly when they are of the same kind: the nine kinds have nine distinct topics |
| Desktop.Reported | src/desktop.rs:61-67 | a success hands the callback nothing; an error hands it exactly one `Event::Error` carrying that same error |
| Desktop.ConvertPoints | src/desktop.rs:218-226 | the list passed to `view::update` has the same length and order, each point scaled by `from_viewport` |
| Desktop.ConvertPointsRoundTrip | src/desktop.rs:218-226 | for a positive width, points in the unit square come back unchanged when converted back |
| Desktop.ConvertKeepsMinimum | src/desktop.rs:218-226 | the three-point minimum of `update` applies to the caller's own count |
| Desktop.Plugin.constructor | src/desktop.rs:13-22 | a fresh plugin has emitted nothing and the window still takes input |
| Desktop.Plugin.Emit | src/desktop.rs:34-40 | the callback receives the event: it is appended to `delivered` |
| Desktop.Plugin.Publish | src/grab.rs:88-96 | the event is published on its topic: it is appended to `published` |
| Desktop.Plugin.SetIgnoreCursorEvents | src/desktop.rs:172-176 | the window's passthrough flag becomes the given value |
| Desktop.Plugin.Report | src/desktop.rs:61-67 | the callback receives what `Reported` says for the result |
| Desktop.Plugin.Register | src/desktop.rs:59-69 | returns the registry's result unchanged, the registry does what `RegisterSpec` says, and an error is delivered once |
| Desktop.Plugin.RegisterAll | src/desktop.rs:85-95 | as `register`, with `RegisterAllSpec`: already registered ids are no error |
| Desktop.Plugin.Remove | src/desktop.rs:117-127 | as `register`, with `RemoveSpec` |
| Desktop.Plugin.Show | src/desktop.rs:143-153 | as `register`, with `SetDisplaySpec` and `display` true |
| Desktop.Plugin.Hide | src/desktop.rs:169-186 | the window passes the pointer through afterwards even when the id is unknown; otherwise as `register`, with `SetDisplaySpec` and `display` false |
| Desktop.Plugin.Update | src/desktop.rs:218-234 | as `register`, with `UpdateSpec` on the converted points |
| Desktop.Plugin.Clear | src/desktop.rs:247-257 | as `register`, with `ClearSpec` |
| Grab.Classify | src/grab.rs:221-261 | The three release tests are pairwise exclusive. It is a pending click exactly when the press was shorter than 150 ms and the last click was more than 250 ms ago. A double click is a short press at the last click's position within 250 ms of it. A drag is a press of at least 150 ms released away from the press position. |
| Grab.Hits | src/grab.rs:198-204 | what `cursor_in()` gives a release handler: `NotInitialized` exactly before `init`, otherwise the ids under the cursor |
| Grab.Press | src/grab.rs:183-193 | a left press records its time and position and changes nothing else |
| Grab.LeftRelease | src/grab.rs:194-264 | At most one event, and the press is kept. A registry error emits that error and changes nothing. A release over a polygon emits nothing and keeps the history. Otherwise the last click becomes this release, and the gesture decides the outcome: <br>• pending click: queues a deferred click and emits nothing yet; <br>• double click: emits `DoubleClick` and sets the flag; <br>• drag: emits `Drag` from the press to here; <br>• no gesture: emits nothing. |
| Grab.Deferred | src/grab.rs:227-234 | the deferred check consumes the oldest pending click and clears the flag; it emits that `LeftClick` exactly when the flag was clear |
| Grab.RightRelease | src/grab.rs:265-281 | A registry error emits that error. Otherwise the release emits `RightClick` at the cursor exactly when no polygon is under the cursor, and nothing when one is. |
| Grab.MoveCursor | src/grab.rs:285-295 | every polygon's cursor flag becomes `pos_contained` of the point and nothing else changes; the ids under the cursor are exactly the polygons containing the point; consistency is kept |
| Grab.Crossing | src/grab.rs:299-309 | The in-polygon flag becomes "some polygon is under the cursor". `MouseEnter` fires exactly on entering and `MouseLeave` exactly on leaving, with passthrough turned off or on to match. Otherwise nothing is emitted and passthrough is unchanged. |
| Grab.Classifier.constructor | src/grab.rs:168-173 | both times are `now`, both positions are the origin, both flags are false, and nothing is pending |
| Grab.Classifier.GetMousePosition | src/grab.rs:72-77 | the stored physical position converted by `to_viewport` |
| Grab.Classifier.EmitEvent | src/grab.rs:84-166 | each event is published on its topic and then handed to the callback |
| Grab.Classifier.PressLeft | src/grab.rs:183-193 | the history becomes `Press` of the old one at the current mouse position |
| Grab.Classifier.ReleaseLeft | src/grab.rs:194-264 | the history and both logs become what `LeftRelease` says for the current position and the ids under the cursor |
| Grab.Classifier.RunDeferred | src/grab.rs:227-234 | the history and both logs become what `Deferred` says |
| Grab.Classifier.ReleaseRight | src/grab.rs:265-281 | both logs are extended with what `RightRelease` says |
| Grab.Classifier.MouseMove | src/grab.rs:282-320 | The registry becomes `MoveCursor` of the point, and the mouse position is stored. The ids found are exactly those under the cursor, each once. The flags and logs follow `Crossing`, and `MouseMove` at the cursor is emitted last. |
| Grab.Classifier.HitTest | src/grab.rs:283-295 | stores the position and runs the hit-test loop, with the registry ending as `MoveCursor` says |
| Grab.Classifier.Announce | src/grab.rs:297-319 | the enter/leave step as `Crossing` says, then `MouseMove` at the cursor |
| Grab.Classifier.EnterOrLeave | src/grab.rs:299-309 | the flags and logs follow `Crossing` |
| Grab.Classifier.Wheel | src/grab.rs:321-331 | a wheel turn always emits `Wheel` with the deltas |
| Grab.FindUnder | src/grab.rs:285-295 | the hit-test loop sets every polygon's cursor flag as `MoveCursor` says and returns exactly the ids now under the cursor, each once |
| Grab.MarkOne | src/grab.rs:288-295 | one turn of that loop sets one polygon's flag to `pos_contained` and touches no other polygon |
| Grab.ReleaseOverPolygonIsSilent | src/grab.rs:194-281 | a release of either button over a polygon found by the last mouse move emits nothing and keeps the click history |
| Grab.HiddenPolygonNeverUnderCursor | src/grab.rs:288-294 | a hidden polygon is never under the cursor after a mouse move |
| Grab.SingleClick | src/grab.rs:221-236 | A quick press and release with no click in the preceding 250 ms emits nothing at once. The deferred check then emits one `LeftClick` at that position. |
| Grab.DoubleClickSuppressesPendingClick | src/grab.rs:224-246 | Two quick clicks at one position within 250 ms emit `DoubleClick` at the second release. The deferred check of the first click then emits nothing. |
| Grab.DragFromPressToRelease | src/grab.rs:248-261 | a press held at least 150 ms and released elsewhere emits one `Drag` from the press to the release and queues no click |
| Grab.DoubleClickFlagOutlivesItsClick | src/grab.rs:224-246 | Only the deferred check clears the double-click flag. So a double click with no click pending leaves the flag set, and it suppresses the next single click however much later. |
| GuestApi.EventsFacts | guest-js/index.ts:79-80 | there are exactly seven distinct names, and `MouseEnter`/`MouseLeave` are not among them |
| GuestApi.UnknownEventMessageNamesEvent | guest-js/index.ts:93-95 | the thrown message names the refused event in brackets and then lists the available names |
| GuestApi.Without | guest-js/index.ts:103 | the filtered list keeps exactly the other callbacks and is no longer than the original |
| GuestApi.WithoutConcat | guest-js/index.ts:103 | filtering distributes over concatenation, so the order of the rest is kept |
| GuestApi.WithoutAbsent | guest-js/index.ts:103 | filtering out a callback that is not in the list returns the list unchanged |
| GuestApi.WithoutIdempotent | guest-js/index.ts:99-104 | `off` twice is `off` once |
| GuestApi.OnThenOff | guest-js/index.ts:92-104 | `on` and then `off` of a callback not already in the list gives back the original list |
| GuestApi.ListenerFor | guest-js/index.ts:106-132 | each of the seven listened topics reaches a subscribable name |
| GuestApi.PublishedTopicsReachListeners | guest-js/index.ts:52-132 | every event the back end publishes reaches a listener, except `MouseEnter` and `MouseLeave` |
| GuestApi.EventCallbacks.constructor | guest-js/index.ts:82-90 | one empty list for each of the seven names |
| GuestApi.EventCallbacks.On | guest-js/index.ts:92-97 | an unknown name throws with the message and changes nothing; otherwise the callback is appended to that name's list, duplicates allowed, and the other lists are unchanged |
| GuestApi.EventCallbacks.Off | guest-js/index.ts:99-104 | an unknown name throws and changes nothing; otherwise every occurrence is filtered out of that name's list, and the other lists are unchanged |
| GuestApi.EventCallbacks.Dispatch | guest-js/index.ts:106-132 | a published topic calls each callback of its name's list once, in list order; an unlistened topic calls none |

## Left out

- The `rdev::grab` input hook, the `polygon-grab` thread and its start-up failure path (src/grab.rs:179-182, 332-351) are OS input and threading. Each handler is a method called with explicit inputs.
- Clock: `Instant::now()` and `elapsed()` are not modelled. The handlers take the current monotonic time `now` in milliseconds, and elapsed times are differences of such times.
- The two-worker thread pool and its 250 ms sleep (src/thread_pool.rs, src/grab.rs:227-228) are concurrency.
  - Deferred checks are queued in `Clicks.pending`, oldest first, and `RunDeferred` runs the oldest whenever the caller chooses.
  - Their timing relative to later releases, and the order in which two workers interleave, are up to the caller.
- The Tauri `AppHandle::emit` transport and the JSON payloads (src/grab.rs:88-164) are not modelled. A published event is appended, as an `Event` value, to `Plugin.published`.
- The application callback is opaque code; its calls are the log `Plugin.delivered`.
- Raw pointers are memory management:
  - the callback's `Box::from_raw`/`into_raw` swap, and `destroy` (src/desktop.rs:258-263), which frees the callback;
  - the vertex buffer's swap and release.

  The vertex list is a `seq` field, and the ghost flag `destroyed` stands for the nulled pointer.
- The default polygons that `register_all` overwrites are leaked in the source. This is not modelled, since it is memory management.
- `register_all` allocates its default polygons before the initialisation check, and the model allocates them after it. Nothing observable depends on the order.
- `RwLock` and lock poisoning are concurrency. They are the only source of `LockError`, which the model's operations therefore never return; its message and conversion are still modelled.
- Floating point: `f64` is modelled as `real`, so there is no rounding, NaN or infinity.
  - `Utils.ToViewport`, `Grab.Classifier.GetMousePosition` and the handlers that read the mouse position require a positive width. With the width at its initial 0.0, the source divides by zero.
  - The wheel deltas are integers converted to `real`.
- Grab.Classifier.MouseMove: requires an initialised registry, because the source unwraps the polygon map there and panics before `init`.
- The mouse-move, release and hit-test loops visit polygons in an order the model leaves open. The source visits them in hash-map order.
- The window itself is not modelled: `set_ignore_cursor_events` is the boolean `Plugin.ignoreCursorEvents`. Its window-system effect, multi-monitor layouts and the `unwrap`s on the window calls are left out.
- `IS_DOUBLE_CLICK` is imported from src/statics.rs, but that file does not declare it. It is modelled as the field `Grab.Classifier.isDoubleClick`, initially false.
- The `is_double_click` flag and `MOUSE_IN_POLYGON` are process-wide statics. Here they are fields of the one `Classifier` object.
- src/commands.rs, src/lib.rs and build.rs are plugin and RPC glue, and are not part of this model. These files contain:
  - the command wrappers that map results to `Response`;
  - the builder and teardown order.
- The `invoke` wrappers of guest-js/index.ts:10-49 are not part of this model. In particular, `registerAll` sends the key `id` where the command reads `polygons`.
- The `camel_snake_converter` example application is keyboard, mouse and clipboard simulation, and is not part of this model.
- The callback payloads in guest-js/index.ts are not modelled: `Dispatch` returns which callbacks are called and in what order.
- `GuestApi.EventCallbacks.On` and `Off` accept any string, as the code does at run time. The TypeScript `Event` type, which narrows the names at compile time, is not modelled.
