/** The gesture events the input hook recognises (src/grab.rs:31-70) and the topic name
    each one is published under. */
module Events {
  import Errors

  /** A position in viewport coordinates. */
  datatype Position = Position(x: real, y: real)

  /** `grab::Event`: nine kinds. Click, move and wheel payloads are plain coordinates;
      `MouseEnter` carries the ids of the polygons under the cursor. */
  datatype Event =
    | LeftClick(x: real, y: real)
    | DoubleClick(x: real, y: real)
    | RightClick(x: real, y: real)
    | Drag(from: Position, to: Position)
    | MouseMove(x: real, y: real)
    | MouseEnter(ids: seq<string>)
    | MouseLeave
    | Wheel(x: real, y: real)
    | Error(err: Errors.Error)

  const Prefix: string := "POLYGON_"

  /** The part of the topic name after `POLYGON_`. */
  function TopicSuffix(e: Event): string
  {
    match e
    case LeftClick(_, _) => "LEFT_CLICK"
    case DoubleClick(_, _) => "DOUBLE_CLICK"
    case RightClick(_, _) => "RIGHT_CLICK"
    case MouseMove(_, _) => "MOUSE_MOVE"
    case MouseEnter(_) => "MOUSE_ENTER"
    case MouseLeave => "MOUSE_LEAVE"
    case Wheel(_, _) => "WHEEL"
    case Drag(_, _) => "DRAG"
    case Error(_) => "ERROR"
  }

  /** `Display for Event`: the topic name, which depends on the kind only. */
  function Topic(e: Event): (t: string)
    ensures |t| > |Prefix| && t[..|Prefix|] == Prefix
  {
    Prefix + TopicSuffix(e)
  }

  /** The position of an event's kind in the declaration. */
  function Kind(e: Event): nat
  {
    match e
    case LeftClick(_, _) => 0
    case DoubleClick(_, _) => 1
    case RightClick(_, _) => 2
    case Drag(_, _) => 3
    case MouseMove(_, _) => 4
    case MouseEnter(_) => 5
    case MouseLeave => 6
    case Wheel(_, _) => 7
    case Error(_) => 8
  }

  /** Two events share a topic exactly when they are of the same kind, so the nine kinds
      get nine distinct topics. */
  lemma TopicsDistinct(e1: Event, e2: Event)
    ensures Topic(e1) == Topic(e2) <==> Kind(e1) == Kind(e2)
  {
    if Topic(e1) == Topic(e2) {
      var s1, s2 := TopicSuffix(e1), TopicSuffix(e2);
      assert Topic(e1)[|Prefix|..] == s1 && Topic(e2)[|Prefix|..] == s2;
      assert s1 == s2;
    }
  }
}
