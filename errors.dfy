/** The plugin's error type (src/error.rs): six kinds, the message each one renders
    as, and the conversions from the library errors the plugin meets. */
module Errors {

  /** The six error kinds. `PointsNotEnough` carries a `usize` count, here a `nat`. */
  datatype Error =
    | NotInitialized
    | PolygonNotFound(id: string)
    | PolygonExists(id: string)
    | PointsNotEnough(got: nat)
    | LockError(reason: string)
    | PluginInitializationError(reason: string)

  /** `crate::Result<T>`. */
  datatype Result<T> = Ok(value: T) | Err(error: Error)

  const NotInitializedMessage: string :=
    "Not Initialized. " + "Call tauri_wherever::init(app_handle) first when setup a tauri app."
  const IdPrefix: string := "Polygon with id ["
  const NotFoundSuffix: string := "] not found."
  const ExistsSuffix: string := "] already exists."
  const PointsPrefix: string := "At least 3 points needed but got "
  const LockPrefix: string := "Can not read/write cache. "
  const InitPrefix: string := "Failed to initialize plugin. "

  /** The decimal numeral of `n`, as `{}` formats an unsigned integer. */
  function Decimal(n: nat): (s: string)
    ensures |s| > 0
    ensures forall i :: 0 <= i < |s| ==> '0' <= s[i] <= '9'
    decreases n
  {
    if n < 10 then [Digit(n)] else Decimal(n / 10) + [Digit(n % 10)]
  }

  function Digit(d: nat): (c: char)
    requires d < 10
  {
    "0123456789"[d]
  }

  /** Reads a numeral back; the inverse of `Decimal`. */
  function DecimalValue(s: string): nat
  {
    if s == [] then 0
    else DecimalValue(s[..|s| - 1]) * 10 + DigitValue(s[|s| - 1])
  }

  function DigitValue(c: char): nat
  {
    if '0' <= c <= '9' then c as int - '0' as int else 0
  }

  lemma {:induction false} DecimalRoundTrip(n: nat)
    ensures DecimalValue(Decimal(n)) == n
    decreases n
  {
    if n >= 10 {
      var s := Decimal(n / 10) + [Digit(n % 10)];
      assert s[..|s| - 1] == Decimal(n / 10);
      DecimalRoundTrip(n / 10);
    }
  }

  /** The `#[error(...)]` text of each kind. */
  function Message(e: Error): string
  {
    match e
    case NotInitialized => NotInitializedMessage
    case PolygonNotFound(id) => IdPrefix + id + NotFoundSuffix
    case PolygonExists(id) => IdPrefix + id + ExistsSuffix
    case PointsNotEnough(n) => PointsPrefix + Decimal(n) + "."
    case LockError(r) => LockPrefix + r
    case PluginInitializationError(r) => InitPrefix + r
  }

  /** The count in a `PointsNotEnough` message reads back as the count it was built from. */
  lemma PointsNotEnoughMessageCarriesCount(n: nat)
    ensures var m := Message(PointsNotEnough(n));
      |m| > |PointsPrefix| && m[..|PointsPrefix|] == PointsPrefix && m[|m| - 1] == '.' &&
      DecimalValue(m[|PointsPrefix|..|m| - 1]) == n
  {
    var m := Message(PointsNotEnough(n));
    assert m[|PointsPrefix|..|m| - 1] == Decimal(n);
    DecimalRoundTrip(n);
  }

  /** The text between a prefix and a suffix is recovered by slicing. */
  lemma Infix(p: string, a: string, s: string)
    ensures (p + a + s)[|p|..|p| + |a|] == a
  {
    assert (p + a + s)[|p|..|p| + |a|] == (p + a)[|p|..];
  }

  /** A "not found" message never equals an "already exists" message: they differ in
      their next-to-last character. */
  lemma SuffixesDiffer(a: string, b: string)
    ensures IdPrefix + a + NotFoundSuffix != IdPrefix + b + ExistsSuffix
  {
    var m1 := IdPrefix + a + NotFoundSuffix;
    var m2 := IdPrefix + b + ExistsSuffix;
    assert m1[|m1| - 2] == 'd';
    assert m2[|m2| - 2] == 's';
  }

  /** Different errors render as different messages, so a message names its error. */
  lemma MessageInjective(e1: Error, e2: Error)
    requires Message(e1) == Message(e2)
    ensures e1 == e2
  {
    var m := Message(e1);
    assert FirstChar(e1) == m[0] == FirstChar(e2);
    match e1
    case NotInitialized =>
    case PolygonNotFound(a) =>
      if e2.PolygonNotFound? {
        Infix(IdPrefix, a, NotFoundSuffix);
        Infix(IdPrefix, e2.id, NotFoundSuffix);
      } else {
        SuffixesDiffer(a, e2.id);
      }
    case PolygonExists(a) =>
      if e2.PolygonExists? {
        Infix(IdPrefix, a, ExistsSuffix);
        Infix(IdPrefix, e2.id, ExistsSuffix);
      } else {
        SuffixesDiffer(e2.id, a);
      }
    case PointsNotEnough(a) =>
      var b := e2.got;
      Infix(PointsPrefix, Decimal(a), ".");
      Infix(PointsPrefix, Decimal(b), ".");
      DecimalRoundTrip(a);
      DecimalRoundTrip(b);
    case LockError(a) =>
      assert m[|LockPrefix|..] == a;
      assert Message(e2)[|LockPrefix|..] == e2.reason;
    case PluginInitializationError(a) =>
      assert m[|InitPrefix|..] == a;
      assert Message(e2)[|InitPrefix|..] == e2.reason;
  }

  /** The first character of each message, which tells all kinds apart except the two
      that both begin "Polygon with id [". */
  function FirstChar(e: Error): (c: char)
    ensures |Message(e)| > 0 && Message(e)[0] == c
  {
    match e
    case NotInitialized => 'N'
    case PolygonNotFound(_) => 'P'
    case PolygonExists(_) => 'P'
    case PointsNotEnough(_) => 'A'
    case LockError(_) => 'C'
    case PluginInitializationError(_) => 'F'
  }

  /** A `std::io::Error`, seen through its `Display` text. */
  datatype IoError = IoError(display: string)

  /** A poisoned `RwLock` guard error of any of the three guard types, seen through its
      `Display` text. */
  datatype PoisonError = PoisonError(display: string)

  /** `From<std::io::Error>`: an I/O failure is a plugin initialization failure. */
  function FromIoError(err: IoError): (e: Error)
    ensures e.PluginInitializationError?
    ensures Message(e) == InitPrefix + err.display
  {
    PluginInitializationError(err.display)
  }

  /** `From<PoisonError<...>>` for the three guard types: a poisoned lock is a `LockError`. */
  function FromPoisonError(err: PoisonError): (e: Error)
    ensures e.LockError?
    ensures Message(e) == LockPrefix + err.display
  {
    LockError(err.display)
  }
}
