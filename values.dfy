/**
  Python values as the backend sees them, their `force_unicode` text, and
  `SphinxSearchBackend._from_python`, the coercion of a field value into
  what the Sphinx daemon accepts.
*/
module Values {
  import opened Wrappers
  import opened Text

  /** The calendar fields of a `datetime.datetime` (microseconds are not modelled). */
  datatype DateTime = DateTime(year: nat, month: nat, day: nat, hour: nat, minute: nat, second: nat)

  /** A single Python value. A float and an arbitrary object are known only by their text. */
  datatype Scalar =
    | Bool(b: bool)
    | Int(i: int)
    | Float(text: string)
    | Str(s: string)
    | NoneValue
    | Stamp(dt: DateTime)
    | Object(text: string)

  /** A field value: one scalar, or a list or tuple of scalars. */
  datatype Value = Atom(scalar: Scalar) | List(items: seq<Scalar>) | Tuple(items: seq<Scalar>)

  /**
    What `_from_python` returns: an int (booleans included), a float passed
    through, unicode text, or the float `time.mktime` gives for a datetime
    (an opaque, time-zone dependent conversion kept as its input fields).
  */
  datatype Coerced = Number(n: int) | FloatNumber(text: string) | Unicode(s: string) | Timestamp(dt: DateTime)

  /** `n` in decimal, left-padded with zeros to `width` digits (`'%0<width>d' % n`). */
  function Pad(n: nat, width: nat): string
  {
    var t := NatToString(n);
    if |t| >= width then t else seq(width - |t|, _ => '0') + t
  }

  /** `unicode(dt)` for a datetime without microseconds: `YYYY-MM-DD HH:MM:SS`. */
  function DateTimeText(dt: DateTime): string
  {
    Pad(dt.year, 4) + "-" + Pad(dt.month, 2) + "-" + Pad(dt.day, 2) + " " +
    Pad(dt.hour, 2) + ":" + Pad(dt.minute, 2) + ":" + Pad(dt.second, 2)
  }

  /** `force_unicode(v)` for a scalar: text unchanged, and an int's text reads back as that int. */
  function ToUnicode(v: Scalar): (text: string)
    ensures v.Str? ==> text == v.s
    ensures v.Int? ==> ParseInt(text) == Some(v.i)
  {
    match v
    case Bool(b) => if b then "True" else "False"
    case Int(i) => IntToStringRoundTrip(i); IntToString(i)
    case Float(text) => text
    case Str(s) => s
    case NoneValue => "None"
    case Stamp(dt) => DateTimeText(dt)
    case Object(text) => text
  }

  /** `[force_unicode(v) for v in items]`. */
  function Texts(items: seq<Scalar>): (texts: seq<string>)
    ensures |texts| == |items|
  {
    seq(|items|, i requires 0 <= i < |items| => ToUnicode(items[i]))
  }

  /** `_from_python`: the dispatch is tried in the source's order (datetime, bool, sequence, number, other). */
  function FromPython(v: Value): (r: Coerced)
    ensures r.Number? <==> v.Atom? && (v.scalar.Bool? || v.scalar.Int?)
    ensures r.Unicode? && v.Atom? ==> r.s == ToUnicode(v.scalar)
  {
    match v
    case Atom(Stamp(dt)) => Timestamp(dt)
    case Atom(Bool(b)) => Number(if b then 1 else 0)
    case List(items) => Unicode(Join(Texts(items), ","))
    case Tuple(items) => Unicode(Join(Texts(items), ","))
    case Atom(Int(i)) => Number(i)
    case Atom(Float(text)) => FloatNumber(text)
    case Atom(s) => Unicode(ToUnicode(s))
  }

  /**
    Which kind of result each kind of input gets: booleans become 1 or 0
    and never pass through as booleans; ints and floats come back unchanged;
    lists and tuples, text, None and other objects become unicode text; a
    datetime becomes its timestamp.
  */
  lemma CoercionByKind(v: Value)
    ensures v.Atom? && v.scalar.Bool? ==> FromPython(v) == Number(if v.scalar.b then 1 else 0)
    ensures v.Atom? && v.scalar.Int? ==> FromPython(v) == Number(v.scalar.i)
    ensures v.Atom? && v.scalar.Float? ==> FromPython(v) == FloatNumber(v.scalar.text)
    ensures v.Atom? && v.scalar.Stamp? ==> FromPython(v) == Timestamp(v.scalar.dt)
    ensures FromPython(v).Unicode? <==>
      (v.List? || v.Tuple? || v.scalar.Str? || v.scalar.NoneValue? || v.scalar.Object?)
    ensures v.Atom? && !v.scalar.Stamp? && !v.scalar.Bool? && !v.scalar.Int? && !v.scalar.Float? ==>
      FromPython(v) == Unicode(ToUnicode(v.scalar))
  {
  }

  /**
    A list or tuple coerces to the unicode text of its elements joined by
    commas: splitting that text on ',' gives back each element's text, as
    long as there is at least one element and no element's text holds a comma.
  */
  lemma {:induction false} SequenceCoercionRoundTrip(v: Value)
    requires v.List? || v.Tuple?
    requires |v.items| >= 1
    requires forall i :: 0 <= i < |v.items| ==> ',' !in ToUnicode(v.items[i])
    ensures FromPython(v).Unicode?
    ensures Split(FromPython(v).s, ',') == Texts(v.items)
  {
    SplitJoin(Texts(v.items), ',');
  }

  /** `_from_python([a, b, c])` is `"a,b,c"` and `_from_python(True)` is `1`. */
  lemma CoercionExamples()
    ensures FromPython(List([Str("a"), Str("b"), Str("c")])) == Unicode("a,b,c")
    ensures FromPython(Atom(Bool(true))) == Number(1)
    ensures FromPython(Atom(Bool(false))) == Number(0)
  {
    var items := [Str("a"), Str("b"), Str("c")];
    assert Texts(items) == ["a", "b", "c"];
  }
}
