/**
 * The values an EXIF tag can hold once Pillow has decoded it, and the few
 * Python built-ins the service applies to them: unpacking and `len()`,
 * `int()`, comparison with `0` and with a one-letter string.
 */
module ExifValues {
  import opened Wrappers
  import opened PyText
  import opened PyNumbers

  newtype byte = x: int | 0 <= x < 256

  /** A decoded tag value. `RationalVal` is Pillow's `IFDRational`, kept as
      the exact quotient; `Dict` is a nested IFD such as `GPSInfo`, whose
      keys are given by the names the GPS tag table assigns them. */
  datatype TagValue =
    | IntVal(i: int)
    | FloatVal(f: real)
    | RationalVal(q: real)
    | Text(s: string)
    | Bytes(b: seq<byte>)
    | Tuple(items: seq<TagValue>)
    | Dict(entries: seq<Entry>)

  datatype Entry = Entry(name: string, value: TagValue)

  /** `int`, `float` and `IFDRational` are the numeric tag types. */
  predicate IsNumber(v: TagValue)
  {
    v.IntVal? || v.FloatVal? || v.RationalVal?
  }

  /** The exact value of a numeric tag. */
  function NumberOf(v: TagValue): (r: Option<real>)
    ensures r.Some? <==> IsNumber(v)
    ensures v.IntVal? ==> r == Some(v.i as real)
  {
    match v
    case IntVal(i) => Some(i as real)
    case FloatVal(f) => Some(f)
    case RationalVal(q) => Some(q)
    case _ => None
  }

  /** Python's `isinstance(v, (int, float))`: `IFDRational` is neither. */
  predicate IsIntOrFloat(v: TagValue)
  {
    v.IntVal? || v.FloatVal?
  }

  /** The names of a dictionary's entries, in order. */
  function Names(entries: seq<Entry>): (r: seq<TagValue>)
    ensures |r| == |entries|
    ensures forall k :: 0 <= k < |r| ==> r[k] == Text(entries[k].name)
  {
    if entries == [] then [] else [Text(entries[0].name)] + Names(entries[1..])
  }

  /** What iterating over `v` yields (and so what unpacking it binds):
      a string yields its one-character strings, bytes yield integers, a
      dictionary yields its keys; numbers are not iterable. */
  function Items(v: TagValue): (r: Option<seq<TagValue>>)
    ensures r.None? <==> IsNumber(v)
    ensures v.Text? ==> r.Some? && |r.value| == |v.s|
                        && forall k :: 0 <= k < |v.s| ==> r.value[k] == Text([v.s[k]])
    ensures v.Bytes? ==> r.Some? && |r.value| == |v.b|
                         && forall k :: 0 <= k < |v.b| ==> r.value[k] == IntVal(v.b[k] as int)
  {
    match v
    case Tuple(items) => Some(items)
    case Text(s) => Some(seq(|s|, k requires 0 <= k < |s| => Text([s[k]])))
    case Bytes(b) => Some(seq(|b|, k requires 0 <= k < |b| => IntVal(b[k] as int)))
    case Dict(entries) => Some(Names(entries))
    case _ => None
  }

  /** The name Python reports for the type of a value. */
  function TypeName(v: TagValue): string
  {
    match v
    case IntVal(_) => "int"
    case FloatVal(_) => "float"
    case RationalVal(_) => "IFDRational"
    case Text(_) => "str"
    case Bytes(_) => "bytes"
    case Tuple(_) => "tuple"
    case Dict(_) => "dict"
  }

  /** Python's `len(v)`: a `TypeError` on numbers. */
  function Length(v: TagValue): (r: Result<nat>)
    ensures r.Ok? <==> Items(v).Some?
    ensures r.Ok? ==> r.value == |Items(v).value|
    ensures r.Err? ==> r.error == "object of type '" + TypeName(v) + "' has no len()"
  {
    match v
    case Tuple(items) => Ok(|items|)
    case Text(s) => Ok(|s|)
    case Bytes(b) => Ok(|b|)
    case Dict(entries) => Ok(|entries|)
    case _ => Err("object of type '" + TypeName(v) + "' has no len()")
  }

  /** The characters of a byte string, when every byte is ASCII. */
  function AsciiText(b: seq<byte>): (r: Option<string>)
    ensures r.Some? ==> |r.value| == |b| && forall k :: 0 <= k < |b| ==> r.value[k] as int == b[k] as int
    ensures r.None? <==> exists k :: 0 <= k < |b| && b[k] >= 128
  {
    if b == [] then Some("")
    else if b[0] >= 128 then None
    else match AsciiText(b[1..])
      case None => None
      case Some(rest) => Some([b[0] as int as char] + rest)
  }

  /** Python's `int(v)`: numbers are truncated toward zero, text and bytes are
      parsed as base-10 literals, containers raise a `TypeError`. */
  function IntOf(v: TagValue): (r: Result<int>)
    ensures v.IntVal? ==> r == Ok(v.i)
    ensures v.FloatVal? ==> r == Ok(Trunc(v.f))
    ensures v.RationalVal? ==> r == Ok(Trunc(v.q))
    ensures v.Text? ==> (r.Ok? <==> PyInt(v.s).Some?)
    ensures (v.Tuple? || v.Dict?) ==> r.Err?
  {
    match v
    case IntVal(i) => Ok(i)
    case FloatVal(f) => Ok(Trunc(f))
    case RationalVal(q) => Ok(Trunc(q))
    case Text(s) =>
      (match PyInt(s)
       case Some(n) => Ok(n)
       case None => Err("invalid literal for int() with base 10: '" + s + "'"))
    case Bytes(b) =>
      (match AsciiText(b)
       case Some(s) =>
         (match PyInt(s)
          case Some(n) => Ok(n)
          case None => Err("invalid literal for int() with base 10: b'" + s + "'"))
       case None => Err("invalid literal for int() with base 10: b'...'"))
    case _ =>
      Err("int() argument must be a string, a bytes-like object or a real number, not '"
          + TypeName(v) + "'")
  }

  /** `int(str(n)) == n`: the decimal text of an integer converts back to it. */
  lemma IntOfIntText(n: int)
    ensures IntOf(Text(IntToString(n))) == Ok(n)
  {
    PyIntOfIntToString(n);
  }

  /** Python's `v == 0`: true exactly for numeric zeros. */
  predicate EqualsZero(v: TagValue)
  {
    NumberOf(v) == Some(0.0)
  }

  /** Python's `v in ['S', 'W']`: the southern and western hemisphere letters. */
  predicate IsSouthOrWest(v: TagValue)
  {
    v == Text("S") || v == Text("W")
  }
}
