/**
 * `fastdb.Time`: a timestamp kept in SQLite as an INTEGER number of
 * milliseconds since the Unix epoch, with its two database/sql conversions.
 * `Scan` reads a stored value (an integer, or legacy RFC 3339 text) into the
 * timestamp; `Value` gives the value to store, which is always the integer.
 */
module Codec {
  import opened Wrappers

  newtype Int64 = x: int | -0x8000_0000_0000_0000 <= x < 0x8000_0000_0000_0000

  /** The other driver value types: the kinds a driver returns besides int64 and string. */
  datatype Kind = Float64 | Bool | Bytes | TimeTime | Nil

  /** How fmt's `%T` verb names each kind. */
  function TypeName(k: Kind): string
  {
    match k
    case Float64 => "float64"
    case Bool => "bool"
    case Bytes => "[]uint8"
    case TimeTime => "time.Time"
    case Nil => "<nil>"
  }

  /**
   * A value as it reaches `Scan` or leaves `Value`. `TimeValue` is a value of
   * the named type `fastdb.Time` itself, which is what `Value` returns: a type
   * switch on `int64` does not match it.
   */
  datatype DriverValue = Int64Value(n: Int64) | StringValue(s: string) | TimeValue(ms: Int64) | OtherValue(kind: Kind)

  /** How fmt's `%T` verb names the package's own `Time` type. */
  const TimeTypeName: string := "fastdb.Time"

  datatype ScanError =
    | ParseError(value: string)         // the error time.Parse reports for the text `value`
    | UnsupportedType(message: string)  // built with fmt.Errorf

  const UnsupportedPrefix: string := "Time.Scan: Unsupported type: "

  datatype Decoded = Decoded(ms: Int64) | Rejected(error: ScanError)

  /**
   * What `Scan` makes of a driver value. `parse` stands for
   * `time.Parse(time.RFC3339, s)` followed by `UnixMilli()`: the instant's
   * milliseconds when `s` is accepted, `None` when time.Parse fails.
   */
  function Decode(v: DriverValue, parse: string -> Option<Int64>): (d: Decoded)
    ensures d.Decoded? <==> v.Int64Value? || (v.StringValue? && parse(v.s).Some?)
    ensures d.Rejected? && d.error.ParseError? ==> v == StringValue(d.error.value)
  {
    match v
    case Int64Value(n) => Decoded(n)
    case StringValue(s) => if parse(s).Some? then Decoded(parse(s).value) else Rejected(ParseError(s))
    case TimeValue(_) => Rejected(UnsupportedType(UnsupportedPrefix + TimeTypeName))
    case OtherValue(k) => Rejected(UnsupportedType(UnsupportedPrefix + TypeName(k)))
  }

  /**
   * What database/sql keeps of an argument: a value of a named integer type
   * such as `fastdb.Time` is stored as its underlying `int64`; the driver's
   * own value types are stored as they are.
   */
  function Stored(v: DriverValue): (s: DriverValue)
    ensures !s.TimeValue?
    ensures v.TimeValue? ==> s == Int64Value(v.ms)
    ensures !v.TimeValue? ==> s == v
  {
    if v.TimeValue? then Int64Value(v.ms) else v
  }

  /** A stored integer is taken as it is, whatever text parser is in use. */
  lemma ScanInt64(n: Int64, parse: string -> Option<Int64>)
    ensures Decode(Int64Value(n), parse) == Decoded(n)
  {
  }

  /** Text is accepted exactly when it parses, as the parsed instant; otherwise the parse error is reported. */
  lemma ScanString(s: string, parse: string -> Option<Int64>)
    ensures Decode(StringValue(s), parse).Decoded? <==> parse(s).Some?
    ensures parse(s).Some? ==> Decode(StringValue(s), parse).ms == parse(s).value
    ensures parse(s).None? ==> Decode(StringValue(s), parse).error == ParseError(s)
  {
  }

  /** Any other built-in kind is rejected with a message that ends with the kind's name, and different kinds, `fastdb.Time` included, give different messages. */
  lemma ScanUnsupported(k: Kind, k': Kind, parse: string -> Option<Int64>)
    ensures Decode(OtherValue(k), parse).Rejected?
    ensures Decode(OtherValue(k), parse).error.UnsupportedType?
    ensures var m := Decode(OtherValue(k), parse).error.message;
      m[..|UnsupportedPrefix|] == UnsupportedPrefix && m[|UnsupportedPrefix|..] == TypeName(k)
    ensures k != k' ==> Decode(OtherValue(k), parse) != Decode(OtherValue(k'), parse)
    ensures Decode(OtherValue(k), parse).error.message != UnsupportedPrefix + TimeTypeName
  {
    var m := UnsupportedPrefix + TypeName(k);
    assert m[..|UnsupportedPrefix|] == UnsupportedPrefix && m[|UnsupportedPrefix|..] == TypeName(k);
    assert (UnsupportedPrefix + TimeTypeName)[|UnsupportedPrefix|..] == TimeTypeName;
    if k != k' {
      var m' := UnsupportedPrefix + TypeName(k');
      assert m'[|UnsupportedPrefix|..] == TypeName(k');
    }
  }

  /** A `*Time`: the receiver `Scan` assigns through. */
  class Time {
    var ms: Int64

    constructor (ms: Int64)
      ensures this.ms == ms
    {
      this.ms := ms;
    }

    /** `(*Time).Scan`: the timestamp changes only when decoding succeeds. */
    method Scan(v: DriverValue, parse: string -> Option<Int64>) returns (err: Option<ScanError>)
      modifies this
      ensures Decode(v, parse).Decoded? ==> ms == Decode(v, parse).ms && err == None
      ensures Decode(v, parse).Rejected? ==> ms == old(ms) && err == Some(Decode(v, parse).error)
    {
      match v
      case Int64Value(n) =>
        ms := n;
        return None;
      case StringValue(s) =>
        var tt := parse(s);
        if tt.None? {
          return Some(ParseError(s));
        }
        ms := tt.value;
        return None;
      case TimeValue(_) =>
        return Some(UnsupportedType(UnsupportedPrefix + TimeTypeName));
      case OtherValue(k) =>
        return Some(UnsupportedType(UnsupportedPrefix + TypeName(k)));
    }

    /**
     * `(*Time).Value`: the timestamp itself, still of type `fastdb.Time`; it is
     * stored as the integer count of milliseconds. Its error result is always
     * nil and is not modelled.
     */
    function Value(): (v: DriverValue)
      reads this
      ensures !v.Int64Value? && !v.StringValue?
      ensures Stored(v) == Int64Value(ms)
    {
      TimeValue(ms)
    }
  }

  /** `Value`'s result handed straight back to `Scan` is refused as an unsupported type, whatever the timestamp. */
  lemma ValueNotScannable(t: Time, parse: string -> Option<Int64>)
    ensures Decode(t.Value(), parse) == Rejected(UnsupportedType(UnsupportedPrefix + "fastdb.Time"))
  {
  }

  /** What `Value` stores is the integer form, never text, and `Scan` reads it back as the same timestamp, for every int64 including 0 and negative ones. */
  lemma ValueScanRoundTrip(t: Time, parse: string -> Option<Int64>)
    ensures Stored(t.Value()).Int64Value?
    ensures Decode(Stored(t.Value()), parse) == Decoded(t.ms)
  {
  }

  /** Scanning what one `Time` stores into another makes the two equal, without an error. */
  method CopyThroughStorage(from: Time, to: Time, parse: string -> Option<Int64>) returns (err: Option<ScanError>)
    modifies to
    ensures to.ms == old(from.ms) && err == None
  {
    err := to.Scan(Stored(from.Value()), parse);
  }
}
