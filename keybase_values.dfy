/** The values a Keybase database can hold, the exceptions a connection raises,
    and Java's checked cast from Object to the type a typed getter returns. */
module KeybaseValues {

  /** Java's fixed-width signed integers. */
  newtype int8 = x: int | -0x80 <= x < 0x80
  newtype int16 = x: int | -0x8000 <= x < 0x8000
  newtype int32 = x: int | -0x8000_0000 <= x < 0x8000_0000
  newtype int64 = x: int | -0x8000_0000_0000_0000 <= x < 0x8000_0000_0000_0000

  /** A value stored in the database map (a `HashMap<String, Object>` entry).
      Doubles and floats are kept as their opaque IEEE-754 bit patterns; the model
      does no floating-point arithmetic. `Other` is an object of any class other
      than String, Integer, Double, Float, Byte, Short and Long (those have their own
      constructors), known only by its class name. `Null` is Java's null reference. */
  datatype Value =
    | Null
    | Str(str: string)
    | Int(i32: int32)
    | Double(f64: bv64)
    | Float(f32: bv32)
    | Byte(i8: int8)
    | Short(i16: int16)
    | Long(i64: int64)
    | Other(className: string)

  /** The Java types the typed getters cast to. */
  datatype Kind = StringKind | IntKind | DoubleKind | FloatKind | ByteKind | ShortKind | LongKind

  /** The exceptions of the connection and of its bootstrap. */
  datatype Error =
    | ConnectionClosed          // ConnectionClosedException
    | ConnectionAlreadyClosed   // ConnectionAlreadyClosedException
    | ClassCast                 // ClassCastException from a typed getter
    | NullPointer               // NullPointerException: unboxing a null into a primitive
    | IOFailure                 // IOException from reading or writing the file
    | JsonSyntax                // JsonSyntaxException from decoding the file
    | IllegalArgument           // IllegalArgumentException from encoding the map

  datatype Option<+T> = None | Some(value: T)

  datatype Result<+T> = Success(value: T) | Failure(error: Error)

  /** The runtime class of a non-null value, as one of the getter kinds; None for
      null and for objects of any other class. */
  function KindOf(v: Value): Option<Kind>
  {
    match v
    case Str(_) => Some(StringKind)
    case Int(_) => Some(IntKind)
    case Double(_) => Some(DoubleKind)
    case Float(_) => Some(FloatKind)
    case Byte(_) => Some(ByteKind)
    case Short(_) => Some(ShortKind)
    case Long(_) => Some(LongKind)
    case Null => None
    case Other(_) => None
  }

  /** A NaN or infinite Double or Float: all exponent bits of its IEEE-754 pattern
      are set. Gson, unless told to serialize special floating-point values, refuses
      to encode these. */
  predicate NonFinite(v: Value)
  {
    match v
    case Double(bits) => (bits >> 52) & 0x7FF == 0x7FF
    case Float(bits) => (bits >> 23) & 0xFF == 0xFF
    case _ => false
  }

  /** Java's `(T) obj` where obj is an Object: a cast to String lets null through,
      a cast to a primitive type first casts to its wrapper class and then unboxes,
      so null fails with a NullPointerException; any other runtime class fails with
      a ClassCastException. No numeric widening takes place. */
  function Cast(v: Value, kind: Kind): (r: Result<Value>)
    ensures r.Success? <==> KindOf(v) == Some(kind) || (v == Null && kind == StringKind)
    ensures r.Success? ==> r.value == v
    ensures r.Failure? ==> r.error == (if v == Null then NullPointer else ClassCast)
  {
    if v == Null then
      if kind == StringKind then Success(Null) else Failure(NullPointer)
    else if KindOf(v) == Some(kind) then Success(v)
    else Failure(ClassCast)
  }
}
