/** The closed scalar value union stored by the map (package `scalar`).

    The source is a generic struct `Scalar[T]` whose type parameter ranges over
    six payload types; a value of it is one of six variants, which is what the
    datatype `Scalar` below is.  Accessors and `Type()` inspect the variant. */
module Scalar {

  import opened Wrappers

  newtype int64 = x: int | -0x8000_0000_0000_0000 <= x < 0x8000_0000_0000_0000
  newtype uint64 = x: int | 0 <= x < 0x1_0000_0000_0000_0000
  newtype byte = x: int | 0 <= x < 0x100

  /** A float64 payload is kept opaque: only its IEEE-754 bit pattern is
      recorded, nothing of its numeric meaning. */
  datatype float64 = Float64Bits(bits: uint64)

  /** The type discriminator: the constants `String`, `Int64`, `Uint64`,
      `Float64`, `ByteSlice` and `Bool` of the source, which numbers them 0..5
      in this order (see `Code`). */
  datatype Type = StringType | Int64Type | Uint64Type | Float64Type | ByteSliceType | BoolType

  /** The integer value of each type constant. */
  function Code(t: Type): (c: int)
    ensures 0 <= c < 6
  {
    match t
    case StringType => 0
    case Int64Type => 1
    case Uint64Type => 2
    case Float64Type => 3
    case ByteSliceType => 4
    case BoolType => 5
  }

  /** The type constant with integer value `c`, if there is one. */
  function TypeOfCode(c: int): (t: Option<Type>)
    ensures t.Some? <==> 0 <= c < 6
    ensures t.Some? ==> Code(t.value) == c
  {
    if c == 0 then Some(StringType)
    else if c == 1 then Some(Int64Type)
    else if c == 2 then Some(Uint64Type)
    else if c == 3 then Some(Float64Type)
    else if c == 4 then Some(ByteSliceType)
    else if c == 5 then Some(BoolType)
    else None
  }

  /** The constants are distinct: the code determines the type. */
  lemma CodeInjective(s: Type, t: Type)
    requires Code(s) == Code(t)
    ensures s == t
  {
  }

  /** A scalar: exactly one payload of one of the six types.  `New(v)` of the
      source is the constructor for `v`'s type. */
  datatype Scalar =
    | OfString(str: string)
    | OfInt64(i64: int64)
    | OfUint64(u64: uint64)
    | OfFloat64(f64: float64)
    | OfByteSlice(bytes: seq<byte>)
    | OfBool(boolean: bool)
  {
    /** The type constant of the stored payload. */
    function Type(): Type
    {
      match this
      case OfString(_) => StringType
      case OfInt64(_) => Int64Type
      case OfUint64(_) => Uint64Type
      case OfFloat64(_) => Float64Type
      case OfByteSlice(_) => ByteSliceType
      case OfBool(_) => BoolType
    }

    /** The string payload and true, or "" and false. */
    function String(): (r: (string, bool))
      ensures r.1 <==> Type() == StringType
      ensures r.1 ==> OfString(r.0) == this
      ensures !r.1 ==> r.0 == ""
    {
      if OfString? then (str, true) else ("", false)
    }

    /** The int64 payload and true, or 0 and false. */
    function Int64(): (r: (int64, bool))
      ensures r.1 <==> Type() == Int64Type
      ensures r.1 ==> OfInt64(r.0) == this
      ensures !r.1 ==> r.0 == 0
    {
      if OfInt64? then (i64, true) else (0, false)
    }

    /** The uint64 payload and true, or 0 and false. */
    function Uint64(): (r: (uint64, bool))
      ensures r.1 <==> Type() == Uint64Type
      ensures r.1 ==> OfUint64(r.0) == this
      ensures !r.1 ==> r.0 == 0
    {
      if OfUint64? then (u64, true) else (0, false)
    }

    /** The float64 payload and true, or +0.0 and false. */
    function Float64(): (r: (float64, bool))
      ensures r.1 <==> Type() == Float64Type
      ensures r.1 ==> OfFloat64(r.0) == this
      ensures !r.1 ==> r.0 == Float64Bits(0)
    {
      if OfFloat64? then (f64, true) else (Float64Bits(0), false)
    }

    /** The byte-slice payload and true, or the empty slice and false.  The
        model does not distinguish a nil slice from an empty one, so the nil
        slice the source returns on failure is the empty sequence here. */
    function ByteSlice(): (r: (seq<byte>, bool))
      ensures r.1 <==> Type() == ByteSliceType
      ensures r.1 ==> OfByteSlice(r.0) == this
      ensures !r.1 ==> r.0 == []
    {
      if OfByteSlice? then (bytes, true) else ([], false)
    }

    /** The bool payload and true, or false and false. */
    function Bool(): (r: (bool, bool))
      ensures r.1 <==> Type() == BoolType
      ensures r.1 ==> OfBool(r.0) == this
      ensures !r.1 ==> !r.0
    {
      if OfBool? then (boolean, true) else (false, false)
    }
  }

  /** The zero value of each payload type, as a scalar of that type. */
  function Zero(t: Type): (z: Scalar)
    ensures z.Type() == t
  {
    match t
    case StringType => OfString("")
    case Int64Type => OfInt64(0)
    case Uint64Type => OfUint64(0)
    case Float64Type => OfFloat64(Float64Bits(0))
    case ByteSliceType => OfByteSlice([])
    case BoolType => OfBool(false)
  }

  /** `Value(s, &v)`: the pair (what is stored in `*v`, the returned flag)
      for a target `v` of type `target`. */
  function Value(s: Scalar, target: Type): (r: (Scalar, bool))
    ensures r.0.Type() == target
    ensures r.1 <==> s.Type() == target
    ensures r.1 ==> r.0 == s
    ensures !r.1 ==> r.0 == Zero(target)
  {
    if s.Type() == target then (s, true) else (Zero(target), false)
  }

  /** Exactly the accessor of the stored type succeeds, and the payload it
      returns is the one the scalar was built from. */
  lemma AccessorsOfNew(s: Scalar)
    ensures s.OfString? ==> s.String() == (s.str, true) && !s.Int64().1 && !s.Uint64().1
                            && !s.Float64().1 && !s.ByteSlice().1 && !s.Bool().1
    ensures s.OfInt64? ==> s.Int64() == (s.i64, true) && !s.String().1 && !s.Uint64().1
                           && !s.Float64().1 && !s.ByteSlice().1 && !s.Bool().1
    ensures s.OfUint64? ==> s.Uint64() == (s.u64, true) && !s.String().1 && !s.Int64().1
                            && !s.Float64().1 && !s.ByteSlice().1 && !s.Bool().1
    ensures s.OfFloat64? ==> s.Float64() == (s.f64, true) && !s.String().1 && !s.Int64().1
                             && !s.Uint64().1 && !s.ByteSlice().1 && !s.Bool().1
    ensures s.OfByteSlice? ==> s.ByteSlice() == (s.bytes, true) && !s.String().1 && !s.Int64().1
                               && !s.Uint64().1 && !s.Float64().1 && !s.Bool().1
    ensures s.OfBool? ==> s.Bool() == (s.boolean, true) && !s.String().1 && !s.Int64().1
                          && !s.Uint64().1 && !s.Float64().1 && !s.ByteSlice().1
  {
  }

  /** `New(v).Type()` is the constant of `v`'s type. */
  lemma TypeOfNew(v: string, i: int64, u: uint64, f: float64, b: seq<byte>, x: bool)
    ensures OfString(v).Type() == StringType && Code(OfString(v).Type()) == 0
    ensures OfInt64(i).Type() == Int64Type && Code(OfInt64(i).Type()) == 1
    ensures OfUint64(u).Type() == Uint64Type && Code(OfUint64(u).Type()) == 2
    ensures OfFloat64(f).Type() == Float64Type && Code(OfFloat64(f).Type()) == 3
    ensures OfByteSlice(b).Type() == ByteSliceType && Code(OfByteSlice(b).Type()) == 4
    ensures OfBool(x).Type() == BoolType && Code(OfBool(x).Type()) == 5
  {
  }

  /** Reading a scalar back through `Value` with its own type returns it
      unchanged: `New(v)` holds exactly `v`. */
  lemma ValueRoundTrip(s: Scalar)
    ensures Value(s, s.Type()) == (s, true)
  {
  }
}
