/** The few pieces of the .NET runtime that the copier touches: boxed values,
    their runtime types, and the exceptions the core can raise. */
module Runtime {
  import opened Wrappers

  predicate InInt32(x: int) {
    -0x8000_0000 <= x < 0x8000_0000
  }

  /** System.Int32. */
  type Int32 = x: int | InInt32(x)

  /** A declared or runtime type. Int32 is the only value type of the model;
      every ClassT is a reference type. */
  datatype TypeTag = Int32T | StringT | ClassT(name: string)

  /** A property value as `object`: null, a boxed int, a string, or an instance
      of some other class, together with what its ToString() returns
      (None when that override returns null). */
  datatype Value =
    | Null
    | IntV(i: Int32)
    | StrV(s: string)
    | Other(className: string, text: Option<string>)

  /** `value?.GetType()`. */
  function RuntimeType(v: Value): Option<TypeTag> {
    match v
    case Null => None
    case IntV(_) => Some(Int32T)
    case StrV(_) => Some(StringT)
    case Other(c, _) => Some(ClassT(c))
  }

  /** What a property of type `declared` holds after reflection's SetValue(v):
      a null written to a value-type property becomes its default value. */
  function Stored(v: Value, declared: TypeTag): Value {
    if v.Null? && declared == Int32T then IntV(0) else v
  }

  /** The exceptions raised inside the core. */
  datatype Error =
    | ArgumentNull(paramName: string)   // ArgumentNullException(nameof(...))
    | FormatError                       // FormatException from Int32.Parse
    | OverflowError                     // OverflowException from Int32.Parse
    | InvalidCast                       // InvalidCastException from Convert.ToInt32
}
