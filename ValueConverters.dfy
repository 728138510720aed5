/** The two IValueConverter implementations. A converter is chosen by
    ConverterKind, which stands for the converter type a [Map] declaration names
    and which CopyWithMapping instantiates with Activator.CreateInstance. Both
    converters are stateless, so each is a function of the value alone. */
module ValueConverters {
  import opened Wrappers
  import opened Runtime
  import Int32Text

  datatype ConverterKind = StringToIntConverter | ToStringConverter

  /** StringToIntConverter.Convert: Convert.ToInt32(value, InvariantCulture).
      null gives 0, a boxed int is itself, a string is parsed (a malformed one
      is a FormatError, not 0), and any other object is an InvalidCast. */
  function StringToInt(value: Value): (r: Result<Value, Error>)
    ensures r.Success? ==> r.value.IntV?
    ensures value.Null? ==> r == Success(IntV(0))
    ensures value.IntV? ==> r == Success(value)
    ensures value.StrV? ==> (r.Success? <==> Int32Text.Parse(value.s).Success?)
    ensures value.StrV? && r.Success? ==> r.value.i == Int32Text.Parse(value.s).value
    ensures value.StrV? && r.Failure? ==> r.error == Int32Text.Parse(value.s).error
    ensures value.Other? ==> r == Failure(InvalidCast)
  {
    match value
    case Null => Success(IntV(0))
    case IntV(_) => Success(value)
    case StrV(s) =>
      (match Int32Text.Parse(s)
       case Success(n) => Success(IntV(n))
       case Failure(e) => Failure(e))
    case Other(_, _) => Failure(InvalidCast)
  }

  /** ToStringConverter.Convert: `value?.ToString() ?? String.Empty`.
      Never fails and never yields null. */
  function ToStringValue(value: Value): (r: Value)
    ensures r.StrV?
    ensures value.Null? ==> r.s == ""
    ensures value.StrV? ==> r == value
    ensures value.IntV? ==> r.s == Int32Text.Format(value.i)
    ensures value.IntV? ==> Int32Text.Parse(r.s) == Success(value.i as int)
    ensures value.Other? ==> r.s == value.text.GetOr("")
  {
    match value
    case Null => StrV("")
    case IntV(i) => Int32Text.ParseFormat(i); StrV(Int32Text.Format(i))
    case StrV(_) => value
    case Other(_, text) => StrV(text.GetOr(""))
  }

  /** IValueConverter.Convert on the converter of the given kind. */
  function Convert(kind: ConverterKind, value: Value): (r: Result<Value, Error>)
    ensures kind == ToStringConverter ==> r.Success? && r.value.StrV?
    ensures kind == StringToIntConverter && r.Success? ==> r.value.IntV?
    ensures kind == StringToIntConverter ==> r == StringToInt(value)
    ensures kind == ToStringConverter ==> r == Success(ToStringValue(value))
  {
    match kind
    case StringToIntConverter => StringToInt(value)
    case ToStringConverter => Success(ToStringValue(value))
  }

  /** Converting an int to text and back gives the same int. */
  lemma StringToIntAfterToString(i: Int32)
    ensures StringToInt(ToStringValue(IntV(i))) == Success(IntV(i))
  {
  }

  /** An int becomes its decimal text: 123 becomes "123". */
  lemma ToStringOf123()
    ensures ToStringValue(IntV(123)) == StrV("123")
  {
  }
}
