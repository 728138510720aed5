# Mtf.Web property copier, modelled in Dafny

This project models the object-mapping core of Mtf.Web:

- `PropertyCopier` copies the public properties of a source object onto a target object. It has four policies:
  - `CopyMatchingProperties` copies by name and identical declared type;
  - `CopyAllExceptExcluded` does the same but skips `[Exclude]` properties;
  - `CopyOnlyIncluded` copies only `[Include]` properties;
  - `CopyWithMapping` renames and converts values through `[Map]`, checks the target by runtime assignability, and throws on null arguments.
- `BaseConverter<TModel, TDto>` builds a fresh DTO or model and fills it with `CopyMatchingProperties`.
- `MapAttribute` is the `[Map(targetProperty, converterType)]` attribute.
- The two value converters are `StringToIntConverter` (`Convert.ToInt32` under the invariant culture) and `ToStringConverter` (`value?.ToString() ?? ""`).

Reflection is given as data:
- A type is the sequence of its public instance properties (`Reflection.PropDesc`) in the order reflection lists them.
- An object is a `Reflection.Obj`, a reference whose `fields` map property names to values.
- The copy methods change `target.fields` in loops that mirror the source's `foreach` loops.
- Each method is specified by a function over the maps: `PropertyCopier.ExactCopy` for the three exact policies and `PropertyCopier.MappedCopy` for the mapped one.
- Source and target may be the same object. The mapped policy then reads back its own writes, and the model follows that.
- An exception becomes an `Outcome`. It ends the copy and keeps every write made before it; nothing is rolled back.

`Int32Text` models `Int32.Parse` with `NumberStyles.Integer` under the invariant culture, and `Int32.ToString()`. `StringToIntConverter` and `ToStringConverter` rest on it.

Modules and files:

| file | module | models |
|---|---|---|
| Wrappers.dfy | Wrappers | `Option`, `Result`, `Outcome` |
| Runtime.dfy | Runtime | `Int32`, boxed values, runtime types, value-type defaults on `SetValue(null)`, exceptions |
| Int32Text.dfy | Int32Text | decimal text of `Int32` |
| ValueConverters.dfy | ValueConverters | the two `IValueConverter` classes |
| MapAttribute.dfy | Attributes | `MapAttribute` |
| Reflection.dfy | Reflection | properties, objects, `Array.Find` / `FirstOrDefault` |
| PropertyCopier.dfy | PropertyCopier | the four copy policies |
| CopierLemmas.dfy | CopierLemmas | what the policies promise |
| BaseConverter.dfy | BaseConverter | `ToDto`, `ToModel`, the round trip |
| Scenarios.dfy | Scenarios | concrete cases of the above |

## Model

| member | source | states |
|---|---|---|
| Int32Text.Parse | Mtf.Web/Services/ValueConverters/StringToIntConverter.cs:13 | a successful parse lies in Int32; a failure is a FormatException or an OverflowException and nothing else |
| Int32Text.ParseAccepts | Mtf.Web/Services/ValueConverters/StringToIntConverter.cs:13 | every string of the form white space, optional sign, digits, white space, NULs parses to its signed value, or overflows exactly when that value is outside Int32 |
| Int32Text.ParseDecomposes | Mtf.Web/Services/ValueConverters/StringToIntConverter.cs:13 | conversely, every string that is not a FormatException has that form, so a FormatException happens exactly on malformed text, even when its digits would also overflow |
| Int32Text.Format | Mtf.Web/Services/ValueConverters/ToStringConverter.cs:13 | the text of an Int32 is canonical: a "-" exactly when it is negative, then a non-empty run of digits denoting its absolute value with no leading zero, 0 itself being exactly "0", and nothing else (no "+", no white space) |
| Int32Text.ParseFormat | Mtf.Web/Services/ValueConverters/ToStringConverter.cs:13 | the text `ToString()` gives an Int32 parses back to the same Int32 |
| ValueConverters.StringToInt | Mtf.Web/Services/ValueConverters/StringToIntConverter.cs:11-14 | null converts to 0; a boxed int converts to itself; a string succeeds exactly when it parses, with the parsed value or the parser's exception; any other object gives an InvalidCastException; a success is always a boxed int |
| ValueConverters.ToStringValue | Mtf.Web/Services/ValueConverters/ToStringConverter.cs:11-14 | never fails and never yields null; null gives ""; a string is returned unchanged; an int gives its canonical text (Int32Text.Format), which parses back to it; another object gives its ToString(), or "" when that is null |
| ValueConverters.Convert | Mtf.Web/Services/PropertyCopier.cs:122-123 | the kind named in [Map] is the converter applied: StringToIntConverter gives StringToInt's result (a success is an int), ToStringConverter always succeeds with ToStringValue's string |
| ValueConverters.StringToIntAfterToString | Mtf.Web/Services/ValueConverters/StringToIntConverter.cs:13 | StringToIntConverter applied to ToStringConverter's output for an int gives back that int |
| ValueConverters.ToStringOf123 | Mtf.Web/Services/ValueConverters/ToStringConverter.cs:13 | the int 123 becomes the string "123" |
| Reflection.FindFirst | Mtf.Web/Services/PropertyCopier.cs:28-31 | the result is the least index whose element satisfies the predicate, or none when no element does |
| PropertyCopier.ExactCopy | Mtf.Web/Services/PropertyCopier.cs:21-38 | an exact policy never removes a target property (its full effect is ExactCopyWrites) |
| PropertyCopier.CopyExact | Mtf.Web/Services/PropertyCopier.cs:21-38 | the loop leaves the target holding ExactCopy of the old source and target values and does not change a distinct source, also when source and target are one object |
| PropertyCopier.CopyMatchingProperties | Mtf.Web/Services/PropertyCopier.cs:11-39 | a null source or target changes nothing; otherwise the target becomes the Matching copy and a distinct source is unchanged |
| PropertyCopier.CopyAllExceptExcluded | Mtf.Web/Services/PropertyCopier.cs:41-69 | as CopyMatchingProperties, under the policy that skips [Exclude] properties |
| PropertyCopier.CopyOnlyIncluded | Mtf.Web/Services/PropertyCopier.cs:71-99 | as CopyMatchingProperties, under the policy that takes only [Include] properties |
| PropertyCopier.MapValue | Mtf.Web/Services/PropertyCopier.cs:114-125 | without [Map], the name and raw value pass through and nothing fails; with [Map], the result succeeds exactly when the declared converter does, a success carries the attribute's target name and the converter's output, and a failure carries the converter's exception |
| PropertyCopier.MappedCopy | Mtf.Web/Services/PropertyCopier.cs:137-161 | the mapped copy never removes a target property, whether it completes or throws (what it writes is CopierLemmas.MappedCopyWrites, and when it throws is CopierLemmas.MappedCopyThrows) |
| PropertyCopier.MappedCopyStops | Mtf.Web/Services/PropertyCopier.cs:150 | an exception ends the loop: once thrown, the properties left unvisited change nothing |
| PropertyCopier.CopyProperties | Mtf.Web/Services/PropertyCopier.cs:128-162 | the loop leaves the target holding MappedCopy's values and returns its exception, if any, reading the current target when source and target are one object |
| PropertyCopier.CopyWithMapping | Mtf.Web/Services/PropertyCopier.cs:101-126 | a null source throws ArgumentNullException("source") and is checked first; a null target throws ArgumentNullException("target"); neither changes the target; otherwise it is CopyProperties with the caller's filter or one that admits everything |
| CopierLemmas.ExactCopyWrites | Mtf.Web/Services/PropertyCopier.cs:21-38 | target property k is written exactly when some readable source property named k passes the policy's marker test and a writable target property has its name and declared type; it then holds the source's value; every other property keeps its value; none is removed |
| CopierLemmas.ExactCopyOntoItself | Mtf.Web/Services/PropertyCopier.cs:21-38 | copying an object onto itself under an exact policy changes nothing |
| CopierLemmas.MatchingSameShape | Mtf.Web/Services/PropertyCopier.cs:28-36 | between two objects of one type, Matching copies every property that is both readable and writable, whatever other get-only or set-only properties the type has |
| CopierLemmas.MarkedOutNeverCopied | Mtf.Web/Services/PropertyCopier.cs:53-86 | a property that fails the marker test ([Exclude] under ExceptExcluded, line 53; no [Include] under OnlyIncluded, line 83) is never written |
| CopierLemmas.MarkedPolicyIsMatching | Mtf.Web/Services/PropertyCopier.cs:51-98 | ExceptExcluded (the loop at lines 51-68) and OnlyIncluded (lines 81-98) are exactly Matching over the source properties their marker test lets through |
| CopierLemmas.MappedCopyFrame | Mtf.Web/Services/PropertyCopier.cs:155-160 | the mapped copy writes only names that some visited source property is copied under (its own name or its [Map] target); all other properties keep their values, whether the copy completes or throws |
| PropertyCopier.StepWrite | Mtf.Web/Services/PropertyCopier.cs:144-160 | a visited property writes only when it passes the filter and its conversion succeeds; it writes under its mapped name, into the first writable target property whose type accepts the converted value, the converted value as SetValue stores it; when no target property accepts the value it writes nothing |
| CopierLemmas.MappedCopyWrites | Mtf.Web/Services/PropertyCopier.cs:137-161 | when a mapped copy between distinct objects completes, each name holds the value written by the last visited property whose write targets that name; a name no visited property writes keeps its value; no other name is added |
| CopierLemmas.MappedCopyThrows | Mtf.Web/Services/PropertyCopier.cs:137-161 | a mapped copy between distinct objects throws exactly when the conversion of some visited, included property throws, and its exception is that of the first such property |
| CopierLemmas.ToStringMapsNeverThrow | Mtf.Web/Services/PropertyCopier.cs:122-123 | a mapped copy between distinct objects whose [Map] declarations all name ToStringConverter never throws |
| CopierLemmas.ConverterFailureStopsCopy | Mtf.Web/Services/PropertyCopier.cs:144-153 | when the converter of the i-th visited property throws, the copy ends with that exception and exactly the writes made before i, whatever the target type |
| CopierLemmas.MappedNullGoesToFirstWritable | Mtf.Web/Services/PropertyCopier.cs:155-160 | a null value goes to the first writable target property of the mapped name, whatever its declared type; an int property then stores 0 |
| CopierLemmas.MappedWithoutMapIsMatching | Mtf.Web/Services/PropertyCopier.cs:155-158 | between distinct source and target objects, with no [Map], no filter, non-null well-typed values and assignability that is type identity, the mapped copy writes exactly what Matching writes and never throws |
| BaseConverter.BaseConverter.constructor | Mtf.Web/Services/BaseConverter.cs:11-13 | the converter fixes both types and the values their parameterless constructors produce |
| BaseConverter.BaseConverter.ToDto | Mtf.Web/Services/BaseConverter.cs:20-30 | null gives null; otherwise a fresh DTO holding the Matching copy of the model over the DTO's defaults; the model is unchanged |
| BaseConverter.BaseConverter.ToModel | Mtf.Web/Services/BaseConverter.cs:37-47 | null gives null; otherwise a fresh model holding the Matching copy of the DTO over the model's defaults; the DTO is unchanged |
| BaseConverter.RoundTripWrites | Mtf.Web/Services/BaseConverter.cs:20-47 | after ToModel(ToDto(m)), a model property comes from m when Matching carries it both ways, from the DTO's default when only the way back carries it, and is the model's default otherwise |
| BaseConverter.RoundTripShared | Mtf.Web/Services/BaseConverter.cs:7 | a property both types have, readable and writable with one declared type, survives the round trip |
| BaseConverter.RoundTripModelOnly | Mtf.Web/Services/BaseConverter.cs:44-45 | a property the DTO lacks comes back as the new model's default |
| Scenarios.ParseOf42 | Mtf.Web/Services/ValueConverters/StringToIntConverter.cs:13 | "42" parses to 42 |
| Scenarios.ParseOfAbc | Mtf.Web/Services/ValueConverters/StringToIntConverter.cs:13 | "abc" is a FormatException, not 0 |
| Scenarios.AgeTextConverted | Mtf.Web/Services/PropertyCopier.cs:114-124 | a string AgeText "42" marked [Map("Age", StringToIntConverter)] lands in an int Age as 42 |
| Scenarios.MalformedAgeKeepsEarlierWrites | Mtf.Web/Services/PropertyCopier.cs:123 | with AgeText "abc", the copy throws FormatException; the Name copied before it keeps its new value and Age its old one |
| Scenarios.ExceptExcludedSkipsMarked | Mtf.Web/Services/PropertyCopier.cs:53 | of A [Exclude], B and C, ExceptExcluded copies B and C only |
| Scenarios.OnlyIncludedTakesMarked | Mtf.Web/Services/PropertyCopier.cs:83 | of A [Include], B and C, OnlyIncluded copies A only |
| Scenarios.MappedLooserThanMatching | Mtf.Web/Services/PropertyCopier.cs:155-158 | a string property and an object-typed property of the same name: Matching skips it, while the mapped copy writes it |
| Scenarios.SecretDoesNotSurvive | Mtf.Web/Services/BaseConverter.cs:44-45 | for a model {Id, Name, Secret} and a DTO {Id, Name}, the round trip keeps Id and Name and resets Secret to its default |
| Scenarios.ModelDtoRoundTrip | Mtf.Web/Services/BaseConverter.cs:20-47 | the same round trip, through the ToDto and ToModel methods |

## Left out

- Reflection itself is given as data. The model does not find properties, read attributes or invoke accessors. It takes each type's property list as reflection returns it, and the order of that list is an input.
- Getters and setters are plain reads and writes. Accessor side effects and accessor exceptions are not modelled.
- PropertyCopier.CopyMatchingProperties: `GetProperties()` without binding flags also lists public static properties of both types, but the model lists instance properties only. So it misses two kinds of access when the two types differ. One is writes to a static property of the target type from a same-named, same-typed property of the source type. Such a write is global state and also happens inside `ToDto` and `ToModel`. The other is reads from a static source property into an instance target property.
- Indexers are not modelled. A public readable indexer is in the `GetProperties` list, and `GetValue` on it without index arguments throws TargetParameterCountException. The mapped policy reads every included property before looking for a target, so an unfiltered `CopyWithMapping` from such a type throws. The exact policies throw the same way once an indexer finds a matching target.
- Property hiding is not modelled. Two properties with one name but different declaring types (a `new` property) share one name slot in `Obj.fields`.
- BaseConverter.BaseConverter.constructor: `new TModel()` and `new TDto()` are modelled as one fixed set of default values per type. So the parameterless constructors are taken to be deterministic and free of side effects. A constructor that draws a fresh identifier, for example, is not modelled, and the "model's default" in `RoundTripWrites` relies on this.
- The properties' declared and runtime types are limited to Int32, string and named classes. Int32 is the only value type, so it is the only type whose `SetValue(null)` stores a default (0).
- PropertyCopier.CopyProperties takes `IsAssignableFrom` as a parameter (`Assignability`). The class hierarchy is not modelled. The lemmas state the properties they need from it, such as reflexivity.
- PropertyCopier.CopyWithMapping takes the include filter as a total, side-effect-free function. A filter that throws is not modelled.
- ValueConverters.Convert: only the two converter classes of the core can be named in `[Map]`. Other `IValueConverter` types, and `Activator.CreateInstance` failing on a bad converter type, are not modelled.
- ValueConverters.StringToInt: `Convert.ToInt32` also accepts other `IConvertible` values (bool, long, double, ...). The model gives InvalidCastException for every object that is not null, an int or a string.
- ValueConverters.ToStringValue: `ToString()` on an int uses the current culture's negative sign. The model uses "-", the invariant culture's sign.
- The `IConverter` and `IValueConverter` interfaces, the repository interfaces and the Web API controllers are context, not part of this model. The interface is a dispatch on `ConverterKind`.
- The doc comment of StringToIntConverter says invalid input gives zero. The code calls `Convert.ToInt32`, which throws FormatException on malformed text. The model follows the code (`Scenarios.ParseOfAbc`).
- The exact policies copy the source's value as it is. A null in an Int32 source property cannot occur, because the source's declared type matches.
- CopierLemmas.MappedCopyWrites: stated only for a copy between distinct objects that completes (MappedCopyThrows says which copies those are). A copy that throws is covered by ConverterFailureStopsCopy: its state is what the copy before the failing property wrote, and this lemma applied to that prefix gives it. When source and target are one object, each read sees earlier writes, and no per-name summary is stated for that case (MappedCopyFrame still holds for it).
- CopierLemmas.MappedCopyThrows: stated only for distinct source and target objects. When they are one object, a property's value is read after the earlier writes, so whether its conversion throws depends on them; ConverterFailureStopsCopy covers that case one failing property at a time.
- Value-type arguments are not modelled. The generic methods of `PropertyCopier` do not constrain `TSource` or `TTarget`. For a struct `TTarget`, `target == null` is false and `SetValue` writes into a boxed copy of the by-value argument, so the caller's target never changes. The model's objects are references, so its copies always write the target.
- A null target name in `[Map(null, ...)]` is not modelled: `MapAttribute.targetProperty` is a string. In the source, such a property is still read and converted, and so may throw, but no target property has a null name, so nothing is written.
