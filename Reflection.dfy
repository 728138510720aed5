/** What the copier learns through reflection, given as data: a type is the
    sequence of its public instance properties in enumeration order, and an
    object is a reference to the values of its properties by name. */
module Reflection {
  import opened Wrappers
  import opened Runtime
  import opened Attributes

  /** A PropertyInfo: its name, declared type, whether it has a getter and a
      setter, whether it carries [Include] or [Exclude], and its [Map]
      attribute if it has one. */
  datatype PropDesc = PropDesc(
    name: string,
    typeTag: TypeTag,
    canRead: bool,
    canWrite: bool,
    hasInclude: bool,
    hasExclude: bool,
    mapAttr: Option<MapAttribute>)

  /** `typeof(T).GetProperties(BindingFlags.Public | BindingFlags.Instance)`. */
  type TypeDesc = seq<PropDesc>

  /** An instance of a type holds a value for each of the type's properties. */
  predicate ConformsTo(fields: map<string, Value>, t: TypeDesc) {
    forall i :: 0 <= i < |t| ==> t[i].name in fields
  }

  /** A reference-type instance; its property values change in place. */
  class Obj {
    var fields: map<string, Value>

    constructor (fields: map<string, Value>)
      ensures this.fields == fields
    {
      this.fields := fields;
    }
  }

  /** `Array.Find` / `FirstOrDefault`: the position of the first element
      that satisfies `pred`, if there is one. */
  function FindFirst<T>(s: seq<T>, pred: T -> bool): (r: Option<nat>)
    ensures r.Some? ==> r.value < |s| && pred(s[r.value])
    ensures r.Some? ==> forall k :: 0 <= k < r.value ==> !pred(s[k])
    ensures r.None? ==> forall k :: 0 <= k < |s| ==> !pred(s[k])
  {
    if s == [] then None
    else if pred(s[0]) then Some(0)
    else match FindFirst(s[1..], pred)
      case None => None
      case Some(j) => Some(j + 1)
  }

  /** FindFirst gives the same answer for two predicates that agree on s. */
  lemma FindFirstAgrees<T>(s: seq<T>, p: T -> bool, q: T -> bool)
    requires forall k :: 0 <= k < |s| ==> p(s[k]) == q(s[k])
    ensures FindFirst(s, p) == FindFirst(s, q)
  {
  }
}
