/** PropertyCopier: writes the public properties of a target object from those
    of a source object under one of four policies. The three exact policies
    (Matching, ExceptExcluded, OnlyIncluded) pair properties by name and
    identical declared type; CopyWithMapping renames and converts through [Map]
    and checks the target by runtime assignability.

    Each policy is a method whose loop changes `target.fields`; its effect is
    specified by a function over the property maps (ExactCopy, MappedCopy),
    whose properties are proved in module CopierLemmas. */
module PropertyCopier {
  import opened Wrappers
  import opened Runtime
  import opened ValueConverters
  import opened Attributes
  import opened Reflection

  /* ---------- The exact-match policies ---------- */

  datatype Policy = Matching | ExceptExcluded | OnlyIncluded

  /** Whether a policy copies the source property at all: it must be readable,
      and not marked [Exclude] / marked [Include] for the two filtered ones. */
  predicate Admits(policy: Policy, sp: PropDesc) {
    sp.canRead && MarkerAllows(policy, sp)
  }

  /** The marker condition of a policy, apart from readability. */
  predicate MarkerAllows(policy: Policy, sp: PropDesc) {
    match policy
    case Matching => true
    case ExceptExcluded => !sp.hasExclude
    case OnlyIncluded => sp.hasInclude
  }

  /** The lookup predicate of the exact policies: same name, writable, and
      the identical declared type. */
  predicate ExactTarget(sp: PropDesc, p: PropDesc) {
    p.name == sp.name && p.canWrite && p.typeTag == sp.typeTag
  }

  /** One iteration of an exact policy's loop, on source property sp. */
  function ExactStep(policy: Policy, sp: PropDesc, targetType: TypeDesc,
                     src: map<string, Value>, cur: map<string, Value>): map<string, Value>
    requires Admits(policy, sp) ==> sp.name in src
  {
    if !Admits(policy, sp) then cur
    else match FindFirst(targetType, p => ExactTarget(sp, p))
      case None => cur
      case Some(j) => cur[targetType[j].name := src[sp.name]]
  }

  /** The target's property values after an exact policy has visited the
      source properties `props` in order, starting from `tgt` and reading `src`.
      No property is ever removed from the target. */
  function ExactCopy(policy: Policy, props: TypeDesc, targetType: TypeDesc,
                     src: map<string, Value>, tgt: map<string, Value>): (r: map<string, Value>)
    requires ConformsTo(src, props)
    ensures tgt.Keys <= r.Keys
    decreases |props|
  {
    if props == [] then tgt
    else
      var n := |props| - 1;
      ExactStep(policy, props[n], targetType, src, ExactCopy(policy, props[..n], targetType, src, tgt))
  }

  /** The loop shared by the three exact policies: they differ only in the
      guard (Admits) that skips a source property. */
  method CopyExact(policy: Policy, sourceType: TypeDesc, targetType: TypeDesc, source: Obj, target: Obj)
    requires ConformsTo(source.fields, sourceType)
    modifies target
    ensures target.fields == ExactCopy(policy, sourceType, targetType, old(source.fields), old(target.fields))
    ensures source != target ==> unchanged(source)
  {
    ghost var src, tgt := source.fields, target.fields;
    for i := 0 to |sourceType|
      invariant target.fields == ExactCopy(policy, sourceType[..i], targetType, src, tgt)
      invariant source == target ==> target.fields == tgt
      invariant source != target ==> source.fields == src
    {
      assert sourceType[..i + 1][..i] == sourceType[..i];
      var sp := sourceType[i];
      if !Admits(policy, sp) {
        continue;
      }
      var targetProp := FindFirst(targetType, p => ExactTarget(sp, p));
      if targetProp.Some? {
        var value := source.fields[sp.name];
        target.fields := target.fields[targetType[targetProp.value].name := value];
      }
    }
    assert sourceType[..|sourceType|] == sourceType;
  }

  /** CopyMatchingProperties: a no-op when either object is null; otherwise
      every readable source property is copied to the first writable target
      property with its name and declared type. */
  method CopyMatchingProperties(sourceType: TypeDesc, targetType: TypeDesc, source: Obj?, target: Obj?)
    requires source != null ==> ConformsTo(source.fields, sourceType)
    modifies target
    ensures target != null ==>
      target.fields == if source == null then old(target.fields)
                       else ExactCopy(Matching, sourceType, targetType, old(source.fields), old(target.fields))
    ensures source != null && source != target ==> unchanged(source)
  {
    if source == null || target == null {
      return;
    }
    CopyExact(Matching, sourceType, targetType, source, target);
  }

  /** CopyAllExceptExcluded: as Matching, but skips source properties marked [Exclude]. */
  method CopyAllExceptExcluded(sourceType: TypeDesc, targetType: TypeDesc, source: Obj?, target: Obj?)
    requires source != null ==> ConformsTo(source.fields, sourceType)
    modifies target
    ensures target != null ==>
      target.fields == if source == null then old(target.fields)
                       else ExactCopy(ExceptExcluded, sourceType, targetType, old(source.fields), old(target.fields))
    ensures source != null && source != target ==> unchanged(source)
  {
    if source == null || target == null {
      return;
    }
    CopyExact(ExceptExcluded, sourceType, targetType, source, target);
  }

  /** CopyOnlyIncluded: as Matching, but only for source properties marked [Include]. */
  method CopyOnlyIncluded(sourceType: TypeDesc, targetType: TypeDesc, source: Obj?, target: Obj?)
    requires source != null ==> ConformsTo(source.fields, sourceType)
    modifies target
    ensures target != null ==>
      target.fields == if source == null then old(target.fields)
                       else ExactCopy(OnlyIncluded, sourceType, targetType, old(source.fields), old(target.fields))
    ensures source != null && source != target ==> unchanged(source)
  {
    if source == null || target == null {
      return;
    }
    CopyExact(OnlyIncluded, sourceType, targetType, source, target);
  }

  /* ---------- The mapped policy ---------- */

  /** `Type.IsAssignableFrom(declared, actual)`: the runtime's subtyping
      relation, which is user code beyond the model and so a parameter. */
  type Assignability = (TypeTag, TypeTag) -> bool

  /** The state of a mapped copy: the target's property values, and the
      exception that ended the copy, if one did. */
  datatype Partial = Partial(fields: map<string, Value>, error: Option<Error>)

  /** `includeFilter ?? (p => true)`. */
  function IncludeOrAll(includeFilter: Option<PropDesc -> bool>): PropDesc -> bool {
    includeFilter.GetOr(p => true)
  }

  /** The guard of CopyProperties: readable and accepted by the filter. */
  predicate Included(filter: PropDesc -> bool, sp: PropDesc) {
    sp.canRead && filter(sp)
  }

  /** The target name a source property is copied under. */
  function TargetName(sp: PropDesc): string {
    match sp.mapAttr
    case None => sp.name
    case Some(attr) => attr.targetProperty
  }

  /** The mapConverter lambda of CopyWithMapping: without [Map] the property
      keeps its name and raw value; with [Map] it takes the attribute's target
      name and the value passes through the declared converter. */
  function MapValue(sp: PropDesc, v: Value): (r: Result<(string, Value), Error>)
    ensures r.Success? ==> r.value.0 == TargetName(sp)
    ensures sp.mapAttr.None? ==> r == Success((sp.name, v))
    ensures sp.mapAttr.Some? ==> r.Success? == Convert(sp.mapAttr.value.converterType, v).Success?
    ensures sp.mapAttr.Some? && r.Success? ==> r.value.1 == Convert(sp.mapAttr.value.converterType, v).value
    ensures r.Failure? ==> sp.mapAttr.Some? && r.error == Convert(sp.mapAttr.value.converterType, v).error
  {
    match sp.mapAttr
    case None => Success((sp.name, v))
    case Some(attr) =>
      match Convert(attr.converterType, v)
      case Success(c) => Success((attr.targetProperty, c))
      case Failure(e) => Failure(e)
  }

  /** The lookup predicate of CopyProperties:
      `p.Name == name && p.CanWrite &&
       p.PropertyType.IsAssignableFrom(value?.GetType() ?? p.PropertyType)`. */
  predicate AcceptsValue(assignable: Assignability, name: string, v: Value, p: PropDesc) {
    p.name == name && p.canWrite && assignable(p.typeTag, RuntimeType(v).GetOr(p.typeTag))
  }

  /** What one visited source property writes in a mapped copy that reads
      from `src`: when it is included and its conversion succeeds, the first
      writable target property of its mapped name that accepts the converted
      value gets that value, as SetValue stores it. None when it is skipped,
      its conversion fails or no target property accepts it. */
  function StepWrite(sp: PropDesc, targetType: TypeDesc, src: map<string, Value>,
                     filter: PropDesc -> bool, assignable: Assignability): (w: Option<(string, Value)>)
    requires Included(filter, sp) ==> sp.name in src
    ensures w.Some? ==> Included(filter, sp) && MapValue(sp, src[sp.name]).Success? && w.value.0 == TargetName(sp)
    ensures w.Some? ==>
      var nv := MapValue(sp, src[sp.name]).value;
      exists j :: 0 <= j < |targetType| && AcceptsValue(assignable, nv.0, nv.1, targetType[j]) &&
        (forall i :: 0 <= i < j ==> !AcceptsValue(assignable, nv.0, nv.1, targetType[i])) &&
        w.value.1 == Stored(nv.1, targetType[j].typeTag)
    ensures w.None? && Included(filter, sp) && MapValue(sp, src[sp.name]).Success? ==>
      var nv := MapValue(sp, src[sp.name]).value;
      forall j :: 0 <= j < |targetType| ==> !AcceptsValue(assignable, nv.0, nv.1, targetType[j])
  {
    if !Included(filter, sp) then None
    else match MapValue(sp, src[sp.name])
      case Failure(_) => None
      case Success(nv) =>
        match FindFirst(targetType, p => AcceptsValue(assignable, nv.0, nv.1, p))
        case None => None
        case Some(j) => Some((targetType[j].name, Stored(nv.1, targetType[j].typeTag)))
  }

  /** One iteration of CopyProperties on source property sp, reading its value
      from `srcFields` and writing into `cur`: a converter exception ends the
      copy, otherwise StepWrite's write, if any, is applied. The value is read
      and converted before any target lookup, so a converter failure does not
      depend on the target type. */
  function MappedStep(sp: PropDesc, targetType: TypeDesc, srcFields: map<string, Value>,
                      cur: map<string, Value>, filter: PropDesc -> bool, assignable: Assignability): Partial
    requires Included(filter, sp) ==> sp.name in srcFields
  {
    if Included(filter, sp) && MapValue(sp, srcFields[sp.name]).Failure? then
      Partial(cur, Some(MapValue(sp, srcFields[sp.name]).error))
    else match StepWrite(sp, targetType, srcFields, filter, assignable)
      case None => Partial(cur, None)
      case Some(w) => Partial(cur[w.0 := w.1], None)
  }

  /** The state after CopyProperties has visited `props` in order. When source
      and target are one object (`aliased`), each read sees the writes made
      so far. The first exception ends the copy and keeps every earlier write.
      No property is ever removed from the target. */
  function MappedCopy(props: TypeDesc, targetType: TypeDesc, src: map<string, Value>, tgt: map<string, Value>,
                      aliased: bool, filter: PropDesc -> bool, assignable: Assignability): (r: Partial)
    requires ConformsTo(src, props) && (aliased ==> src == tgt)
    ensures tgt.Keys <= r.fields.Keys
    decreases |props|
  {
    if props == [] then Partial(tgt, None)
    else
      var n := |props| - 1;
      var prev := MappedCopy(props[..n], targetType, src, tgt, aliased, filter, assignable);
      if prev.error.Some? then prev
      else MappedStep(props[n], targetType, if aliased then prev.fields else src, prev.fields, filter, assignable)
  }

  /** Once a mapped copy has thrown, visiting more properties changes nothing. */
  lemma {:induction false} MappedCopyStops(props: TypeDesc, targetType: TypeDesc, src: map<string, Value>,
                                           tgt: map<string, Value>, aliased: bool, filter: PropDesc -> bool,
                                           assignable: Assignability, i: nat)
    requires ConformsTo(src, props) && (aliased ==> src == tgt) && i <= |props|
    requires MappedCopy(props[..i], targetType, src, tgt, aliased, filter, assignable).error.Some?
    ensures MappedCopy(props, targetType, src, tgt, aliased, filter, assignable)
         == MappedCopy(props[..i], targetType, src, tgt, aliased, filter, assignable)
    decreases |props| - i
  {
    if i < |props| {
      assert props[..i + 1][..i] == props[..i];
      MappedCopyStops(props, targetType, src, tgt, aliased, filter, assignable, i + 1);
    } else {
      assert props[..i] == props;
    }
  }

  /** MappedCopy over one more property, when no exception has occurred yet. */
  lemma MappedCopyNext(props: TypeDesc, targetType: TypeDesc, src: map<string, Value>,
                       tgt: map<string, Value>, aliased: bool, filter: PropDesc -> bool,
                       assignable: Assignability, i: nat)
    requires ConformsTo(src, props) && (aliased ==> src == tgt) && i < |props|
    requires MappedCopy(props[..i], targetType, src, tgt, aliased, filter, assignable).error.None?
    ensures var prev := MappedCopy(props[..i], targetType, src, tgt, aliased, filter, assignable).fields;
      MappedCopy(props[..i + 1], targetType, src, tgt, aliased, filter, assignable)
      == MappedStep(props[i], targetType, if aliased then prev else src, prev, filter, assignable)
  {
    assert props[..i + 1][..i] == props[..i];
  }

  /** CopyProperties: the loop of the mapped policy. */
  method CopyProperties(sourceType: TypeDesc, targetType: TypeDesc, source: Obj, target: Obj,
                        filter: PropDesc -> bool, assignable: Assignability) returns (outcome: Outcome<Error>)
    requires ConformsTo(source.fields, sourceType)
    modifies target
    ensures var r := MappedCopy(sourceType, targetType, old(source.fields), old(target.fields),
                                source == target, filter, assignable);
      target.fields == r.fields && outcome == (if r.error.Some? then Fail(r.error.value) else Pass)
    ensures source != target ==> unchanged(source)
  {
    ghost var src, tgt := source.fields, target.fields;
    ghost var aliased := source == target;
    for i := 0 to |sourceType|
      invariant var r := MappedCopy(sourceType[..i], targetType, src, tgt, aliased, filter, assignable);
        r.error.None? && target.fields == r.fields
      invariant aliased ==> source.fields == target.fields
      invariant !aliased ==> source.fields == src
    {
      MappedCopyNext(sourceType, targetType, src, tgt, aliased, filter, assignable, i);
      var sourceProp := sourceType[i];
      if !sourceProp.canRead || !filter(sourceProp) {
        continue;
      }
      var srcValue := source.fields[sourceProp.name];
      var mapped := MapValue(sourceProp, srcValue);
      if mapped.Failure? {
        MappedCopyStops(sourceType, targetType, src, tgt, aliased, filter, assignable, i + 1);
        return Fail(mapped.error);
      }
      var name, value := mapped.value.0, mapped.value.1;
      var targetProperty := FindFirst(targetType, p => AcceptsValue(assignable, name, value, p));
      if targetProperty.Some? {
        var tp := targetType[targetProperty.value];
        target.fields := target.fields[tp.name := Stored(value, tp.typeTag)];
      }
    }
    assert sourceType[..|sourceType|] == sourceType;
    return Pass;
  }

  /** CopyWithMapping: unlike the exact policies it throws on a null source
      (checked first) or a null target, leaving the target untouched; it then
      runs CopyProperties with the caller's filter or one that admits all. */
  method CopyWithMapping(sourceType: TypeDesc, targetType: TypeDesc, source: Obj?, target: Obj?,
                         includeFilter: Option<PropDesc -> bool>, assignable: Assignability)
    returns (outcome: Outcome<Error>)
    requires source != null ==> ConformsTo(source.fields, sourceType)
    modifies target
    ensures source == null ==> outcome == Fail(ArgumentNull("source"))
    ensures source != null && target == null ==> outcome == Fail(ArgumentNull("target"))
    ensures target != null && source == null ==> unchanged(target)
    ensures source != null && target != null ==>
      var r := MappedCopy(sourceType, targetType, old(source.fields), old(target.fields),
                          source == target, IncludeOrAll(includeFilter), assignable);
      target.fields == r.fields && outcome == (if r.error.Some? then Fail(r.error.value) else Pass)
    ensures source != null && source != target ==> unchanged(source)
  {
    if source == null {
      return Fail(ArgumentNull("source"));
    }
    if target == null {
      return Fail(ArgumentNull("target"));
    }
    outcome := CopyProperties(sourceType, targetType, source, target, IncludeOrAll(includeFilter), assignable);
  }
}
