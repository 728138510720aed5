/** What the four copy policies promise, proved about ExactCopy and MappedCopy,
    the functions the PropertyCopier methods are specified by. */
module CopierLemmas {
  import opened Wrappers
  import opened Runtime
  import opened ValueConverters
  import opened Attributes
  import opened Reflection
  import opened PropertyCopier

  /* ---------- Exact policies ---------- */

  /** Some writable target property has sp's name and declared type. */
  ghost predicate HasExactTarget(targetType: TypeDesc, sp: PropDesc) {
    exists j :: 0 <= j < |targetType| && ExactTarget(sp, targetType[j])
  }

  /** An exact policy writes target property k: some source property named k
      is admitted by the policy and has an exact target. */
  ghost predicate Copied(policy: Policy, props: TypeDesc, targetType: TypeDesc, k: string) {
    exists i :: 0 <= i < |props| && props[i].name == k && Admits(policy, props[i]) && HasExactTarget(targetType, props[i])
  }

  lemma CopiedSnoc(policy: Policy, props: TypeDesc, targetType: TypeDesc, k: string)
    requires props != []
    ensures var n := |props| - 1;
      Copied(policy, props, targetType, k) <==>
        Copied(policy, props[..n], targetType, k) ||
        (props[n].name == k && Admits(policy, props[n]) && HasExactTarget(targetType, props[n]))
  {
    var n := |props| - 1;
    if Copied(policy, props, targetType, k) {
      var i :| 0 <= i < |props| && props[i].name == k && Admits(policy, props[i]) && HasExactTarget(targetType, props[i]);
      if i < n {
        assert props[..n][i] == props[i];
      }
    }
    if Copied(policy, props[..n], targetType, k) {
      var i :| 0 <= i < n && props[..n][i].name == k && Admits(policy, props[..n][i]) && HasExactTarget(targetType, props[..n][i]);
      assert props[i] == props[..n][i];
    }
  }

  /** The exact policies, completely: target property k is written exactly
      when a source property named k is admitted (readable, and allowed by
      the policy's marker) and some writable target property has its name and
      declared type; it then holds the source's value of k. Every other
      property keeps its value, and none is removed. */
  lemma {:induction false} ExactCopyWrites(policy: Policy, props: TypeDesc, targetType: TypeDesc,
                                           src: map<string, Value>, tgt: map<string, Value>)
    requires ConformsTo(src, props)
    ensures var r := ExactCopy(policy, props, targetType, src, tgt);
      forall k :: k in r <==> k in tgt || Copied(policy, props, targetType, k)
    ensures var r := ExactCopy(policy, props, targetType, src, tgt);
      forall k :: k in r ==> r[k] == if Copied(policy, props, targetType, k) then src[k] else tgt[k]
    decreases |props|
  {
    if props != [] {
      var n := |props| - 1;
      var sp := props[n];
      ExactCopyWrites(policy, props[..n], targetType, src, tgt);
      forall k {
        CopiedSnoc(policy, props, targetType, k);
      }
      var j := FindFirst(targetType, p => ExactTarget(sp, p));
      assert j.Some? <==> HasExactTarget(targetType, sp);
    }
  }

  /** Copying an object onto itself under an exact policy changes nothing. */
  lemma {:induction false} ExactCopyOntoItself(policy: Policy, props: TypeDesc, targetType: TypeDesc, m: map<string, Value>)
    requires ConformsTo(m, props)
    ensures ExactCopy(policy, props, targetType, m, m) == m
  {
    ExactCopyWrites(policy, props, targetType, m, m);
    var r := ExactCopy(policy, props, targetType, m, m);
    assert r.Keys == m.Keys;
  }

  /** Matching between two objects of one type copies every property that is
      both readable and writable; get-only and set-only properties do not
      stand in the way. */
  lemma MatchingSameShape(t: TypeDesc, src: map<string, Value>, tgt: map<string, Value>)
    requires ConformsTo(src, t)
    ensures var r := ExactCopy(Matching, t, t, src, tgt);
      forall i :: 0 <= i < |t| && t[i].canRead && t[i].canWrite ==> t[i].name in r && r[t[i].name] == src[t[i].name]
  {
    ExactCopyWrites(Matching, t, t, src, tgt);
    forall i | 0 <= i < |t| && t[i].canRead && t[i].canWrite
      ensures Copied(Matching, t, t, t[i].name)
    {
      assert ExactTarget(t[i], t[i]);
    }
  }

  /** A source property whose every namesake fails the policy's marker test
      (is marked [Exclude] under ExceptExcluded, lacks [Include] under
      OnlyIncluded) is never copied. */
  lemma {:induction false} MarkedOutNeverCopied(policy: Policy, props: TypeDesc, targetType: TypeDesc,
                             src: map<string, Value>, tgt: map<string, Value>, k: string)
    requires ConformsTo(src, props)
    requires forall i :: 0 <= i < |props| && props[i].name == k ==> !MarkerAllows(policy, props[i])
    ensures var r := ExactCopy(policy, props, targetType, src, tgt);
      (k in r <==> k in tgt) && (k in tgt ==> r[k] == tgt[k])
  {
    ExactCopyWrites(policy, props, targetType, src, tgt);
  }

  /** The source properties a policy's marker test lets through, in order. */
  function Marked(policy: Policy, props: TypeDesc): (r: TypeDesc)
    ensures forall x :: x in r <==> x in props && MarkerAllows(policy, x)
    decreases |props|
  {
    if props == [] then []
    else
      var n := |props| - 1;
      assert props == props[..n] + [props[n]];
      Marked(policy, props[..n]) + (if MarkerAllows(policy, props[n]) then [props[n]] else [])
  }

  lemma MarkedConforms(policy: Policy, props: TypeDesc, src: map<string, Value>)
    requires ConformsTo(src, props)
    ensures ConformsTo(src, Marked(policy, props))
  {
    var r := Marked(policy, props);
    forall i | 0 <= i < |r| ensures r[i].name in src {
      assert r[i] in props;
    }
  }

  /** Apart from the marker filter, ExceptExcluded and OnlyIncluded match
      exactly like Matching: each is Matching over the source properties its
      marker test lets through. */
  lemma MarkedPolicyIsMatching(policy: Policy, props: TypeDesc, targetType: TypeDesc,
                               src: map<string, Value>, tgt: map<string, Value>)
    requires ConformsTo(src, props)
    ensures ConformsTo(src, Marked(policy, props))
    ensures ExactCopy(policy, props, targetType, src, tgt) == ExactCopy(Matching, Marked(policy, props), targetType, src, tgt)
  {
    var mp := Marked(policy, props);
    MarkedConforms(policy, props, src);
    var r1, r2 := ExactCopy(policy, props, targetType, src, tgt), ExactCopy(Matching, mp, targetType, src, tgt);
    forall k ensures (k in r1 <==> k in r2) && (k in r1 ==> r1[k] == r2[k]) {
      MarkedAgreesAt(policy, props, targetType, src, tgt, k);
    }
    MapsAgree(r1, r2);
  }

  /** Two maps with the same keys and the same value at every key are equal. */
  lemma MapsAgree(a: map<string, Value>, b: map<string, Value>)
    requires forall k :: (k in a <==> k in b) && (k in a ==> a[k] == b[k])
    ensures a == b
  {
    assert a.Keys == b.Keys;
  }

  /** MarkedPolicyIsMatching for one property name. */
  lemma MarkedAgreesAt(policy: Policy, props: TypeDesc, targetType: TypeDesc,
                       src: map<string, Value>, tgt: map<string, Value>, k: string)
    requires ConformsTo(src, props) && ConformsTo(src, Marked(policy, props))
    ensures var r1, r2 := ExactCopy(policy, props, targetType, src, tgt),
                          ExactCopy(Matching, Marked(policy, props), targetType, src, tgt);
      (k in r1 <==> k in r2) && (k in r1 ==> r1[k] == r2[k])
  {
    ExactCopyWrites(policy, props, targetType, src, tgt);
    ExactCopyWrites(Matching, Marked(policy, props), targetType, src, tgt);
    CopiedMarked(policy, props, targetType, k);
  }

  /** The marker filter moves into the property list: a policy copies k from
      `props` exactly when Matching copies k from Marked(props). */
  lemma CopiedMarked(policy: Policy, props: TypeDesc, targetType: TypeDesc, k: string)
    ensures Copied(policy, props, targetType, k) <==> Copied(Matching, Marked(policy, props), targetType, k)
  {
    var mp := Marked(policy, props);
    if Copied(policy, props, targetType, k) {
      var i :| 0 <= i < |props| && props[i].name == k && Admits(policy, props[i]) && HasExactTarget(targetType, props[i]);
      assert props[i] in mp;
      var j :| 0 <= j < |mp| && mp[j] == props[i];
    }
    if Copied(Matching, mp, targetType, k) {
      var j :| 0 <= j < |mp| && mp[j].name == k && Admits(Matching, mp[j]) && HasExactTarget(targetType, mp[j]);
      assert mp[j] in props;
      var i :| 0 <= i < |props| && props[i] == mp[j];
    }
  }

  /* ---------- Mapped policy ---------- */

  /** Some source property that CopyProperties visits is copied under name k. */
  ghost predicate Targeted(props: TypeDesc, filter: PropDesc -> bool, k: string) {
    exists i :: 0 <= i < |props| && Included(filter, props[i]) && TargetName(props[i]) == k
  }

  /** Nothing else changes: a mapped copy only writes the names its visited
      source properties are copied under (their own name, or the [Map]
      target name), whether it completes or throws. */
  lemma {:induction false} MappedCopyFrame(props: TypeDesc, targetType: TypeDesc, src: map<string, Value>,
                                           tgt: map<string, Value>, aliased: bool, filter: PropDesc -> bool,
                                           assignable: Assignability, k: string)
    requires ConformsTo(src, props) && (aliased ==> src == tgt)
    requires !Targeted(props, filter, k)
    ensures var r := MappedCopy(props, targetType, src, tgt, aliased, filter, assignable).fields;
      (k in r <==> k in tgt) && (k in tgt ==> r[k] == tgt[k])
    decreases |props|
  {
    if props != [] {
      var n := |props| - 1;
      MappedCopyFrame(props[..n], targetType, src, tgt, aliased, filter, assignable, k);
      var prev := MappedCopy(props[..n], targetType, src, tgt, aliased, filter, assignable);
      if prev.error.None? && Included(filter, props[n]) {
        var w := StepWrite(props[n], targetType, if aliased then prev.fields else src, filter, assignable);
        assert w.Some? ==> w.value.0 == TargetName(props[n]);
      }
    }
  }

  /** The value that the last of `props` to write name k gives it, if any. */
  function LastWrite(props: TypeDesc, targetType: TypeDesc, src: map<string, Value>,
                     filter: PropDesc -> bool, assignable: Assignability, k: string): Option<Value>
    requires ConformsTo(src, props)
    decreases |props|
  {
    if props == [] then None
    else
      var n := |props| - 1;
      var w := StepWrite(props[n], targetType, src, filter, assignable);
      if w.Some? && w.value.0 == k then Some(w.value.1)
      else LastWrite(props[..n], targetType, src, filter, assignable, k)
  }

  /** The converse of MappedCopyFrame, for a mapped copy between distinct
      objects that completes: name k ends up with the value the last visited
      property writing it gives it (its converted value, as stored in the
      first accepting target property), and keeps its old value when no
      visited property writes it. */
  lemma {:induction false} MappedCopyWrites(props: TypeDesc, targetType: TypeDesc, src: map<string, Value>,
                                            tgt: map<string, Value>, filter: PropDesc -> bool,
                                            assignable: Assignability)
    requires ConformsTo(src, props)
    requires MappedCopy(props, targetType, src, tgt, false, filter, assignable).error.None?
    ensures var r := MappedCopy(props, targetType, src, tgt, false, filter, assignable).fields;
      forall k :: (k in r <==> k in tgt || LastWrite(props, targetType, src, filter, assignable, k).Some?)
    ensures var r := MappedCopy(props, targetType, src, tgt, false, filter, assignable).fields;
      forall k :: k in r ==>
        r[k] == if LastWrite(props, targetType, src, filter, assignable, k).Some?
                then LastWrite(props, targetType, src, filter, assignable, k).value
                else tgt[k]
    decreases |props|
  {
    if props != [] {
      var n := |props| - 1;
      var prev := MappedCopy(props[..n], targetType, src, tgt, false, filter, assignable);
      assert prev.error.None?;
      MappedCopyWrites(props[..n], targetType, src, tgt, filter, assignable);
    }
  }

  /** Source property sp, read from `src`, passes the guard and its conversion throws. */
  predicate ConvertFails(filter: PropDesc -> bool, sp: PropDesc, src: map<string, Value>) {
    Included(filter, sp) && sp.name in src && MapValue(sp, src[sp.name]).Failure?
  }

  /** A mapped copy between distinct objects throws exactly when the conversion
      of some visited property throws, and then with the exception of the
      first such property. */
  lemma {:induction false} MappedCopyThrows(props: TypeDesc, targetType: TypeDesc, src: map<string, Value>,
                                            tgt: map<string, Value>, filter: PropDesc -> bool,
                                            assignable: Assignability)
    requires ConformsTo(src, props)
    ensures var r := MappedCopy(props, targetType, src, tgt, false, filter, assignable);
      (exists i :: 0 <= i < |props| && ConvertFails(filter, props[i], src)) ==> r.error.Some?
    ensures var r := MappedCopy(props, targetType, src, tgt, false, filter, assignable);
      r.error.Some? ==>
        exists i :: 0 <= i < |props| && ConvertFails(filter, props[i], src) &&
          (forall j :: 0 <= j < i ==> !ConvertFails(filter, props[j], src)) &&
          r.error.value == MapValue(props[i], src[props[i].name]).error
    decreases |props|
  {
    if props != [] {
      var n := |props| - 1;
      var prev := MappedCopy(props[..n], targetType, src, tgt, false, filter, assignable);
      MappedCopyThrows(props[..n], targetType, src, tgt, filter, assignable);
      assert forall i :: 0 <= i < n ==> props[..n][i] == props[i];
      if prev.error.None? {
        assert forall i :: 0 <= i < n ==> !ConvertFails(filter, props[i], src);
        if ConvertFails(filter, props[n], src) {
          assert MappedCopy(props, targetType, src, tgt, false, filter, assignable).error
              == Some(MapValue(props[n], src[props[n].name]).error);
        }
      }
    }
  }

  /** A mapped copy between distinct objects whose [Map] declarations all name
      ToStringConverter never throws. */
  lemma ToStringMapsNeverThrow(props: TypeDesc, targetType: TypeDesc, src: map<string, Value>,
                               tgt: map<string, Value>, filter: PropDesc -> bool, assignable: Assignability)
    requires ConformsTo(src, props)
    requires forall i :: 0 <= i < |props| && props[i].mapAttr.Some? ==>
      props[i].mapAttr.value.converterType == ToStringConverter
    ensures MappedCopy(props, targetType, src, tgt, false, filter, assignable).error.None?
  {
    MappedCopyThrows(props, targetType, src, tgt, filter, assignable);
  }

  /** No rollback, and conversion before lookup: when every property before
      position i went through and the converter of property i throws, the
      copy ends with that exception and exactly the writes made before i,
      whatever the target type (even one with no property of the mapped name). */
  lemma ConverterFailureStopsCopy(props: TypeDesc, targetType: TypeDesc, src: map<string, Value>,
                                  tgt: map<string, Value>, aliased: bool, filter: PropDesc -> bool,
                                  assignable: Assignability, i: nat)
    requires ConformsTo(src, props) && (aliased ==> src == tgt) && i < |props|
    requires MappedCopy(props[..i], targetType, src, tgt, aliased, filter, assignable).error.None?
    requires Included(filter, props[i])
    requires var prev := MappedCopy(props[..i], targetType, src, tgt, aliased, filter, assignable).fields;
      MapValue(props[i], (if aliased then prev else src)[props[i].name]).Failure?
    ensures var prev := MappedCopy(props[..i], targetType, src, tgt, aliased, filter, assignable).fields;
      var e := MapValue(props[i], (if aliased then prev else src)[props[i].name]).error;
      MappedCopy(props, targetType, src, tgt, aliased, filter, assignable) == Partial(prev, Some(e))
  {
    MappedCopyNext(props, targetType, src, tgt, aliased, filter, assignable, i);
    MappedCopyStops(props, targetType, src, tgt, aliased, filter, assignable, i + 1);
  }

  /** The runtime-assignability check lets a null through to the first
      writable target property of the mapped name, whatever its declared
      type (IsAssignableFrom is reflexive); an Int32 property then gets 0. */
  lemma MappedNullGoesToFirstWritable(sp: PropDesc, targetType: TypeDesc, srcFields: map<string, Value>,
                                      cur: map<string, Value>, filter: PropDesc -> bool,
                                      assignable: Assignability)
    requires forall t :: assignable(t, t)
    requires Included(filter, sp) && sp.name in srcFields
    requires MapValue(sp, srcFields[sp.name]).Success? && MapValue(sp, srcFields[sp.name]).value.1 == Null
    ensures var step := MappedStep(sp, targetType, srcFields, cur, filter, assignable);
      step.error.None? &&
      match FindFirst(targetType, (p: PropDesc) => p.name == TargetName(sp) && p.canWrite)
      case None => step.fields == cur
      case Some(j) => step.fields == cur[TargetName(sp) := Stored(Null, targetType[j].typeTag)]
  {
    var nv := MapValue(sp, srcFields[sp.name]).value;
    FindFirstAgrees(targetType, p => AcceptsValue(assignable, nv.0, nv.1, p),
                    (p: PropDesc) => p.name == TargetName(sp) && p.canWrite);
  }

  /** Values of their own declared type, none of them null. */
  predicate WellTypedNonNull(props: TypeDesc, src: map<string, Value>)
    requires ConformsTo(src, props)
  {
    forall i :: 0 <= i < |props| ==> RuntimeType(src[props[i].name]) == Some(props[i].typeTag)
  }

  /** The mapped policy against Matching: on source properties without [Map]
      whose values are non-null and of their declared type, with no filter
      and with assignability that is just type identity, CopyWithMapping
      writes exactly what CopyMatchingProperties writes, and never throws. */
  lemma {:induction false} MappedWithoutMapIsMatching(props: TypeDesc, targetType: TypeDesc, src: map<string, Value>,
                                                      tgt: map<string, Value>, assignable: Assignability)
    requires ConformsTo(src, props)
    requires forall i :: 0 <= i < |props| ==> props[i].mapAttr.None?
    requires WellTypedNonNull(props, src)
    requires forall a, b :: assignable(a, b) <==> a == b
    ensures MappedCopy(props, targetType, src, tgt, false, IncludeOrAll(None), assignable)
         == Partial(ExactCopy(Matching, props, targetType, src, tgt), None)
    decreases |props|
  {
    if props != [] {
      var n := |props| - 1;
      assert forall i :: 0 <= i < n ==> props[..n][i] == props[i];
      MappedWithoutMapIsMatching(props[..n], targetType, src, tgt, assignable);
      assert RuntimeType(src[props[n].name]) == Some(props[n].typeTag);
      UnmappedStepIsExactStep(props[n], targetType, src, ExactCopy(Matching, props[..n], targetType, src, tgt), assignable);
    }
  }

  /** One step of MappedWithoutMapIsMatching: a property without [Map] whose
      value is non-null and of its declared type is written as Matching
      writes it. */
  lemma UnmappedStepIsExactStep(sp: PropDesc, targetType: TypeDesc, src: map<string, Value>,
                                cur: map<string, Value>, assignable: Assignability)
    requires sp.mapAttr.None? && sp.name in src && RuntimeType(src[sp.name]) == Some(sp.typeTag)
    requires forall a, b :: assignable(a, b) <==> a == b
    ensures MappedStep(sp, targetType, src, cur, IncludeOrAll(None), assignable)
         == Partial(ExactStep(Matching, sp, targetType, src, cur), None)
  {
    var v := src[sp.name];
    FindFirstAgrees(targetType, p => AcceptsValue(assignable, sp.name, v, p), p => ExactTarget(sp, p));
  }
}
