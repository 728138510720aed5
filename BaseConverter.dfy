/** BaseConverter<TModel, TDto>: ToDto and ToModel allocate a default instance
    of the other type and fill it with CopyMatchingProperties. */
module BaseConverter {
  import opened Runtime
  import opened Reflection
  import opened PropertyCopier
  import opened CopierLemmas

  /** One instantiation of BaseConverter<TModel, TDto>: the property lists of
      the two types and the property values `new TModel()` and `new TDto()`
      start with (the parameterless constructors are user code). */
  class BaseConverter {
    const modelType: TypeDesc
    const dtoType: TypeDesc
    const modelDefaults: map<string, Value>
    const dtoDefaults: map<string, Value>

    /** A default instance is an instance of its type. */
    ghost predicate Valid() {
      ConformsTo(modelDefaults, modelType) && ConformsTo(dtoDefaults, dtoType)
    }

    constructor (modelType: TypeDesc, dtoType: TypeDesc,
                 modelDefaults: map<string, Value>, dtoDefaults: map<string, Value>)
      requires ConformsTo(modelDefaults, modelType) && ConformsTo(dtoDefaults, dtoType)
      ensures this.modelType == modelType && this.dtoType == dtoType
      ensures this.modelDefaults == modelDefaults && this.dtoDefaults == dtoDefaults
      ensures Valid()
    {
      this.modelType := modelType;
      this.dtoType := dtoType;
      this.modelDefaults := modelDefaults;
      this.dtoDefaults := dtoDefaults;
    }

    /** ToDto: null for null; otherwise a new DTO, distinct from the model,
        holding the Matching copy of the model over the DTO's defaults.
        The model itself is not changed. */
    method ToDto(model: Obj?) returns (dto: Obj?)
      requires Valid()
      requires model != null ==> ConformsTo(model.fields, modelType)
      ensures model == null <==> dto == null
      ensures model != null ==> fresh(dto) && unchanged(model)
      ensures model != null ==> dto.fields == ExactCopy(Matching, modelType, dtoType, model.fields, dtoDefaults)
      ensures model != null ==> ConformsTo(dto.fields, dtoType)
    {
      if model == null {
        return null;
      }
      var d := new Obj(dtoDefaults);
      CopyMatchingProperties(modelType, dtoType, model, d);
      return d;
    }

    /** ToModel: the same from a DTO to a new default model. */
    method ToModel(dto: Obj?) returns (model: Obj?)
      requires Valid()
      requires dto != null ==> ConformsTo(dto.fields, dtoType)
      ensures dto == null <==> model == null
      ensures dto != null ==> fresh(model) && unchanged(dto)
      ensures dto != null ==> model.fields == ExactCopy(Matching, dtoType, modelType, dto.fields, modelDefaults)
      ensures dto != null ==> ConformsTo(model.fields, modelType)
    {
      if dto == null {
        return null;
      }
      var m := new Obj(modelDefaults);
      CopyMatchingProperties(dtoType, modelType, dto, m);
      return m;
    }
  }

  /** The model's property values after ToModel(ToDto(model)). */
  function RoundTrip(modelType: TypeDesc, dtoType: TypeDesc, m: map<string, Value>,
                     modelDefaults: map<string, Value>, dtoDefaults: map<string, Value>): map<string, Value>
    requires ConformsTo(m, modelType) && ConformsTo(dtoDefaults, dtoType)
  {
    ExactCopy(Matching, dtoType, modelType, ExactCopy(Matching, modelType, dtoType, m, dtoDefaults), modelDefaults)
  }

  /** The round trip, property by property: k comes back from the model when
      Matching carries it both ways, from the DTO's default when only the way
      back carries it, and is the model's default otherwise. */
  lemma RoundTripWrites(modelType: TypeDesc, dtoType: TypeDesc, m: map<string, Value>,
                        modelDefaults: map<string, Value>, dtoDefaults: map<string, Value>)
    requires ConformsTo(m, modelType) && ConformsTo(dtoDefaults, dtoType)
    ensures var back := RoundTrip(modelType, dtoType, m, modelDefaults, dtoDefaults);
      forall k :: k in back <==> k in modelDefaults || Copied(Matching, dtoType, modelType, k)
    ensures var back := RoundTrip(modelType, dtoType, m, modelDefaults, dtoDefaults);
      forall k :: k in back ==>
        back[k] == if !Copied(Matching, dtoType, modelType, k) then modelDefaults[k]
                   else if Copied(Matching, modelType, dtoType, k) then m[k]
                   else dtoDefaults[k]
  {
    var dto := ExactCopy(Matching, modelType, dtoType, m, dtoDefaults);
    ExactCopyWrites(Matching, modelType, dtoType, m, dtoDefaults);
    ExactCopyWrites(Matching, dtoType, modelType, dto, modelDefaults);
    forall k | Copied(Matching, dtoType, modelType, k) && !Copied(Matching, modelType, dtoType, k)
      ensures k in dtoDefaults
    {
      var i :| 0 <= i < |dtoType| && dtoType[i].name == k && Admits(Matching, dtoType[i]) && HasExactTarget(modelType, dtoType[i]);
    }
  }

  /** A property readable and writable with one declared type. */
  ghost predicate ReadWrite(t: TypeDesc, k: string, ty: TypeTag) {
    exists i :: 0 <= i < |t| && t[i].name == k && t[i].typeTag == ty && t[i].canRead && t[i].canWrite
  }

  /** A property both shapes have, readable and writable, with the same type,
      survives ToModel(ToDto(model)). */
  lemma RoundTripShared(modelType: TypeDesc, dtoType: TypeDesc, m: map<string, Value>,
                        modelDefaults: map<string, Value>, dtoDefaults: map<string, Value>, k: string, ty: TypeTag)
    requires ConformsTo(m, modelType) && ConformsTo(dtoDefaults, dtoType)
    requires ReadWrite(modelType, k, ty) && ReadWrite(dtoType, k, ty)
    ensures var back := RoundTrip(modelType, dtoType, m, modelDefaults, dtoDefaults);
      k in back && back[k] == m[k]
  {
    RoundTripWrites(modelType, dtoType, m, modelDefaults, dtoDefaults);
    var i :| 0 <= i < |modelType| && modelType[i].name == k && modelType[i].typeTag == ty && modelType[i].canRead && modelType[i].canWrite;
    var j :| 0 <= j < |dtoType| && dtoType[j].name == k && dtoType[j].typeTag == ty && dtoType[j].canRead && dtoType[j].canWrite;
    assert ExactTarget(modelType[i], dtoType[j]) && ExactTarget(dtoType[j], modelType[i]);
    assert Copied(Matching, modelType, dtoType, k);
    assert Copied(Matching, dtoType, modelType, k);
  }

  /** A property the DTO does not have comes back as the model's default:
      model-only data does not survive the round trip. */
  lemma RoundTripModelOnly(modelType: TypeDesc, dtoType: TypeDesc, m: map<string, Value>,
                           modelDefaults: map<string, Value>, dtoDefaults: map<string, Value>, k: string)
    requires ConformsTo(m, modelType) && ConformsTo(dtoDefaults, dtoType)
    requires k in modelDefaults
    requires forall j :: 0 <= j < |dtoType| ==> dtoType[j].name != k
    ensures var back := RoundTrip(modelType, dtoType, m, modelDefaults, dtoDefaults);
      k in back && back[k] == modelDefaults[k]
  {
    RoundTripWrites(modelType, dtoType, m, modelDefaults, dtoDefaults);
  }
}
