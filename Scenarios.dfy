/** Concrete cases of the copier and the converters on small property lists:
    a [Map] with StringToIntConverter, a malformed number that stops the copy,
    the two marker policies, the looser target check of the mapped policy,
    and a model/DTO round trip. */
module Scenarios {
  import opened Wrappers
  import opened Runtime
  import opened Int32Text
  import opened ValueConverters
  import opened Attributes
  import opened Reflection
  import opened PropertyCopier
  import opened CopierLemmas
  import opened BaseConverter

  /** A readable, writable, unmarked property. */
  function Plain(name: string, t: TypeTag): PropDesc {
    PropDesc(name, t, true, true, false, false, None)
  }

  /** [Map("Age", typeof(StringToIntConverter))] string AgeText. */
  function AgeText(): PropDesc {
    PropDesc("AgeText", StringT, true, true, false, false, Some(MapAttribute("Age", StringToIntConverter)))
  }

  /** Assignability that is type identity (enough for int and string). */
  function SameType(): Assignability {
    (declared: TypeTag, actual: TypeTag) => declared == actual
  }

  /** Every class derives from System.Object. */
  function ObjectAccepts(): Assignability {
    (declared: TypeTag, actual: TypeTag) => declared == actual || declared == ClassT("System.Object")
  }

  /** "42" reads as 42. */
  lemma ParseOf42()
    ensures Parse("42") == Success(42)
  {
    ParseAccepts([], "", "42", [], []);
    assert [] + "" + "42" + [] + [] == "42";
    assert DigitsValue("42") == 42 by {
      assert "42"[..1] == "4";
    }
  }

  /** AgeText = "42" arrives in the target's int Age as 42. */
  lemma AgeTextConverted()
    ensures MappedCopy([AgeText()], [Plain("Age", Int32T)], map["AgeText" := StrV("42")],
                       map["Age" := IntV(0)], false, IncludeOrAll(None), SameType())
         == Partial(map["Age" := IntV(42)], None)
  {
    var sp, tt := AgeText(), [Plain("Age", Int32T)];
    var src, tgt := map["AgeText" := StrV("42")], map["Age" := IntV(0)];
    ParseOf42();
    assert MapValue(sp, StrV("42")) == Success(("Age", IntV(42)));
    assert FindFirst(tt, p => AcceptsValue(SameType(), "Age", IntV(42), p)) == Some(0);
    assert [sp][..0] == [];
    assert MappedCopy([sp], tt, src, tgt, false, IncludeOrAll(None), SameType())
        == MappedStep(sp, tt, src, tgt, IncludeOrAll(None), SameType());
  }

  /** "abc" is not a number. */
  lemma ParseOfAbc()
    ensures Parse("abc") == Failure(FormatError)
  {
  }

  function NameThenAge(): TypeDesc {
    [Plain("Name", StringT), AgeText()]
  }

  function NameAndAge(): TypeDesc {
    [Plain("Name", StringT), Plain("Age", Int32T)]
  }

  /** The first step of the next scenario: Name is copied. */
  lemma NameCopiedFirst(src: map<string, Value>, tgt: map<string, Value>, name: string)
    requires ConformsTo(src, NameThenAge()) && "Name" in src && src["Name"] == StrV(name)
    ensures MappedCopy(NameThenAge()[..1], NameAndAge(), src, tgt, false, IncludeOrAll(None), SameType())
         == Partial(tgt["Name" := StrV(name)], None)
  {
    var props, tt := NameThenAge(), NameAndAge();
    assert props[..0] == [];
    MappedCopyNext(props, tt, src, tgt, false, IncludeOrAll(None), SameType(), 0);
    assert FindFirst(tt, p => AcceptsValue(SameType(), "Name", StrV(name), p)) == Some(0);
  }

  /** AgeText = "abc" throws FormatException after Name was copied; Name keeps
      its new value and Age its old one. */
  lemma MalformedAgeKeepsEarlierWrites()
    ensures MappedCopy(NameThenAge(), NameAndAge(), map["Name" := StrV("Ann"), "AgeText" := StrV("abc")],
                       map["Name" := StrV(""), "Age" := IntV(5)], false, IncludeOrAll(None), SameType())
         == Partial(map["Name" := StrV("Ann"), "Age" := IntV(5)], Some(FormatError))
  {
    var props, tt := NameThenAge(), NameAndAge();
    var src, tgt := map["Name" := StrV("Ann"), "AgeText" := StrV("abc")], map["Name" := StrV(""), "Age" := IntV(5)];
    NameCopiedFirst(src, tgt, "Ann");
    ParseOfAbc();
    assert MapValue(props[1], StrV("abc")) == Failure(FormatError);
    ConverterFailureStopsCopy(props, tt, src, tgt, false, IncludeOrAll(None), SameType(), 1);
  }

  /** Three Int32 properties A, B, C, A marked [Include] when `included` and [Exclude] when `excluded`. */
  function ThreeProps(included: bool, excluded: bool): TypeDesc {
    [PropDesc("A", Int32T, true, true, included, excluded, None), Plain("B", Int32T), Plain("C", Int32T)]
  }

  /** ExceptExcluded over {[Exclude] A, B, C} copies B and C only. */
  lemma ExceptExcludedSkipsMarked()
    ensures ExactCopy(ExceptExcluded, ThreeProps(false, true), ThreeProps(false, false),
                      map["A" := IntV(1), "B" := IntV(2), "C" := IntV(3)],
                      map["A" := IntV(0), "B" := IntV(0), "C" := IntV(0)])
         == map["A" := IntV(0), "B" := IntV(2), "C" := IntV(3)]
  {
    var props, tt := ThreeProps(false, true), ThreeProps(false, false);
    var src, tgt := map["A" := IntV(1), "B" := IntV(2), "C" := IntV(3)], map["A" := IntV(0), "B" := IntV(0), "C" := IntV(0)];
    assert props[..2][..1] == props[..1] && props[..1][..0] == [];
    var r1 := ExactCopy(ExceptExcluded, props[..1], tt, src, tgt);
    assert r1 == ExactStep(ExceptExcluded, props[0], tt, src, ExactCopy(ExceptExcluded, props[..1][..0], tt, src, tgt));
    assert !Admits(ExceptExcluded, props[0]);
    assert r1 == tgt;
    assert FindFirst(tt, p => ExactTarget(props[1], p)) == Some(1);
    var r2 := ExactCopy(ExceptExcluded, props[..2], tt, src, tgt);
    assert r2 == ExactStep(ExceptExcluded, props[1], tt, src, r1) == tgt["B" := IntV(2)];
    assert FindFirst(tt, p => ExactTarget(props[2], p)) == Some(2);
    assert props[..3] == props;
    assert ExactCopy(ExceptExcluded, props, tt, src, tgt) == ExactStep(ExceptExcluded, props[2], tt, src, r2);
  }

  /** OnlyIncluded over {[Include] A, B, C} copies A only. */
  lemma OnlyIncludedTakesMarked()
    ensures ExactCopy(OnlyIncluded, ThreeProps(true, false), ThreeProps(false, false),
                      map["A" := IntV(1), "B" := IntV(2), "C" := IntV(3)],
                      map["A" := IntV(0), "B" := IntV(0), "C" := IntV(0)])
         == map["A" := IntV(1), "B" := IntV(0), "C" := IntV(0)]
  {
    var props, tt := ThreeProps(true, false), ThreeProps(false, false);
    var src, tgt := map["A" := IntV(1), "B" := IntV(2), "C" := IntV(3)], map["A" := IntV(0), "B" := IntV(0), "C" := IntV(0)];
    assert props[..2][..1] == props[..1] && props[..1][..0] == [];
    assert FindFirst(tt, p => ExactTarget(props[0], p)) == Some(0);
    var r1 := ExactCopy(OnlyIncluded, props[..1], tt, src, tgt);
    assert r1 == ExactStep(OnlyIncluded, props[0], tt, src, ExactCopy(OnlyIncluded, props[..1][..0], tt, src, tgt));
    assert r1 == tgt["A" := IntV(1)];
    var r2 := ExactCopy(OnlyIncluded, props[..2], tt, src, tgt);
    assert !Admits(OnlyIncluded, props[1]) && !Admits(OnlyIncluded, props[2]);
    assert r2 == ExactStep(OnlyIncluded, props[1], tt, src, r1) == r1;
    assert props[..3] == props;
    assert ExactCopy(OnlyIncluded, props, tt, src, tgt) == ExactStep(OnlyIncluded, props[2], tt, src, r2);
  }

  /** A string source property and an object-typed target property of the
      same name: Matching skips it (the declared types differ), the mapped
      policy copies it (object is assignable from string). */
  lemma MappedLooserThanMatching()
    ensures ExactCopy(Matching, [Plain("Item", StringT)], [Plain("Item", ClassT("System.Object"))],
                      map["Item" := StrV("x")], map["Item" := Null])
         == map["Item" := Null]
    ensures MappedCopy([Plain("Item", StringT)], [Plain("Item", ClassT("System.Object"))],
                       map["Item" := StrV("x")], map["Item" := Null], false, IncludeOrAll(None), ObjectAccepts())
         == Partial(map["Item" := StrV("x")], None)
  {
    assert [Plain("Item", StringT)][..0] == [];
  }

  function ModelType(): TypeDesc {
    [Plain("Id", Int32T), Plain("Name", StringT), Plain("Secret", StringT)]
  }

  function DtoType(): TypeDesc {
    [Plain("Id", Int32T), Plain("Name", StringT)]
  }

  /** A model {Id, Name, Secret} and a DTO {Id, Name}: the round trip gives
      back Id and Name, and Secret as the new model's default. */
  lemma SecretDoesNotSurvive(id: Int32, name: string, secret: string)
    ensures RoundTrip(ModelType(), DtoType(), map["Id" := IntV(id), "Name" := StrV(name), "Secret" := StrV(secret)],
                      map["Id" := IntV(0), "Name" := StrV(""), "Secret" := StrV("")],
                      map["Id" := IntV(0), "Name" := StrV("")])
         == map["Id" := IntV(id), "Name" := StrV(name), "Secret" := StrV("")]
  {
    var mt, dt := ModelType(), DtoType();
    var m := map["Id" := IntV(id), "Name" := StrV(name), "Secret" := StrV(secret)];
    var md, dd := map["Id" := IntV(0), "Name" := StrV(""), "Secret" := StrV("")], map["Id" := IntV(0), "Name" := StrV("")];
    var back := RoundTrip(mt, dt, m, md, dd);
    assert back["Id"] == IntV(id) by {
      assert ReadWrite(mt, "Id", Int32T) && ReadWrite(dt, "Id", Int32T) by {
        assert mt[0].name == "Id" && dt[0].name == "Id";
      }
      RoundTripShared(mt, dt, m, md, dd, "Id", Int32T);
    }
    assert back["Name"] == StrV(name) by {
      assert ReadWrite(mt, "Name", StringT) && ReadWrite(dt, "Name", StringT) by {
        assert mt[1].name == "Name" && dt[1].name == "Name";
      }
      RoundTripShared(mt, dt, m, md, dd, "Name", StringT);
    }
    assert back["Secret"] == StrV("") by {
      RoundTripModelOnly(mt, dt, m, md, dd, "Secret");
    }
    assert back.Keys == {"Id", "Name", "Secret"} by {
      RoundTripKeys(id, name, secret);
    }
  }

  lemma RoundTripKeys(id: Int32, name: string, secret: string)
    ensures RoundTrip(ModelType(), DtoType(), map["Id" := IntV(id), "Name" := StrV(name), "Secret" := StrV(secret)],
                      map["Id" := IntV(0), "Name" := StrV(""), "Secret" := StrV("")],
                      map["Id" := IntV(0), "Name" := StrV("")]).Keys == {"Id", "Name", "Secret"}
  {
    var mt, dt := ModelType(), DtoType();
    var m := map["Id" := IntV(id), "Name" := StrV(name), "Secret" := StrV(secret)];
    var md, dd := map["Id" := IntV(0), "Name" := StrV(""), "Secret" := StrV("")], map["Id" := IntV(0), "Name" := StrV("")];
    var back := RoundTrip(mt, dt, m, md, dd);
    assert md.Keys <= back.Keys;
    forall k | k in back ensures k in md.Keys {
      RoundTripWrites(mt, dt, m, md, dd);
      if Copied(Matching, dt, mt, k) {
        var i :| 0 <= i < |dt| && dt[i].name == k && Admits(Matching, dt[i]) && HasExactTarget(mt, dt[i]);
      }
    }
  }

  /** The same, through BaseConverter's methods. */
  method ModelDtoRoundTrip() returns (back: Obj?)
    ensures back != null && back.fields == map["Id" := IntV(7), "Name" := StrV("Ann"), "Secret" := StrV("")]
  {
    var conv := new BaseConverter(ModelType(), DtoType(), map["Id" := IntV(0), "Name" := StrV(""), "Secret" := StrV("")],
                                  map["Id" := IntV(0), "Name" := StrV("")]);
    var model := new Obj(map["Id" := IntV(7), "Name" := StrV("Ann"), "Secret" := StrV("s3")]);
    var dto := conv.ToDto(model);
    back := conv.ToModel(dto);
    SecretDoesNotSurvive(7, "Ann", "s3");
  }
}
