/** Worked examples: a record flowing end to end, the postal-code trim and a
    case-insensitive lookup, each stated on concrete values. */
module Scenarios {
  import opened Values
  import opened Text
  import opened PropertyModel
  import opened FieldMapping
  import opened Inserts

  /** `" 90210 "` is stored as `"90210"`. */
  lemma PostalCodeTrimExample()
    ensures PostalCodeStrip(Some(" 90210 ")) == Some("90210")
  {
    var s := " 90210 ";
    assert s[1..1 + 5] == "90210";
    assert s[..1] == " " && s[1 + 5..] == " ";
    assert IsStripOf(s, "90210");
    StripUnique(s, "90210");
  }

  /** A rule for `Postal_Code` applies to `postal_code` and `POSTAL_CODE`. */
  lemma CaseInsensitiveExample()
    ensures Resolve([Rule("Postal_Code", "property", "postal_code")], "postal_code") == Some("postal_code")
    ensures Resolve([Rule("Postal_Code", "property", "postal_code")], "POSTAL_CODE") == Some("postal_code")
  {
    var rules := [Rule("Postal_Code", "property", "postal_code")];
    assert Lower("Postal_Code") == Lower("postal_code") == Lower("POSTAL_CODE") == "postal_code";
    ResolveCleanTarget(rules, "postal_code", 0);
    ResolveCleanTarget(rules, "POSTAL_CODE", 0);
  }

  const ElmRules: seq<Rule> := [
    Rule("Address", "property", "address_line1"),
    Rule("Beds", "property_detail", "bedrooms")
  ]

  lemma ElmResolution()
    ensures Resolve(ElmRules, "Address") == Some("address_line1")
    ensures Resolve(ElmRules, "Beds") == Some("bedrooms")
    ensures Resolve(ElmRules, "Unmapped_Field") == None
  {
    ElmResolvesAddress();
    ElmResolvesBeds();
    ElmLeavesUnmapped();
  }

  lemma ElmResolvesAddress()
    ensures Resolve(ElmRules, "Address") == Some("address_line1")
  {
    ResolveCleanTarget(ElmRules, "Address", 0);
  }

  lemma ElmResolvesBeds()
    ensures Resolve(ElmRules, "Beds") == Some("bedrooms")
  {
    assert !Matches(ElmRules[0], "Beds") by {
      assert |Lower("Address")| != |Lower("Beds")|;
    }
    ResolveCleanTarget(ElmRules, "Beds", 1);
  }

  lemma ElmLeavesUnmapped()
    ensures Resolve(ElmRules, "Unmapped_Field") == None
  {
    assert |Lower("Unmapped_Field")| == 14;
    assert !Matches(ElmRules[0], "Unmapped_Field");
    assert !Matches(ElmRules[1], "Unmapped_Field");
  }

  /** The example record `{Address: "12 Elm St", Beds: "3", Unmapped_Field:
      "x"}`, built up one pair at a time. */
  const ElmRow1: Dict := [("Address", Str("12 Elm St"))]
  const ElmRow2: Dict := ElmRow1 + [("Beds", Str("3"))]
  const ElmRow: Dict := ElmRow2 + [("Unmapped_Field", Str("x"))]

  const ElmOther: Dict := [("Unmapped_Field", Str("x"))]

  /** The two resolved columns of the example. */
  const ElmMapped1: Dict := [("address_line1", Str("12 Elm St"))]
  const ElmMapped: Dict := ElmMapped1 + [("bedrooms", Str("3"))]

  lemma ElmPartitionFirst()
    ensures Partition(ElmRow1, ResolverOf(ElmRules)) == Split(ElmMapped1, [])
  {
    assert ResolverOf(ElmRules)("Address") == Some("address_line1") by { ElmResolvesAddress(); }
    assert ElmRow1 == [] + [("Address", Str("12 Elm St"))];
    assert ElmMapped1 == [] + [("address_line1", Str("12 Elm St"))];
    PartitionSnocMapped([], "Address", Str("12 Elm St"), ResolverOf(ElmRules), "address_line1", [], []);
  }

  lemma ElmPartitionSecond()
    ensures Partition(ElmRow2, ResolverOf(ElmRules)) == Split(ElmMapped, [])
  {
    var resolve := ResolverOf(ElmRules);
    assert Partition(ElmRow1, resolve) == Split(ElmMapped1, []) by { ElmPartitionFirst(); }
    assert resolve("Beds") == Some("bedrooms") by { ElmResolvesBeds(); }
    assert "bedrooms" !in Keys(ElmMapped1) by {
      assert Keys(ElmMapped1) == ["address_line1"];
    }
    PartitionSnocMapped(ElmRow1, "Beds", Str("3"), resolve, "bedrooms", ElmMapped1, []);
  }

  /** The example record splits into the two resolved columns and the one
      unresolved key. */
  lemma ElmPartition()
    ensures Partition(ElmRow, ResolverOf(ElmRules)) == Split(ElmMapped, ElmOther)
  {
    var resolve := ResolverOf(ElmRules);
    assert Partition(ElmRow2, resolve) == Split(ElmMapped, []) by { ElmPartitionSecond(); }
    assert resolve("Unmapped_Field") == None by { ElmLeavesUnmapped(); }
    assert ElmOther == [] + [("Unmapped_Field", Str("x"))];
    PartitionSnocOther(ElmRow2, "Unmapped_Field", Str("x"), resolve, ElmMapped, []);
  }

  /** The keyword arguments `map_row_to_model` passes for the example. */
  const ElmInput: Dict := ElmMapped + [("other_attributes", Object(ElmOther))]

  lemma ElmModelInput()
    ensures ModelInput(ElmRow, ElmRules) == ElmInput
  {
    ElmPartition();
    ModelInputOf(ElmRow, ElmRules);
  }

  lemma ModelInputOf(row: Dict, rules: seq<Rule>)
    requires Partition(row, ResolverOf(rules)) == Split(ElmMapped, ElmOther)
    ensures ModelInput(row, rules) == ElmInput
  {
    ElmInputIsPut();
  }

  /** Adding `other_attributes` to the resolved columns appends it. */
  lemma ElmInputIsPut()
    ensures Put(ElmMapped, Column(OtherAttributes), Object(ElmOther)) == ElmInput
  {
    var ks := Keys(ElmMapped);
    assert |ks| == 2 && |ks[0]| == 13 && |ks[1]| == 8;
    assert |Column(OtherAttributes)| == 16;
  }

  /** Only three fields are mentioned by the example's arguments. */
  lemma ElmInputLookup(f: FieldName)
    ensures Get(ElmInput, Column(f)) ==
      if f == AddressLine1 then Some(Str("12 Elm St"))
      else if f == Bedrooms then Some(Str("3"))
      else if f == OtherAttributes then Some(Object(ElmOther))
      else None
  {
    if f == AddressLine1 {
      GetAt(ElmInput, 0);
    } else if f == Bedrooms {
      GetAt(ElmInput, 1);
    } else if f == OtherAttributes {
      GetAt(ElmInput, 2);
    } else {
      ElmInputAbsent(f);
    }
  }

  lemma ElmInputAbsent(f: FieldName)
    requires f != AddressLine1 && f != Bedrooms && f != OtherAttributes
    ensures Get(ElmInput, Column(f)) == None
  {
    var c := Column(f);
    assert c != "address_line1" && c != "bedrooms" && c != "other_attributes";
    ElmInputKeys(c);
  }

  lemma ElmInputKeys(k: string)
    requires k != "address_line1" && k != "bedrooms" && k != "other_attributes"
    ensures Get(ElmInput, k) == None
  {
    assert Keys(ElmInput) == ["address_line1", "bedrooms", "other_attributes"];
  }

  /** The typed record the example should produce, field by field. */
  function ElmValue(f: FieldName): Value {
    if f == AddressLine1 then Str("12 Elm St")
    else if f == Bedrooms then Int(3)
    else if f == OtherAttributes then Object(ElmOther)
    else Null
  }

  /** Validation of the example's arguments succeeds once the two mapped
      strings and the residual dictionary coerce as expected. */
  lemma ElmRecord(coerce: Coercion)
    requires coerce(AddressLine1, Str("12 Elm St")) == Some(Str("12 Elm St"))
    requires coerce(Bedrooms, Str("3")) == Some(Int(3))
    requires coerce(OtherAttributes, Object(ElmOther)) == Some(Object(ElmOther))
    ensures Build(ElmInput, coerce).Ok?
    ensures forall f :: Attr(Build(ElmInput, coerce).value, f) == ElmValue(f)
  {
    forall f ensures ValidateField(f, ElmInput, coerce) == Ok(ElmValue(f)) {
      ElmFieldValid(coerce, f);
    }
    var r := Build(ElmInput, coerce);
    assert r.Ok?;
    forall f ensures Attr(r.value, f) == ElmValue(f) {
      assert Attr(r.value, f) == ValidateField(f, ElmInput, coerce).value;
    }
  }

  lemma ElmFieldValid(coerce: Coercion, f: FieldName)
    requires coerce(AddressLine1, Str("12 Elm St")) == Some(Str("12 Elm St"))
    requires coerce(Bedrooms, Str("3")) == Some(Int(3))
    requires coerce(OtherAttributes, Object(ElmOther)) == Some(Object(ElmOther))
    ensures ValidateField(f, ElmInput, coerce) == Ok(ElmValue(f))
  {
    ElmInputLookup(f);
  }

  /** What the example should insert: one `property` row whose second
      column is the address, one `property_detail` row whose first column is
      the bedroom count, and one `property_attribute` row for the unmapped
      field, stored with `str()`. */
  predicate ElmPlanned(id: nat, plan: seq<Row>) {
    var props := RowsOf(plan, PropertyTable);
    var details := RowsOf(plan, PropertyDetailTable);
    && |props| == 1 && |props[0].cells| > 1
    && props[0].cells[1] == ("address_line1", Param(Str("12 Elm St")))
    && |details| == 1 && |details[0].cells| > 0
    && details[0].cells[0] == ("bedrooms", Param(Int(3)))
    && RowsOf(plan, PropertyAttributeTable) ==
         [Row(PropertyAttributeTable, id,
              [("attr_key", Param(Str("Unmapped_Field"))), ("attr_value", StrText(Str("x")))])]
  }

  /** The example record end to end: `Address` and `Beds` reach
      `property.address_line1` and `property_detail.bedrooms`, and
      `Unmapped_Field` becomes the one `property_attribute` row. */
  lemma ElmStreetExample(coerce: Coercion, id: nat)
    requires coerce(AddressLine1, Str("12 Elm St")) == Some(Str("12 Elm St"))
    requires coerce(Bedrooms, Str("3")) == Some(Int(3))
    requires coerce(OtherAttributes, Object(ElmOther)) == Some(Object(ElmOther))
    ensures MapRowToModel(ElmRow, ElmRules, coerce).Ok?
    ensures ElmPlanned(id, PlanInserts(id, MapRowToModel(ElmRow, ElmRules, coerce).value))
  {
    var r := MapRowToModel(ElmRow, ElmRules, coerce);
    assert r == Build(ElmInput, coerce) by {
      ElmModelInput();
    }
    assert r.Ok? && forall f :: Attr(r.value, f) == ElmValue(f) by {
      ElmRecord(coerce);
    }
    ElmPlan(id, r.value);
  }

  /** The rows planned for any record holding the example's values. */
  lemma ElmPlan(id: nat, pm: PropertyRecord)
    requires forall f :: Attr(pm, f) == ElmValue(f)
    ensures ElmPlanned(id, PlanInserts(id, pm))
  {
    assert Attr(pm, AddressLine1) == Str("12 Elm St") && Attr(pm, Bedrooms) == Int(3) by {
      assert Attr(pm, AddressLine1) == ElmValue(AddressLine1);
      assert Attr(pm, Bedrooms) == ElmValue(Bedrooms);
    }
    assert Residual(pm) == ElmOther by {
      assert Attr(pm, OtherAttributes) == ElmValue(OtherAttributes);
    }
    assert |PropertyRowOf(id, pm).cells| == 9 && PropertyRowOf(id, pm).cells[1] == ("address_line1", Param(Str("12 Elm St"))) by {
      var fs := [ExternalId, AddressLine1, AddressLine2, City, State, PostalCode, County, Latitude, Longitude];
      assert Params(pm, fs)[1] == (Column(fs[1]), Param(Attr(pm, fs[1])));
    }
    assert |DetailRowOf(id, pm).cells| == 6 && DetailRowOf(id, pm).cells[0] == ("bedrooms", Param(Int(3))) by {
      var fs := [Bedrooms, Bathrooms, Sqft, YearBuilt, PropertyType];
      assert Params(pm, fs)[0] == (Column(fs[0]), Param(Attr(pm, fs[0])));
    }
    assert AttributeRows(id, ElmOther) ==
      [Row(PropertyAttributeTable, id, [("attr_key", Param(Str("Unmapped_Field"))), ("attr_value", StrText(Str("x")))])]
    by {
      var rows := AttributeRows(id, ElmOther);
      assert |rows| == 1 && rows[0] == AttributeRowOf(id, ElmOther[0]);
    }
    var plan := PlanInserts(id, pm);
    assert RowsOf(plan, PropertyTable) == [PropertyRowOf(id, pm)] by { PlanByTable(id, pm); }
    assert RowsOf(plan, PropertyDetailTable) == [DetailRowOf(id, pm)] by { PlanByTable(id, pm); }
    assert RowsOf(plan, PropertyAttributeTable) == AttributeRows(id, ElmOther) by { PlanByTable(id, pm); }
  }

  /** A rule whose target column is a column of the database but not a
      field of the typed model: `zoning` is a `property_detail` column. */
  const ZoningRules: seq<Rule> := [Rule("Zoning", "property_detail", "zoning")]
  const ZoningRow: Dict := [("Zoning", Str("R1"))]
  const OnlyResidual: Dict := [("other_attributes", Object([]))]

  /** The value of a key mapped to a column that no field of the model
      carries is lost: it is neither a typed field nor kept in
      `other_attributes`, and the record is the one an empty record gives. */
  lemma UnknownColumnDropped(coerce: Coercion)
    requires coerce(OtherAttributes, Object([])) == Some(Object([]))
    ensures var r := MapRowToModel(ZoningRow, ZoningRules, coerce);
      r.Ok? && forall f :: Attr(r.value, f) == Default(f)
  {
    var m := ModelInput(ZoningRow, ZoningRules);
    assert MapRowToModel(ZoningRow, ZoningRules, coerce) == Build(m, coerce);
    ZoningInput();
    BuildReadsFieldColumns(m, OnlyResidual, coerce);
    EmptyRecord(coerce);
  }

  /** Every field reads the same from the example's model input as from a
      dictionary holding only the empty residual. */
  lemma ZoningInput()
    ensures forall f :: Get(ModelInput(ZoningRow, ZoningRules), Column(f)) == Get(OnlyResidual, Column(f))
  {
    forall f ensures Get(ModelInput(ZoningRow, ZoningRules), Column(f)) == Get(OnlyResidual, Column(f)) {
      ZoningInputAt(f);
    }
  }

  lemma ZoningInputAt(f: FieldName)
    ensures Get(ModelInput(ZoningRow, ZoningRules), Column(f)) == Get(OnlyResidual, Column(f))
  {
    var m := ModelInput(ZoningRow, ZoningRules);
    var c := Column(f);
    if f == OtherAttributes {
      ZoningPartition();
      assert Get(m, c) == Some(Object([]));
    } else {
      OtherAttributesColumnUnique(f);
      assert Get(m, c) == Get(Partition(ZoningRow, ResolverOf(ZoningRules)).mapped, c);
      ZoningPartition();
      ZoningIsNoField(f);
      GetSingleton("zoning", Str("R1"), c);
      GetSingleton("other_attributes", Object([]), c);
    }
  }

  /** A one-entry dictionary holds nothing under any other key. */
  lemma GetSingleton(k: string, v: Value, c: string)
    requires c != k
    ensures Get([(k, v)], c) == None
  {
    assert Keys([(k, v)]) == [k];
  }

  lemma ZoningPartition()
    ensures Partition(ZoningRow, ResolverOf(ZoningRules)) == Split([("zoning", Str("R1"))], [])
  {
    var resolve := ResolverOf(ZoningRules);
    assert Resolve(ZoningRules, "Zoning") == Some("zoning") by {
      ResolveCleanTarget(ZoningRules, "Zoning", 0);
    }
    assert [] + ZoningRow == ZoningRow;
    PartitionSnocMapped([], "Zoning", Str("R1"), resolve, "zoning", [], []);
  }

  /** No field of the model is called `zoning`. */
  lemma ZoningIsNoField(f: FieldName)
    ensures Column(f) != "zoning"
  {
  }

  /** Only `other_attributes` given, every field holds its default. */
  lemma EmptyRecord(coerce: Coercion)
    requires coerce(OtherAttributes, Object([])) == Some(Object([]))
    ensures var r := Build(OnlyResidual, coerce);
      r.Ok? && forall f :: Attr(r.value, f) == Default(f)
  {
    forall f ensures ValidateField(f, OnlyResidual, coerce) == Ok(Default(f)) {
      EmptyRecordField(coerce, f);
    }
  }

  lemma EmptyRecordField(coerce: Coercion, f: FieldName)
    requires coerce(OtherAttributes, Object([])) == Some(Object([]))
    ensures ValidateField(f, OnlyResidual, coerce) == Ok(Default(f))
  {
    if f != OtherAttributes {
      OtherAttributesColumnUnique(f);
      GetSingleton("other_attributes", Object([]), Column(f));
    } else {
      assert Get(OnlyResidual, Column(f)) == Some(Object([]));
    }
  }
}
