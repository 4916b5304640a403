/** The typed property record (`PropertyModel` in etl.py) and how it is
    built from the mapped fields of one raw record.

    Type coercion is done by the validation library and is not modelled: it
    is a parameter `coerce`, a function from a field and a present, non-null
    raw value to the coerced value, or `None` when the value cannot be
    coerced to the field's declared type. A coerced value that does not have
    the declared kind is treated as a rejection as well.
 */
module PropertyModel {
  import opened Values
  import opened Text

  /** The declared type of a field. */
  datatype Kind = TextKind | IntKind | FloatKind | BoolKind | DateTimeKind | DictKind

  /** The fields of the typed record, in declaration order. */
  datatype FieldName =
    | ExternalId | AddressLine1 | AddressLine2 | City | State | PostalCode | County
    | Latitude | Longitude
    | Bedrooms | Bathrooms | Sqft | YearBuilt | PropertyType
    | HasHoa | HoaName | HoaFeeAmount | HoaFeeFrequency
    | ValuationSource | ValuationAmount | ValuationDate
    | RehabEstimateTotal | RehabEstimateBreakdown
    | OtherAttributes

  const Fields: seq<FieldName> := [
    ExternalId, AddressLine1, AddressLine2, City, State, PostalCode, County,
    Latitude, Longitude,
    Bedrooms, Bathrooms, Sqft, YearBuilt, PropertyType,
    HasHoa, HoaName, HoaFeeAmount, HoaFeeFrequency,
    ValuationSource, ValuationAmount, ValuationDate,
    RehabEstimateTotal, RehabEstimateBreakdown,
    OtherAttributes
  ]

  /** The attribute name of a field, which is also the key a mapping rule's
      target column must equal to reach it. */
  function Column(f: FieldName): string
  {
    match f
    case ExternalId => "external_id"
    case AddressLine1 => "address_line1"
    case AddressLine2 => "address_line2"
    case City => "city"
    case State => "state"
    case PostalCode => "postal_code"
    case County => "county"
    case Latitude => "latitude"
    case Longitude => "longitude"
    case Bedrooms => "bedrooms"
    case Bathrooms => "bathrooms"
    case Sqft => "sqft"
    case YearBuilt => "year_built"
    case PropertyType => "property_type"
    case HasHoa => "has_hoa"
    case HoaName => "hoa_name"
    case HoaFeeAmount => "hoa_fee_amount"
    case HoaFeeFrequency => "hoa_fee_frequency"
    case ValuationSource => "valuation_source"
    case ValuationAmount => "valuation_amount"
    case ValuationDate => "valuation_date"
    case RehabEstimateTotal => "rehab_estimate_total"
    case RehabEstimateBreakdown => "rehab_estimate_breakdown"
    case OtherAttributes => "other_attributes"
  }

  /** No name is empty or carries surrounding whitespace, so a stripped
      target column can equal it. */
  lemma ColumnIsClean(f: FieldName)
    ensures Column(f) != [] && NoEdgeSpace(Column(f))
  {
  }

  /** Distinct fields have distinct names, so a key reaches at most one field. */
  lemma ColumnInjective(f: FieldName, g: FieldName)
    requires Column(f) == Column(g)
    ensures f == g
  {
  }

  /** `other_attributes` is the only field stored under its column name. */
  lemma OtherAttributesColumnUnique(f: FieldName)
    requires f != OtherAttributes
    ensures Column(f) != Column(OtherAttributes)
  {
    assert Column(f)[0] != 'o';
  }

  /** The declared type of each field. */
  function KindOf(f: FieldName): Kind {
    match f
    case Latitude | Longitude | Bathrooms | HoaFeeAmount | ValuationAmount | RehabEstimateTotal => FloatKind
    case Bedrooms | Sqft | YearBuilt => IntKind
    case HasHoa => BoolKind
    case ValuationDate => DateTimeKind
    case RehabEstimateBreakdown | OtherAttributes => DictKind
    case _ => TextKind
  }

  /** Every field has the type the class annotates it with: the three
      `int` fields, the six `float` fields, the one `bool` and the one
      `datetime` field, the two `Dict[str, Any]` fields, and `str` for the
      rest. */
  lemma KindsAsDeclared(f: FieldName)
    ensures KindOf(f) == IntKind <==> f in {Bedrooms, Sqft, YearBuilt}
    ensures KindOf(f) == FloatKind <==>
      f in {Latitude, Longitude, Bathrooms, HoaFeeAmount, ValuationAmount, RehabEstimateTotal}
    ensures KindOf(f) == BoolKind <==> f == HasHoa
    ensures KindOf(f) == DateTimeKind <==> f == ValuationDate
    ensures KindOf(f) == DictKind <==> f in {RehabEstimateBreakdown, OtherAttributes}
    ensures KindOf(f) == TextKind <==>
      f in {ExternalId, AddressLine1, AddressLine2, City, State, PostalCode, County,
            PropertyType, HoaName, HoaFeeFrequency, ValuationSource}
  {
  }

  /** The position of a field in declaration order. */
  function Position(f: FieldName): (p: nat)
    ensures p < |Fields| && Fields[p] == f
  {
    match f
    case ExternalId => 0
    case AddressLine1 => 1
    case AddressLine2 => 2
    case City => 3
    case State => 4
    case PostalCode => 5
    case County => 6
    case Latitude => 7
    case Longitude => 8
    case Bedrooms => 9
    case Bathrooms => 10
    case Sqft => 11
    case YearBuilt => 12
    case PropertyType => 13
    case HasHoa => 14
    case HoaName => 15
    case HoaFeeAmount => 16
    case HoaFeeFrequency => 17
    case ValuationSource => 18
    case ValuationAmount => 19
    case ValuationDate => 20
    case RehabEstimateTotal => 21
    case RehabEstimateBreakdown => 22
    case OtherAttributes => 23
  }

  /** A value the validation library can produce for a field of kind `k`. */
  predicate Conforms(k: Kind, v: Value) {
    match k
    case TextKind => v.Str?
    case IntKind => v.Int?
    case FloatKind => v.Float?
    case BoolKind => v.Bool?
    case DateTimeKind => v.DateTime?
    case DictKind => v.Object?
  }

  /** The value a field takes when the mapped fields do not mention it:
      `None`, except `other_attributes`, which defaults to `{}`. */
  function Default(f: FieldName): (v: Value)
    ensures v.Null? || Conforms(KindOf(f), v)
  {
    if f == OtherAttributes then Object([]) else Null
  }

  type Coercion = (FieldName, Value) -> Option<Value>

  /** The `postal_code` validator: `None` passes through, anything else is
      stripped of surrounding whitespace. The validator runs after the value
      has been coerced to `str`, so `str(v)` is `v` itself. */
  function PostalCodeStrip(v: Option<string>): (r: Option<string>)
    ensures v.None? <==> r.None?
    ensures v.Some? ==> IsStripOf(v.value, r.value)
  {
    match v
    case None => None
    case Some(s) => StripIsStrip(s); Some(Strip(s))
  }

  /** The four promises of the validator: `None` maps to `None`, anything
      else to `strip(v)`, the result has no surrounding whitespace, and
      applying the validator again changes nothing. */
  lemma PostalCodeStripProperties(v: Option<string>)
    ensures v.None? ==> PostalCodeStrip(v) == None
    ensures v.Some? ==> PostalCodeStrip(v) == Some(Strip(v.value))
    ensures PostalCodeStrip(v).Some? ==> NoEdgeSpace(PostalCodeStrip(v).value)
    ensures PostalCodeStrip(PostalCodeStrip(v)) == PostalCodeStrip(v)
  {
    if v.Some? {
      StripIdempotent(v.value);
    }
  }

  function AsText(v: Value): Option<string> {
    if v.Str? then Some(v.s) else None
  }

  function FromText(t: Option<string>): Value {
    match t
    case None => Null
    case Some(s) => Str(s)
  }

  /** Validation of a present value for field `f`: `None` stays `None`,
      anything else must coerce to the field's kind; `postal_code` then goes
      through its validator. */
  function ValidateValue(f: FieldName, v: Value, coerce: Coercion): (r: Result<Value, FieldName>)
    ensures r.Err? ==> r.error == f
  {
    if v == Null then Ok(Null)
    else match coerce(f, v)
      case None => Err(f)
      case Some(w) =>
        if !Conforms(KindOf(f), w) then Err(f)
        else if f == PostalCode then Ok(FromText(PostalCodeStrip(AsText(w))))
        else Ok(w)
  }

  /** Validation of one field against the mapped fields: absent means the
      default, `None` stays `None`, anything else must coerce to the field's
      kind; `postal_code` then goes through its validator. On failure the
      error names the field. */
  function ValidateField(f: FieldName, mapped: Dict, coerce: Coercion): (r: Result<Value, FieldName>)
    ensures Get(mapped, Column(f)).None? ==> r == Ok(Default(f))
    ensures Get(mapped, Column(f)) == Some(Null) ==> r == Ok(Null)
    ensures r.Err? <==>
      && Get(mapped, Column(f)).Some?
      && Get(mapped, Column(f)).value != Null
      && var c := coerce(f, Get(mapped, Column(f)).value);
         c.None? || !Conforms(KindOf(f), c.value)
    ensures r.Err? ==> r.error == f
    ensures r.Ok? ==> r.value.Null? || Conforms(KindOf(f), r.value)
    ensures r.Ok? && f == PostalCode && r.value.Str? ==> NoEdgeSpace(r.value.s)
  {
    match Get(mapped, Column(f))
    case None => Ok(Default(f))
    case Some(v) => ValidateValue(f, v, coerce)
  }

  /** A present, non-null value that coerces to the declared kind is
      accepted as coerced; `postal_code` is stripped on top. */
  lemma ValidatePresentField(f: FieldName, mapped: Dict, coerce: Coercion, v: Value)
    requires Get(mapped, Column(f)) == Some(v) && v != Null
    requires coerce(f, v).Some? && Conforms(KindOf(f), coerce(f, v).value)
    ensures ValidateField(f, mapped, coerce) ==
      var w := coerce(f, v).value;
      Ok(if f == PostalCode then Str(Strip(w.s)) else w)
  {
  }

  /** The typed record: every field has a value, `Null` standing for `None`. */
  datatype PropertyRecord = PropertyRecord(attrs: map<FieldName, Value>)

  function Attr(pm: PropertyRecord, f: FieldName): Value {
    if f in pm.attrs then pm.attrs[f] else Null
  }

  /** What validation guarantees of every record it lets through. */
  ghost predicate WellFormed(pm: PropertyRecord) {
    && (forall f :: f in pm.attrs)
    && (forall f :: Attr(pm, f).Null? || Conforms(KindOf(f), Attr(pm, f)))
    && (Attr(pm, PostalCode).Str? ==> NoEdgeSpace(Attr(pm, PostalCode).s))
  }

  /** The fields of `fs`, in order, for which `bad` holds. */
  function Select(fs: seq<FieldName>, bad: FieldName -> bool): (sel: seq<FieldName>)
    ensures forall f :: f in sel <==> f in fs && bad(f)
  {
    if fs == [] then []
    else if bad(fs[0]) then [fs[0]] + Select(fs[1..], bad)
    else Select(fs[1..], bad)
  }

  /** Each field comes strictly later in declaration order than the one
      before it. */
  predicate Ascending(fs: seq<FieldName>) {
    forall i :: 0 < i < |fs| ==> Position(fs[i - 1]) < Position(fs[i])
  }

  /** In an ascending list every field comes after the first one. */
  lemma {:induction false} AscendingFirstLeast(fs: seq<FieldName>)
    requires fs != [] && Ascending(fs)
    ensures forall f :: f in fs[1..] ==> Position(fs[0]) < Position(f)
  {
    if |fs| > 1 {
      var tail := fs[1..];
      assert Ascending(tail) by {
        forall i | 0 < i < |tail| ensures Position(tail[i - 1]) < Position(tail[i]) {
          assert tail[i - 1] == fs[i] && tail[i] == fs[i + 1];
        }
      }
      AscendingFirstLeast(tail);
      assert fs[1] == tail[0];
      forall f | f in tail ensures Position(fs[0]) < Position(f) {
        if f != tail[0] {
          var j :| 0 <= j < |tail| && tail[j] == f;
          assert f in tail[1..] by { assert tail[1..][j - 1] == f; }
        }
      }
    }
  }

  /** Selecting keeps the relative order of the fields. */
  lemma {:induction false} SelectAscending(fs: seq<FieldName>, bad: FieldName -> bool)
    requires Ascending(fs)
    ensures Ascending(Select(fs, bad))
  {
    if fs != [] {
      var tail := fs[1..];
      assert Ascending(tail) by {
        forall i | 0 < i < |tail| ensures Position(tail[i - 1]) < Position(tail[i]) {
          assert tail[i - 1] == fs[i] && tail[i] == fs[i + 1];
        }
      }
      SelectAscending(tail, bad);
      if bad(fs[0]) {
        var rest := Select(tail, bad);
        if rest != [] {
          assert rest[0] in rest;
          AscendingFirstLeast(fs);
        }
        var sel := [fs[0]] + rest;
        forall i | 0 < i < |sel| ensures Position(sel[i - 1]) < Position(sel[i]) {
          if i > 1 {
            assert sel[i - 1] == rest[i - 2] && sel[i] == rest[i - 1];
          }
        }
      }
    }
  }

  lemma AllFieldsListed(f: FieldName)
    ensures f in Fields
  {
    assert Fields[Position(f)] == f;
  }

  lemma FieldsInDeclarationOrder()
    ensures Ascending(Fields)
  {
    forall i | 0 <= i < |Fields|
      ensures Position(Fields[i]) == i
    {
    }
    forall i | 0 < i < |Fields|
      ensures Position(Fields[i - 1]) < Position(Fields[i])
    {
      assert Position(Fields[i - 1]) == i - 1;
    }
  }

  /** The fields that fail validation, in declaration order: the entries of
      the validation error. */
  function Failing(mapped: Dict, coerce: Coercion): (errs: seq<FieldName>)
    ensures forall f :: f in errs <==> ValidateField(f, mapped, coerce).Err?
    ensures Ascending(errs)
  {
    var bad := f => ValidateField(f, mapped, coerce).Err?;
    FieldsInDeclarationOrder();
    SelectAscending(Fields, bad);
    assert forall f :: f in Select(Fields, bad) <==> ValidateField(f, mapped, coerce).Err? by {
      forall f ensures f in Select(Fields, bad) <==> bad(f) {
        AllFieldsListed(f);
      }
    }
    Select(Fields, bad)
  }

  /** The record built from fields that all validate: every field holds its
      validated value. */
  function RecordOf(mapped: Dict, coerce: Coercion): (pm: PropertyRecord)
    requires forall f :: ValidateField(f, mapped, coerce).Ok?
    ensures forall f :: f in pm.attrs && Attr(pm, f) == ValidateField(f, mapped, coerce).value
    ensures WellFormed(pm)
  {
    var pm := PropertyRecord(map f | f in Fields :: ValidateField(f, mapped, coerce).value);
    assert forall f :: f in pm.attrs && Attr(pm, f) == ValidateField(f, mapped, coerce).value by {
      forall f ensures f in pm.attrs && Attr(pm, f) == ValidateField(f, mapped, coerce).value {
        AllFieldsListed(f);
      }
    }
    assert WellFormed(pm) by {
      forall f ensures Attr(pm, f).Null? || Conforms(KindOf(f), Attr(pm, f)) {
        var v := ValidateField(f, mapped, coerce);
        assert Attr(pm, f) == v.value;
      }
      var p := ValidateField(PostalCode, mapped, coerce);
      assert Attr(pm, PostalCode) == p.value;
    }
    pm
  }

  /** `PropertyModel(**mapped)`. Validation is all-or-nothing: the record is
      built only if every field validates; otherwise the error lists every
      failing field, in declaration order. Keys of `mapped` that name no
      field are ignored. */
  function Build(mapped: Dict, coerce: Coercion): (r: Result<PropertyRecord, seq<FieldName>>)
    ensures r.Ok? <==> forall f :: ValidateField(f, mapped, coerce).Ok?
    ensures r.Ok? ==> WellFormed(r.value)
    ensures r.Ok? ==> forall f :: Attr(r.value, f) == ValidateField(f, mapped, coerce).value
    ensures r.Err? ==> |r.error| > 0
    ensures r.Err? ==> forall f :: f in r.error <==> ValidateField(f, mapped, coerce).Err?
    ensures r.Err? ==> Ascending(r.error)
  {
    var errs := Failing(mapped, coerce);
    if errs == [] then
      assert forall f :: ValidateField(f, mapped, coerce).Ok? by {
        forall f ensures ValidateField(f, mapped, coerce).Ok? {
          assert f !in errs;
        }
      }
      Ok(RecordOf(mapped, coerce))
    else
      assert errs[0] in errs;
      Err(errs)
  }

  /** A member other than the head is in the tail. */
  lemma InTail(fs: seq<FieldName>, f: FieldName)
    requires f in fs && f != fs[0]
    ensures f in fs[1..]
  {
    var j :| 0 <= j < |fs| && fs[j] == f;
    assert fs[1..][j - 1] == f;
  }

  /** An ascending list is determined by its members: two ascending lists
      with the same fields are equal. */
  lemma {:induction false} AscendingUnique(a: seq<FieldName>, b: seq<FieldName>)
    requires Ascending(a) && Ascending(b)
    requires forall f :: f in a <==> f in b
    ensures a == b
    decreases |a|
  {
    if a != [] { assert a[0] in a; }
    if b != [] { assert b[0] in b; }
    if a != [] && b != [] {
      AscendingFirstLeast(a);
      AscendingFirstLeast(b);
      assert a[0] == b[0] by {
        if a[0] != b[0] {
          InTail(b, a[0]);
          InTail(a, b[0]);
        }
      }
      var ta, tb := a[1..], b[1..];
      assert Ascending(ta) && Ascending(tb) by {
        forall i | 0 < i < |ta| ensures Position(ta[i - 1]) < Position(ta[i]) {
          assert ta[i - 1] == a[i] && ta[i] == a[i + 1];
        }
        forall i | 0 < i < |tb| ensures Position(tb[i - 1]) < Position(tb[i]) {
          assert tb[i - 1] == b[i] && tb[i] == b[i + 1];
        }
      }
      forall f ensures f in ta <==> f in tb {
        if f in ta {
          assert f in a && f != b[0];
          InTail(b, f);
        }
        if f in tb {
          assert f in b && f != a[0];
          InTail(a, f);
        }
      }
      AscendingUnique(ta, tb);
      assert a == [a[0]] + ta && b == [b[0]] + tb;
    }
  }

  /** `PropertyModel(**mapped)` reads `mapped` only under the fields'
      names: two keyword-argument dicts that agree there build the same
      record or the same error. */
  lemma BuildReadsFieldColumns(m1: Dict, m2: Dict, coerce: Coercion)
    requires forall f :: Get(m1, Column(f)) == Get(m2, Column(f))
    ensures Build(m1, coerce) == Build(m2, coerce)
  {
    var e1, e2 := Failing(m1, coerce), Failing(m2, coerce);
    assert forall f :: f in e1 <==> f in e2 by {
      forall f ensures ValidateField(f, m1, coerce) == ValidateField(f, m2, coerce) {
        ValidateFieldReads(f, m1, m2, coerce);
      }
    }
    AscendingUnique(e1, e2);
    if e1 == [] {
      assert forall f :: ValidateField(f, m1, coerce).Ok? && ValidateField(f, m2, coerce).Ok? by {
        forall f ensures ValidateField(f, m1, coerce).Ok? && ValidateField(f, m2, coerce).Ok? {
          assert f !in e1 && f !in e2;
        }
      }
      RecordsAgree(m1, m2, coerce);
    }
  }

  /** A field's validation reads the mapped fields only under its name. */
  lemma ValidateFieldReads(f: FieldName, m1: Dict, m2: Dict, coerce: Coercion)
    requires Get(m1, Column(f)) == Get(m2, Column(f))
    ensures ValidateField(f, m1, coerce) == ValidateField(f, m2, coerce)
  {
  }

  /** With no failing field, dicts that agree on the fields' names build the
      same record. */
  lemma RecordsAgree(m1: Dict, m2: Dict, coerce: Coercion)
    requires forall f :: Get(m1, Column(f)) == Get(m2, Column(f))
    requires forall f :: ValidateField(f, m1, coerce).Ok?
    requires forall f :: ValidateField(f, m2, coerce).Ok?
    ensures RecordOf(m1, coerce) == RecordOf(m2, coerce)
  {
    forall f ensures ValidateField(f, m1, coerce) == ValidateField(f, m2, coerce) {
      ValidateFieldReads(f, m1, m2, coerce);
    }
    var pm1, pm2 := RecordOf(m1, coerce), RecordOf(m2, coerce);
    forall f ensures f in pm1.attrs && f in pm2.attrs && pm1.attrs[f] == pm2.attrs[f] {
      assert Attr(pm1, f) == ValidateField(f, m1, coerce).value;
      assert Attr(pm2, f) == ValidateField(f, m2, coerce).value;
    }
    assert pm1.attrs.Keys == pm2.attrs.Keys;
    assert pm1.attrs == pm2.attrs;
  }

  /** A keyword argument whose name is no field of the class is ignored:
      assigning it leaves the built record, or the error, as it was. */
  lemma NonFieldColumnIgnored(m: Dict, c: string, v: Value, coerce: Coercion)
    requires forall f :: Column(f) != c
    ensures Build(Put(m, c, v), coerce) == Build(m, coerce)
  {
    BuildReadsFieldColumns(Put(m, c, v), m, coerce);
  }
}
