/** The fan-out of one typed record into rows (`insert_property` in
    etl.py), as the list of rows the function would insert, in order, rather
    than the inserts themselves.

    The property identifier is a parameter. The script reads it with a
    separate `SELECT LAST_INSERT_ID()` after inserting the property row; that
    yields this insert's identifier only while a single connection writes.
 */
module Inserts {
  import opened Values
  import opened PropertyModel

  datatype Table =
    | PropertyTable
    | PropertyDetailTable
    | ValuationTable
    | HoaTable
    | RehabEstimateTable
    | PropertyAttributeTable

  /** A statement parameter: a value as it is (`Null` is SQL NULL), or the
      text that `json.dumps(v)` or `str(v)` produce for a value. The two
      encoders themselves are not modelled. */
  datatype Cell = Param(v: Value) | JsonText(encoded: Value) | StrText(shown: Value)

  /** One inserted row: its table, the property it belongs to, and its
      column/parameter pairs in statement order. For the property row the
      identifier is the one the store generated for it. */
  datatype Row = Row(table: Table, propertyId: nat, cells: seq<(string, Cell)>)

  /** The record's fields `fs`, as parameters under their own names. */
  function Params(pm: PropertyRecord, fs: seq<FieldName>): (cs: seq<(string, Cell)>)
    ensures |cs| == |fs|
    ensures forall i :: 0 <= i < |fs| ==> cs[i] == (Column(fs[i]), Param(Attr(pm, fs[i])))
  {
    seq(|fs|, i requires 0 <= i < |fs| => (Column(fs[i]), Param(Attr(pm, fs[i]))))
  }

  /** `valuation_date.date()` when a datetime is present, `None` otherwise. */
  function DatePart(v: Value): Value {
    match v
    case DateTime(day, _) => Date(day)
    case _ => Null
  }

  /** The truth value of the breakdown, which validation makes a dict or
      `None`: an empty dict counts as false. */
  predicate NonEmptyDict(v: Value) {
    v.Object? && |v.entries| > 0
  }

  /** `pm.other_attributes or {}`. */
  function Residual(pm: PropertyRecord): Dict {
    match Attr(pm, OtherAttributes)
    case Object(d) => d
    case _ => []
  }

  /** Dicts and lists are stored as JSON, anything else as `str(v)`. */
  function Render(v: Value): (c: Cell)
    ensures c.JsonText? <==> v.Object? || v.List?
    ensures c.JsonText? ==> c.encoded == v
    ensures c.StrText? ==> c.shown == v
    ensures !c.Param?
  {
    if v.Object? || v.List? then JsonText(v) else StrText(v)
  }

  predicate HasValuation(pm: PropertyRecord) {
    Attr(pm, ValuationAmount) != Null || Attr(pm, ValuationSource) != Null
  }

  predicate HasHoaInfo(pm: PropertyRecord) {
    Attr(pm, HasHoa) != Null || Attr(pm, HoaName) != Null
  }

  predicate HasRehabEstimate(pm: PropertyRecord) {
    Attr(pm, RehabEstimateTotal) != Null || NonEmptyDict(Attr(pm, RehabEstimateBreakdown))
  }

  function PropertyRowOf(id: nat, pm: PropertyRecord): Row {
    Row(PropertyTable, id,
        Params(pm, [ExternalId, AddressLine1, AddressLine2, City, State, PostalCode, County, Latitude, Longitude]))
  }

  function DetailRowOf(id: nat, pm: PropertyRecord): Row {
    Row(PropertyDetailTable, id,
        Params(pm, [Bedrooms, Bathrooms, Sqft, YearBuilt, PropertyType]) + [("zoning", Param(Null))])
  }

  function ValuationRowOf(id: nat, pm: PropertyRecord): Row {
    Row(ValuationTable, id,
        Params(pm, [ValuationSource, ValuationAmount])
        + [("valuation_date", Param(DatePart(Attr(pm, ValuationDate)))), ("notes", Param(Null))])
  }

  function HoaRowOf(id: nat, pm: PropertyRecord): Row {
    Row(HoaTable, id, Params(pm, [HasHoa, HoaName, HoaFeeAmount, HoaFeeFrequency]))
  }

  function BreakdownCell(v: Value): Cell {
    if NonEmptyDict(v) then JsonText(v) else Param(Null)
  }

  function RehabRowOf(id: nat, pm: PropertyRecord): Row {
    Row(RehabEstimateTable, id,
        [ ("estimate_total", Param(Attr(pm, RehabEstimateTotal))),
          ("estimate_breakdown", BreakdownCell(Attr(pm, RehabEstimateBreakdown))),
          ("last_updated", Param(Null)) ])
  }

  function AttributeRowOf(id: nat, entry: (string, Value)): Row {
    Row(PropertyAttributeTable, id, [("attr_key", Param(Str(entry.0))), ("attr_value", Render(entry.1))])
  }

  function AttributeRows(id: nat, d: Dict): (rows: seq<Row>)
    ensures |rows| == |d|
    ensures forall i :: 0 <= i < |d| ==> rows[i] == AttributeRowOf(id, d[i])
  {
    seq(|d|, i requires 0 <= i < |d| => AttributeRowOf(id, d[i]))
  }

  /** `insert_property`: the rows it inserts, in order. */
  function PlanInserts(id: nat, pm: PropertyRecord): (plan: seq<Row>)
    ensures forall r :: r in plan ==> r.propertyId == id
    ensures |plan| >= 2 && plan[0].table == PropertyTable && plan[1].table == PropertyDetailTable
  {
    [PropertyRowOf(id, pm), DetailRowOf(id, pm)]
    + (if HasValuation(pm) then [ValuationRowOf(id, pm)] else [])
    + (if HasHoaInfo(pm) then [HoaRowOf(id, pm)] else [])
    + (if HasRehabEstimate(pm) then [RehabRowOf(id, pm)] else [])
    + AttributeRows(id, Residual(pm))
  }

  /** The rows of `rows` that go to table `t`, in order. */
  function RowsOf(rows: seq<Row>, t: Table): (sel: seq<Row>)
    ensures |sel| <= |rows|
    ensures forall r :: r in sel <==> r in rows && r.table == t
  {
    if rows == [] then []
    else (if rows[0].table == t then [rows[0]] else []) + RowsOf(rows[1..], t)
  }

  /** Selection keeps the order of `rows`: a row appended at the end is
      appended to the selection when it belongs to `t`, and dropped
      otherwise. With the empty case, which the length bound of `RowsOf`
      fixes, this determines the selection of every list. */
  lemma {:induction false} RowsOfSnoc(rows: seq<Row>, r: Row, t: Table)
    ensures RowsOf(rows + [r], t) == RowsOf(rows, t) + (if r.table == t then [r] else [])
    decreases |rows|
  {
    if rows == [] {
      assert [] + [r] == [r];
      assert [r][1..] == [];
    } else {
      assert (rows + [r])[1..] == rows[1..] + [r];
      RowsOfSnoc(rows[1..], r, t);
    }
  }

  lemma {:induction false} RowsOfAppend(a: seq<Row>, b: seq<Row>, t: Table)
    ensures RowsOf(a + b, t) == RowsOf(a, t) + RowsOf(b, t)
  {
    if a == [] {
      assert a + b == b;
    } else {
      assert (a + b)[0] == a[0];
      assert (a + b)[1..] == a[1..] + b;
      RowsOfAppend(a[1..], b, t);
    }
  }

  /** Rows that all go to table `u` are kept whole for `u` and dropped for
      any other table. */
  lemma {:induction false} RowsOfUniform(rows: seq<Row>, u: Table, t: Table)
    requires forall r :: r in rows ==> r.table == u
    ensures RowsOf(rows, t) == if t == u then rows else []
  {
    if rows != [] {
      assert rows[0] in rows;
      assert forall r :: r in rows[1..] ==> r in rows;
      RowsOfUniform(rows[1..], u, t);
      assert rows == [rows[0]] + rows[1..];
    }
  }

  /** Appending rows that all go to table `u` adds them to `u`'s rows only. */
  lemma RowsOfAppendUniform(a: seq<Row>, b: seq<Row>, u: Table, t: Table)
    requires forall x :: x in b ==> x.table == u
    ensures RowsOf(a + b, t) == RowsOf(a, t) + (if t == u then b else [])
  {
    RowsOfAppend(a, b, t);
    RowsOfUniform(b, u, t);
  }

  /** The table-by-table view of a plan laid out as property row, detail
      row, then at most one row each of valuation, HOA and rehab estimate,
      then attribute rows. */
  lemma RowsOfLayoutAt(p: Row, d: Row, v: seq<Row>, h: seq<Row>, r: seq<Row>, attrs: seq<Row>, t: Table)
    requires p.table == PropertyTable && d.table == PropertyDetailTable
    requires forall x :: x in v ==> x.table == ValuationTable
    requires forall x :: x in h ==> x.table == HoaTable
    requires forall x :: x in r ==> x.table == RehabEstimateTable
    requires forall x :: x in attrs ==> x.table == PropertyAttributeTable
    ensures RowsOf([p, d] + v + h + r + attrs, t) ==
      (if t == PropertyTable then [p] else [])
      + (if t == PropertyDetailTable then [d] else [])
      + (if t == ValuationTable then v else [])
      + (if t == HoaTable then h else [])
      + (if t == RehabEstimateTable then r else [])
      + (if t == PropertyAttributeTable then attrs else [])
  {
    var e: seq<Row> := [];
    assert [p, d] == e + [p] + [d];
    RowsOfAppendUniform(e, [p], PropertyTable, t);
    RowsOfAppendUniform(e + [p], [d], PropertyDetailTable, t);
    RowsOfAppendUniform([p, d], v, ValuationTable, t);
    RowsOfAppendUniform([p, d] + v, h, HoaTable, t);
    RowsOfAppendUniform([p, d] + v + h, r, RehabEstimateTable, t);
    RowsOfAppendUniform([p, d] + v + h + r, attrs, PropertyAttributeTable, t);
    assert RowsOf(e, t) == [];
    assert [] + (if t == PropertyTable then [p] else []) == (if t == PropertyTable then [p] else []);
  }

  /** The property, detail and valuation rows of such a plan. */
  lemma RowsOfLayoutMain(p: Row, d: Row, v: seq<Row>, h: seq<Row>, r: seq<Row>, attrs: seq<Row>)
    requires p.table == PropertyTable && d.table == PropertyDetailTable
    requires forall x :: x in v ==> x.table == ValuationTable
    requires forall x :: x in h ==> x.table == HoaTable
    requires forall x :: x in r ==> x.table == RehabEstimateTable
    requires forall x :: x in attrs ==> x.table == PropertyAttributeTable
    ensures RowsOf([p, d] + v + h + r + attrs, PropertyTable) == [p]
    ensures RowsOf([p, d] + v + h + r + attrs, PropertyDetailTable) == [d]
    ensures RowsOf([p, d] + v + h + r + attrs, ValuationTable) == v
  {
    var e: seq<Row> := [];
    assert RowsOf([p, d] + v + h + r + attrs, PropertyTable) == [p] by {
      RowsOfLayoutAt(p, d, v, h, r, attrs, PropertyTable);
      assert [p] + e + e + e + e + e == [p];
    }
    assert RowsOf([p, d] + v + h + r + attrs, PropertyDetailTable) == [d] by {
      RowsOfLayoutAt(p, d, v, h, r, attrs, PropertyDetailTable);
      assert e + [d] + e + e + e + e == [d];
    }
    assert RowsOf([p, d] + v + h + r + attrs, ValuationTable) == v by {
      RowsOfLayoutAt(p, d, v, h, r, attrs, ValuationTable);
      assert e + e + v + e + e + e == v;
    }
  }

  /** The HOA, rehab-estimate and attribute rows of such a plan. */
  lemma RowsOfLayoutRest(p: Row, d: Row, v: seq<Row>, h: seq<Row>, r: seq<Row>, attrs: seq<Row>)
    requires p.table == PropertyTable && d.table == PropertyDetailTable
    requires forall x :: x in v ==> x.table == ValuationTable
    requires forall x :: x in h ==> x.table == HoaTable
    requires forall x :: x in r ==> x.table == RehabEstimateTable
    requires forall x :: x in attrs ==> x.table == PropertyAttributeTable
    ensures RowsOf([p, d] + v + h + r + attrs, HoaTable) == h
    ensures RowsOf([p, d] + v + h + r + attrs, RehabEstimateTable) == r
    ensures RowsOf([p, d] + v + h + r + attrs, PropertyAttributeTable) == attrs
  {
    var e: seq<Row> := [];
    assert RowsOf([p, d] + v + h + r + attrs, HoaTable) == h by {
      RowsOfLayoutAt(p, d, v, h, r, attrs, HoaTable);
      assert e + e + e + h + e + e == h;
    }
    assert RowsOf([p, d] + v + h + r + attrs, RehabEstimateTable) == r by {
      RowsOfLayoutAt(p, d, v, h, r, attrs, RehabEstimateTable);
      assert e + e + e + e + r + e == r;
    }
    assert RowsOf([p, d] + v + h + r + attrs, PropertyAttributeTable) == attrs by {
      RowsOfLayoutAt(p, d, v, h, r, attrs, PropertyAttributeTable);
      assert e + e + e + e + e + attrs == attrs;
    }
  }

  /** The rows of the plan, table by table. */
  lemma PlanByTable(id: nat, pm: PropertyRecord)
    ensures RowsOf(PlanInserts(id, pm), PropertyTable) == [PropertyRowOf(id, pm)]
    ensures RowsOf(PlanInserts(id, pm), PropertyDetailTable) == [DetailRowOf(id, pm)]
    ensures RowsOf(PlanInserts(id, pm), ValuationTable) ==
      if HasValuation(pm) then [ValuationRowOf(id, pm)] else []
    ensures RowsOf(PlanInserts(id, pm), HoaTable) ==
      if HasHoaInfo(pm) then [HoaRowOf(id, pm)] else []
    ensures RowsOf(PlanInserts(id, pm), RehabEstimateTable) ==
      if HasRehabEstimate(pm) then [RehabRowOf(id, pm)] else []
    ensures RowsOf(PlanInserts(id, pm), PropertyAttributeTable) == AttributeRows(id, Residual(pm))
  {
    var p := PropertyRowOf(id, pm);
    var d := DetailRowOf(id, pm);
    var v := if HasValuation(pm) then [ValuationRowOf(id, pm)] else [];
    var h := if HasHoaInfo(pm) then [HoaRowOf(id, pm)] else [];
    var r := if HasRehabEstimate(pm) then [RehabRowOf(id, pm)] else [];
    var attrs := AttributeRows(id, Residual(pm));
    assert forall x :: x in attrs ==> x.table == PropertyAttributeTable;
    assert PlanInserts(id, pm) == [p, d] + v + h + r + attrs;
    RowsOfLayoutMain(p, d, v, h, r, attrs);
    RowsOfLayoutRest(p, d, v, h, r, attrs);
  }

  /** Presence rules: one property row and one detail row always; one
      valuation row iff an amount or a source is present; one HOA row iff
      the HOA flag or name is present; one rehab-estimate row iff a total is
      present or the breakdown is a non-empty dict; one attribute row per
      residual entry. */
  lemma PlanCounts(id: nat, pm: PropertyRecord)
    ensures |RowsOf(PlanInserts(id, pm), PropertyTable)| == 1
    ensures |RowsOf(PlanInserts(id, pm), PropertyDetailTable)| == 1
    ensures |RowsOf(PlanInserts(id, pm), ValuationTable)| == 1 <==>
      Attr(pm, ValuationAmount) != Null || Attr(pm, ValuationSource) != Null
    ensures |RowsOf(PlanInserts(id, pm), ValuationTable)| <= 1
    ensures |RowsOf(PlanInserts(id, pm), HoaTable)| == 1 <==>
      Attr(pm, HasHoa) != Null || Attr(pm, HoaName) != Null
    ensures |RowsOf(PlanInserts(id, pm), HoaTable)| <= 1
    ensures |RowsOf(PlanInserts(id, pm), RehabEstimateTable)| == 1 <==>
      Attr(pm, RehabEstimateTotal) != Null || NonEmptyDict(Attr(pm, RehabEstimateBreakdown))
    ensures |RowsOf(PlanInserts(id, pm), RehabEstimateTable)| <= 1
    ensures |RowsOf(PlanInserts(id, pm), PropertyAttributeTable)| == |Residual(pm)|
  {
    PlanByTable(id, pm);
  }

  /** A valuation date alone does not produce a valuation row, nor a fee
      alone an HOA row. A present HOA flag does, even when it is false. */
  lemma PlanIgnoresLoneDateAndFee(id: nat, pm: PropertyRecord)
    requires Attr(pm, ValuationAmount) == Null && Attr(pm, ValuationSource) == Null
    requires Attr(pm, HoaName) == Null
    ensures RowsOf(PlanInserts(id, pm), ValuationTable) == []
    ensures Attr(pm, HasHoa) == Null ==> RowsOf(PlanInserts(id, pm), HoaTable) == []
    ensures Attr(pm, HasHoa) == Bool(false) ==> |RowsOf(PlanInserts(id, pm), HoaTable)| == 1
  {
    PlanByTable(id, pm);
  }

  /** The property row names the nine address and location columns in
      statement order, each bound to the field of the same name. */
  lemma PropertyRowContents(id: nat, pm: PropertyRecord)
    ensures PropertyRowOf(id, pm) == Row(PropertyTable, id,
      [ ("external_id", Param(Attr(pm, ExternalId))),
        ("address_line1", Param(Attr(pm, AddressLine1))),
        ("address_line2", Param(Attr(pm, AddressLine2))),
        ("city", Param(Attr(pm, City))),
        ("state", Param(Attr(pm, State))),
        ("postal_code", Param(Attr(pm, PostalCode))),
        ("county", Param(Attr(pm, County))),
        ("latitude", Param(Attr(pm, Latitude))),
        ("longitude", Param(Attr(pm, Longitude))) ])
  {
    var fs := [ExternalId, AddressLine1, AddressLine2, City, State, PostalCode, County, Latitude, Longitude];
    var ps := Params(pm, fs);
    assert forall i :: 0 <= i < 9 ==> ps[i] == (Column(fs[i]), Param(Attr(pm, fs[i])));
  }

  /** The HOA row names its four columns in statement order, each bound to
      the field of the same name. */
  lemma HoaRowContents(id: nat, pm: PropertyRecord)
    ensures HoaRowOf(id, pm) == Row(HoaTable, id,
      [ ("has_hoa", Param(Attr(pm, HasHoa))),
        ("hoa_name", Param(Attr(pm, HoaName))),
        ("hoa_fee_amount", Param(Attr(pm, HoaFeeAmount))),
        ("hoa_fee_frequency", Param(Attr(pm, HoaFeeFrequency))) ])
  {
    var fs := [HasHoa, HoaName, HoaFeeAmount, HoaFeeFrequency];
    var ps := Params(pm, fs);
    assert forall i :: 0 <= i < 4 ==> ps[i] == (Column(fs[i]), Param(Attr(pm, fs[i])));
  }

  /** The detail row carries the physical fields and a NULL zoning. */
  lemma DetailRowContents(id: nat, pm: PropertyRecord)
    ensures DetailRowOf(id, pm) == Row(PropertyDetailTable, id,
      [ ("bedrooms", Param(Attr(pm, Bedrooms))),
        ("bathrooms", Param(Attr(pm, Bathrooms))),
        ("sqft", Param(Attr(pm, Sqft))),
        ("year_built", Param(Attr(pm, YearBuilt))),
        ("property_type", Param(Attr(pm, PropertyType))),
        ("zoning", Param(Null)) ])
  {
    var fs := [Bedrooms, Bathrooms, Sqft, YearBuilt, PropertyType];
    var ps := Params(pm, fs);
    assert forall i :: 0 <= i < 5 ==> ps[i] == (Column(fs[i]), Param(Attr(pm, fs[i])));
  }

  /** An empty or absent breakdown is stored as NULL, a non-empty one as
      its JSON text. */
  lemma RehabRowContents(id: nat, pm: PropertyRecord)
    ensures HasRehabEstimate(pm) ==>
      RowsOf(PlanInserts(id, pm), RehabEstimateTable) == [Row(RehabEstimateTable, id,
        [ ("estimate_total", Param(Attr(pm, RehabEstimateTotal))),
          ("estimate_breakdown",
             if NonEmptyDict(Attr(pm, RehabEstimateBreakdown)) then JsonText(Attr(pm, RehabEstimateBreakdown))
             else Param(Null)),
          ("last_updated", Param(Null)) ])]
  {
    if HasRehabEstimate(pm) {
      assert RowsOf(PlanInserts(id, pm), RehabEstimateTable) == [RehabRowOf(id, pm)] by {
        PlanByTable(id, pm);
      }
    }
  }

  /** The valuation row binds the source and the amount, the date part of
      a datetime valuation date or NULL when there is none, and a NULL
      note. */
  lemma ValuationRowContents(id: nat, pm: PropertyRecord)
    ensures HasValuation(pm) ==>
      RowsOf(PlanInserts(id, pm), ValuationTable) == [Row(ValuationTable, id,
        [ ("valuation_source", Param(Attr(pm, ValuationSource))),
          ("valuation_amount", Param(Attr(pm, ValuationAmount))),
          ("valuation_date", Param(
             if Attr(pm, ValuationDate).DateTime? then Date(Attr(pm, ValuationDate).day) else Null)),
          ("notes", Param(Null)) ])]
  {
    if HasValuation(pm) {
      assert RowsOf(PlanInserts(id, pm), ValuationTable) == [ValuationRowOf(id, pm)] by {
        PlanByTable(id, pm);
      }
      ValuationRowCells(id, pm);
    }
  }

  lemma ValuationRowCells(id: nat, pm: PropertyRecord)
    ensures ValuationRowOf(id, pm).cells ==
        [ ("valuation_source", Param(Attr(pm, ValuationSource))),
          ("valuation_amount", Param(Attr(pm, ValuationAmount))),
          ("valuation_date", Param(
             if Attr(pm, ValuationDate).DateTime? then Date(Attr(pm, ValuationDate).day) else Null)),
          ("notes", Param(Null)) ]
  {
    var fs := [ValuationSource, ValuationAmount];
    var ps := Params(pm, fs);
    assert forall i :: 0 <= i < 2 ==> ps[i] == (Column(fs[i]), Param(Attr(pm, fs[i])));
  }

  /** One attribute row per residual entry, in the residual's order, keyed
      by the entry's key and holding its JSON text for a dict or list and
      its `str` text otherwise. */
  lemma AttributeRowsMatchResidual(id: nat, pm: PropertyRecord)
    ensures var attrs := RowsOf(PlanInserts(id, pm), PropertyAttributeTable);
      && |attrs| == |Residual(pm)|
      && forall i :: 0 <= i < |attrs| ==>
           var (k, v) := Residual(pm)[i];
           && attrs[i].propertyId == id
           && attrs[i].cells == [("attr_key", Param(Str(k))), ("attr_value", Render(v))]
           && (attrs[i].cells[1].1.JsonText? <==> v.Object? || v.List?)
  {
    var attrs := RowsOf(PlanInserts(id, pm), PropertyAttributeTable);
    var d := Residual(pm);
    assert attrs == AttributeRows(id, d) by { PlanByTable(id, pm); }
    forall i | 0 <= i < |attrs|
      ensures var (k, v) := d[i];
        && attrs[i].propertyId == id
        && attrs[i].cells == [("attr_key", Param(Str(k))), ("attr_value", Render(v))]
        && (attrs[i].cells[1].1.JsonText? <==> v.Object? || v.List?)
    {
      assert attrs[i] == AttributeRowOf(id, d[i]);
    }
  }
}
