/** The batch loop of `main` in etl.py: every raw record is mapped and
    inserted in turn; a record whose mapping or insert raises is counted as
    failed and the loop goes on with the next one. */
module Batch {
  import opened Values
  import opened PropertyModel
  import opened FieldMapping
  import opened Inserts

  /** The store as the loop sees it: for the record at a given position and
      its typed record, the identifier generated for the property row, or
      `None` when one of the inserts raises (a duplicate `external_id`, a
      lost connection, ...). */
  type Store = (nat, PropertyRecord) -> Option<nat>

  /** What became of one record: the rows inserted for it, or a failure. */
  datatype Outcome = Inserted(rows: seq<Row>) | Failed

  /** The body of the loop for the record at position `i`. The record
      fails when mapping it raises or when the store refuses it; otherwise
      every planned row is inserted under the identifier the store gave the
      property row. */
  function ProcessRow(i: nat, row: Dict, rules: seq<Rule>, coerce: Coercion, store: Store): (o: Outcome)
    ensures var m := MapRowToModel(row, rules, coerce);
      o.Failed? <==> m.Err? || store(i, m.value).None?
    ensures var m := MapRowToModel(row, rules, coerce);
      o.Inserted? ==> m.Ok? && store(i, m.value).Some? && o.rows == PlanInserts(store(i, m.value).value, m.value)
  {
    Settle(i, MapRowToModel(row, rules, coerce), store)
  }

  /** What the store makes of a mapping result. */
  function Settle(i: nat, mapped: Result<PropertyRecord, seq<FieldName>>, store: Store): (o: Outcome)
    ensures o.Failed? <==> mapped.Err? || store(i, mapped.value).None?
    ensures o.Inserted? ==> forall r :: r in o.rows ==> r.propertyId == store(i, mapped.value).value
  {
    match mapped
    case Err(_) => Failed
    case Ok(pm) =>
      match store(i, pm)
      case None => Failed
      case Some(id) => Inserted(PlanInserts(id, pm))
  }

  /** The loop body with the mapping table, the coercion and the store
      fixed. */
  function Step(rules: seq<Rule>, coerce: Coercion, store: Store): (nat, Dict) -> Outcome {
    (i: nat, row: Dict) => ProcessRow(i, row, rules, coerce, store)
  }

  /** The outcome of every record under `step`, in input order. */
  function Outcomes(rows: seq<Dict>, step: (nat, Dict) -> Outcome): (os: seq<Outcome>)
    ensures |os| == |rows|
    ensures forall i :: 0 <= i < |rows| ==> os[i] == step(i, rows[i])
  {
    seq(|rows|, i requires 0 <= i < |rows| => step(i, rows[i]))
  }

  /** How many outcomes are failures. */
  function FailedCount(os: seq<Outcome>): (n: nat)
    ensures n <= |os|
    ensures n == 0 <==> forall i :: 0 <= i < |os| ==> os[i].Inserted?
    ensures n == |os| <==> forall i :: 0 <= i < |os| ==> os[i].Failed?
  {
    if os == [] then 0
    else
      var prefix := os[..|os| - 1];
      assert forall i :: 0 <= i < |prefix| ==> prefix[i] == os[i];
      FailedCount(prefix) + if os[|os| - 1].Failed? then 1 else 0
  }

  /** The inserted row lists, in input order. */
  function InsertedRows(os: seq<Outcome>): (ins: seq<seq<Row>>)
    ensures |ins| + FailedCount(os) == |os|
  {
    if os == [] then []
    else
      var prefix := os[..|os| - 1];
      match os[|os| - 1]
      case Failed => InsertedRows(prefix)
      case Inserted(rs) => InsertedRows(prefix) + [rs]
  }

  /** `main`'s loop over the outcomes of the records, in input order:
      `failed` starts at zero and goes up by one for every failed record;
      the loop never stops early. */
  method Tally(os: seq<Outcome>) returns (failed: nat, inserted: seq<seq<Row>>)
    ensures failed == FailedCount(os)
    ensures inserted == InsertedRows(os)
    ensures failed <= |os|
    ensures failed + |inserted| == |os|
  {
    failed := 0;
    inserted := [];
    for i := 0 to |os|
      invariant failed == FailedCount(os[..i])
      invariant inserted == InsertedRows(os[..i])
    {
      assert os[..i + 1][..i] == os[..i];
      match os[i]
      case Failed =>
        failed := failed + 1;
      case Inserted(rs) =>
        inserted := inserted + [rs];
    }
    assert os[..|os|] == os;
  }

  /** `main`: map and insert every record, counting the failures. */
  method Run(rows: seq<Dict>, rules: seq<Rule>, coerce: Coercion, store: Store)
    returns (failed: nat, inserted: seq<seq<Row>>)
    ensures failed == FailedCount(Outcomes(rows, Step(rules, coerce, store)))
    ensures inserted == InsertedRows(Outcomes(rows, Step(rules, coerce, store)))
    ensures failed <= |rows|
    ensures failed + |inserted| == |rows|
  {
    failed, inserted := Tally(Outcomes(rows, Step(rules, coerce, store)));
  }
}
