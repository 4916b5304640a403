/** Field mapping (`map_row_to_model` in etl.py): every key of a raw record
    is looked up in the mapping table; a matched value goes under the rule's
    target column, an unmatched pair is kept in the residual attributes. */
module FieldMapping {
  import opened Values
  import opened Text
  import opened PropertyModel

  /** One row of the mapping table. */
  datatype Rule = Rule(rawField: string, targetTable: string, targetColumn: string)

  /** A rule applies to a raw key when the two agree ignoring case. */
  predicate Matches(rule: Rule, key: string) {
    SameIgnoringCase(rule.rawField, key)
  }

  /** The index of the first rule that applies to `key`. */
  function FirstMatch(rules: seq<Rule>, key: string): (r: Option<nat>)
    ensures r.Some? ==> r.value < |rules| && Matches(rules[r.value], key)
    ensures r.Some? ==> forall j :: 0 <= j < r.value ==> !Matches(rules[j], key)
    ensures r.None? ==> forall j :: 0 <= j < |rules| ==> !Matches(rules[j], key)
  {
    if rules == [] then None
    else if Matches(rules[0], key) then Some(0)
    else match FirstMatch(rules[1..], key)
      case None => None
      case Some(i) => Some(i + 1)
  }

  /** The column a raw key is stored under: the first matching rule's target
      column, stripped of surrounding whitespace; `None` when no rule
      matches. The rule's target table plays no part. */
  function Resolve(rules: seq<Rule>, key: string): (r: Option<string>)
    ensures r.Some? <==> exists j :: 0 <= j < |rules| && Matches(rules[j], key)
    ensures r.Some? ==> NoEdgeSpace(r.value)
  {
    match FirstMatch(rules, key)
    case None => None
    case Some(i) => Some(Strip(rules[i].targetColumn))
  }

  /** First match wins: when rule `i` is the earliest rule for `key`, its
      target column decides, whatever later rules say. */
  lemma ResolveFirstMatchWins(rules: seq<Rule>, key: string, i: nat)
    requires i < |rules| && Matches(rules[i], key)
    requires forall j :: 0 <= j < i ==> !Matches(rules[j], key)
    ensures Resolve(rules, key) == Some(Strip(rules[i].targetColumn))
  {
  }

  /** A target column written without surrounding whitespace is used as
      written. */
  lemma ResolveCleanTarget(rules: seq<Rule>, key: string, i: nat)
    requires i < |rules| && Matches(rules[i], key)
    requires forall j :: 0 <= j < i ==> !Matches(rules[j], key)
    requires NoEdgeSpace(rules[i].targetColumn)
    ensures Resolve(rules, key) == Some(rules[i].targetColumn)
  {
    ResolveFirstMatchWins(rules, key, i);
    StripKeepsClean(rules[i].targetColumn);
  }

  /** Lookup ignores case: two raw keys that differ only in the case of
      their letters resolve alike. */
  lemma ResolveIgnoresCase(rules: seq<Rule>, k1: string, k2: string)
    requires SameIgnoringCase(k1, k2)
    ensures Resolve(rules, k1) == Resolve(rules, k2)
  {
    assert forall j :: 0 <= j < |rules| ==> (Matches(rules[j], k1) <==> Matches(rules[j], k2));
  }

  /** How a raw key is resolved to a column; `ResolverOf(rules)` is the
      one the script uses. */
  type Resolver = string -> Option<string>

  function ResolverOf(rules: seq<Rule>): (resolve: Resolver)
    ensures forall k :: resolve(k) == Resolve(rules, k)
  {
    k => Resolve(rules, k)
  }

  /** The two dictionaries `map_row_to_model` fills. */
  datatype Split = Split(mapped: Dict, other: Dict)

  /** The loop over the raw record, in the record's order: a resolved key
      writes its value under the resolved column, an unresolved pair is
      written to the residual dictionary under its own key. */
  function Partition(row: Dict, resolve: Resolver): (p: Split)
    ensures DistinctKeys(p.mapped) && DistinctKeys(p.other)
    ensures forall k :: k in Keys(p.other) <==> k in Keys(row) && resolve(k).None?
    ensures forall c :: c in Keys(p.mapped) <==>
      exists k :: k in Keys(row) && resolve(k) == Some(c)
    decreases |row|
  {
    if row == [] then Split([], [])
    else
      var prefix := row[..|row| - 1];
      var (k, v) := row[|row| - 1];
      assert Keys(row) == Keys(prefix) + [k];
      var p := Partition(prefix, resolve);
      match resolve(k)
      case Some(c) => Split(Put(p.mapped, c, v), p.other)
      case None => Split(p.mapped, Put(p.other, k, v))
  }

  /** Every key of the raw record ends up in exactly one place: under its
      resolved column in the mapped fields, or under itself in the residual
      attributes; never both and never neither. */
  lemma KeyAccountedFor(row: Dict, rules: seq<Rule>, k: string)
    requires k in Keys(row)
    ensures var p := Partition(row, ResolverOf(rules));
      || (Resolve(rules, k).Some? && Resolve(rules, k).value in Keys(p.mapped) && k !in Keys(p.other))
      || (Resolve(rules, k).None? && k in Keys(p.other))
  {
  }

  /** One more step of the partition loop. */
  lemma PartitionSnoc(row: Dict, k: string, v: Value, resolve: Resolver)
    ensures Partition(row + [(k, v)], resolve) ==
      var p := Partition(row, resolve);
      match resolve(k)
      case Some(c) => Split(Put(p.mapped, c, v), p.other)
      case None => Split(p.mapped, Put(p.other, k, v))
  {
    assert (row + [(k, v)])[..|row|] == row;
  }

  /** A pair whose key resolves to a new column is appended to the mapped
      fields. */
  lemma PartitionSnocMapped(row: Dict, k: string, v: Value, resolve: Resolver, c: string, mapped: Dict, other: Dict)
    requires resolve(k) == Some(c)
    requires Partition(row, resolve) == Split(mapped, other)
    requires c !in Keys(mapped)
    ensures Partition(row + [(k, v)], resolve) == Split(mapped + [(c, v)], other)
  {
    PartitionSnoc(row, k, v, resolve);
  }

  /** A pair whose new key resolves to nothing is appended to the residual. */
  lemma PartitionSnocOther(row: Dict, k: string, v: Value, resolve: Resolver, mapped: Dict, other: Dict)
    requires resolve(k) == None
    requires Partition(row, resolve) == Split(mapped, other)
    requires k !in Keys(other)
    ensures Partition(row + [(k, v)], resolve) == Split(mapped, other + [(k, v)])
  {
    PartitionSnoc(row, k, v, resolve);
  }

  /** The index of the last pair of `row` whose key resolves to column `c`. */
  function LastWriter(row: Dict, resolve: Resolver, c: string): (r: Option<nat>)
    ensures r.Some? ==> r.value < |row| && resolve(row[r.value].0) == Some(c)
    ensures r.Some? ==> forall j :: r.value < j < |row| ==> resolve(row[j].0) != Some(c)
    ensures r.None? ==> forall j :: 0 <= j < |row| ==> resolve(row[j].0) != Some(c)
    decreases |row|
  {
    if row == [] then None
    else if resolve(row[|row| - 1].0) == Some(c) then Some(|row| - 1)
    else
      var prefix := row[..|row| - 1];
      var r := LastWriter(prefix, resolve, c);
      assert r.Some? ==> forall j :: r.value < j < |row| ==> resolve(row[j].0) != Some(c) by {
        if r.Some? {
          forall j | r.value < j < |row| ensures resolve(row[j].0) != Some(c) {
            if j < |prefix| { assert prefix[j] == row[j]; }
          }
        }
      }
      assert r.None? ==> forall j :: 0 <= j < |row| ==> resolve(row[j].0) != Some(c) by {
        if r.None? {
          forall j | 0 <= j < |row| ensures resolve(row[j].0) != Some(c) {
            if j < |prefix| { assert prefix[j] == row[j]; }
          }
        }
      }
      r
  }

  /** Last write wins: a mapped column holds the value of the last raw pair,
      in record order, whose key resolves to it; no column is written that
      no raw key resolves to. */
  lemma {:induction false} MappedIsLastWrite(row: Dict, resolve: Resolver, c: string)
    ensures Get(Partition(row, resolve).mapped, c) ==
      match LastWriter(row, resolve, c)
      case None => None
      case Some(j) => Some(row[j].1)
    decreases |row|
  {
    if row != [] {
      var prefix := row[..|row| - 1];
      var (k, v) := row[|row| - 1];
      MappedIsLastWrite(prefix, resolve, c);
      var m := Partition(prefix, resolve).mapped;
      var w := LastWriter(prefix, resolve, c);
      if resolve(k) == Some(c) {
        assert Partition(row, resolve).mapped == Put(m, c, v);
      } else {
        assert LastWriter(row, resolve, c) == w;
        assert Get(Partition(row, resolve).mapped, c) == Get(m, c);
        if w.Some? {
          assert prefix[w.value] == row[w.value];
        }
      }
    }
  }

  /** The pairs of `row` that no rule matches, in record order. */
  function Unmapped(row: Dict, resolve: Resolver): (u: Dict)
    ensures |u| <= |row|
    ensures forall e :: e in u ==> e in row && resolve(e.0).None?
    ensures forall i :: 0 <= i < |row| && resolve(row[i].0).None? ==> row[i] in u
    decreases |row|
  {
    if row == [] then []
    else
      var prefix := row[..|row| - 1];
      var e := row[|row| - 1];
      assert forall i :: 0 <= i < |prefix| ==> prefix[i] == row[i];
      if resolve(e.0).None? then Unmapped(prefix, resolve) + [e] else Unmapped(prefix, resolve)
  }

  /** The residual attributes are exactly the unmatched pairs of the raw
      record: original key spelling, unchanged value, record order. */
  lemma {:induction false} OtherIsUnmapped(row: Dict, resolve: Resolver)
    requires DistinctKeys(row)
    ensures Partition(row, resolve).other == Unmapped(row, resolve)
    decreases |row|
  {
    if row != [] {
      var prefix := row[..|row| - 1];
      var (k, v) := row[|row| - 1];
      assert DistinctKeys(prefix) by {
        forall i, j | 0 <= i < j < |prefix| ensures prefix[i].0 != prefix[j].0 {
          assert prefix[i] == row[i] && prefix[j] == row[j];
        }
      }
      OtherIsUnmapped(prefix, resolve);
      var o := Partition(prefix, resolve).other;
      if resolve(k).None? {
        assert k !in Keys(prefix);
        assert k !in Keys(o);
        assert Partition(row, resolve).other == Put(o, k, v) == o + [(k, v)];
      } else {
        assert Partition(row, resolve).other == o;
      }
    }
  }

  /** Two mapping tables that differ only in target tables. */
  predicate SameButTables(rules1: seq<Rule>, rules2: seq<Rule>) {
    && |rules1| == |rules2|
    && forall i :: 0 <= i < |rules1| ==>
         rules1[i].rawField == rules2[i].rawField && rules1[i].targetColumn == rules2[i].targetColumn
  }

  lemma {:induction false} FirstMatchIgnoresTables(rules1: seq<Rule>, rules2: seq<Rule>, key: string)
    requires SameButTables(rules1, rules2)
    ensures FirstMatch(rules1, key) == FirstMatch(rules2, key)
    decreases |rules1|
  {
    if rules1 != [] {
      FirstMatchIgnoresTables(rules1[1..], rules2[1..], key);
    }
  }

  /** The partition depends on the resolver only through its results. */
  lemma {:induction false} PartitionResolverExtensional(row: Dict, r1: Resolver, r2: Resolver)
    requires forall k :: r1(k) == r2(k)
    ensures Partition(row, r1) == Partition(row, r2)
    decreases |row|
  {
    if row != [] {
      PartitionResolverExtensional(row[..|row| - 1], r1, r2);
    }
  }

  /** A rule's target table is never consulted: changing only the target
      tables of the mapping table changes nothing in the outcome. */
  lemma PartitionIgnoresTables(row: Dict, rules1: seq<Rule>, rules2: seq<Rule>)
    requires SameButTables(rules1, rules2)
    ensures Partition(row, ResolverOf(rules1)) == Partition(row, ResolverOf(rules2))
  {
    forall k ensures ResolverOf(rules1)(k) == ResolverOf(rules2)(k) {
      FirstMatchIgnoresTables(rules1, rules2, k);
    }
    PartitionResolverExtensional(row, ResolverOf(rules1), ResolverOf(rules2));
  }

  /** The keyword arguments handed to `PropertyModel`: the mapped columns,
      with `other_attributes` then set to the residual dictionary, even when
      it is empty and even over a mapped column of that name. */
  function ModelInput(row: Dict, rules: seq<Rule>): (m: Dict)
    ensures Get(m, Column(OtherAttributes)) == Some(Object(Partition(row, ResolverOf(rules)).other))
    ensures forall c :: c != Column(OtherAttributes) ==>
      Get(m, c) == Get(Partition(row, ResolverOf(rules)).mapped, c)
    ensures DistinctKeys(m)
  {
    var p := Partition(row, ResolverOf(rules));
    Put(p.mapped, Column(OtherAttributes), Object(p.other))
  }

  /** `map_row_to_model`: partition the raw record, then build the typed
      record, which fails as a whole when any field fails. */
  function MapRowToModel(row: Dict, rules: seq<Rule>, coerce: Coercion): (r: Result<PropertyRecord, seq<FieldName>>)
    ensures r.Err? <==> exists f :: ValidateField(f, ModelInput(row, rules), coerce).Err?
    ensures r.Ok? ==> WellFormed(r.value)
  {
    Build(ModelInput(row, rules), coerce)
  }

  /** The residual attributes reach the typed record unchanged, provided the
      validation library hands a dictionary of string keys back as it is. */
  lemma MapRowKeepsResidual(row: Dict, rules: seq<Rule>, coerce: Coercion)
    requires DistinctKeys(row)
    requires var u := Unmapped(row, ResolverOf(rules)); coerce(OtherAttributes, Object(u)) == Some(Object(u))
    ensures MapRowToModel(row, rules, coerce).Ok? ==>
      Attr(MapRowToModel(row, rules, coerce).value, OtherAttributes) == Object(Unmapped(row, ResolverOf(rules)))
  {
    OtherIsUnmapped(row, ResolverOf(rules));
  }

  /** A field no raw key resolves to is `None` in the typed record. */
  lemma MapRowUnresolvedFieldIsNone(row: Dict, rules: seq<Rule>, coerce: Coercion, f: FieldName)
    requires f != OtherAttributes
    requires forall k :: k in Keys(row) ==> Resolve(rules, k) != Some(Column(f))
    ensures MapRowToModel(row, rules, coerce).Ok? ==> Attr(MapRowToModel(row, rules, coerce).value, f) == Null
  {
    OtherAttributesColumnUnique(f);
    assert Column(f) !in Keys(Partition(row, ResolverOf(rules)).mapped);
  }

  /** The mapped column `c` holds the value of the last raw pair resolving
      to it. */
  lemma ModelInputLastWrite(row: Dict, rules: seq<Rule>, c: string, j: nat)
    requires c != Column(OtherAttributes)
    requires j < |row| && Resolve(rules, row[j].0) == Some(c)
    requires forall i :: j < i < |row| ==> Resolve(rules, row[i].0) != Some(c)
    ensures Get(ModelInput(row, rules), c) == Some(row[j].1)
  {
    var resolve := ResolverOf(rules);
    MappedIsLastWrite(row, resolve, c);
    assert LastWriter(row, resolve, c) == Some(j);
  }

  /** A field some raw key resolves to takes the coerced value of the last
      such pair in record order (for `postal_code`, stripped as well). */
  lemma MapRowResolvedFieldValue(row: Dict, rules: seq<Rule>, coerce: Coercion, f: FieldName, j: nat)
    requires f != OtherAttributes
    requires j < |row| && Resolve(rules, row[j].0) == Some(Column(f))
    requires forall i :: j < i < |row| ==> Resolve(rules, row[i].0) != Some(Column(f))
    requires row[j].1 != Null
    requires coerce(f, row[j].1).Some? && Conforms(KindOf(f), coerce(f, row[j].1).value)
    ensures MapRowToModel(row, rules, coerce).Ok? ==>
      var w := coerce(f, row[j].1).value;
      Attr(MapRowToModel(row, rules, coerce).value, f) ==
        if f == PostalCode then Str(Strip(w.s)) else w
  {
    OtherAttributesColumnUnique(f);
    var m := ModelInput(row, rules);
    ModelInputLastWrite(row, rules, Column(f), j);
    ValidatePresentField(f, m, coerce, row[j].1);
  }

  /** Every rule targets a typed field other than `other_attributes`. */
  predicate TargetsAreFields(rules: seq<Rule>) {
    forall i :: 0 <= i < |rules| ==>
      exists f :: f != OtherAttributes && Column(f) == Strip(rules[i].targetColumn)
  }

  /** When every rule targets a typed field, no raw value is lost: an
      unmatched pair is kept in `other_attributes`, and a matched key's field
      holds the validated value of the last pair written to that field, which
      is this pair unless a later one overwrote it. */
  lemma KeyReachesRecord(row: Dict, rules: seq<Rule>, coerce: Coercion, j: nat)
    requires DistinctKeys(row) && j < |row|
    requires TargetsAreFields(rules)
    requires var u := Unmapped(row, ResolverOf(rules)); coerce(OtherAttributes, Object(u)) == Some(Object(u))
    ensures MapRowToModel(row, rules, coerce).Ok? ==>
      var pm := MapRowToModel(row, rules, coerce).value;
      match Resolve(rules, row[j].0)
      case None => Attr(pm, OtherAttributes).Object? && row[j] in Attr(pm, OtherAttributes).entries
      case Some(c) =>
        exists f, k :: && f != OtherAttributes && c == Column(f) && j <= k < |row|
                       && Resolve(rules, row[k].0) == Some(c)
                       && (forall i :: k < i < |row| ==> Resolve(rules, row[i].0) != Some(c))
                       && ValidateValue(f, row[k].1, coerce) == Ok(Attr(pm, f))
  {
    if MapRowToModel(row, rules, coerce).Ok? {
      match Resolve(rules, row[j].0)
      case None => UnmatchedKeyKept(row, rules, coerce, j);
      case Some(c) => MatchedKeyReachesField(row, rules, coerce, j, c);
    }
  }

  /** An unmatched pair is kept, key and value, in `other_attributes`. */
  lemma UnmatchedKeyKept(row: Dict, rules: seq<Rule>, coerce: Coercion, j: nat)
    requires DistinctKeys(row) && j < |row|
    requires Resolve(rules, row[j].0).None?
    requires var u := Unmapped(row, ResolverOf(rules)); coerce(OtherAttributes, Object(u)) == Some(Object(u))
    requires MapRowToModel(row, rules, coerce).Ok?
    ensures var pm := MapRowToModel(row, rules, coerce).value;
      Attr(pm, OtherAttributes).Object? && row[j] in Attr(pm, OtherAttributes).entries
  {
    MapRowKeepsResidual(row, rules, coerce);
    assert ResolverOf(rules)(row[j].0).None?;
  }

  /** A matched key reaches the field its column names, which holds the
      validated value of the last pair written to that field. */
  lemma MatchedKeyReachesField(row: Dict, rules: seq<Rule>, coerce: Coercion, j: nat, c: string)
    requires j < |row| && TargetsAreFields(rules)
    requires Resolve(rules, row[j].0) == Some(c)
    requires MapRowToModel(row, rules, coerce).Ok?
    ensures var pm := MapRowToModel(row, rules, coerce).value;
      exists f, k :: && f != OtherAttributes && c == Column(f) && j <= k < |row|
                     && Resolve(rules, row[k].0) == Some(c)
                     && (forall i :: k < i < |row| ==> Resolve(rules, row[i].0) != Some(c))
                     && ValidateValue(f, row[k].1, coerce) == Ok(Attr(pm, f))
  {
    var f := ResolvedField(rules, row[j].0);
    var k := LastWriterFrom(row, rules, c, j);
    ModelInputLastWrite(row, rules, c, k);
    RecordFieldValue(row, rules, coerce, f, row[k].1);
  }

  /** The last pair written to column `c`, at or after a pair `j` that is. */
  lemma LastWriterFrom(row: Dict, rules: seq<Rule>, c: string, j: nat) returns (k: nat)
    requires j < |row| && Resolve(rules, row[j].0) == Some(c)
    ensures j <= k < |row| && Resolve(rules, row[k].0) == Some(c)
    ensures forall i :: k < i < |row| ==> Resolve(rules, row[i].0) != Some(c)
  {
    var resolve := ResolverOf(rules);
    assert resolve(row[j].0) == Some(c);
    k := LastWriter(row, resolve, c).value;
  }

  /** A field present in the keyword arguments holds its validated value. */
  lemma RecordFieldValue(row: Dict, rules: seq<Rule>, coerce: Coercion, f: FieldName, v: Value)
    requires Get(ModelInput(row, rules), Column(f)) == Some(v)
    requires MapRowToModel(row, rules, coerce).Ok?
    ensures ValidateValue(f, v, coerce) == Ok(Attr(MapRowToModel(row, rules, coerce).value, f))
  {
    var m := ModelInput(row, rules);
    assert ValidateField(f, m, coerce).Ok?;
  }

  /** The field a matched key reaches when every rule targets a field. */
  lemma ResolvedField(rules: seq<Rule>, key: string) returns (f: FieldName)
    requires TargetsAreFields(rules)
    requires Resolve(rules, key).Some?
    ensures f != OtherAttributes && Resolve(rules, key) == Some(Column(f))
    ensures Column(f) != Column(OtherAttributes)
  {
    var i := FirstMatch(rules, key).value;
    f :| f != OtherAttributes && Column(f) == Strip(rules[i].targetColumn);
    OtherAttributesColumnUnique(f);
  }
}
