# Property-record normalisation, modelled in Dafny

This project models the normalisation core of `etl.py`, a batch ETL script. The script reads property records and spreads each one over six relational tables:

- `property`, `property_detail`, `valuation`, `hoa`, `rehab_estimate` and `property_attribute`.

A mapping table drives the work. Each of its rules has a raw field name, a target table and a target column.

For each raw record the script:

1. maps every raw key, case-insensitively, to the target column of the first rule for it;
2. keeps keys no rule matches, verbatim, as `other_attributes`;
3. validates the result as a typed `PropertyModel`, whose `postal_code` is stripped of surrounding whitespace;
4. inserts one property row, one detail row, an optional valuation, HOA and rehab-estimate row, and one attribute row per residual entry.

The batch loop counts the records whose mapping or insert raised and goes on with the next one.

The modules follow the script's structure:

- `Values` holds the dynamic values of a record. It models a Python dict as an insertion-ordered list of pairs, so that `d[k] = v` keeps the position of an existing key.
- `Text` models `str.strip()` and `str.lower()`.
- `PropertyModel` covers the typed record, its field list in declaration order, the `postal_code` validator and all-or-nothing validation.
- `FieldMapping` models `map_row_to_model`: rule lookup, the split into mapped columns and residual attributes, and the keyword arguments handed to the typed model.
- `Inserts` models `insert_property` as the ordered list of rows it would insert, table and parameters included.
- `Batch` models the loop of `main` and its failure tally.
- `Scenarios` works through concrete records end to end.

Things the script leaves to libraries or the outside world are parameters of the model:

- The per-field type coercion of the validation library is a `Coercion` function. The model demands nothing of it. Validation fixes only the outcome: a coercion that fails, or returns a value not of the field's declared kind, makes the field fail.
- The identifier the database generates, and whether the inserts for a record succeed, form a `Store` function.
- `json.dumps(v)` and `str(v)` are kept symbolic as the cells `JsonText(v)` and `StrText(v)`.

## Model

| member | source | states |
|---|---|---|
| Values.Put | etl.py:146-149 | Assigning `d[k] = v` makes `k` map to `v` and leaves every other key's value alone. An existing key keeps its place; a new key is appended at the end. The keys stay distinct. |
| Text.Strip | etl.py:54 | `strip()` returns a string no longer than its input, with no whitespace at either end. |
| Text.IsSpaceLatin1 | etl.py:54 | Below U+0100, `strip()` removes exactly tab, line feed, vertical tab, form feed, carriage return, the separators U+001C to U+001F, space, NEXT LINE and NO-BREAK SPACE. |
| Text.StripIsStrip | etl.py:54 | `strip()` removes exactly the leading and trailing whitespace runs and keeps the middle as a contiguous piece of the input. |
| Text.StripUnique | etl.py:54 | Any split of the input into whitespace, a core without edge whitespace, and whitespace has `strip()` as its core, so the stripped form is unique. |
| Text.StripKeepsClean | etl.py:144 | A string with no surrounding whitespace is unchanged by `strip()`. |
| Text.StripIdempotent | etl.py:54 | Stripping twice gives the same result as stripping once. |
| Text.Lower | etl.py:140 | `lower()` keeps the length and lower-cases each ASCII capital in place. |
| Text.LowerIdempotent | etl.py:140 | Lower-casing is idempotent, and a name matches its own lower-cased form ignoring case. |
| PropertyModel.Position | etl.py:19-48 | Gives the index at which each field appears in the field list, which follows the declaration order of the class. |
| PropertyModel.KindsAsDeclared | etl.py:20-48 | Each field has the kind of its annotation. The `int` fields are `bedrooms`, `sqft` and `year_built`. The six `float` fields are the coordinates, `bathrooms`, the HOA fee, the valuation amount and the rehab total. `has_hoa` is `bool` and `valuation_date` is `datetime`. The breakdown and `other_attributes` are dicts, and the other eleven are `str`. |
| PropertyModel.ColumnIsClean | etl.py:20-48 | No field name is empty or has surrounding whitespace, so a stripped target column can equal it. |
| PropertyModel.ColumnInjective | etl.py:20-48 | Distinct fields have distinct names, so a keyword argument reaches at most one field. |
| PropertyModel.FieldsInDeclarationOrder | etl.py:19-48 | The field list holds the fields in strictly increasing declaration position. |
| PropertyModel.Default | etl.py:20-48 | The value an absent field takes is `None` or a value of the field's declared kind, so leaving a field out never fails validation. |
| PropertyModel.PostalCodeStrip | etl.py:50-54 | The validator maps `None` to `None` and maps any string to the string with its surrounding whitespace removed. |
| PropertyModel.PostalCodeStripProperties | etl.py:50-54 | `None` stays `None` and a string becomes `strip(v)`. The result has no edge whitespace, and running the validator again changes nothing. |
| PropertyModel.ValidateField | etl.py:19-54 | An absent field takes its default and an explicit `None` stays `None`. A value fails exactly when coercion to the declared kind fails, and the error names the field. An accepted `postal_code` has no surrounding whitespace. |
| PropertyModel.ValidatePresentField | etl.py:50-54 | A present value that coerces is stored as coerced. For `postal_code` it is additionally stripped. |
| PropertyModel.Failing | etl.py:151 | The validation error lists exactly the fields that fail, in declaration order. |
| PropertyModel.RecordOf | etl.py:151 | When every field validates, the record holds every field's validated value and each value has its declared kind or is `None`. |
| PropertyModel.Build | etl.py:151-153 | `PropertyModel(**mapped)` is all-or-nothing. It succeeds iff every field validates, and then holds the validated values. Otherwise it raises with a non-empty, ordered list of exactly the failing fields. |
| PropertyModel.BuildReadsFieldColumns | etl.py:151 | `PropertyModel(**mapped)` reads only the field names: two keyword-argument dicts that agree on every field name give the same record or the same error. |
| PropertyModel.NonFieldColumnIgnored | etl.py:151 | A keyword argument whose name is no field has no effect on validation. |
| FieldMapping.FirstMatch | etl.py:140-142 | Returns the earliest rule whose raw field equals the key ignoring case, and none exactly when no rule does. |
| FieldMapping.Resolve | etl.py:140-144 | A key resolves iff some rule matches it ignoring case, and the column it resolves to has no edge whitespace. |
| FieldMapping.ResolveFirstMatchWins | etl.py:141-144 | When several rules match, the earliest one's stripped target column is used. |
| FieldMapping.ResolveCleanTarget | etl.py:142-144 | A first-matching rule whose target column has no edge whitespace yields that column unchanged. |
| FieldMapping.ResolveIgnoresCase | etl.py:140 | Two raw keys that differ only in letter case resolve to the same column. |
| FieldMapping.Partition | etl.py:136-148 | The residual holds exactly the record's keys that no rule matches. The mapped dict holds exactly the columns some record key resolves to. Neither dict repeats a key. |
| FieldMapping.KeyAccountedFor | etl.py:138-148 | Every raw key ends up in exactly one place: under its column in the mapped dict, or under its own name in the residual. |
| FieldMapping.PartitionSnocMapped | etl.py:141-146 | A pair whose key resolves to a column not yet mapped is appended to the mapped dict and leaves the residual unchanged. |
| FieldMapping.PartitionSnocOther | etl.py:147-148 | A pair with a new, unresolved key is appended to the residual and leaves the mapped dict unchanged. |
| FieldMapping.LastWriter | etl.py:138-146 | Finds the last pair of the record whose key resolves to a column, or reports that no key resolves to it. |
| FieldMapping.MappedIsLastWrite | etl.py:138-146 | Last write wins: a mapped column holds the value of the last raw pair resolving to it, and is absent when no pair does. |
| FieldMapping.Unmapped | etl.py:147-148 | The unmatched pairs of the record are pairs of the record whose keys resolve to nothing. |
| FieldMapping.OtherIsUnmapped | etl.py:137-148 | When the record has distinct keys, the residual is exactly its unmatched pairs, in record order. |
| FieldMapping.FirstMatchIgnoresTables | etl.py:142-143 | Rule lookup does not depend on the target table of any rule. |
| FieldMapping.PartitionIgnoresTables | etl.py:143 | Two mapping tables that differ only in target tables split every record identically, because `target_table` is read but never used. |
| FieldMapping.ModelInput | etl.py:149-151 | The keyword arguments hold `other_attributes` bound to the residual, which overrides any mapped column of that name. Every other column keeps its mapped value. |
| FieldMapping.MapRowToModel | etl.py:134-154 | Mapping raises iff some field of the keyword arguments fails validation. A returned record is well-formed. |
| FieldMapping.MapRowKeepsResidual | etl.py:147-151 | With distinct raw keys and a residual accepted as is, the record's `other_attributes` are exactly the unmatched pairs, in order. |
| FieldMapping.MapRowUnresolvedFieldIsNone | etl.py:138-151 | A field that no raw key maps to is `None` in the typed record. |
| FieldMapping.ModelInputLastWrite | etl.py:146-149 | The keyword argument for a mapped column is the value of the last raw pair resolving to it. |
| FieldMapping.MapRowResolvedFieldValue | etl.py:138-151 | A field that some raw key maps to takes the coerced value of the last such pair, stripped if it is `postal_code`. |
| FieldMapping.KeyReachesRecord | etl.py:138-151 | When every rule targets a field other than `other_attributes` and the residual is accepted as is, every raw value reaches the record: an unmatched pair sits in `other_attributes`, and a matched key's field holds the coerced value of the last pair at or after it that resolves to the same column. |
| Inserts.PlanInserts | etl.py:163-207 | Every inserted row carries the identifier generated for the property row. The property row comes first and the detail row second. |
| Inserts.RowsOf | etl.py:163-207 | Selecting one table's rows keeps exactly the rows of that table and no more rows than there were. |
| Inserts.RowsOfSnoc | etl.py:163-207 | Selection keeps order: a row appended at the end is appended to the selection iff it belongs to the table. With `RowsOf`, this fixes the selection of every list. |
| Inserts.PlanByTable | etl.py:163-207 | Table by table, the inserted rows are: the property row, the detail row, and the valuation, HOA and rehab rows when their presence conditions hold. Then come the attribute rows for `other_attributes or {}`. |
| Inserts.PlanCounts | etl.py:165-207 | Exactly one property row and one detail row are inserted. Valuation, HOA and rehab rows each appear at most once, iff their own presence condition holds. There are as many attribute rows as residual entries. |
| Inserts.PlanIgnoresLoneDateAndFee | etl.py:179-192 | A valuation date without amount or source inserts no valuation row. A fee without a name or flag inserts no HOA row, while `has_hoa = False` does insert one. |
| Inserts.PropertyRowContents | etl.py:164-168 | The property row binds `external_id`, `address_line1`, `address_line2`, `city`, `state`, `postal_code`, `county`, `latitude` and `longitude`, in that order, each to the field of the same name. |
| Inserts.DetailRowContents | etl.py:173-177 | The detail row binds `bedrooms`, `bathrooms`, `sqft`, `year_built` and `property_type` to the fields of the same name, in that order, and `zoning` to NULL. |
| Inserts.RehabRowContents | etl.py:194-200 | The rehab row binds `estimate_total` to the field, `estimate_breakdown` to the JSON text of a non-empty breakdown or NULL for an empty or absent one, and `last_updated` to NULL. |
| Inserts.ValuationRowContents | etl.py:179-185 | The valuation row binds `valuation_source` and `valuation_amount` to their fields, `valuation_date` to the date part of a datetime or NULL when there is none, and `notes` to NULL. |
| Inserts.HoaRowContents | etl.py:188-191 | The HOA row binds `has_hoa`, `hoa_name`, `hoa_fee_amount` and `hoa_fee_frequency`, in that order, each to the field of the same name. |
| Inserts.Render | etl.py:206 | An attribute value is stored as JSON iff it is a dict or a list, and as `str` otherwise, in both cases of the value itself. |
| Inserts.AttributeRowsMatchResidual | etl.py:202-207 | Attribute rows follow the residual entry by entry: the key as text, dicts and lists as JSON, other values as `str`. |
| Batch.Settle | etl.py:222-226 | A record fails iff its mapping raised or its inserts failed. Otherwise all its rows carry the identifier the store generated. |
| Batch.ProcessRow | etl.py:222-224 | A record fails iff mapping it raises or the store refuses it. Otherwise its rows are the insert plan for its record under the identifier the store generated. |
| Batch.FailedCount | etl.py:219-226 | The failure count never exceeds the number of records. It is zero iff every record was inserted, and equals the record count iff every record failed. |
| Batch.InsertedRows | etl.py:221-226 | Inserted records and failures together account for every record. |
| Batch.Tally | etl.py:219-227 | The loop's counter ends at the number of failed outcomes and never stops early. Failures plus inserted records equal the number of records. |
| Batch.Run | etl.py:211-228 | The loop of `main` processes every record. The reported failure count is the number of records whose mapping or insert failed, so one bad record never aborts the batch. |
| Scenarios.PostalCodeTrimExample | etl.py:50-54 | `" 90210 "` is stored as `"90210"`. |
| Scenarios.CaseInsensitiveExample | etl.py:140-144 | `postal_code` and `POSTAL_CODE` both resolve through a rule for `Postal_Code`. |
| Scenarios.ElmResolution | etl.py:140-144 | With rules for `Address` and `Beds`, `Address` maps to `address_line1` and `Beds` to `bedrooms`, and `Unmapped_Field` matches nothing. |
| Scenarios.ElmPartition | etl.py:136-148 | That record splits into two mapped columns and one residual attribute. |
| Scenarios.ElmModelInput | etl.py:149 | The keyword arguments are the two mapped columns followed by `other_attributes`. |
| Scenarios.ElmRecord | etl.py:151 | With coercions that accept the values, the typed record has the address, three bedrooms and the residual, and every other field is `None`. |
| Scenarios.ElmStreetExample | etl.py:134-207 | End to end, the record yields a property row with the address, a detail row with three bedrooms, and one attribute row `("Unmapped_Field", "x")`. |
| Scenarios.UnknownColumnDropped | etl.py:134-153 | A rule mapping `Zoning` to `property_detail.zoning` loses the value `R1`: the record is the one an empty record gives, with no field holding it and an empty `other_attributes`. |

## Left out

- Reading the mapping spreadsheet and the input JSON lines are I/O, as is the whitespace-trimming of spreadsheet headers. The model starts from the mapping rules and the records as lists of key/value pairs.
- Type inference when reading the records is not modelled. `pd.read_json(..., lines=True)` (etl.py:217) infers column types by default, so a column whose strings all look numeric arrives as numbers. With the script as written:
  - a postal code `"02134"` reaches `map_row_to_model` as `2134`, and is stored as `"2134"`;
  - when some record lacks the key, the column is float, so `" 90210 "` arrives as `90210.0` and is stored as `"90210.0"`;
  - numeric-looking residual values in `other_attributes` are rewritten the same way.
  `Scenarios.PostalCodeTrimExample`, `FieldMapping.OtherIsUnmapped` and `FieldMapping.MapRowKeepsResidual` hold of the dict that reaches `map_row_to_model`, not of the JSON text.
- Missing keys as NaN are not modelled. `pd.read_json(..., lines=True)` (etl.py:217) builds one frame with the union of all records' keys, and `row.to_dict()` (etl.py:223) fills a key that a record lacks with NaN, not leaves it out. With the script as written:
  - a NaN mapped to a text field becomes the string `"nan"`;
  - a NaN mapped to an int, bool, datetime or dict (`rehab_estimate_breakdown`) field fails validation, so the whole record fails;
  - a NaN mapped to a float field passes validation as NaN, which is not `None`, so a NaN `valuation_amount` or `rehab_estimate_total` inserts a valuation or rehab row;
  - a NaN `hoa_name` is not `None`, so it inserts an HOA row;
  - an unmapped key that another record has becomes an attribute row with value `"nan"`.
  `FieldMapping.MapRowUnresolvedFieldIsNone` and "an absent field is valid" hold of the dict that reaches `map_row_to_model`. For a batch whose records differ in their keys that dict holds NaN, not absence. Its keys also come in the frame's column order, the order in which keys first appear across the whole file, not in each line's own order. "Last pair wins" (`FieldMapping.MappedIsLastWrite`) and the order of `other_attributes` (`FieldMapping.OtherIsUnmapped`) hold of that column order.
- Engine construction, credentials, DDL and the argument parser are configuration and I/O with no logic to prove.
- Progress bars and printed messages produce no data.
- The engine is built with `future=True` (etl.py:74), and every statement is passed to `conn.execute` as a bare string (etl.py:80-126, 164-206). Read as written, such an engine refuses a plain string, so `ensure_tables` (etl.py:214) would raise before the loop starts, and every insert would raise too. `Store` and `Batch.Run` describe the loop as if the statements were executable, for instance sent with `exec_driver_sql`, which takes the `%s` placeholders as they are.
- Executing SQL is not modelled: the `Store` parameter decides each record's generated identifier and whether its inserts succeed. The inserts run inside `with engine.connect()` (etl.py:163), on a `future=True` engine over pymysql (etl.py:73-74), and nothing calls `commit()`. Such a connection starts a transaction on the first statement, and closing it rolls that transaction back. So even with executable statements no row would persist: in the model, `Inserted` means the statements ran, not that the rows are stored.
- `SELECT LAST_INSERT_ID()` returns the identifier of the insert that just ran only on a single, unshared connection. The model takes the identifier as given by the store.
- The `engine.begin()` block at etl.py:159-161 evaluates to `None` and inserts nothing, so it is left out.
- Type coercion by the validation library is the `Coercion` parameter. The model fixes only its outcome: a failure, or a value of the declared kind. Pydantic v1 semantics are assumed: optional fields default to `None`, unknown keyword arguments are ignored, and one error lists all failing fields.
- `json.dumps` and `str` are symbolic cells. The model does not define their text.
- Floating-point values are kept as their textual form, and no float arithmetic happens in the core.
- Text.Lower: lower-cases ASCII letters only, where Python's `str.lower()` also folds non-ASCII letters. The mapping keys of this schema are ASCII.
- FieldMapping.OtherIsUnmapped: requires distinct raw keys. Input records come from a JSON object per line, whose keys are distinct; with repeated keys the residual keeps the last value at the first position.
- FieldMapping.MapRowKeepsResidual: states the residual only when coercion accepts the residual dict as is. Pydantic copies a dict field without changing its entries.

## Notes on the code

- The mapping rule's target table is read at etl.py:143 and never used. Every mapped value goes to the typed record by column name alone (`FieldMapping.PartitionIgnoresTables`).
- A rule whose target column names no model field sends its value nowhere. The value is neither a typed field nor kept in `other_attributes`, because the typed model ignores unknown keyword arguments (`PropertyModel.NonFieldColumnIgnored`). A rule for `Zoning` targeting `property_detail.zoning` is an example: `Scenarios.UnknownColumnDropped` shows that its value is lost. "Every field is either mapped or preserved" therefore holds only when every target column is a model field, and then it does hold (`FieldMapping.KeyReachesRecord`).
- A rule whose target column is `other_attributes` is overridden by the residual assigned at etl.py:149 (`FieldMapping.ModelInput`).
- A validation failure reports every failing field, not just one (`PropertyModel.Build`).
- A `has_hoa` of `False` alone still inserts an HOA row, while a fee without a name or flag inserts none (`Inserts.PlanIgnoresLoneDateAndFee`).
