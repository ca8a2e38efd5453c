# TaxTerm extractor — a Dafny model

TaxTerm sends an uploaded tax form (W-2, 1099, 1098, K-1, ...) to a cloud
document-analysis service. It then normalises the service's nested answer into one flat
dictionary per analysed document and writes every flat field to the database as a
row. This project models the repository's own logic in `api/extractor.py`:

- **Choices and strings before the call.** Only form type `K1-1065` selects the
  custom endpoint. The model id is looked up with the default `'unsorted'`. The
  blob location is `{client_id}/{blob_name}`. The plain blob URL and the token URL
  are built from it.
- **The flattening of the answer.** The helpers `extract_field_info`,
  `extract_array_info` and `extract_address_values` are modelled, with the
  per-document loop that dispatches on the field name:
  - person fields expand their sub-fields;
  - an `Address` sub-field expands into five component keys;
  - array fields expand into `{field}_{n}_{key}` keys with a 1-based item number;
  - every other field keeps its own name.
- **`update_database`.** One row per (document, entry), inserted in order until an
  insert raises. The connection is closed exactly once.

Modelling choices:

- A Python dict is a sequence of (key, value) pairs (`Dicts.Dict`). Assigning to an
  existing key replaces the value in place. A new key is appended. So iteration
  order is insertion order, as in Python.
- A service field is the datatype `Fields.Field`. It has an optional string,
  number, generic value and confidence, optional named sub-fields (`valueObject`),
  optional items (`valueArray`) and an optional address. A missing key and Python's
  `None` are both `None`/`Null`. A number is an `int` or a `float` (`Fields.Number`),
  because `str()` renders `5` and `5.0` differently.
- `a or b or c` is written out with Python's truthiness rule: `None`, `""`, `0` and
  `False` are falsy. So a number of zero falls through to the generic `value`.
- A person field without `valueObject` makes Python raise (`None.items()`). So does an
  `Address` sub-field without `valueAddress` (`None.house_number`). Either aborts the
  whole extraction. The model returns `Err` in both cases (`Flatten.ExtractionError`).
- `str()` is the parameter `render`. Whether the `c`-th insert call succeeds is the
  parameter `accepts(c, row)`. `update_database` returns the sequence of calls
  it makes on the connection (`Insert(row)` ... then one `Close`) and the field name
  reported when an insert raised.

## Model

| member | source | states |
|---|---|---|
| `Locations.SelectService` | api/extractor.py:57-62 | the custom endpoint/key is chosen exactly when the form type is `K1-1065`; every other form type gets the prebuilt one |
| `Locations.ModelFor` | api/extractor.py:84 | the model id is the mapping's entry for the form type, and `'unsorted'` when the form type is not mapped |
| `Locations.BlobLocationRoundTrip` | api/extractor.py:68 | `{client_id}/{blob_name}` splits back at its first `/` into client id and blob name when the id has no slash |
| `Locations.BlobSasUrl` | api/extractor.py:78-79 | the token URL is the plain blob URL followed by `?` and the token, so the plain URL is a prefix of it |
| `Locations.SasUrlRoundTrip` | api/extractor.py:78-79 | splitting the token URL at its first `?` gives back the plain URL and the token when account, container and location hold no `?` |
| `Locations.SplitAtJoin` | api/extractor.py:68 | joining two strings at a character and splitting at its first occurrence are inverse when the first part lacks it |
| `Extractor.ExtractResult` | api/extractor.py:115-156 | one flat dict per analysed document, in document order, each the flattening of that document; the result fails exactly when some document's flattening fails |
| `Extractor.ReturnedUrlIsRequestWithoutToken` | api/extractor.py:78-87 | when the account, container, client id and blob name hold no `?`, the plain URL `extract` returns is the URL it sent to the service cut at its first `?`, and the rest is the access token |
| `Fields.FieldValueIsFirstTruthy` | api/extractor.py:101 | the kept value is the first truthy of `valueString`, `valueNumber`, `value`, and is `value` (even if falsy) when the first two are falsy; it is truthy iff one of the three is |
| `Fields.ZeroNumberFallsThrough` | api/extractor.py:101 | a `valueNumber` of 0 with no non-empty string is discarded in favour of the generic `value` |
| `Fields.NonEmptyStringWins` | api/extractor.py:101 | a non-empty `valueString` is always the kept value, whatever number or generic value comes with it |
| `Flatten.FieldInfo` | api/extractor.py:99-103 | the result has exactly one key, the prefix, holding the first truthy value and the field's unchanged confidence |
| `Flatten.ArrayKeyRoundTrip` | api/extractor.py:109-111 | a key `{prefix}_{n}_{key}` is read back as the item number `n` and the sub-field name `key` |
| `Flatten.ArrayKeyInjective` | api/extractor.py:109-111 | two array keys under one prefix are equal only for the same item number and sub-field name |
| `Flatten.ArrayInfo` | api/extractor.py:105-113 | the merged array dict has distinct keys, every one starting with `prefix_`, and holds only value/confidence records |
| `Flatten.ArrayInfoKeyOrder` | api/extractor.py:107-112 | the merged dict's keys are the earlier items' keys followed by the last item's keys in sub-field order, when its sub-field names are distinct: item order first, then sub-field order |
| `Flatten.ArrayInfoKeys` | api/extractor.py:105-113 | a key of the whole array's merged dict is exactly `{prefix}_{i+1}_{key}` for an item `i` and a sub-field `key` of it |
| `Flatten.ArrayInfoKeysUpTo` | api/extractor.py:105-113 | after merging the first `m` items, a key is present iff it is `{prefix}_{i+1}_{key}` for an item `i < m` and a sub-field `key` of it; an empty array or items without `valueObject` add nothing |
| `Flatten.ArrayInfoValue` | api/extractor.py:108-112 | under the key of item `i`'s sub-field sits that sub-field's first truthy value and confidence: no other item writes that key |
| `Flatten.ItemInfo` | api/extractor.py:109-111 | an item contributes one entry per sub-field, keyed with the 1-based item number, in sub-field order |
| `Flatten.AddressValues` | api/extractor.py:89-97 | `extract_address_values` gives the five distinct keys `house_number`, `road`, `city`, `state`, `postal_code`, in that order |
| `Flatten.AddressValuesLookup` | api/extractor.py:89-97 | each of those keys maps to its address component, and to `None` when the component is missing |
| `Flatten.AddressInfo` | api/extractor.py:125-131 | an address gives exactly five distinct keys `{field}_Address_{house_number,road,city,state,postal_code}`, all with the given confidence |
| `Flatten.SubFieldStepAddress` | api/extractor.py:124-132 | an Address sub-field sets its five component keys to the components with the sub-field's confidence and leaves every other key alone |
| `Flatten.SubFieldStepOther` | api/extractor.py:133-140 | a non-Address sub-field sets `{field}_{sub}` to its first truthy value and confidence and leaves every other key alone |
| `Flatten.PersonInfo` | api/extractor.py:122-140 | the sub-field loop fails exactly when an Address sub-field has no address; otherwise it keeps earlier keys and adds only keys under `{field}_` |
| `Flatten.FieldStep` | api/extractor.py:119-150 | a field fails exactly when it is a person field without `valueObject` (an empty `valueObject` is fine) or with an address-less Address; otherwise earlier keys stay and keys stay distinct |
| `Flatten.FieldStepPlain` | api/extractor.py:147-150 | a field outside both lists sets the key equal to its own name, overwriting in place an existing entry or else appending it last, and changes no other key |
| `Flatten.FieldStepArray` | api/extractor.py:142-145 | an array field overwrites with the merged items' entries, leaves other keys alone, and appends the new keys under `{field}_` after the old ones in the merged order |
| `Flatten.FieldStepMissingArray` | api/extractor.py:144 | an array field with no `valueArray` is treated as an empty array and leaves the document dict unchanged |
| `Flatten.FlattenFields` | api/extractor.py:119-151 | the loop over a document's fields fails exactly when some field is bad; otherwise the keys present before it stay in place, and distinct keys and value/confidence records stay so |
| `Flatten.FlattenDocument` | api/extractor.py:118-152 | a document's flat dict fails exactly when some field is bad; otherwise its keys are distinct and every entry is a value/confidence record |
| `Flatten.FlattenAll` | api/extractor.py:115-152 | one flat dict per document in document order; any failing document aborts the whole list |
| `Dicts.Put` | api/extractor.py:136-139 | `d[k] = v`: `k` now maps to `v`, other keys are unchanged, an existing key keeps its position and a new key goes last |
| `Dicts.PutAll` | api/extractor.py:145 | `d.update(e)`: the keys become those of `d` and `e`; keys of `e` take `e`'s values, the rest keep `d`'s, and `d`'s key order is a prefix of the result's |
| `Dicts.PutAllOrder` | api/extractor.py:145 | after `d.update(e)` the keys are `d`'s keys in place, followed by the keys of `e` that `d` lacks, in `e`'s order |
| `Decimal.NatToString` | api/extractor.py:109 | the `{idx+1}` of `f"{prefix}_{idx+1}"`: the item number is written as at least one decimal digit, with no leading zero, and is `"0"` exactly for zero |
| `Decimal.DigitsValueOfNatToString` | api/extractor.py:109 | the decimal rendering of the item number reads back as that number |
| `Storage.UpdateDatabase` | api/extractor.py:23-54 | the calls made are the inserts of the rows, in order, up to and including the first that raises, and then one close; the close is the last call and the only one; the reported field is the failing row's |
| `Storage.InsertDocument` | api/extractor.py:27-49 | one document's rows are inserted in insertion order up to and including the first that raises |
| `Storage.DocRows` | api/extractor.py:27-33 | one row per entry of a document's flat dict, in its insertion order, row `j` built from entry `j` |
| `Storage.AllRowsOrder` | api/extractor.py:26-33 | entry `j` of document `i` is the row at `EntryCount(docs[..i]) + j` (document order, then insertion order); that row names the entry's key and holds `str(value)` and the confidence for a value/confidence record, `str(entry)` and no confidence otherwise |
| `Storage.AllRowsLength` | api/extractor.py:26-27 | there are exactly as many rows as entries over all documents |
| `Storage.AllRowsShared` | api/extractor.py:39-49 | every row has status `'extracted'`, the form type as document type, the call's `blob_sas_url` argument as document URL, and the call's client, document name and access id |
| `Storage.FirstRejectedConcat` | api/extractor.py:26-27 | for rows `a` then `b`, the first failing insert is in `a`, or else it is the first failing insert of `b` |

## Left out

- Azure SDK calls are external services and are not modelled: building the
  blob and analysis clients, generating the access token, and submitting and polling
  the analysis. The token and the analysed documents are parameters.
- The `Database` class and `post2postgres_extract` are not part of this model.
  An insert is the oracle `accepts`. The returned row id and a failing `Database(...)`
  constructor are not modelled.
- The contents of `extractor_model_mapping` are not part of this model. The mapping is a parameter.
- `print` logging, `datetime.utcnow()` for the token expiry, and the async/await
  structure are left out. None of them affects a computed value.
- The `isinstance(field_value, list)` conversion in `update_database` is left out.
  It is dead code: `field_value` is always a string at that point.
- Python's `str()` is the parameter `render`. Its text is not modelled.
- A `float` is a mathematical real, not an IEEE double. Its truthiness is exact:
  only zero is falsy. What `str()` prints for it is left to `render`.
- A key present with the value `None` is modelled as a missing key. The code raises
  on four such inputs where the model goes on:
  - `valueArray` set to `None`: `field.get('valueArray', [])` gives `None`, and
    `enumerate(None)` raises (api/extractor.py:144, :108). The model treats it as `[]`.
  - an item's `valueObject` set to `None`: `.items()` raises (api/extractor.py:110).
    The model treats the item as having no sub-fields.
  - `result.documents` set to `None`: the loop raises (api/extractor.py:116). The
    documents are a list parameter.
  - a document's `fields` set to `None`: `.items()` raises (api/extractor.py:119). A
    document's fields are a list.
  The model assumes the service leaves an absent part out rather than storing `None`.
- The model raises no other exceptions: `str()` raising, and entries that are dicts
  without `'value'`/`'confidence'` keys. `Flatten.Entry.Record` always has both.
- Flatten.PersonInfo: states the error condition and which keys may appear, not the
  final values. A sub-field named e.g. `Address_city` writes the same key as the
  Address expansion, and then the later write wins. The values are stated per step by
  `Flatten.SubFieldStepAddress` and `Flatten.SubFieldStepOther`.
- Flatten.ArrayInfoValue: needs the item's sub-field names to be distinct, which holds
  for every dict the service returns. With repeated names the last one wins
  (`Dicts.PutAll`).
