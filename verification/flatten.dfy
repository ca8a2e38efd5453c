/**
 * The per-document flattening in `Extractor.extract`: the service's nested
 * fields become one flat dict per document, from a prefixed key to the kept
 * value and its confidence.
 */
module Flatten {
  import opened Wrappers
  import opened Dicts
  import opened Fields
  import Decimal

  /** What a flat key maps to: `{'value': v, 'confidence': c}`, or any other (non-dict) value. */
  datatype Entry = Record(value: Value, confidence: Option<real>) | Plain(v: Value)

  /** One analysed document: its named fields in the service's order. */
  datatype Document = Document(fields: seq<(string, Field)>)

  /** The exceptions the flattening can raise; each aborts the whole extraction. */
  datatype ExtractionError =
    | MissingValueObject(field: string)  // a person field without `valueObject`: None has no `items`
    | MissingAddress(field: string)      // an Address sub-field without an address: None has no `house_number`

  /** Fields whose sub-fields describe a person or organisation. */
  const PersonFields: seq<string> := ["Employee", "Employer", "Borrower", "Lender", "Payer", "Recipient"]

  /** Fields whose value is an array of objects. */
  const ArrayFields: seq<string> := ["AdditionalInfo", "StateTaxInfos", "LocalTaxInfos", "StateTaxesWithheld"]

  /** The address components, in the order `extract_address_values` lists them. */
  const AddressComponents: seq<string> := ["house_number", "road", "city", "state", "postal_code"]

  /** The entry kept for a field: its first truthy value and its confidence. */
  function FieldEntry(f: Field): Entry {
    Record(FieldValue(f), f.confidence)
  }

  predicate AllRecords(d: Dict<Entry>) {
    forall p :: p in d ==> p.1.Record?
  }

  // ---------------------------------------------------------------------------
  // extract_field_info

  /** `extract_field_info(field, prefix)`: a dict with the single key `prefix`. */
  function FieldInfo(f: Field, prefix: string): (r: Dict<Entry>)
    ensures Keys(r) == [prefix] && AllRecords(r)
    ensures Get(r, prefix) == Some(Record(FirstTruthy([StringPart(f), NumberPart(f), f.value]), f.confidence))
  {
    FieldValueIsFirstTruthy(f);
    [(prefix, FieldEntry(f))]
  }

  // ---------------------------------------------------------------------------
  // extract_array_info

  /** The key `f"{prefix}_{n}_{key}"` of a sub-field of an array item. */
  function ArrayKey(prefix: string, n: nat, key: string): string {
    prefix + "_" + Decimal.NatToString(n) + "_" + key
  }

  /** Splits a key of the form `{prefix}_{n}_{key}` back into `n` and `key`. */
  function ParseArrayKey(prefix: string, s: string): Option<(nat, string)> {
    if !(prefix + "_" <= s) then None
    else
      var t := s[|prefix| + 1..];
      var d := Decimal.TakeDigits(t);
      if |d| == 0 || |d| == |t| || t[|d|] != '_' then None
      else Some((Decimal.DigitsValue(d), t[|d| + 1..]))
  }

  /** An array key is read back as the item number and sub-field name that made it. */
  lemma ArrayKeyRoundTrip(prefix: string, n: nat, key: string)
    ensures ParseArrayKey(prefix, ArrayKey(prefix, n, key)) == Some((n, key))
  {
    var d := Decimal.NatToString(n);
    var s := ArrayKey(prefix, n, key);
    assert s == (prefix + "_") + (d + ("_" + key));
    var t := s[|prefix| + 1..];
    assert t == d + ("_" + key);
    Decimal.TakeDigitsOf(d, "_" + key);
    assert t[|d| + 1..] == key;
    Decimal.DigitsValueOfNatToString(n);
  }

  /** Different (item number, sub-field) pairs under one prefix never share a key. */
  lemma ArrayKeyInjective(prefix: string, n1: nat, k1: string, n2: nat, k2: string)
    requires ArrayKey(prefix, n1, k1) == ArrayKey(prefix, n2, k2)
    ensures n1 == n2 && k1 == k2
  {
    ArrayKeyRoundTrip(prefix, n1, k1);
    ArrayKeyRoundTrip(prefix, n2, k2);
  }

  /** `item.get('valueObject', {})`. */
  function ObjectItems(item: Field): seq<(string, Field)> {
    item.valueObject.GetOr([])
  }

  /** The entries one array item (at 0-based `idx`) contributes, keyed with the 1-based item number. */
  function ItemInfo(item: Field, prefix: string, idx: nat): (r: Dict<Entry>)
    ensures |r| == |ObjectItems(item)| && AllRecords(r)
    ensures forall j :: 0 <= j < |r| ==> r[j].0 == ArrayKey(prefix, idx + 1, ObjectItems(item)[j].0)
    ensures forall j :: 0 <= j < |r| ==> r[j].1 == FieldEntry(ObjectItems(item)[j].1)
  {
    var obj := ObjectItems(item);
    seq(|obj|, j requires 0 <= j < |obj| => (ArrayKey(prefix, idx + 1, obj[j].0), FieldEntry(obj[j].1)))
  }

  /** An item whose sub-fields have distinct names contributes distinct keys. */
  lemma ItemInfoDistinct(item: Field, prefix: string, idx: nat)
    requires DistinctKeys(ObjectItems(item))
    ensures DistinctKeys(ItemInfo(item, prefix, idx))
  {
    var r := ItemInfo(item, prefix, idx);
    var obj := ObjectItems(item);
    forall i, j | 0 <= i < j < |r|
      ensures r[i].0 != r[j].0
    {
      if r[i].0 == r[j].0 {
        ArrayKeyInjective(prefix, idx + 1, obj[i].0, idx + 1, obj[j].0);
      }
    }
  }

  /** `extract_array_info(array, prefix)`: every item's sub-fields, merged in item order. */
  function ArrayInfo(items: seq<Field>, prefix: string): (r: Dict<Entry>)
    ensures DistinctKeys(r) && AllRecords(r)
    ensures forall k :: k in Keys(r) ==> prefix + "_" <= k
    decreases |items|
  {
    if |items| == 0 then []
    else
      var n := |items| - 1;
      var prev := ArrayInfo(items[..n], prefix);
      var info := ItemInfo(items[n], prefix, n);
      assert forall k :: k in Keys(info) ==> prefix + "_" <= k;
      PutAll(prev, info)
  }

  /** `k` is the key of one of the sub-fields of `item`, the array's item at 0-based `idx`. */
  predicate IsItemKey(item: Field, prefix: string, idx: nat, k: string) {
    exists j :: 0 <= j < |ObjectItems(item)| && k == ArrayKey(prefix, idx + 1, ObjectItems(item)[j].0)
  }

  /** The keys of one item's entries are the keys of its sub-fields. */
  lemma ItemInfoKeys(item: Field, prefix: string, idx: nat, k: string)
    ensures k in Keys(ItemInfo(item, prefix, idx)) <==> IsItemKey(item, prefix, idx, k)
  {
    var info := ItemInfo(item, prefix, idx);
    if k in Keys(info) {
      var j :| 0 <= j < |info| && Keys(info)[j] == k;
      assert k == ArrayKey(prefix, idx + 1, ObjectItems(item)[j].0);
    }
    if IsItemKey(item, prefix, idx, k) {
      var j :| 0 <= j < |ObjectItems(item)| && k == ArrayKey(prefix, idx + 1, ObjectItems(item)[j].0);
      assert Keys(info)[j] == k;
    }
  }

  /** The merged dict of `items` has the keys of its prefix and of its last item. */
  lemma ArrayInfoKeysStep(items: seq<Field>, prefix: string, k: string)
    requires |items| > 0
    ensures k in Keys(ArrayInfo(items, prefix)) <==>
      k in Keys(ArrayInfo(items[..|items| - 1], prefix)) ||
      k in Keys(ItemInfo(items[|items| - 1], prefix, |items| - 1))
  {
  }

  /** The key bookkeeping of one induction step, free of any dict. */
  lemma KeysInduct(items: seq<Field>, prefix: string, m: nat, k: string, whole: seq<string>, prev: seq<string>, last: seq<string>)
    requires 0 < m <= |items|
    requires k in whole <==> k in prev || k in last
    requires k in prev <==> exists i :: 0 <= i < m - 1 && IsItemKey(items[i], prefix, i, k)
    requires k in last <==> IsItemKey(items[m - 1], prefix, m - 1, k)
    ensures k in whole <==> exists i :: 0 <= i < m && IsItemKey(items[i], prefix, i, k)
  {
  }

  /** The keys of the dict merged from the first `m` items. */
  lemma {:induction false} ArrayInfoKeysUpTo(items: seq<Field>, prefix: string, m: nat, k: string)
    requires m <= |items|
    ensures k in Keys(ArrayInfo(items[..m], prefix)) <==>
      exists i :: 0 <= i < m && IsItemKey(items[i], prefix, i, k)
    decreases m
  {
    if m > 0 {
      var its := items[..m];
      assert its[..m - 1] == items[..m - 1];
      ArrayInfoKeysUpTo(items, prefix, m - 1, k);
      ArrayInfoKeysStep(its, prefix, k);
      ItemInfoKeys(items[m - 1], prefix, m - 1, k);
      KeysInduct(items, prefix, m, k, Keys(ArrayInfo(its, prefix)), Keys(ArrayInfo(items[..m - 1], prefix)),
        Keys(ItemInfo(items[m - 1], prefix, m - 1)));
    }
  }

  /**
   * A key of the merged array dict is exactly `{prefix}_{i+1}_{key}` for some
   * item `i` and some sub-field `key` of it: an empty array, and items without
   * sub-fields, contribute no keys.
   */
  lemma ArrayInfoKeys(items: seq<Field>, prefix: string, k: string)
    ensures k in Keys(ArrayInfo(items, prefix)) <==>
      exists i :: 0 <= i < |items| && IsItemKey(items[i], prefix, i, k)
  {
    ArrayInfoKeysUpTo(items, prefix, |items|, k);
    assert items[..|items|] == items;
  }

  /**
   * The value under the key of item `i`'s sub-field `j` is that sub-field's
   * entry: no other item can write the same key.
   */
  lemma {:induction false} ArrayInfoValue(items: seq<Field>, prefix: string, i: nat, j: nat)
    requires i < |items| && j < |ObjectItems(items[i])|
    requires DistinctKeys(ObjectItems(items[i]))
    ensures Get(ArrayInfo(items, prefix), ArrayKey(prefix, i + 1, ObjectItems(items[i])[j].0))
      == Some(FieldEntry(ObjectItems(items[i])[j].1))
    decreases |items|
  {
    var n := |items| - 1;
    var key := ArrayKey(prefix, i + 1, ObjectItems(items[i])[j].0);
    var prev := ArrayInfo(items[..n], prefix);
    var info := ItemInfo(items[n], prefix, n);
    ArrayInfoLast(items, prefix);
    if i == n {
      LastItemValue(prev, items[n], prefix, n, j);
    } else {
      assert items[..n][i] == items[i];
      ArrayInfoValue(items[..n], prefix, i, j);
      OtherItemKey(items[i], items[n], prefix, i, n, j);
      GetPastUpdate(prev, info, key);
    }
  }

  /**
   * The keys of the merged dict come item by item: those of the earlier items,
   * then the last item's in sub-field order. Keys of different items never meet.
   */
  lemma ArrayInfoKeyOrder(items: seq<Field>, prefix: string)
    requires |items| > 0 && DistinctKeys(ObjectItems(items[|items| - 1]))
    ensures Keys(ArrayInfo(items, prefix)) ==
      Keys(ArrayInfo(items[..|items| - 1], prefix)) + Keys(ItemInfo(items[|items| - 1], prefix, |items| - 1))
  {
    var n := |items| - 1;
    var prev := ArrayInfo(items[..n], prefix);
    var info := ItemInfo(items[n], prefix, n);
    ArrayInfoLast(items, prefix);
    PutAllOrder(prev, info);
    ItemInfoDistinct(items[n], prefix, n);
    forall t | 0 <= t < |info|
      ensures Keys(info)[t] !in Keys(prev)
    {
      var k := Keys(info)[t];
      ArrayInfoKeysUpTo(items, prefix, n, k);
      if k in Keys(prev) {
        var i :| 0 <= i < n && IsItemKey(items[i], prefix, i, k);
        var j :| 0 <= j < |ObjectItems(items[i])| && k == ArrayKey(prefix, i + 1, ObjectItems(items[i])[j].0);
        OtherItemKey(items[i], items[n], prefix, i, n, j);
      }
    }
    FreshAllNew(Keys(prev), Keys(info));
  }

  /** The merged dict of a non-empty array is its prefix's merged dict updated with the last item. */
  lemma ArrayInfoLast(items: seq<Field>, prefix: string)
    requires |items| > 0
    ensures ArrayInfo(items, prefix) ==
      PutAll(ArrayInfo(items[..|items| - 1], prefix), ItemInfo(items[|items| - 1], prefix, |items| - 1))
  {
  }

  /** A key the update does not mention keeps its value. */
  lemma GetPastUpdate(prev: Dict<Entry>, info: Dict<Entry>, key: string)
    requires key !in Keys(info)
    ensures Get(PutAll(prev, info), key) == Get(prev, key)
  {
  }

  /** The last merged item's sub-field keeps its own entry. */
  lemma LastItemValue(prev: Dict<Entry>, item: Field, prefix: string, n: nat, j: nat)
    requires j < |ObjectItems(item)| && DistinctKeys(ObjectItems(item))
    ensures Get(PutAll(prev, ItemInfo(item, prefix, n)), ArrayKey(prefix, n + 1, ObjectItems(item)[j].0))
      == Some(FieldEntry(ObjectItems(item)[j].1))
  {
    var info := ItemInfo(item, prefix, n);
    ItemInfoDistinct(item, prefix, n);
    assert Keys(info)[j] == ArrayKey(prefix, n + 1, ObjectItems(item)[j].0);
    GetItem(info, j);
  }

  /** The key of a sub-field of item `i` is never a key of a different item `n`. */
  lemma OtherItemKey(item: Field, other: Field, prefix: string, i: nat, n: nat, j: nat)
    requires i != n && j < |ObjectItems(item)|
    ensures ArrayKey(prefix, i + 1, ObjectItems(item)[j].0) !in Keys(ItemInfo(other, prefix, n))
  {
    var key := ArrayKey(prefix, i + 1, ObjectItems(item)[j].0);
    var info := ItemInfo(other, prefix, n);
    forall j' | 0 <= j' < |info|
      ensures Keys(info)[j'] != key
    {
      if Keys(info)[j'] == key {
        ArrayKeyInjective(prefix, i + 1, ObjectItems(item)[j].0, n + 1, ObjectItems(other)[j'].0);
      }
    }
  }

  // ---------------------------------------------------------------------------
  // person fields

  /** `extract_address_values(address)`: the five components by name. */
  function AddressValues(a: Address): (r: Dict<Value>)
    ensures Keys(r) == AddressComponents && DistinctKeys(r)
  {
    [ ("house_number", ComponentValue(a.houseNumber)),
      ("road", ComponentValue(a.road)),
      ("city", ComponentValue(a.city)),
      ("state", ComponentValue(a.state)),
      ("postal_code", ComponentValue(a.postalCode)) ]
  }

  /** Each component name looks up its own component; a missing one gives None. */
  lemma AddressValuesLookup(a: Address)
    ensures var r := AddressValues(a);
      && Get(r, "house_number") == Some(ComponentValue(a.houseNumber))
      && Get(r, "road") == Some(ComponentValue(a.road))
      && Get(r, "city") == Some(ComponentValue(a.city))
      && Get(r, "state") == Some(ComponentValue(a.state))
      && Get(r, "postal_code") == Some(ComponentValue(a.postalCode))
  {
    var r := AddressValues(a);
    GetItem(r, 0);
    GetItem(r, 1);
    GetItem(r, 2);
    GetItem(r, 3);
    GetItem(r, 4);
  }

  /** The five entries `{name}_Address_{component}` of an Address sub-field, all with its confidence. */
  function AddressInfo(name: string, a: Address, conf: Option<real>): (r: Dict<Entry>)
    ensures |r| == 5 && DistinctKeys(r) && AllRecords(r)
    ensures forall i :: 0 <= i < 5 ==>
      r[i] == (name + "_Address_" + AddressComponents[i], Record(AddressValues(a)[i].1, conf))
  {
    var vs := AddressValues(a);
    var r := seq(5, i requires 0 <= i < 5 => (name + "_Address_" + vs[i].0, Record(vs[i].1, conf)));
    forall i, j | 0 <= i < j < 5
      ensures r[i].0 != r[j].0
    {
      var p := name + "_Address_";
      assert r[i].0[|p|..] == vs[i].0;
      assert r[j].0[|p|..] == vs[j].0;
    }
    r
  }

  /** One sub-field of a person field, written into the document dict `acc`. */
  function SubFieldStep(acc: Dict<Entry>, name: string, sub: string, sf: Field): Result<Dict<Entry>, ExtractionError>
  {
    if sub == "Address" then
      match sf.valueAddress
      case None => Err(MissingAddress(name))
      case Some(a) => Ok(PutAll(acc, AddressInfo(name, a, sf.confidence)))
    else
      Ok(Put(acc, name + "_" + sub, FieldEntry(sf)))
  }

  /** An Address sub-field sets exactly its five component keys, each with the sub-field's confidence. */
  lemma SubFieldStepAddress(acc: Dict<Entry>, name: string, sf: Field)
    requires sf.valueAddress.Some?
    ensures SubFieldStep(acc, name, "Address", sf).Ok?
    ensures var r := SubFieldStep(acc, name, "Address", sf).value;
      && (forall i :: 0 <= i < 5 ==>
            Get(r, name + "_Address_" + AddressComponents[i])
              == Some(Record(AddressValues(sf.valueAddress.value)[i].1, sf.confidence)))
      && (forall k :: k !in Keys(AddressInfo(name, sf.valueAddress.value, sf.confidence)) ==> Get(r, k) == Get(acc, k))
  {
    var info := AddressInfo(name, sf.valueAddress.value, sf.confidence);
    forall i | 0 <= i < 5
      ensures Get(info, name + "_Address_" + AddressComponents[i])
        == Some(Record(AddressValues(sf.valueAddress.value)[i].1, sf.confidence))
    {
      GetItem(info, i);
    }
  }

  /** Any other sub-field sets the key `{name}_{sub}` to its kept value and confidence, and nothing else. */
  lemma SubFieldStepOther(acc: Dict<Entry>, name: string, sub: string, sf: Field)
    requires sub != "Address"
    ensures SubFieldStep(acc, name, sub, sf).Ok?
    ensures var r := SubFieldStep(acc, name, sub, sf).value;
      && Get(r, name + "_" + sub) == Some(Record(FirstTruthy([StringPart(sf), NumberPart(sf), sf.value]), sf.confidence))
      && (forall k :: k != name + "_" + sub ==> Get(r, k) == Get(acc, k))
  {
    FieldValueIsFirstTruthy(sf);
  }

  /** An Address sub-field that carries no address makes the person field fail. */
  predicate BadSubField(sub: string, sf: Field) {
    sub == "Address" && sf.valueAddress.None?
  }

  /** Every Address key lies under `name_`. */
  lemma AddressKeysPrefixed(name: string, a: Address, conf: Option<real>)
    ensures forall k :: k in Keys(AddressInfo(name, a, conf)) ==> name + "_" <= k
  {
    var info := AddressInfo(name, a, conf);
    forall k | k in Keys(info)
      ensures name + "_" <= k
    {
      var i :| 0 <= i < 5 && Keys(info)[i] == k;
      assert k == name + "_" + ("Address_" + AddressComponents[i]);
    }
  }

  /** One sub-field step keeps the old keys, their distinctness and record shape, and adds only keys under `name_`. */
  lemma SubFieldStepKeys(acc: Dict<Entry>, name: string, sub: string, sf: Field)
    requires SubFieldStep(acc, name, sub, sf).Ok?
    ensures var r := SubFieldStep(acc, name, sub, sf).value;
      && Keys(acc) <= Keys(r)
      && (DistinctKeys(acc) ==> DistinctKeys(r))
      && (AllRecords(acc) ==> AllRecords(r))
      && (forall k :: k in Keys(r) && k !in Keys(acc) ==> name + "_" <= k)
  {
    if sub == "Address" {
      AddressKeysPrefixed(name, sf.valueAddress.value, sf.confidence);
    } else {
      assert name + "_" <= name + "_" + sub;
    }
  }

  /** A bad sub-field is the first one or a bad sub-field of the rest. */
  lemma BadSubFieldTail(subs: seq<(string, Field)>)
    requires |subs| > 0
    ensures (exists j :: 0 <= j < |subs| && BadSubField(subs[j].0, subs[j].1)) <==>
      BadSubField(subs[0].0, subs[0].1) || exists j :: 0 <= j < |subs[1..]| && BadSubField(subs[1..][j].0, subs[1..][j].1)
  {
    if exists j :: 0 <= j < |subs| && BadSubField(subs[j].0, subs[j].1) {
      var j :| 0 <= j < |subs| && BadSubField(subs[j].0, subs[j].1);
      if j > 0 {
        assert subs[1..][j - 1] == subs[j];
      }
    }
  }

  /** The loop over a person field's sub-fields. */
  function PersonInfo(acc: Dict<Entry>, name: string, subs: seq<(string, Field)>): (r: Result<Dict<Entry>, ExtractionError>)
    ensures r.Err? <==> exists j :: 0 <= j < |subs| && BadSubField(subs[j].0, subs[j].1)
    ensures r.Ok? ==> Keys(acc) <= Keys(r.value)
    ensures r.Ok? && DistinctKeys(acc) ==> DistinctKeys(r.value)
    ensures r.Ok? && AllRecords(acc) ==> AllRecords(r.value)
    ensures r.Ok? ==> forall k :: k in Keys(r.value) && k !in Keys(acc) ==> name + "_" <= k
    decreases |subs|
  {
    if |subs| == 0 then Ok(acc)
    else
      match SubFieldStep(acc, name, subs[0].0, subs[0].1)
      case Err(e) => Err(e)
      case Ok(acc') =>
        SubFieldStepKeys(acc, name, subs[0].0, subs[0].1);
        BadSubFieldTail(subs);
        PersonInfo(acc', name, subs[1..])
  }

  // ---------------------------------------------------------------------------
  // the per-document loop

  /** A field that makes the flattening raise. */
  predicate BadField(name: string, f: Field) {
    name in PersonFields &&
    (f.valueObject.None? ||
     exists j :: 0 <= j < |f.valueObject.value| && BadSubField(f.valueObject.value[j].0, f.valueObject.value[j].1))
  }

  /** One top-level field, written into the document dict `acc`. */
  function FieldStep(acc: Dict<Entry>, name: string, f: Field): (r: Result<Dict<Entry>, ExtractionError>)
    ensures r.Err? <==> BadField(name, f)
    ensures r.Ok? ==> Keys(acc) <= Keys(r.value)
    ensures r.Ok? && DistinctKeys(acc) ==> DistinctKeys(r.value)
    ensures r.Ok? && AllRecords(acc) ==> AllRecords(r.value)
  {
    if name in PersonFields then
      match f.valueObject
      case None => Err(MissingValueObject(name))
      case Some(subs) => PersonInfo(acc, name, subs)
    else if name in ArrayFields then
      Ok(PutAll(acc, ArrayInfo(f.valueArray.GetOr([]), name)))
    else
      Ok(PutAll(acc, FieldInfo(f, name)))
  }

  /** A field outside both lists becomes the single key `name`, in place or last; every other key is left alone. */
  lemma FieldStepPlain(acc: Dict<Entry>, name: string, f: Field)
    requires name !in PersonFields && name !in ArrayFields
    ensures FieldStep(acc, name, f).Ok?
    ensures var r := FieldStep(acc, name, f).value;
      && Get(r, name) == Some(Record(FirstTruthy([StringPart(f), NumberPart(f), f.value]), f.confidence))
      && (forall k :: k != name ==> Get(r, k) == Get(acc, k))
      && (name in Keys(acc) ==> Keys(r) == Keys(acc))
      && (name !in Keys(acc) ==> Keys(r) == Keys(acc) + [name])
  {
    var info := FieldInfo(f, name);
    var r := FieldStep(acc, name, f).value;
    assert r == PutAll(Put(acc, name, info[0].1), []);
  }

  /** An array field merges the entries of its items, overwriting keys already present. */
  lemma FieldStepArray(acc: Dict<Entry>, name: string, f: Field)
    requires name in ArrayFields
    ensures FieldStep(acc, name, f).Ok?
    ensures var r := FieldStep(acc, name, f).value;
      var info := ArrayInfo(f.valueArray.GetOr([]), name);
      && (forall k :: k in Keys(info) ==> Get(r, k) == Get(info, k))
      && (forall k :: k !in Keys(info) ==> Get(r, k) == Get(acc, k))
      && (forall k :: k in Keys(r) && k !in Keys(acc) ==> name + "_" <= k)
      && Keys(r) == Keys(acc) + Fresh(Keys(acc), Keys(info))
  {
    assert name !in PersonFields;
    PutAllOrder(acc, ArrayInfo(f.valueArray.GetOr([]), name));
  }

  /** An array field without `valueArray` counts as an empty array and changes nothing. */
  lemma FieldStepMissingArray(acc: Dict<Entry>, name: string, f: Field)
    requires name in ArrayFields && f.valueArray.None?
    ensures FieldStep(acc, name, f) == Ok(acc)
  {
    assert name !in PersonFields;
  }

  /** The loop over one document's fields, in order. */
  function FlattenFields(acc: Dict<Entry>, fields: seq<(string, Field)>): (r: Result<Dict<Entry>, ExtractionError>)
    ensures r.Err? <==> exists i :: 0 <= i < |fields| && BadField(fields[i].0, fields[i].1)
    ensures r.Ok? ==> Keys(acc) <= Keys(r.value)
    ensures r.Ok? && DistinctKeys(acc) ==> DistinctKeys(r.value)
    ensures r.Ok? && AllRecords(acc) ==> AllRecords(r.value)
    decreases |fields|
  {
    if |fields| == 0 then Ok(acc)
    else
      match FieldStep(acc, fields[0].0, fields[0].1)
      case Err(e) => Err(e)
      case Ok(acc') =>
        assert forall i :: 1 <= i < |fields| ==> fields[1..][i - 1] == fields[i];
        FlattenFields(acc', fields[1..])
  }

  /**
   * The flat dict of one document. It fails exactly when some field is a
   * person field without `valueObject` or with an address-less Address; otherwise
   * its keys are distinct and every entry is a value/confidence record.
   */
  function FlattenDocument(doc: Document): (r: Result<Dict<Entry>, ExtractionError>)
    ensures r.Err? <==> exists i :: 0 <= i < |doc.fields| && BadField(doc.fields[i].0, doc.fields[i].1)
    ensures r.Ok? ==> DistinctKeys(r.value) && AllRecords(r.value)
  {
    FlattenFields([], doc.fields)
  }

  /**
   * The loop over all analysed documents: one flat dict per document, in
   * document order; any failing document aborts the whole extraction.
   */
  function FlattenAll(docs: seq<Document>): (r: Result<seq<Dict<Entry>>, ExtractionError>)
    ensures r.Ok? ==> |r.value| == |docs| && forall i :: 0 <= i < |docs| ==> FlattenDocument(docs[i]) == Ok(r.value[i])
    ensures r.Err? <==> exists i :: 0 <= i < |docs| && FlattenDocument(docs[i]).Err?
    decreases |docs|
  {
    if |docs| == 0 then Ok([])
    else
      match FlattenDocument(docs[0])
      case Err(e) => Err(e)
      case Ok(d) =>
        match FlattenAll(docs[1..])
        case Err(e) =>
          assert exists i :: 0 <= i < |docs| && FlattenDocument(docs[i]).Err? by {
            var i :| 0 <= i < |docs[1..]| && FlattenDocument(docs[1..][i]).Err?;
            assert docs[1..][i] == docs[i + 1];
          }
          Err(e)
        case Ok(ds) =>
          assert forall i :: 1 <= i < |docs| ==> docs[1..][i - 1] == docs[i];
          Ok([d] + ds)
  }
}
