/**
 * The document-analysis service's field records, as the extractor reads them,
 * and Python's truthiness rules that decide which of a field's values is kept.
 */
module Fields {
  import opened Wrappers

  /**
   * A JSON number as Python holds it: an `int` or a `float`. The two are kept
   * apart because `str()` renders `5` and `5.0` differently.
   */
  datatype Number = Int(i: int) | Float(x: real)

  /** A scalar as the service returns it; Null stands for Python's None and for a missing key. */
  datatype Value = Null | Str(s: string) | Num(n: Number) | Bool(b: bool)

  /** The five components of a recognised postal address; each may be missing. */
  datatype Address = Address(
    houseNumber: Option<string>,
    road: Option<string>,
    city: Option<string>,
    state: Option<string>,
    postalCode: Option<string>)

  /**
   * A recognised field. `valueObject` is the field's named sub-fields in
   * iteration order, `valueArray` its items; absent parts are None.
   */
  datatype Field = Field(
    valueString: Option<string>,
    valueNumber: Option<Number>,
    value: Value,
    confidence: Option<real>,
    valueObject: Option<seq<(string, Field)>>,
    valueArray: Option<seq<Field>>,
    valueAddress: Option<Address>)

  /** Python's `bool(v)`: None, the empty string, zero and False are falsy. */
  predicate Truthy(v: Value) {
    match v
    case Null => false
    case Str(s) => s != ""
    case Num(Int(i)) => i != 0
    case Num(Float(x)) => x != 0.0
    case Bool(b) => b
  }

  /** `extract_address_values` turns each component into a Value: None stays None. */
  function ComponentValue(c: Option<string>): (v: Value)
    ensures c.None? <==> v == Null
    ensures c.Some? ==> v == Str(c.value)
  {
    match c
    case None => Null
    case Some(s) => Str(s)
  }

  /** `field.get('valueString')`. */
  function StringPart(f: Field): Value {
    ComponentValue(f.valueString)
  }

  /** `field.get('valueNumber')`. */
  function NumberPart(f: Field): Value {
    match f.valueNumber
    case None => Null
    case Some(n) => Num(n)
  }

  /** Python's `a or b`: `a` when it is truthy, otherwise `b` whatever `b` is. */
  function Or(a: Value, b: Value): Value {
    if Truthy(a) then a else b
  }

  /**
   * `field.get('valueString') or field.get('valueNumber') or field.get('value')`,
   * the value the extractor keeps for a field.
   */
  function FieldValue(f: Field): Value {
    Or(Or(StringPart(f), NumberPart(f)), f.value)
  }

  /**
   * Reference definition of an `or` chain over a non-empty list of operands:
   * the first truthy operand, or the last operand when none is truthy.
   */
  function FirstTruthy(vs: seq<Value>): Value
    requires |vs| > 0
  {
    if |vs| == 1 || Truthy(vs[0]) then vs[0] else FirstTruthy(vs[1..])
  }

  /** The kept value is the first truthy of string, number and generic value, else the generic value. */
  lemma FieldValueIsFirstTruthy(f: Field)
    ensures FieldValue(f) == FirstTruthy([StringPart(f), NumberPart(f), f.value])
    ensures FieldValue(f) in {StringPart(f), NumberPart(f), f.value}
    ensures Truthy(FieldValue(f)) <==> Truthy(StringPart(f)) || Truthy(NumberPart(f)) || Truthy(f.value)
    ensures !Truthy(StringPart(f)) && !Truthy(NumberPart(f)) ==> FieldValue(f) == f.value
  {
    var vs := [StringPart(f), NumberPart(f), f.value];
    assert vs[1..] == [NumberPart(f), f.value];
    assert vs[1..][1..] == [f.value];
    assert FirstTruthy([f.value]) == f.value;
    assert FirstTruthy(vs[1..]) == Or(NumberPart(f), f.value);
  }

  /** A number of zero is falsy: with no usable string it falls through to the generic value. */
  lemma ZeroNumberFallsThrough(f: Field)
    requires f.valueString.None? || f.valueString == Some("")
    requires f.valueNumber == Some(Int(0)) || f.valueNumber == Some(Float(0.0))
    ensures FieldValue(f) == f.value
  {
  }

  /** A non-empty string always wins, whatever number or generic value accompanies it. */
  lemma NonEmptyStringWins(f: Field)
    requires f.valueString.Some? && f.valueString.value != ""
    ensures FieldValue(f) == Str(f.valueString.value)
  {
  }
}
