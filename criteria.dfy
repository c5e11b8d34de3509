/** Criteria (table CRITERIA) and the criteria values attached to parts (table
    ARTICLE_CRITERIA). Designation references are held as the designation's
    text, or None when there is none. */
module Criteria {
  import opened Wrappers

  /** Declared width of CRI_TYPE. */
  const TypeMaxLength: nat := 1

  /** Declared width of ACR_VALUE. */
  const ValueMaxLength: nat := 60

  /** A criterion: its designations, the type tag (CRI_TYPE), the interval flag
      and the id of its successor criterion, if any. */
  datatype Criterion = Criterion(
    id: int,
    designation: Option<string>,
    shortDesignation: Option<string>,
    unit: Option<string>,
    typeTag: string,
    isInterval: bool,
    child: Option<int>)
  {
    predicate Valid() {
      |typeTag| <= TypeMaxLength
    }
  }

  /** The type tag of a valid criterion as a single character, or None when the
      column is empty. */
  function TypeTag(c: Criterion): (t: Option<char>)
    requires c.Valid()
    ensures t.None? <==> c.typeTag == ""
    ensures t.Some? ==> c.typeTag == [t.value]
  {
    if c.typeTag == "" then None else Some(c.typeTag[0])
  }

  /** A criterion value of a part: the part, the group and the criterion it
      belongs to, the raw value (ACR_VALUE), the description reference
      (ACR_KV_DES_ID) and the sort key (ACR_SORT). */
  datatype PartCriteria = PartCriteria(
    part: int,
    group: int,
    criteria: int,
    value: string,
    description: Option<string>,
    sorting: int)
  {
    predicate Valid() {
      |value| <= ValueMaxLength
    }
  }

  /** What `value or description` evaluates to: the raw value string, or the
      description reference, which may itself be absent. */
  datatype CriteriaValue = RawValue(text: string) | Description(designation: Option<string>)

  /** Python truthiness of a string: exactly the non-empty strings are true. */
  predicate Truthy(s: string) {
    s != ""
  }

  /** The value of a row: the raw value when it is non-empty, the description
      otherwise. */
  function GetValue(row: PartCriteria): (r: CriteriaValue)
    ensures r.RawValue? <==> Truthy(row.value)
    ensures r.RawValue? ==> r.text == row.value
    ensures r.Description? ==> r.designation == row.description
  {
    if Truthy(row.value) then RawValue(row.value) else Description(row.description)
  }

  /** The result is the row's value or its description, and nothing else. */
  lemma GetValueIsAField(row: PartCriteria)
    ensures GetValue(row) == RawValue(row.value) || GetValue(row) == Description(row.description)
  {
  }

  /** A non-empty raw value wins whatever the description holds. */
  lemma GetValuePrefersValue(row: PartCriteria, description: Option<string>)
    requires row.value != ""
    ensures GetValue(row) == GetValue(row.(description := description)) == RawValue(row.value)
  {
  }

  /** An empty raw value falls through to the description, present or not. */
  lemma GetValueFallsBack(row: PartCriteria)
    requires row.value == ""
    ensures GetValue(row) == Description(row.description)
  {
  }

  /** The result depends only on the value and the description: part, group,
      criterion and sort key play no part. */
  lemma GetValueDependsOnValueAndDescription(a: PartCriteria, b: PartCriteria)
    requires a.value == b.value && a.description == b.description
    ensures GetValue(a) == GetValue(b)
  {
  }

  /** A raw value returned from a valid row fits the value column. */
  lemma GetValueFits(row: PartCriteria)
    requires row.Valid()
    ensures GetValue(row).RawValue? ==> |GetValue(row).text| <= ValueMaxLength
  {
  }
}
