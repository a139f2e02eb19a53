/**
 * What `ObjectHelper.isEquals`, `isMapEquals` and `isCollectionObjEquals`
 * compute, as mutually recursive functions.  The argument roles are those of
 * each Java call site: `isEquals(expected, actual)` walks the fields of
 * `actual`; a field of a compound or a map value recurses with the actual
 * side first, a collection element with the expected side first.
 */
module ObjectEquality {
  import opened Wrappers
  import opened ObjectModel
  import opened IgnoredProps
  import CollectionHelper

  /** The field that is always skipped. */
  const SerialVersionUID: string := "serialVersionUID"

  /**
   * `isEquals(expected, actual, ignoredProps)`.  Null equals only null, a
   * basic `actual` is compared by value, and an exception can only come
   * from walking the fields of a user object.
   */
  function Equals(expected: Value, actual: Value, props: Props): (r: Outcome)
    ensures actual == Null && expected == Null ==> r == Returns(true)
    ensures (actual == Null) != (expected == Null) ==> r == Returns(false)
    ensures (actual.Basic? || actual.PlainObject?) && expected != Null ==> r == Returns(actual == expected)
    ensures r.Throws? ==> actual.Obj? && expected != Null
    decreases Size(expected) + Size(actual), 3, 0
  {
    if actual == Null && expected == Null then Returns(true)
    else if actual == Null || expected == Null then Returns(false)
    else if IsBasicClass(RuntimeClass(actual)) then Returns(DeepEquals(actual, expected))
    else WalkFields(expected, actual, 0, CurrentIgnored(props), props)
  }

  /**
   * The loop over the declared fields of `actual`, from position `i` on:
   * the first field whose comparison does not return true decides.
   */
  function WalkFields(expected: Value, actual: Value, i: nat, current: set<string>, props: Props): Outcome
    requires i <= |DeclaredFields(actual)|
    decreases Size(expected) + Size(actual), 2, |DeclaredFields(actual)| - i
  {
    if i == |DeclaredFields(actual)| then Returns(true)
    else
      var o := FieldOutcome(expected, actual, i, current, props);
      if o == Returns(true) then WalkFields(expected, actual, i + 1, current, props) else o
  }

  /**
   * One iteration of that loop, for the `i`-th declared field of `actual`;
   * `Returns(true)` when the field is skipped.
   */
  function FieldOutcome(expected: Value, actual: Value, i: nat, current: set<string>, props: Props): Outcome
    requires i < |DeclaredFields(actual)|
    decreases Size(expected) + Size(actual), 1, 0
  {
    var actualItem := DeclaredFields(actual)[i];
    var fieldName := actualItem.name;
    if fieldName == SerialVersionUID || fieldName in current then Returns(true)
    else
      var nextIgnoredProps := NextIgnored(fieldName, props);
      match FindField(DeclaredFields(expected), fieldName)
      // NoSuchFieldException: reported and swallowed, the field is skipped
      case None => Returns(true)
      case Some(k) =>
        var actualFieldVal := actualItem.value;
        var expectedFieldVal := DeclaredFields(expected)[k].value;
        FieldSmaller(actual, i);
        FieldSmaller(expected, k);
        if IsBasicClass(actualItem.declType) then Returns(DeepEquals(actualFieldVal, expectedFieldVal))
        else if IsMapClass(actualItem.declType) then MapEquals(actualFieldVal, expectedFieldVal, nextIgnoredProps)
        else if IsCollectionClass(actualItem.declType) then CollectionObjEquals(actualFieldVal, expectedFieldVal, nextIgnoredProps)
        else Equals(actualFieldVal, expectedFieldVal, nextIgnoredProps)
  }

  /**
   * `isMapEquals(actualFieldVal, expectedFieldVal, ignoredProps)`.  Null
   * equals only null, a non-map is a failed cast, and an empty first map
   * equals every map.
   */
  function MapEquals(actualFieldVal: Value, expectedFieldVal: Value, props: Props): (r: Outcome)
    ensures actualFieldVal == Null && expectedFieldVal == Null ==> r == Returns(true)
    ensures (actualFieldVal == Null) != (expectedFieldVal == Null) ==> r == Returns(false)
    ensures actualFieldVal != Null && expectedFieldVal != Null && !(actualFieldVal.MapV? && expectedFieldVal.MapV?)
            ==> r == Throws(ClassCastException)
    ensures actualFieldVal == MapV([]) && expectedFieldVal.MapV? ==> r == Returns(true)
    decreases Size(actualFieldVal) + Size(expectedFieldVal), 3, 0
  {
    if actualFieldVal == Null && expectedFieldVal == Null then Returns(true)
    else if actualFieldVal == Null || expectedFieldVal == Null then Returns(false)
    else if !actualFieldVal.MapV? || !expectedFieldVal.MapV? then Throws(ClassCastException)
    else WalkEntries(actualFieldVal, expectedFieldVal, 0, props)
  }

  /**
   * The loop over the entries of the first map, from position `i` on: each
   * value against the second map's value for the same key (null if absent).
   */
  function WalkEntries(actualMap: Value, expectedMap: Value, i: nat, props: Props): Outcome
    requires actualMap.MapV? && expectedMap.MapV? && i <= |actualMap.entries|
    decreases Size(actualMap) + Size(expectedMap), 2, |actualMap.entries| - i
  {
    if i == |actualMap.entries| then Returns(true)
    else
      var entry := actualMap.entries[i];
      EntrySmaller(actualMap, i);
      GetSmaller(expectedMap, entry.key);
      var o := Equals(entry.val, Get(expectedMap, entry.key), props);
      if o == Returns(true) then WalkEntries(actualMap, expectedMap, i + 1, props) else o
  }

  /**
   * `isCollectionObjEquals(actual, expected, ignoredProps)`.  Null equals
   * only null, a non-collection is a failed cast, an empty first collection
   * equals every collection, and a non-empty one against an empty one reads
   * past the end of the second array.
   */
  function CollectionObjEquals(actual: Value, expected: Value, props: Props): (r: Outcome)
    ensures actual == Null && expected == Null ==> r == Returns(true)
    ensures (actual == Null) != (expected == Null) ==> r == Returns(false)
    ensures actual != Null && expected != Null && !(actual.SeqV? && expected.SeqV?) ==> r == Throws(ClassCastException)
    ensures actual == SeqV([]) && expected.SeqV? ==> r == Returns(true)
    ensures actual.SeqV? && |actual.items| > 0 && expected == SeqV([]) ==> r == Throws(ArrayIndexOutOfBoundsException)
    decreases Size(actual) + Size(expected), 3, 0
  {
    if actual == Null && expected == Null then Returns(true)
    else if actual == Null || expected == Null then Returns(false)
    else if !actual.SeqV? || !expected.SeqV? then Throws(ClassCastException)
    else if CollectionHelper.IsEmpty(Some(actual.items)) then Returns(true)
    else WalkItems(actual, expected, 0, props)
  }

  /**
   * The indexed loop over the first collection, from position `i` on:
   * `isEquals(expected[i], actual[i])`; reading past the end of the second
   * collection throws.
   */
  function WalkItems(actual: Value, expected: Value, i: nat, props: Props): Outcome
    requires actual.SeqV? && expected.SeqV? && i <= |actual.items|
    decreases Size(actual) + Size(expected), 2, |actual.items| - i
  {
    if i == |actual.items| then Returns(true)
    else if i >= |expected.items| then Throws(ArrayIndexOutOfBoundsException)
    else
      ItemSmaller(actual, i);
      ItemSmaller(expected, i);
      var o := Equals(expected.items[i], actual.items[i], props);
      if o == Returns(true) then WalkItems(actual, expected, i + 1, props) else o
  }
}
