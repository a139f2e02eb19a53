/**
 * `ObjectHelper`'s comparison methods, step by step as the source runs
 * them: loops with a result flag and `break`, exceptions that leave the
 * method at once.  Each is proved to compute its function in
 * `ObjectEquality`.
 */
module ObjectHelper {
  import opened Wrappers
  import opened ObjectModel
  import opened IgnoredProps
  import opened ObjectEquality
  import CollectionHelper

  /** `isEquals(expected, actual, ignoredProps...)`. */
  method IsEquals(expected: Value, actual: Value, ignoredProps: Props) returns (r: Outcome)
    ensures r == Equals(expected, actual, ignoredProps)
    ensures actual == Null && expected == Null ==> r == Returns(true)
    ensures (actual == Null) != (expected == Null) ==> r == Returns(false)
    ensures (actual.Basic? || actual.PlainObject?) && expected != Null ==> r == Returns(actual == expected)
    decreases Size(expected) + Size(actual)
  {
    if actual == Null && expected == Null {
      return Returns(true);
    }
    if actual == Null || expected == Null {
      return Returns(false);
    }
    if IsBasicClass(RuntimeClass(actual)) {
      return Returns(DeepEquals(actual, expected));
    }
    var currentIgnoredProps := GetCurrentIgnoredProps(ignoredProps);
    var fields := DeclaredFields(actual);
    var equals := true;
    var i := 0;
    while i < |fields|
      invariant 0 <= i <= |fields|
      invariant equals
      invariant WalkFields(expected, actual, 0, currentIgnoredProps, ignoredProps)
                == WalkFields(expected, actual, i, currentIgnoredProps, ignoredProps)
    {
      var actualItem := fields[i];
      var fieldName := actualItem.name;
      if fieldName == SerialVersionUID || fieldName in currentIgnoredProps {
        i := i + 1;
        continue;
      }
      var nextIgnoredProps := GetNextIgnoredProps(fieldName, ignoredProps);
      var expectedFields := DeclaredFields(expected);
      var expectedItem := FindField(expectedFields, fieldName);
      if expectedItem.None? {
        // NoSuchFieldException: reported, and the loop goes on
        i := i + 1;
        continue;
      }
      var actualFieldVal := actualItem.value;
      var expectedFieldVal := expectedFields[expectedItem.value].value;
      FieldSmaller(actual, i);
      FieldSmaller(expected, expectedItem.value);
      var o: Outcome;
      if IsBasicClass(actualItem.declType) {
        o := Returns(DeepEquals(actualFieldVal, expectedFieldVal));
      } else if IsMapClass(actualItem.declType) {
        o := IsMapEquals(actualFieldVal, expectedFieldVal, nextIgnoredProps);
      } else if IsCollectionClass(actualItem.declType) {
        o := IsCollectionObjEquals(actualFieldVal, expectedFieldVal, nextIgnoredProps);
      } else {
        o := IsEquals(actualFieldVal, expectedFieldVal, nextIgnoredProps);
      }
      assert o == FieldOutcome(expected, actual, i, currentIgnoredProps, ignoredProps);
      if o.Throws? {
        return o;
      }
      if !o.value {
        equals := false;
      }
      if !equals {
        break;
      }
      i := i + 1;
    }
    return Returns(equals);
  }

  /** `isMapEquals(actualFieldVal, expectedFieldVal, ignoredProps...)`. */
  method IsMapEquals(actualFieldVal: Value, expectedFieldVal: Value, ignoredProps: Props) returns (r: Outcome)
    ensures r == MapEquals(actualFieldVal, expectedFieldVal, ignoredProps)
    ensures actualFieldVal == Null && expectedFieldVal == Null ==> r == Returns(true)
    ensures (actualFieldVal == Null) != (expectedFieldVal == Null) ==> r == Returns(false)
    decreases Size(actualFieldVal) + Size(expectedFieldVal)
  {
    if actualFieldVal == Null && expectedFieldVal == Null {
      return Returns(true);
    }
    if actualFieldVal == Null || expectedFieldVal == Null {
      return Returns(false);
    }
    if !actualFieldVal.MapV? || !expectedFieldVal.MapV? {
      return Throws(ClassCastException);
    }
    var actualMap, expectedMap := actualFieldVal, expectedFieldVal;
    var actualEntrySet := actualMap.entries;
    var isEquals := true;
    var i := 0;
    while i < |actualEntrySet|
      invariant 0 <= i <= |actualEntrySet|
      invariant isEquals
      invariant WalkEntries(actualMap, expectedMap, 0, ignoredProps) == WalkEntries(actualMap, expectedMap, i, ignoredProps)
    {
      var entry := actualEntrySet[i];
      var key := entry.key;
      var actualValue := entry.val;
      var expectedValue := Get(expectedMap, key);
      EntrySmaller(actualMap, i);
      GetSmaller(expectedMap, key);
      var o := IsEquals(actualValue, expectedValue, ignoredProps);
      if o.Throws? {
        return o;
      }
      if !o.value {
        isEquals := false;
        break;
      }
      i := i + 1;
    }
    return Returns(isEquals);
  }

  /** `isCollectionObjEquals(actual, expected, ignoredProps...)`. */
  method IsCollectionObjEquals(actual: Value, expected: Value, ignoredProps: Props) returns (r: Outcome)
    ensures r == CollectionObjEquals(actual, expected, ignoredProps)
    ensures actual == Null && expected == Null ==> r == Returns(true)
    ensures (actual == Null) != (expected == Null) ==> r == Returns(false)
    ensures actual == SeqV([]) && expected.SeqV? ==> r == Returns(true)
    decreases Size(actual) + Size(expected)
  {
    if actual == Null && expected == Null {
      return Returns(true);
    }
    if actual == Null || expected == Null {
      return Returns(false);
    }
    if !actual.SeqV? || !expected.SeqV? {
      return Throws(ClassCastException);
    }
    var tmpActual, tmpExpected := actual.items, expected.items;
    if !CollectionHelper.IsEmpty(Some(tmpActual)) {
      var tmpActualArr := new Value[|tmpActual|](k requires 0 <= k < |tmpActual| => tmpActual[k]);
      var tmpExpectedArr := new Value[|tmpExpected|](k requires 0 <= k < |tmpExpected| => tmpExpected[k]);
      var index := 0;
      while index < tmpActualArr.Length
        invariant 0 <= index <= tmpActualArr.Length
        invariant tmpActualArr[..] == tmpActual && tmpExpectedArr[..] == tmpExpected
        invariant WalkItems(actual, expected, 0, ignoredProps) == WalkItems(actual, expected, index, ignoredProps)
      {
        var tmpActualItem := tmpActualArr[index];
        if index >= tmpExpectedArr.Length {
          return Throws(ArrayIndexOutOfBoundsException);
        }
        ItemSmaller(actual, index);
        ItemSmaller(expected, index);
        var o := IsEquals(tmpExpectedArr[index], tmpActualItem, ignoredProps);
        if o.Throws? {
          return o;
        }
        if !o.value {
          return Returns(false);
        }
        index := index + 1;
      }
    }
    return Returns(true);
  }
}
