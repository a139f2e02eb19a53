# Structural object comparison with ignore paths, in Dafny

This project models the two comparison helpers of the `com.lokia.helper`
package and proves properties of them.

- `ObjectHelper.isEquals(expected, actual, ignoredProps...)` is a deep
  equality test. Two nulls are equal, and a null never equals a non-null.
  A value of a basic class (`String`, six of the primitive types (not
  `byte` or `char`) and their boxes, `Object`) is compared with `Objects.deepEquals`. Otherwise the declared
  fields of `actual` are walked one by one. Each field is dispatched on its
  *declared* type:
  - basic types go to `deepEquals`;
  - `Map` goes to `isMapEquals`;
  - `Set` and `List` go to `isCollectionObjEquals`;
  - every other type goes to a recursive `isEquals`.

  Dotted ignore paths such as `"a.b"` say which fields to skip. Two helpers
  split them: `getCurrentIgnoredProps` gives the names skipped at the
  current level, and `getNextIgnoredProps` gives the paths passed down to
  one field.
- `CollectionHelper.isEquals(first, second)` compares two collections
  without regard to order. It sorts copies of both and compares them
  position by position. `CollectionHelper.isEmpty` is the null-or-empty
  test.

Java reflection is replaced by data. A `Value` is one of:

- null;
- a boxed basic value;
- an instance of `java.lang.Object` itself, known only by its identity;
- a compound object that lists its declared fields, each with its name,
  declared class and value;
- a map, as its entries in iteration order;
- a set or list, as its elements in iteration order.

An exception that escapes a comparison is part of its result. Every
comparison returns an `Outcome`: either `Returns(b)` or
`Throws(ClassCastException | ArrayIndexOutOfBoundsException)`.

Each helper appears in two forms:

- a function that states what it computes (modules `ObjectEquality`,
  `IgnoredProps` and `CollectionHelper`);
- a method that runs step by step like the Java code, with its loops, its
  result flag and `break`, its early returns, and its array copies. These
  are modules `ObjectHelper`, `IgnoredProps` and `CollectionHelper`.

Each method is proved to compute its function. The properties are proved
about the functions, in `ObjectEqualityLemmas` and beside each function.

Where the natural reading of a dotted path and the Java code differ, the
model follows the code:

- A path `"b.c"` puts `b` itself into the names skipped at the current
  level (`ObjectHelper.java:127-129`), so the whole field `b` is ignored,
  not only `c` inside it. `PathHeadSkipsWholeField` proves this.
- The suffix passed down to field `f` is found by searching for `"f."`
  anywhere in a path, not only at its start (`ObjectHelper.java:151-155`).
  `NextMatchesInside` proves this.
- The argument order swaps between call sites, and this is kept exactly:
  - `isEquals(expected, actual)` walks the fields of `actual`;
  - a compound field recurses with `(actualFieldVal, expectedFieldVal)`;
  - a map value recurses with `(actualValue, expectedValue)`;
  - a collection element recurses with `(expected[i], actual[i])`.
- A second collection shorter than a non-empty first one, whose elements
  all compare equal to the first one's at the same positions, makes
  `isCollectionObjEquals` read past the end of its array (an earlier
  mismatch returns false first). The model does
  not make this a precondition. It is an outcome,
  `Throws(ArrayIndexOutOfBoundsException)`, which the Java exception
  really is. Likewise, a `Map`- or `Set`/`List`-typed field holding a value
  of another shape gives `Throws(ClassCastException)`.

Files:

- `wrappers.dfy`: `Option`.
- `java_strings.dfy`: the `String.indexOf` and `StringUtils.isBlank` the
  path helpers rely on.
- `collection_helper.dfy`: `CollectionHelper`.
- `object_model.dfy`: classes, the two class tables, values, field and key
  lookup, and a size measure for termination.
- `ignored_props.dfy`: the two path helpers.
- `object_equality.dfy`: the comparison functions.
- `object_helper.dfy`: the comparison methods.
- `object_equality_lemmas.dfy`: the properties of the comparison.

## Model

| member | source | states |
|---|---|---|
| `CollectionHelper.IsEmpty` | src/main/java/com/lokia/helper/CollectionHelper.java:36-38 | true iff the collection is null or has no element |
| `CollectionHelper.IsEquals` | src/main/java/com/lokia/helper/CollectionHelper.java:7-34 | both null gives true; exactly one null gives false; different sizes give false; for two non-null collections, true iff they are equal as multisets. It assumes only that the ordering is total, antisymmetric (consistent with `equals`) and transitive. The copies are sorted, and the inputs are values that cannot change |
| `CollectionHelper.Sort` | src/main/java/com/lokia/helper/CollectionHelper.java:21-22 | after `List.sort`, the array is sorted by the ordering and is a permutation of its old contents |
| `CollectionHelper.SortedPermutationsEqual` | src/main/java/com/lokia/helper/CollectionHelper.java:18-33 | two sorted sequences with the same elements are identical, which is why the element-by-element test after sorting decides multiset equality |
| `CollectionHelper.SameElementsPermutation` | src/main/java/com/lokia/helper/CollectionHelper.java:18-22 | permuting either input does not change the result |
| `CollectionHelper.SameElementsSymmetric` | src/main/java/com/lokia/helper/CollectionHelper.java:7-34 | the comparison is symmetric |
| `CollectionHelper.SameElementsReflexive` | src/main/java/com/lokia/helper/CollectionHelper.java:7-34 | every collection, and null, equals itself |
| `ObjectModel.ClassTablesDisjoint` | src/main/java/com/lokia/helper/ObjectHelper.java:13-33 | the basic table, `Map` and the collection table are pairwise disjoint, and a class outside them is in none |
| `ObjectModel.RuntimeClass` | src/main/java/com/lokia/helper/ObjectHelper.java:44 | `actual.getClass()`: the runtime class of a non-null value is in the basic table exactly for boxed basic values and plain `Object` instances (whose class is `Object`); user objects, maps and collections are not basic |
| `ObjectModel.IsBasicClass` | src/main/java/com/lokia/helper/ObjectHelper.java:103-105 | a class is basic iff it is one the helper names other than `Map`, `Set` and `List` |
| `ObjectModel.IsMapClass` | src/main/java/com/lokia/helper/ObjectHelper.java:162-164 | a class is a map class iff it is one the helper names that is neither basic nor `Set` or `List`: that is `Map` itself, and no other class such as `HashMap` |
| `ObjectModel.IsCollectionClass` | src/main/java/com/lokia/helper/ObjectHelper.java:166-168 | a class is a collection class iff it is one the helper names that is neither basic nor `Map`: that is `Set` or `List`, and no other class such as `ArrayList` |
| `ObjectModel.DeepEquals` | src/main/java/com/lokia/helper/ObjectHelper.java:45 | `Objects.deepEquals`: null equals only null, plain objects are equal iff they are the same instance, two boxed basic values are equal iff they have the same box class and the same value (so `Integer 1` differs from `Integer 2` and from `Long 1`), a boxed value never equals a non-basic value, and every value equals itself |
| `ObjectModel.FindField` | src/main/java/com/lokia/helper/ObjectHelper.java:62 | `getDeclaredField(name)`: the position of the first field with that name, or none when no field has it (the `NoSuchFieldException` case) |
| `ObjectModel.FirstIndex` | src/main/java/com/lokia/helper/ObjectHelper.java:62 | the position of the first element with the property, or none exactly when no element has it |
| `ObjectModel.Get` | src/main/java/com/lokia/helper/ObjectHelper.java:186 | `map.get(key)`: the value of the entry with that key, or null when the key is absent |
| `JavaStrings.IndexOf` | src/main/java/com/lokia/helper/ObjectHelper.java:121 | `indexOf`: the first position where the keyword occurs, or -1 exactly when it occurs nowhere |
| `IgnoredProps.Contribution` | src/main/java/com/lokia/helper/ObjectHelper.java:120-131 | what one path adds to the current set: the whole path when it has no dot, nothing when it starts with a dot, and the part before its first dot when that dot is at a position k > 0 |
| `IgnoredProps.CurrentIgnoredMembers` | src/main/java/com/lokia/helper/ObjectHelper.java:114-134 | a name is skipped at the current level iff the list is non-null and some path contributes that name; a null or empty list skips nothing |
| `IgnoredProps.CurrentIgnored` | src/main/java/com/lokia/helper/ObjectHelper.java:114-134 | a null list skips nothing, and every name a path contributes is skipped |
| `IgnoredProps.GetCurrentIgnoredProps` | src/main/java/com/lokia/helper/ObjectHelper.java:114-134 | the loop builds exactly the set that the paths contribute |
| `IgnoredProps.Suffix` | src/main/java/com/lokia/helper/ObjectHelper.java:151-156 | one path passes down at most one suffix: none iff it does not contain the keyword, else the text after the first occurrence of the keyword |
| `IgnoredProps.SuffixesConcat` | src/main/java/com/lokia/helper/ObjectHelper.java:150-157 | the suffixes keep the order of the paths: the result for a concatenation is the concatenation of the results |
| `IgnoredProps.SuffixesEmpty` | src/main/java/com/lokia/helper/ObjectHelper.java:150-159 | there are no suffixes at all iff no path contains the keyword |
| `IgnoredProps.NextIgnored` | src/main/java/com/lokia/helper/ObjectHelper.java:143-160 | null iff the list is null or empty, the prefix is blank, or no path contains `prefix + "."`; otherwise the suffixes of the matching paths in input order, and never an empty list |
| `IgnoredProps.NextMatchesInside` | src/main/java/com/lokia/helper/ObjectHelper.java:149-155 | the keyword is found anywhere in a path: `u + "f." + w` passes `w` down to field `f` |
| `IgnoredProps.GetNextIgnoredProps` | src/main/java/com/lokia/helper/ObjectHelper.java:143-160 | the loop returns exactly the next-level paths described above |
| `ObjectEquality.Equals` | src/main/java/com/lokia/helper/ObjectHelper.java:35-101 | two nulls give true; exactly one null gives false; a basic `actual` gives value equality; an exception escapes only from the field walk of a user object |
| `ObjectEquality.MapEquals` | src/main/java/com/lokia/helper/ObjectHelper.java:170-194 | two nulls give true; exactly one null gives false; a non-null value that is not a map fails the cast; an empty first map equals every map |
| `ObjectEquality.CollectionObjEquals` | src/main/java/com/lokia/helper/ObjectHelper.java:196-222 | two nulls give true; exactly one null gives false; a non-null value that is not a collection fails the cast; an empty first collection equals every collection; a non-empty first against an empty second reads out of bounds |
| `ObjectHelper.IsEquals` | src/main/java/com/lokia/helper/ObjectHelper.java:35-101 | the field loop computes the comparison function; two nulls give true; exactly one null gives false; an `actual` of a basic class gives value equality |
| `ObjectHelper.IsMapEquals` | src/main/java/com/lokia/helper/ObjectHelper.java:170-194 | the entry loop computes the map comparison; two nulls give true; exactly one null gives false |
| `ObjectHelper.IsCollectionObjEquals` | src/main/java/com/lokia/helper/ObjectHelper.java:196-222 | the indexed loop over the array copies computes the collection comparison; two nulls give true; exactly one null gives false; an empty first collection gives true whatever the second collection holds |
| `ObjectEqualityLemmas.NullAndBasicCases` | src/main/java/com/lokia/helper/ObjectHelper.java:36-46 | two nulls give true and exactly one null gives false; a basic `actual` gives exactly value equality, and the result then does not depend on the ignore paths |
| `ObjectEqualityLemmas.FirstFailureDecidedBy` | src/main/java/com/lokia/helper/ObjectHelper.java:50-100 | a loop that stops at the first comparison that is not true returns true iff every comparison does, and otherwise returns that first comparison's outcome |
| `ObjectEqualityLemmas.CompoundDecidedByFirstFailingField` | src/main/java/com/lokia/helper/ObjectHelper.java:48-100 | on a compound `actual`, the result is that first-failure loop over the comparison of each declared field in order: basic, map, collection or recursive by declared type, with skipped and missing fields counting as true |
| `ObjectEqualityLemmas.SkippedFieldRemovable` | src/main/java/com/lokia/helper/ObjectHelper.java:57-64 | removing from `actual` a field that is skipped, or that `expected` lacks (`NoSuchFieldException`), does not change the result |
| `ObjectEqualityLemmas.IgnoredFieldIrrelevant` | src/main/java/com/lokia/helper/ObjectHelper.java:57-59 | changing the value of a `serialVersionUID` field or of a field skipped at this level, on either side, does not change the result |
| `ObjectEqualityLemmas.PathHeadSkipsWholeField` | src/main/java/com/lokia/helper/ObjectHelper.java:127-129 | for a path whose first dot is at k > 0, the whole field named by the part before the dot is irrelevant at this level |
| `ObjectEqualityLemmas.MapDecidedByFirstMapEntries` | src/main/java/com/lokia/helper/ObjectHelper.java:181-193 | two maps are equal iff every entry of the first compares equal to the second map's value for that key, with a missing key read as null; otherwise the first failing entry decides |
| `ObjectEqualityLemmas.MapReadsOnlyFirstMapKeys` | src/main/java/com/lokia/helper/ObjectHelper.java:183-186 | two second maps that give the same values for the first map's keys give the same result |
| `ObjectEqualityLemmas.MapIgnoresExtraKeys` | src/main/java/com/lokia/helper/ObjectHelper.java:181-191 | entries of the second map whose keys the first map lacks are never examined |
| `ObjectEqualityLemmas.CollectionComparedByIndex` | src/main/java/com/lokia/helper/ObjectHelper.java:208-221 | when the second collection is at least as long as the first, the result is true iff `isEquals(second[i], first[i])` holds for every index of the first; whatever the lengths, the first failing index that both collections have decides |
| `ObjectEqualityLemmas.CollectionIgnoresTrailing` | src/main/java/com/lokia/helper/ObjectHelper.java:214-219 | elements of the second collection past the length of the first are never looked at |
| `ObjectEqualityLemmas.CollectionShorterSecondThrows` | src/main/java/com/lokia/helper/ObjectHelper.java:210-215 | a second collection shorter than the first whose elements all match makes the loop index past its end, and the out-of-bounds exception escapes |
| `ObjectEqualityLemmas.EqualsReflexive` | src/main/java/com/lokia/helper/ObjectHelper.java:35-101 | a well-formed value equals itself under any ignore paths; well-formed means unique field names, unique map keys, and fields holding values of their declared shape |
| `ObjectEqualityLemmas.MapReflexive` | src/main/java/com/lokia/helper/ObjectHelper.java:170-194 | a well-formed map, or null, equals itself |
| `ObjectEqualityLemmas.CollectionReflexive` | src/main/java/com/lokia/helper/ObjectHelper.java:196-222 | a well-formed collection, or null, equals itself |

## Left out

- Java reflection (`getDeclaredFields`, `setAccessible`, `getDeclaredField`, `get`) is replaced by the `Value` datatype. Its effects on access control are not modelled: `SecurityException`, `IllegalAccessException`, and an inaccessible module member.
- Only the classes that the tables name are distinguished. Every other class, such as `Byte`, `Character` or a user class, is one `OtherClass`. Library classes (maps, collections, `Byte`) are taken to declare no fields, so two such values that fall through to the field walk compare as equal. The Java code instead reflects into the JDK's own fields: on Java 8 two top-level `ArrayList`s are then compared by their private fields (so in effect by `size`), and from Java 16 on `setAccessible` throws an `InaccessibleObjectException` that nothing catches. Neither is modelled.
- An instance of `java.lang.Object` itself is `PlainObject(id)`, whose runtime class is `Object`. `Obj(cls, fields)` stands for an instance of a user class, so the name `cls` is not examined, and `Obj("java.lang.Object", …)` is treated as a user class.
- `e.printStackTrace()` is output and is left out. Only its effect is kept: the field is skipped and the loop goes on.
- `Objects.deepEquals` is structural equality of the modelled values. This leaves out identity-based `equals` of user classes, and the order-insensitive `equals` of Java sets and maps: `HashMap.equals` ignores entry order, but two `MapV` values in, for example, an `Object`-typed field are equal only with the same entry sequence. The floating-point cases NaN and -0.0 are left out too.
- ObjectModel.Get: `map.get(key)` finds the key by the same structural equality of modelled values, not by the key's own `equals` and `hashCode`. Two distinct instances of a user class without an `equals` override are therefore the same key in the model but different keys in Java (where `get` returns null and the entry compares false), and set- or map-valued keys match only with the same element order.
- A null element inside the ignore-path array, which would make the Java code throw a `NullPointerException`, is not representable: the paths are non-null strings.
- `StringUtils.isBlank` is "empty or whitespace only", and `Character.isWhitespace` is the fixed list of whitespace code units. Unicode category tables are not modelled.
- The iteration order of `HashMap` and `HashSet` is a parameter of the value: maps and collections are sequences in iteration order.
- `List.sort`'s TimSort and the `ClassCastException` thrown for elements that are not `Comparable` are left out. Sorting is an insertion sort proved sorted and a permutation, under a total-order precondition on the comparison.
- Reference cycles, and so non-termination of the Java recursion, cannot arise: values are finite trees.
- Static fields are not modelled: `getDeclaredFields` also returns them, so in Java an enum-typed field, or a class with a static field of its own type, recurses into that static field again and again until a `StackOverflowError`, even with no cycle between instances. The model lists instance fields only.
- ObjectEqualityLemmas.EqualsReflexive: proved only for well-formed values (unique field names and map keys, fields of their declared shape), which the Java types guarantee but the datatype does not.
- ObjectEqualityLemmas.CompoundDecidedByFirstFailingField: states the result as the first-failure loop over the per-field outcomes; the reading "true iff every field compares true, otherwise the first failing field" follows through `FirstFailureDecidedBy` rather than being restated per field.
