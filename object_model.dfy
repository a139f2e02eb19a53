/**
 * The values `ObjectHelper` compares, with reflection replaced by data: a
 * compound object lists its declared fields, each with its name, its
 * declared class and its current value.  The static class tables become
 * constant sets of `JavaClass`.
 */
module ObjectModel {
  import opened Wrappers

  /** The classes the helper distinguishes; every other class is `OtherClass`. */
  datatype JavaClass =
    | StringClass
    | LongType | IntegerType | BooleanType | ShortType | DoubleType | FloatType
    | LongClass | IntegerClass | BooleanClass | ShortClass | DoubleClass | FloatClass
    | ObjectClass
    | MapClass | SetClass | ListClass
    | OtherClass(name: string)

  /** BASIC_CLASS_SET: `String`, six of the primitive types (not `byte` or `char`), their boxes, and `Object`. */
  const BasicClassSet: set<JavaClass> := {
    StringClass,
    LongType, IntegerType, BooleanType, ShortType, DoubleType, FloatType,
    LongClass, IntegerClass, BooleanClass, ShortClass, DoubleClass, FloatClass,
    ObjectClass
  }

  /** COLLECTION_CLASS_SET: exactly `java.util.Set` and `java.util.List`. */
  const CollectionClassSet: set<JavaClass> := {SetClass, ListClass}

  /** `isBasicClass`: every class the helper names, except `Map`, `Set` and `List`. */
  predicate IsBasicClass(c: JavaClass)
    ensures IsBasicClass(c) <==> !c.OtherClass? && c != MapClass && c != SetClass && c != ListClass
  {
    c in BasicClassSet
  }

  /**
   * `isMapClass`: only the interface `java.util.Map` itself; an
   * implementation class such as `HashMap` does not count.
   */
  predicate IsMapClass(c: JavaClass)
    ensures IsMapClass(c) <==> !c.OtherClass? && !IsBasicClass(c) && c != SetClass && c != ListClass
  {
    c == MapClass
  }

  /**
   * `isCollectionClass`: only the interfaces `Set` and `List` themselves;
   * `ArrayList`, `HashSet` and the like do not count.
   */
  predicate IsCollectionClass(c: JavaClass)
    ensures IsCollectionClass(c) <==> !c.OtherClass? && !IsBasicClass(c) && c != MapClass
  {
    c in CollectionClassSet
  }

  /** The three tables are disjoint, so the order of the field dispatch only decides the fall-through. */
  lemma ClassTablesDisjoint(c: JavaClass)
    ensures !(IsBasicClass(c) && IsMapClass(c))
    ensures !(IsBasicClass(c) && IsCollectionClass(c))
    ensures !(IsMapClass(c) && IsCollectionClass(c))
    ensures c.OtherClass? ==> !IsBasicClass(c) && !IsMapClass(c) && !IsCollectionClass(c)
  {
  }

  /** An instance of one of the boxed basic classes. */
  datatype Prim =
    | JString(s: string)
    | JLong(l: int)
    | JInteger(n: int)
    | JBoolean(b: bool)
    | JShort(h: int)
    | JDouble(d: real)
    | JFloat(f: real)

  /**
   * A runtime value: `null`, a boxed basic value, an instance of
   * `java.lang.Object` itself (known only by its identity, which is what
   * `Object.equals` compares), a compound object of a user class with its
   * declared fields, a map with its entries in iteration order, or a set or
   * list with its elements in iteration order.
   */
  datatype Value =
    | Null
    | Basic(prim: Prim)
    | PlainObject(id: nat)
    | Obj(cls: string, fields: seq<Field>)
    | MapV(entries: seq<Entry>)
    | SeqV(items: seq<Value>)

  /** A declared field: its name, its declared type and its value in this object. */
  datatype Field = Field(name: string, declType: JavaClass, value: Value)

  datatype Entry = Entry(key: Value, val: Value)

  /** `v.getClass()` for a non-null value. */
  function RuntimeClass(v: Value): (c: JavaClass)
    requires v != Null
    ensures v.PlainObject? ==> c == ObjectClass
    ensures IsBasicClass(c) <==> v.Basic? || v.PlainObject?
  {
    match v
    case Basic(p) =>
      (match p
       case JString(_) => StringClass
       case JLong(_) => LongClass
       case JInteger(_) => IntegerClass
       case JBoolean(_) => BooleanClass
       case JShort(_) => ShortClass
       case JDouble(_) => DoubleClass
       case JFloat(_) => FloatClass)
    case PlainObject(_) => ObjectClass
    case Obj(cls, _) => OtherClass(cls)
    case MapV(_) => OtherClass("java.util.HashMap")
    case SeqV(_) => OtherClass("java.util.ArrayList")
  }

  /**
   * `v.getClass().getDeclaredFields()`.  `Object` and the library classes
   * (the boxes, maps and collections) are taken to declare no fields.
   */
  function DeclaredFields(v: Value): seq<Field>
  {
    if v.Obj? then v.fields else []
  }

  /** The position of the first element of `s` that satisfies `p`, if any. */
  function FirstIndex<T>(s: seq<T>, p: T -> bool): (r: Option<nat>)
    ensures r.Some? ==> r.value < |s| && p(s[r.value])
    ensures r.Some? ==> forall j :: 0 <= j < r.value ==> !p(s[j])
    ensures r.None? ==> forall j :: 0 <= j < |s| ==> !p(s[j])
  {
    if s == [] then None
    else if p(s[0]) then Some(0)
    else match FirstIndex(s[1..], p)
      case None => None
      case Some(k) => Some(k + 1)
  }

  function HasName(name: string): Field -> bool
  {
    (f: Field) => f.name == name
  }

  function HasKey(key: Value): Entry -> bool
  {
    (e: Entry) => e.key == key
  }

  /** `getDeclaredField(name)`: the position of the field called `name`, if there is one. */
  function FindField(fs: seq<Field>, name: string): (r: Option<nat>)
    ensures r.Some? ==> r.value < |fs| && fs[r.value].name == name
    ensures r.Some? ==> forall j :: 0 <= j < r.value ==> fs[j].name != name
    ensures r.None? ==> forall j :: 0 <= j < |fs| ==> fs[j].name != name
  {
    FirstIndex(fs, HasName(name))
  }

  /** `map.get(key)`: the value stored under `key`, or null when the key is absent. */
  function Get(m: Value, key: Value): (r: Value)
    requires m.MapV?
    ensures (forall j :: 0 <= j < |m.entries| ==> m.entries[j].key != key) ==> r == Null
    ensures forall j ::
              (0 <= j < |m.entries| && m.entries[j].key == key && forall i :: 0 <= i < j ==> m.entries[i].key != key)
              ==> r == m.entries[j].val
  {
    match FirstIndex(m.entries, HasKey(key))
    case None => Null
    case Some(k) => m.entries[k].val
  }

  /**
   * `Objects.deepEquals(a, b)` on the modelled values: equality of contents
   * (of identity, for plain objects).  Null equals only null.
   */
  predicate DeepEquals(a: Value, b: Value)
    ensures a == Null || b == Null ==> (DeepEquals(a, b) <==> a == Null && b == Null)
    ensures a.PlainObject? && b.PlainObject? ==> (DeepEquals(a, b) <==> a.id == b.id)
    ensures a == b ==> DeepEquals(a, b)
    ensures a.Basic? && b.Basic? ==> (DeepEquals(a, b) <==> a.prim == b.prim)
    ensures a.Basic? != b.Basic? ==> !DeepEquals(a, b)
  {
    a == b
  }

  /** An exception that the helper does not catch and that therefore reaches the caller. */
  datatype JavaException = ClassCastException | ArrayIndexOutOfBoundsException

  /** How a call ends: it returns a boolean, or it throws. */
  datatype Outcome = Returns(value: bool) | Throws(ex: JavaException)

  // Sizes, for termination: the comparison recurses into both arguments at once
  // and swaps their roles, so it decreases the sum of the two sizes.

  function Size(v: Value): nat
    decreases v
  {
    match v
    case Null => 1
    case Basic(_) => 1
    case PlainObject(_) => 1
    case Obj(_, fs) => 1 + FieldsSize(v, 0)
    case MapV(es) => 1 + EntriesSize(v, 0)
    case SeqV(xs) => 1 + ItemsSize(v, 0)
  }

  function FieldsSize(v: Value, i: nat): nat
    requires v.Obj? && i <= |v.fields|
    decreases v, |v.fields| - i
  {
    if i == |v.fields| then 0 else Size(v.fields[i].value) + FieldsSize(v, i + 1)
  }

  function EntriesSize(v: Value, i: nat): nat
    requires v.MapV? && i <= |v.entries|
    decreases v, |v.entries| - i
  {
    if i == |v.entries| then 0 else Size(v.entries[i].key) + Size(v.entries[i].val) + EntriesSize(v, i + 1)
  }

  function ItemsSize(v: Value, i: nat): nat
    requires v.SeqV? && i <= |v.items|
    decreases v, |v.items| - i
  {
    if i == |v.items| then 0 else Size(v.items[i]) + ItemsSize(v, i + 1)
  }

  lemma {:induction false} FieldsSizeBound(v: Value, j: nat, i: nat)
    requires v.Obj? && j <= i < |v.fields|
    ensures Size(v.fields[i].value) <= FieldsSize(v, j)
    decreases i - j
  {
    if j < i {
      FieldsSizeBound(v, j + 1, i);
    }
  }

  lemma {:induction false} EntriesSizeBound(v: Value, j: nat, i: nat)
    requires v.MapV? && j <= i < |v.entries|
    ensures Size(v.entries[i].key) + Size(v.entries[i].val) <= EntriesSize(v, j)
    decreases i - j
  {
    if j < i {
      EntriesSizeBound(v, j + 1, i);
    }
  }

  lemma {:induction false} ItemsSizeBound(v: Value, j: nat, i: nat)
    requires v.SeqV? && j <= i < |v.items|
    ensures Size(v.items[i]) <= ItemsSize(v, j)
    decreases i - j
  {
    if j < i {
      ItemsSizeBound(v, j + 1, i);
    }
  }

  /** A field's value is smaller than the object that declares it. */
  lemma FieldSmaller(v: Value, i: nat)
    requires i < |DeclaredFields(v)|
    ensures Size(DeclaredFields(v)[i].value) < Size(v)
  {
    FieldsSizeBound(v, 0, i);
  }

  /** What `map.get` returns is never larger than the map. */
  lemma GetSmaller(m: Value, key: Value)
    requires m.MapV?
    ensures Size(Get(m, key)) <= Size(m)
  {
    match FirstIndex(m.entries, HasKey(key))
    case None =>
    case Some(k) => EntriesSizeBound(m, 0, k);
  }

  /** An entry's value is smaller than the map that holds it. */
  lemma EntrySmaller(m: Value, i: nat)
    requires m.MapV? && i < |m.entries|
    ensures Size(m.entries[i].val) < Size(m)
  {
    EntriesSizeBound(m, 0, i);
  }

  /** An element is smaller than the collection that holds it. */
  lemma ItemSmaller(c: Value, i: nat)
    requires c.SeqV? && i < |c.items|
    ensures Size(c.items[i]) < Size(c)
  {
    ItemsSizeBound(c, 0, i);
  }
}
