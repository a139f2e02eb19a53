/** Properties of the structural comparison in `ObjectEquality`. */
module ObjectEqualityLemmas {
  import opened Wrappers
  import opened ObjectModel
  import opened IgnoredProps
  import opened ObjectEquality

  // ---------------------------------------------------------------------------
  // Null and basic values

  /**
   * Null is equal only to null, and an `actual` of a basic class (a boxed
   * value or a plain `Object`) is compared by value alone: the ignore paths
   * are not consulted and no field is read.
   */
  lemma NullAndBasicCases(expected: Value, actual: Value, props: Props, props': Props)
    ensures expected == Null && actual == Null ==> Equals(expected, actual, props) == Returns(true)
    ensures (expected == Null) != (actual == Null) ==> Equals(expected, actual, props) == Returns(false)
    ensures (actual.Basic? || actual.PlainObject?) && expected != Null
            ==> Equals(expected, actual, props) == Returns(expected == actual)
    ensures actual.Basic? || actual.PlainObject? ==> Equals(expected, actual, props) == Equals(expected, actual, props')
  {
  }

  // ---------------------------------------------------------------------------
  // The field loop

  /** The outcome of a loop that stops at the first comparison not returning true. */
  function FirstFailure(os: seq<Outcome>): Outcome
  {
    if os == [] then Returns(true)
    else if os[0] == Returns(true) then FirstFailure(os[1..])
    else os[0]
  }

  /**
   * Such a loop returns true iff every comparison does; otherwise it returns
   * the first one that does not.
   */
  lemma {:induction false} FirstFailureDecidedBy(os: seq<Outcome>)
    ensures FirstFailure(os) == Returns(true) <==> forall j :: 0 <= j < |os| ==> os[j] == Returns(true)
    ensures forall j :: 0 <= j < |os| && os[j] != Returns(true) && (forall k :: 0 <= k < j ==> os[k] == Returns(true))
                        ==> FirstFailure(os) == os[j]
  {
    if os != [] {
      FirstFailureDecidedBy(os[1..]);
      if os[0] == Returns(true) {
        forall j | 0 <= j < |os| && os[j] != Returns(true) && (forall k :: 0 <= k < j ==> os[k] == Returns(true))
          ensures FirstFailure(os) == os[j]
        {
          assert os[j] == os[1..][j - 1];
          forall k | 0 <= k < j - 1 ensures os[1..][k] == Returns(true) {
            assert os[1..][k] == os[k + 1];
          }
        }
        assert (forall j :: 0 <= j < |os| ==> os[j] == Returns(true))
               <==> (forall j :: 0 <= j < |os[1..]| ==> os[1..][j] == Returns(true)) by {
          forall j | 0 <= j < |os[1..]| ensures os[1..][j] == os[j + 1] { }
        }
      }
    }
  }

  /** The comparisons the field loop makes from position `i` on, in order. */
  function FieldOutcomes(expected: Value, actual: Value, i: nat, current: set<string>, props: Props): (os: seq<Outcome>)
    requires i <= |DeclaredFields(actual)|
    ensures |os| == |DeclaredFields(actual)| - i
    ensures forall j :: 0 <= j < |os| ==> os[j] == FieldOutcome(expected, actual, i + j, current, props)
  {
    seq(|DeclaredFields(actual)| - i, j requires 0 <= j < |DeclaredFields(actual)| - i =>
          FieldOutcome(expected, actual, i + j, current, props))
  }

  /** The field loop is a first-failure loop over the per-field comparisons. */
  lemma {:induction false} WalkFieldsIsFirstFailure(expected: Value, actual: Value, i: nat, current: set<string>, props: Props)
    requires i <= |DeclaredFields(actual)|
    ensures WalkFields(expected, actual, i, current, props) == FirstFailure(FieldOutcomes(expected, actual, i, current, props))
    decreases |DeclaredFields(actual)| - i
  {
    if i < |DeclaredFields(actual)| {
      var os := FieldOutcomes(expected, actual, i, current, props);
      assert os[1..] == FieldOutcomes(expected, actual, i + 1, current, props);
      WalkFieldsIsFirstFailure(expected, actual, i + 1, current, props);
    }
  }

  /**
   * On a compound `actual`, the result is that of a first-failure loop over
   * the comparisons of its declared fields in order (skipped fields count as
   * true): with `FirstFailureDecidedBy`, true iff every field compares
   * true, otherwise the outcome of the first field that does not, and no
   * later field is looked at.
   */
  lemma CompoundDecidedByFirstFailingField(expected: Value, actual: Value, props: Props)
    requires expected != Null && actual.Obj?
    ensures Equals(expected, actual, props) == FirstFailure(FieldOutcomes(expected, actual, 0, CurrentIgnored(props), props))
  {
    WalkFieldsIsFirstFailure(expected, actual, 0, CurrentIgnored(props), props);
  }

  /** One iteration depends only on the field itself, not on its position. */
  lemma SameFieldSameOutcome(expected: Value, a: Value, i: nat, b: Value, j: nat, current: set<string>, props: Props)
    requires i < |DeclaredFields(a)| && j < |DeclaredFields(b)|
    requires DeclaredFields(a)[i] == DeclaredFields(b)[j]
    ensures FieldOutcome(expected, a, i, current, props) == FieldOutcome(expected, b, j, current, props)
  {
  }

  /** The loop from a position depends only on the fields from that position on. */
  lemma {:induction false} WalkFieldsSuffix(expected: Value, a: Value, i: nat, b: Value, j: nat, current: set<string>, props: Props)
    requires i <= |DeclaredFields(a)| && j <= |DeclaredFields(b)|
    requires DeclaredFields(a)[i..] == DeclaredFields(b)[j..]
    ensures WalkFields(expected, a, i, current, props) == WalkFields(expected, b, j, current, props)
    decreases |DeclaredFields(a)| - i
  {
    if i < |DeclaredFields(a)| {
      assert DeclaredFields(a)[i] == DeclaredFields(a)[i..][0];
      SameFieldSameOutcome(expected, a, i, b, j, current, props);
      assert DeclaredFields(a)[i + 1..] == DeclaredFields(a)[i..][1..];
      WalkFieldsSuffix(expected, a, i + 1, b, j + 1, current, props);
    }
  }

  /** `actual` without its `i`-th declared field. */
  function RemoveField(actual: Value, i: nat): (r: Value)
    requires actual.Obj? && i < |actual.fields|
    ensures r.Obj? && |r.fields| == |actual.fields| - 1
  {
    Obj(actual.cls, actual.fields[..i] + actual.fields[i + 1..])
  }

  lemma {:induction false} WalkWithoutField(expected: Value, actual: Value, i: nat, j: nat, current: set<string>, props: Props)
    requires actual.Obj? && j <= i < |actual.fields|
    requires FieldOutcome(expected, actual, i, current, props) == Returns(true)
    ensures WalkFields(expected, RemoveField(actual, i), j, current, props) == WalkFields(expected, actual, j, current, props)
    decreases i - j
  {
    var removed := RemoveField(actual, i);
    if j < i {
      SameFieldSameOutcome(expected, removed, j, actual, j, current, props);
      WalkWithoutField(expected, actual, i, j + 1, current, props);
    } else {
      assert removed.fields[i..] == actual.fields[i + 1..];
      WalkFieldsSuffix(expected, removed, i, actual, i + 1, current, props);
    }
  }

  /**
   * A field that is missing on `expected` (the swallowed
   * NoSuchFieldException), or whose name is skipped, may as well not exist:
   * removing it from `actual` leaves the result unchanged.
   */
  lemma SkippedFieldRemovable(expected: Value, actual: Value, i: nat, props: Props)
    requires expected != Null && actual.Obj? && i < |actual.fields|
    requires || FindField(DeclaredFields(expected), actual.fields[i].name).None?
             || actual.fields[i].name == SerialVersionUID
             || actual.fields[i].name in CurrentIgnored(props)
    ensures Equals(expected, RemoveField(actual, i), props) == Equals(expected, actual, props)
  {
    WalkWithoutField(expected, actual, i, 0, CurrentIgnored(props), props);
  }

  // ---------------------------------------------------------------------------
  // Ignored fields

  /** `v` with the value of every declared field called `name` replaced by `x`. */
  function SetField(v: Value, name: string, x: Value): (r: Value)
    ensures !v.Obj? ==> r == v
    ensures v.Obj? ==> r.Obj? && |r.fields| == |v.fields|
    ensures v.Obj? ==> forall i :: 0 <= i < |v.fields| ==>
              && r.fields[i].name == v.fields[i].name
              && r.fields[i].declType == v.fields[i].declType
              && r.fields[i].value == (if v.fields[i].name == name then x else v.fields[i].value)
  {
    if v.Obj? then
      Obj(v.cls, seq(|v.fields|, i requires 0 <= i < |v.fields| =>
                       if v.fields[i].name == name then v.fields[i].(value := x) else v.fields[i]))
    else v
  }

  /** The lookup by name sees only the names. */
  lemma {:induction false} FindFieldByNames(fs: seq<Field>, gs: seq<Field>, name: string)
    requires |fs| == |gs| && forall i :: 0 <= i < |fs| ==> fs[i].name == gs[i].name
    ensures FindField(fs, name) == FindField(gs, name)
  {
    if fs != [] {
      FindFieldByNames(fs[1..], gs[1..], name);
    }
  }

  /** One iteration with the field `name` set on both sides: unchanged when `name` is skipped. */
  lemma FieldOutcomeWithFieldSet(expected: Value, actual: Value, i: nat, current: set<string>, props: Props,
                                 name: string, x: Value, y: Value)
    requires actual.Obj? && i < |actual.fields|
    requires name == SerialVersionUID || name in current
    ensures FieldOutcome(SetField(expected, name, x), SetField(actual, name, y), i, current, props)
            == FieldOutcome(expected, actual, i, current, props)
  {
    var expected', actual' := SetField(expected, name, x), SetField(actual, name, y);
    var f := actual.fields[i];
    assert f.name != SerialVersionUID && f.name !in current ==> actual'.fields[i] == f;
    FindFieldByNames(DeclaredFields(expected'), DeclaredFields(expected), f.name);
    match FindField(DeclaredFields(expected), f.name)
    case None =>
    case Some(k) =>
      assert f.name != SerialVersionUID && f.name !in current
             ==> DeclaredFields(expected')[k].value == DeclaredFields(expected)[k].value;
  }

  lemma {:induction false} WalkWithFieldSet(expected: Value, actual: Value, i: nat, current: set<string>, props: Props,
                                            name: string, x: Value, y: Value)
    requires actual.Obj? && i <= |actual.fields|
    requires name == SerialVersionUID || name in current
    ensures WalkFields(SetField(expected, name, x), SetField(actual, name, y), i, current, props)
            == WalkFields(expected, actual, i, current, props)
    decreases |actual.fields| - i
  {
    if i < |actual.fields| {
      FieldOutcomeWithFieldSet(expected, actual, i, current, props, name, x, y);
      WalkWithFieldSet(expected, actual, i + 1, current, props, name, x, y);
    }
  }

  /**
   * A field called `serialVersionUID`, or one whose name is skipped at this
   * level, never influences the result: changing its value on either side
   * changes nothing.
   */
  lemma IgnoredFieldIrrelevant(expected: Value, actual: Value, props: Props, name: string, x: Value, y: Value)
    requires name == SerialVersionUID || name in CurrentIgnored(props)
    ensures Equals(SetField(expected, name, x), SetField(actual, name, y), props) == Equals(expected, actual, props)
  {
    if actual.Obj? && expected != Null {
      WalkWithFieldSet(expected, actual, 0, CurrentIgnored(props), props, name, x, y);
    }
  }

  /**
   * A dotted path "b.c" puts its head "b" into the names skipped at this
   * level, so the whole field `b` is ignored, not only `c` inside it.
   */
  lemma PathHeadSkipsWholeField(expected: Value, actual: Value, ps: seq<string>, j: nat, k: nat, x: Value, y: Value)
    requires j < |ps| && 0 < k < |ps[j]| && ps[j][k] == '.'
    requires forall i :: 0 <= i < k ==> ps[j][i] != '.'
    ensures Equals(SetField(expected, ps[j][..k], x), SetField(actual, ps[j][..k], y), Some(ps))
            == Equals(expected, actual, Some(ps))
  {
    assert Contribution(ps[j]) == Some(ps[j][..k]);
    CurrentIgnoredMembers(Some(ps), ps[j][..k]);
    IgnoredFieldIrrelevant(expected, actual, Some(ps), ps[j][..k], x, y);
  }

  // ---------------------------------------------------------------------------
  // Maps

  lemma {:induction false} WalkEntriesDecidedBy(m1: Value, m2: Value, i: nat, props: Props)
    requires m1.MapV? && m2.MapV? && i <= |m1.entries|
    ensures WalkEntries(m1, m2, i, props) == Returns(true)
            <==> forall j :: i <= j < |m1.entries| ==> EntryOutcome(m1, m2, j, props) == Returns(true)
    ensures forall j :: i <= j < |m1.entries|
                        && EntryOutcome(m1, m2, j, props) != Returns(true)
                        && (forall k :: i <= k < j ==> EntryOutcome(m1, m2, k, props) == Returns(true))
                        ==> WalkEntries(m1, m2, i, props) == EntryOutcome(m1, m2, j, props)
    decreases |m1.entries| - i
  {
    if i < |m1.entries| {
      WalkEntriesDecidedBy(m1, m2, i + 1, props);
      assert WalkEntries(m1, m2, i, props)
             == if EntryOutcome(m1, m2, i, props) == Returns(true) then WalkEntries(m1, m2, i + 1, props)
                else EntryOutcome(m1, m2, i, props);
      if EntryOutcome(m1, m2, i, props) == Returns(true) {
        forall j | i <= j < |m1.entries|
                   && EntryOutcome(m1, m2, j, props) != Returns(true)
                   && (forall k :: i <= k < j ==> EntryOutcome(m1, m2, k, props) == Returns(true))
          ensures WalkEntries(m1, m2, i, props) == EntryOutcome(m1, m2, j, props)
        {
          assert j != i;
        }
      }
    }
  }

  /** The comparison made for the `j`-th entry of the first map. */
  function EntryOutcome(m1: Value, m2: Value, j: nat, props: Props): Outcome
    requires m1.MapV? && m2.MapV? && j < |m1.entries|
  {
    Equals(m1.entries[j].val, Get(m2, m1.entries[j].key), props)
  }

  /**
   * Two maps are equal iff every entry of the first compares equal to the
   * second map's value for the same key (null when it has none); otherwise
   * the first entry that does not decides.
   */
  lemma MapDecidedByFirstMapEntries(m1: Value, m2: Value, props: Props)
    requires m1.MapV? && m2.MapV?
    ensures MapEquals(m1, m2, props) == Returns(true)
            <==> forall j :: 0 <= j < |m1.entries| ==> Equals(m1.entries[j].val, Get(m2, m1.entries[j].key), props) == Returns(true)
    ensures forall j :: 0 <= j < |m1.entries|
                        && Equals(m1.entries[j].val, Get(m2, m1.entries[j].key), props) != Returns(true)
                        && (forall k :: 0 <= k < j ==> Equals(m1.entries[k].val, Get(m2, m1.entries[k].key), props) == Returns(true))
                        ==> MapEquals(m1, m2, props) == Equals(m1.entries[j].val, Get(m2, m1.entries[j].key), props)
  {
    WalkEntriesDecidedBy(m1, m2, 0, props);
    assert forall j :: 0 <= j < |m1.entries| ==> EntryOutcome(m1, m2, j, props) == Equals(m1.entries[j].val, Get(m2, m1.entries[j].key), props);
  }

  lemma {:induction false} WalkEntriesLookups(m1: Value, m2: Value, m2': Value, i: nat, props: Props)
    requires m1.MapV? && m2.MapV? && m2'.MapV? && i <= |m1.entries|
    requires forall j :: 0 <= j < |m1.entries| ==> Get(m2, m1.entries[j].key) == Get(m2', m1.entries[j].key)
    ensures WalkEntries(m1, m2, i, props) == WalkEntries(m1, m2', i, props)
    decreases |m1.entries| - i
  {
    if i < |m1.entries| {
      WalkEntriesLookups(m1, m2, m2', i + 1, props);
    }
  }

  /**
   * The second map is only read through `get` on the first map's keys: two
   * second maps that agree on those keys give the same result.
   */
  lemma MapReadsOnlyFirstMapKeys(m1: Value, m2: Value, m2': Value, props: Props)
    requires m1.MapV? && m2.MapV? && m2'.MapV?
    requires forall j :: 0 <= j < |m1.entries| ==> Get(m2, m1.entries[j].key) == Get(m2', m1.entries[j].key)
    ensures MapEquals(m1, m2, props) == MapEquals(m1, m2', props)
  {
    WalkEntriesLookups(m1, m2, m2', 0, props);
  }

  /** Keys present only in the second map are never examined. */
  lemma MapIgnoresExtraKeys(m1: Value, es: seq<Entry>, extra: seq<Entry>, props: Props)
    requires m1.MapV?
    requires forall i, j :: 0 <= i < |extra| && 0 <= j < |m1.entries| ==> extra[i].key != m1.entries[j].key
    ensures MapEquals(m1, MapV(es + extra), props) == MapEquals(m1, MapV(es), props)
  {
    forall j | 0 <= j < |m1.entries|
      ensures Get(MapV(es + extra), m1.entries[j].key) == Get(MapV(es), m1.entries[j].key)
    {
      var key := m1.entries[j].key;
      var all := es + extra;
      assert forall i :: |es| <= i < |all| ==> all[i].key != key by {
        forall i | |es| <= i < |all| ensures all[i].key != key {
          assert all[i] == extra[i - |es|];
        }
      }
      match FirstIndex(es, HasKey(key))
      case None =>
        assert forall i :: 0 <= i < |all| ==> all[i].key != key by {
          forall i | 0 <= i < |all| ensures all[i].key != key {
            if i < |es| { assert all[i] == es[i]; }
          }
        }
      case Some(r) =>
        assert all[r] == es[r];
        assert forall i :: 0 <= i < r ==> all[i].key != key by {
          forall i | 0 <= i < r ensures all[i].key != key {
            assert all[i] == es[i];
          }
        }
    }
    MapReadsOnlyFirstMapKeys(m1, MapV(es + extra), MapV(es), props);
  }

  // ---------------------------------------------------------------------------
  // Collections

  lemma {:induction false} WalkItemsDecidedBy(c1: Value, c2: Value, i: nat, props: Props)
    requires c1.SeqV? && c2.SeqV? && i <= |c1.items| <= |c2.items|
    ensures WalkItems(c1, c2, i, props) == Returns(true)
            <==> forall j :: i <= j < |c1.items| ==> Equals(c2.items[j], c1.items[j], props) == Returns(true)
    ensures forall j :: i <= j < |c1.items|
                        && Equals(c2.items[j], c1.items[j], props) != Returns(true)
                        && (forall k :: i <= k < j ==> Equals(c2.items[k], c1.items[k], props) == Returns(true))
                        ==> WalkItems(c1, c2, i, props) == Equals(c2.items[j], c1.items[j], props)
    decreases |c1.items| - i
  {
    if i < |c1.items| {
      WalkItemsDecidedBy(c1, c2, i + 1, props);
      if Equals(c2.items[i], c1.items[i], props) == Returns(true) {
        forall j | i <= j < |c1.items|
                   && Equals(c2.items[j], c1.items[j], props) != Returns(true)
                   && (forall k :: i <= k < j ==> Equals(c2.items[k], c1.items[k], props) == Returns(true))
          ensures WalkItems(c1, c2, i, props) == Equals(c2.items[j], c1.items[j], props)
        {
          assert j != i;
        }
      }
    }
  }

  lemma {:induction false} WalkItemsFirstMismatch(c1: Value, c2: Value, i: nat, j: nat, props: Props)
    requires c1.SeqV? && c2.SeqV? && i <= j < |c1.items| && j < |c2.items|
    requires Equals(c2.items[j], c1.items[j], props) != Returns(true)
    requires forall k :: i <= k < j ==> Equals(c2.items[k], c1.items[k], props) == Returns(true)
    ensures WalkItems(c1, c2, i, props) == Equals(c2.items[j], c1.items[j], props)
    decreases j - i
  {
    if i < j {
      WalkItemsFirstMismatch(c1, c2, i + 1, j, props);
    }
  }

  /**
   * Collections are compared index for index over the first one's length,
   * element `i` of the second against element `i` of the first.  When the
   * second is at least as long, the result is true iff every comparison is;
   * whatever the lengths, the first comparison that is not true, at an index
   * both collections have, decides.
   */
  lemma CollectionComparedByIndex(c1: Value, c2: Value, props: Props)
    requires c1.SeqV? && c2.SeqV?
    ensures |c1.items| <= |c2.items| ==>
              (CollectionObjEquals(c1, c2, props) == Returns(true)
               <==> forall j :: 0 <= j < |c1.items| ==> Equals(c2.items[j], c1.items[j], props) == Returns(true))
    ensures forall j :: 0 <= j < |c1.items| && j < |c2.items|
                        && Equals(c2.items[j], c1.items[j], props) != Returns(true)
                        && (forall k :: 0 <= k < j ==> Equals(c2.items[k], c1.items[k], props) == Returns(true))
                        ==> CollectionObjEquals(c1, c2, props) == Equals(c2.items[j], c1.items[j], props)
  {
    if |c1.items| <= |c2.items| {
      WalkItemsDecidedBy(c1, c2, 0, props);
    }
    forall j | 0 <= j < |c1.items| && j < |c2.items|
               && Equals(c2.items[j], c1.items[j], props) != Returns(true)
               && (forall k :: 0 <= k < j ==> Equals(c2.items[k], c1.items[k], props) == Returns(true))
      ensures CollectionObjEquals(c1, c2, props) == Equals(c2.items[j], c1.items[j], props)
    {
      WalkItemsFirstMismatch(c1, c2, 0, j, props);
    }
  }

  lemma {:induction false} WalkItemsTrailing(c1: Value, ys: seq<Value>, zs: seq<Value>, i: nat, props: Props)
    requires c1.SeqV? && i <= |c1.items| <= |ys|
    ensures WalkItems(c1, SeqV(ys + zs), i, props) == WalkItems(c1, SeqV(ys), i, props)
    decreases |c1.items| - i
  {
    if i < |c1.items| {
      assert (ys + zs)[i] == ys[i];
      WalkItemsTrailing(c1, ys, zs, i + 1, props);
    }
  }

  /** Elements of the second collection past the first one's length are never looked at. */
  lemma CollectionIgnoresTrailing(c1: Value, ys: seq<Value>, zs: seq<Value>, props: Props)
    requires c1.SeqV? && |c1.items| <= |ys|
    ensures CollectionObjEquals(c1, SeqV(ys + zs), props) == CollectionObjEquals(c1, SeqV(ys), props)
  {
    WalkItemsTrailing(c1, ys, zs, 0, props);
  }

  lemma {:induction false} WalkItemsPastEnd(c1: Value, c2: Value, i: nat, props: Props)
    requires c1.SeqV? && c2.SeqV? && i <= |c2.items| < |c1.items|
    requires forall j :: i <= j < |c2.items| ==> Equals(c2.items[j], c1.items[j], props) == Returns(true)
    ensures WalkItems(c1, c2, i, props) == Throws(ArrayIndexOutOfBoundsException)
    decreases |c2.items| - i
  {
    if i < |c2.items| {
      WalkItemsPastEnd(c1, c2, i + 1, props);
    }
  }

  /**
   * A second collection shorter than the first, whose elements all match,
   * makes the loop read past its end: the out-of-bounds exception escapes.
   */
  lemma CollectionShorterSecondThrows(c1: Value, c2: Value, props: Props)
    requires c1.SeqV? && c2.SeqV? && |c2.items| < |c1.items|
    requires forall j :: 0 <= j < |c2.items| ==> Equals(c2.items[j], c1.items[j], props) == Returns(true)
    ensures CollectionObjEquals(c1, c2, props) == Throws(ArrayIndexOutOfBoundsException)
  {
    WalkItemsPastEnd(c1, c2, 0, props);
  }

  // ---------------------------------------------------------------------------
  // Reflexivity

  /** A field declared `Map`, `Set` or `List` holds null or a value of that shape. */
  predicate FitsDeclaredType(f: Field)
  {
    && (IsMapClass(f.declType) ==> f.value.Null? || f.value.MapV?)
    && (IsCollectionClass(f.declType) ==> f.value.Null? || f.value.SeqV?)
  }

  /**
   * What the Java types guarantee: field names are unique within an object,
   * keys unique within a map, and every field holds a value of its declared
   * shape, all the way down.
   */
  predicate WellFormed(v: Value)
    decreases v
  {
    match v
    case Null => true
    case Basic(_) => true
    case PlainObject(_) => true
    case Obj(_, fs) =>
      && (forall i, j :: 0 <= i < j < |fs| ==> fs[i].name != fs[j].name)
      && (forall i :: 0 <= i < |fs| ==> FitsDeclaredType(fs[i]) && WellFormed(fs[i].value))
    case MapV(es) =>
      && (forall i, j :: 0 <= i < j < |es| ==> es[i].key != es[j].key)
      && (forall i :: 0 <= i < |es| ==> WellFormed(es[i].val))
    case SeqV(xs) => forall i :: 0 <= i < |xs| ==> WellFormed(xs[i])
  }

  /** Every well-formed value equals itself, whatever the ignore paths. */
  lemma {:induction false} EqualsReflexive(x: Value, props: Props)
    requires WellFormed(x)
    ensures Equals(x, x, props) == Returns(true)
    decreases Size(x) + Size(x), 3, 0
  {
    if x != Null && !IsBasicClass(RuntimeClass(x)) {
      WalkFieldsReflexive(x, 0, CurrentIgnored(props), props);
    }
  }

  lemma {:induction false} WalkFieldsReflexive(x: Value, i: nat, current: set<string>, props: Props)
    requires WellFormed(x) && i <= |DeclaredFields(x)|
    ensures WalkFields(x, x, i, current, props) == Returns(true)
    decreases Size(x) + Size(x), 2, |DeclaredFields(x)| - i
  {
    if i < |DeclaredFields(x)| {
      FieldOutcomeReflexive(x, i, current, props);
      WalkFieldsReflexive(x, i + 1, current, props);
    }
  }

  lemma {:induction false} FieldOutcomeReflexive(x: Value, i: nat, current: set<string>, props: Props)
    requires WellFormed(x) && i < |DeclaredFields(x)|
    ensures FieldOutcome(x, x, i, current, props) == Returns(true)
    decreases Size(x) + Size(x), 1, 0
  {
    var fs := DeclaredFields(x);
    var f := fs[i];
    if f.name != SerialVersionUID && f.name !in current {
      var next := NextIgnored(f.name, props);
      assert FindField(fs, f.name) == Some(i);
      FieldSmaller(x, i);
      assert FitsDeclaredType(f) && WellFormed(f.value);
      if IsBasicClass(f.declType) {
      } else if IsMapClass(f.declType) {
        MapReflexive(f.value, next);
      } else if IsCollectionClass(f.declType) {
        CollectionReflexive(f.value, next);
      } else {
        EqualsReflexive(f.value, next);
      }
    }
  }

  lemma {:induction false} MapReflexive(m: Value, props: Props)
    requires WellFormed(m) && (m.Null? || m.MapV?)
    ensures MapEquals(m, m, props) == Returns(true)
    decreases Size(m) + Size(m), 3, 0
  {
    if m.MapV? {
      WalkEntriesReflexive(m, 0, props);
    }
  }

  lemma {:induction false} WalkEntriesReflexive(m: Value, i: nat, props: Props)
    requires WellFormed(m) && m.MapV? && i <= |m.entries|
    ensures WalkEntries(m, m, i, props) == Returns(true)
    decreases Size(m) + Size(m), 2, |m.entries| - i
  {
    if i < |m.entries| {
      var e := m.entries[i];
      assert FirstIndex(m.entries, HasKey(e.key)) == Some(i);
      EntrySmaller(m, i);
      EqualsReflexive(e.val, props);
      WalkEntriesReflexive(m, i + 1, props);
    }
  }

  lemma {:induction false} CollectionReflexive(c: Value, props: Props)
    requires WellFormed(c) && (c.Null? || c.SeqV?)
    ensures CollectionObjEquals(c, c, props) == Returns(true)
    decreases Size(c) + Size(c), 3, 0
  {
    if c.SeqV? && c.items != [] {
      WalkItemsReflexive(c, 0, props);
    }
  }

  lemma {:induction false} WalkItemsReflexive(c: Value, i: nat, props: Props)
    requires WellFormed(c) && c.SeqV? && i <= |c.items|
    ensures WalkItems(c, c, i, props) == Returns(true)
    decreases Size(c) + Size(c), 2, |c.items| - i
  {
    if i < |c.items| {
      ItemSmaller(c, i);
      EqualsReflexive(c.items[i], props);
      WalkItemsReflexive(c, i + 1, props);
    }
  }
}
