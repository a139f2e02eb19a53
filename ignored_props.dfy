/**
 * The two ignore-path helpers of `ObjectHelper`.  An ignore path is a dotted
 * string such as "a.b.c"; the list of paths may be null, as a Java `String[]`
 * may be.
 */
module IgnoredProps {
  import opened Wrappers
  import opened JavaStrings
  import CollectionHelper

  /** STR_DOT */
  const Dot: string := "."

  /** A `String[]` that may be null. */
  type Props = Option<seq<string>>

  lemma DotAt(p: string, i: int)
    ensures OccursAt(p, Dot, i) <==> 0 <= i < |p| && p[i] == '.'
  {
    if 0 <= i < |p| {
      assert p[i..i + 1] == [p[i]];
    }
  }

  /**
   * What one path contributes to the names skipped at the current level:
   * the whole path when it has no dot, the part before its first dot when
   * that dot is not the first character, and nothing when the path starts
   * with a dot.
   */
  function Contribution(p: string): (c: Option<string>)
    ensures (forall i :: 0 <= i < |p| ==> p[i] != '.') ==> c == Some(p)
    ensures |p| > 0 && p[0] == '.' ==> c == None
    ensures forall k :: 0 < k < |p| && p[k] == '.' && (forall j :: 0 <= j < k ==> p[j] != '.') ==> c == Some(p[..k])
  {
    var index := IndexOf(p, Dot);
    DotAt(p, index);
    assert forall i :: OccursAt(p, Dot, i) <==> 0 <= i < |p| && p[i] == '.' by {
      forall i ensures OccursAt(p, Dot, i) <==> 0 <= i < |p| && p[i] == '.' {
        DotAt(p, i);
      }
    }
    if index == 0 then None
    else if index < 0 then Some(p)
    else Some(p[..index])
  }

  /** The names contributed by the paths `ps`, added in order as the loop adds them. */
  function CurrentOf(ps: seq<string>): set<string>
  {
    if ps == [] then {}
    else
      CurrentOf(ps[..|ps| - 1])
      + (match Contribution(ps[|ps| - 1])
         case None => {}
         case Some(x) => {x})
  }

  /**
   * `getCurrentIgnoredProps(ignoredProps)`: the field names to skip at this
   * level; nothing for a null list, and every name some path contributes.
   */
  function CurrentIgnored(props: Props): (r: set<string>)
    ensures props.None? ==> r == {}
    ensures props.Some? ==> forall j :: 0 <= j < |props.value| && Contribution(props.value[j]).Some?
                                        ==> Contribution(props.value[j]).value in r
  {
    if props.None? || |props.value| < 1 then {}
    else
      CurrentOfIncludes(props.value);
      CurrentOf(props.value)
  }

  lemma {:induction false} CurrentOfIncludes(ps: seq<string>)
    ensures forall j :: 0 <= j < |ps| && Contribution(ps[j]).Some? ==> Contribution(ps[j]).value in CurrentOf(ps)
  {
    if ps != [] {
      var n := |ps| - 1;
      CurrentOfIncludes(ps[..n]);
      assert forall j :: 0 <= j < n ==> ps[..n][j] == ps[j];
    }
  }

  lemma {:induction false} CurrentOfMembers(ps: seq<string>, x: string)
    ensures x in CurrentOf(ps) <==> exists j :: 0 <= j < |ps| && Contribution(ps[j]) == Some(x)
  {
    if ps != [] {
      var n := |ps| - 1;
      CurrentOfMembers(ps[..n], x);
      assert forall j :: 0 <= j < n ==> ps[..n][j] == ps[j];
    }
  }

  /**
   * A name is skipped at the current level exactly when some path
   * contributes it; a null or empty list skips nothing.
   */
  lemma CurrentIgnoredMembers(props: Props, x: string)
    ensures x in CurrentIgnored(props)
            <==> props.Some? && exists j :: 0 <= j < |props.value| && Contribution(props.value[j]) == Some(x)
  {
    if props.Some? {
      CurrentOfMembers(props.value, x);
    }
  }

  /**
   * What one path passes down to a field, given `keyword` = field name + ".":
   * the text after the first occurrence of `keyword` anywhere in the path, or
   * nothing when the keyword does not occur.
   */
  function Suffix(keyword: string, p: string): (r: seq<string>)
    ensures |r| <= 1
    ensures r == [] <==> !Contains(p, keyword)
    ensures r != [] ==> exists i :: OccursAt(p, keyword, i) && r[0] == p[i + |keyword|..]
                                    && forall j :: 0 <= j < i ==> !OccursAt(p, keyword, j)
  {
    var index := IndexOf(p, keyword);
    if index < 0 then [] else [p[index + |keyword|..]]
  }

  /** The suffixes passed down by the paths `ps`, in the order of the paths. */
  function SuffixesOf(keyword: string, ps: seq<string>): seq<string>
  {
    if ps == [] then [] else SuffixesOf(keyword, ps[..|ps| - 1]) + Suffix(keyword, ps[|ps| - 1])
  }

  /** Each path contributes its own suffix, in place: the result of a concatenation is the concatenation of the results. */
  lemma {:induction false} SuffixesConcat(keyword: string, ps: seq<string>, qs: seq<string>)
    ensures SuffixesOf(keyword, ps + qs) == SuffixesOf(keyword, ps) + SuffixesOf(keyword, qs)
    decreases |qs|
  {
    if qs == [] {
      assert ps + qs == ps;
    } else {
      var n := |qs| - 1;
      assert (ps + qs)[..|ps + qs| - 1] == ps + qs[..n];
      SuffixesConcat(keyword, ps, qs[..n]);
    }
  }

  /** No suffix at all exactly when no path contains the keyword. */
  lemma {:induction false} SuffixesEmpty(keyword: string, ps: seq<string>)
    ensures SuffixesOf(keyword, ps) == [] <==> forall j :: 0 <= j < |ps| ==> !Contains(ps[j], keyword)
  {
    if ps != [] {
      var n := |ps| - 1;
      SuffixesEmpty(keyword, ps[..n]);
      assert forall j :: 0 <= j < n ==> ps[..n][j] == ps[j];
    }
  }

  /**
   * `getNextIgnoredProps(prefix, ignoredProps)`: null when the list is null
   * or empty, when the prefix is blank, or when no path contains
   * `prefix + "."`; otherwise the non-empty list of suffixes.
   */
  function NextIgnored(prefix: string, props: Props): (r: Props)
    ensures r.Some? ==> |r.value| > 0
    ensures r.Some? ==> props.Some? && r.value == SuffixesOf(prefix + Dot, props.value)
    ensures r.None? <==> || props.None? || |props.value| < 1 || IsBlank(prefix)
                         || forall j :: 0 <= j < |props.value| ==> !Contains(props.value[j], prefix + Dot)
  {
    if props.None? || |props.value| < 1 || IsBlank(prefix) then None
    else
      var result := SuffixesOf(prefix + Dot, props.value);
      SuffixesEmpty(prefix + Dot, props.value);
      if CollectionHelper.IsEmpty(Some(result)) then None else Some(result)
  }

  /**
   * The keyword is searched for anywhere in a path, not only at its start:
   * a path whose first occurrence of `prefix + "."` follows some other text
   * `u` still passes what follows it down to the field `prefix`.
   */
  lemma NextMatchesInside(prefix: string, u: string, w: string)
    requires !IsBlank(prefix)
    requires IndexOf(u + prefix + Dot + w, prefix + Dot) == |u|
    ensures NextIgnored(prefix, Some([u + prefix + Dot + w])) == Some([w])
  {
    var p := u + prefix + Dot + w;
    var keyword := prefix + Dot;
    assert p == u + keyword + w;
    assert p[|u| + |keyword|..] == w;
    assert Suffix(keyword, p) == [w];
    var ps: seq<string> := [p];
    assert ps[..0] == [];
    assert SuffixesOf(keyword, ps) == SuffixesOf(keyword, []) + Suffix(keyword, p);
    assert SuffixesOf(keyword, ps) == [w];
    assert !IsBlank(prefix);
    assert NextIgnored(prefix, Some(ps)) == Some(SuffixesOf(keyword, ps));
  }

  /** `getCurrentIgnoredProps`, as the source computes it: one pass over the paths. */
  method GetCurrentIgnoredProps(ignoredProps: Props) returns (result: set<string>)
    ensures result == CurrentIgnored(ignoredProps)
  {
    result := {};
    if ignoredProps.None? || |ignoredProps.value| < 1 {
      return;
    }
    var ps := ignoredProps.value;
    for i := 0 to |ps|
      invariant result == CurrentOf(ps[..i])
    {
      assert ps[..i + 1][..i] == ps[..i];
      var ignoreProp := ps[i];
      var index := IndexOf(ignoreProp, Dot);
      if index == 0 {
        continue;
      }
      if index < 0 {
        result := result + {ignoreProp};
      } else {
        var currIgnoredProp := ignoreProp[..index];
        result := result + {currIgnoredProp};
      }
    }
    assert ps[..|ps|] == ps;
  }

  /** `getNextIgnoredProps`, as the source computes it: one pass collecting suffixes. */
  method GetNextIgnoredProps(prefix: string, ignoredProps: Props) returns (r: Props)
    ensures r == NextIgnored(prefix, ignoredProps)
  {
    if ignoredProps.None? || |ignoredProps.value| < 1 || IsBlank(prefix) {
      return None;
    }
    var ps := ignoredProps.value;
    var keyword := prefix + Dot;
    var result: seq<string> := [];
    for i := 0 to |ps|
      invariant result == SuffixesOf(keyword, ps[..i])
    {
      assert ps[..i + 1][..i] == ps[..i];
      var ignoreItem := ps[i];
      var index := IndexOf(ignoreItem, keyword);
      if index < 0 {
        continue;
      }
      var nextIgnoredProp := ignoreItem[index + |keyword|..];
      result := result + [nextIgnoredProp];
    }
    assert ps[..|ps|] == ps;
    r := if CollectionHelper.IsEmpty(Some(result)) then None else Some(result);
  }
}
