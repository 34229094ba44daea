/**
 * The content-visibility plugin with the host framework's registration calls
 * taken off: the `size-hint` arbitrary-value callback, the merge of the
 * default presets with the theme's `sizeHint` values, their validation, and
 * the static utilities built from them.
 */
module ContentVisibility {
  import opened Results
  import opened OrderedObjects
  import SizeHintLength

  /** A value found in the theme: the plugin only tells strings from everything else. */
  datatype ThemeValue = Str(s: string) | NonString

  /** One style declaration `property: value`; every block the plugin emits holds exactly one. */
  datatype Declaration = Declaration(property: string, value: string)

  /** `{'contain-intrinsic-size': `0 ${length}`}` */
  function ContainIntrinsicSize(length: string): Declaration {
    Declaration("contain-intrinsic-size", "0 " + length)
  }

  const InvalidSizeHintValue: string := "Invalid size hint value"

  // ---------------------------------------------------------------- arbitrary values

  /** The `size-hint` callback for an arbitrary value such as `size-hint-[500px]`. */
  function SizeHintDeclaration(raw: string): (r: Result<Declaration>)
    ensures r.Ok? <==> SizeHintLength.MatchesSizeHintPattern(raw)
    ensures r.Ok? ==> r.value.property == "contain-intrinsic-size" && r.value.value == "0 " + raw
    ensures r.Err? ==> r.error == InvalidSizeHintValue
  {
    SizeHintLength.ScannerMatchesPattern(raw);
    if SizeHintLength.IsSizeHintLength(raw) then Ok(ContainIntrinsicSize(raw)) else Err(InvalidSizeHintValue)
  }

  /** Whole numbers with a unit are accepted and emitted unchanged after `0 `. */
  lemma SizeHintAcceptsWholeNumbers()
    ensures SizeHintDeclaration("500px") == Ok(Declaration("contain-intrinsic-size", "0 500px"))
    ensures SizeHintDeclaration("2em") == Ok(Declaration("contain-intrinsic-size", "0 2em"))
  {
    assert SizeHintLength.IsSizeHintLength("500px");
    assert "0 " + "500px" == "0 500px";
    assert SizeHintLength.IsSizeHintLength("2em");
    assert "0 " + "2em" == "0 2em";
  }

  /** Fractions with a unit are accepted, also when nothing stands before the dot. */
  lemma SizeHintAcceptsFractions()
    ensures SizeHintDeclaration("-1.5rem") == Ok(Declaration("contain-intrinsic-size", "0 -1.5rem"))
    ensures SizeHintDeclaration(".5vh") == Ok(Declaration("contain-intrinsic-size", "0 .5vh"))
  {
    assert SizeHintLength.IsSizeHintLength("-1.5rem");
    assert "0 " + "-1.5rem" == "0 -1.5rem";
    assert SizeHintLength.IsSizeHintLength(".5vh");
    assert "0 " + ".5vh" == "0 .5vh";
  }

  /** A sign with a fraction and nothing before the dot is accepted. */
  lemma SizeHintAcceptsSignedFraction()
    ensures SizeHintDeclaration("-.5vw") == Ok(Declaration("contain-intrinsic-size", "0 -.5vw"))
  {
    assert SizeHintLength.IsSizeHintLength("-.5vw");
    assert "0 " + "-.5vw" == "0 -.5vw";
  }

  /** A percentage, a missing unit, no number, or a sign alone is rejected. */
  lemma SizeHintRejectsMalformed()
    ensures SizeHintDeclaration("10%") == Err(InvalidSizeHintValue)
    ensures SizeHintDeclaration("12") == Err(InvalidSizeHintValue)
    ensures SizeHintDeclaration("abc") == Err(InvalidSizeHintValue)
    ensures SizeHintDeclaration("-px") == Err(InvalidSizeHintValue)
  {
  }

  /** A dot with no digit after it, or a second dot, is rejected. */
  lemma SizeHintRejectsDots()
    ensures SizeHintDeclaration("5.px") == Err(InvalidSizeHintValue)
    ensures SizeHintDeclaration("1.2.3px") == Err(InvalidSizeHintValue)
  {
    assert !SizeHintLength.IsSizeHintLength("5.px");
    assert !SizeHintLength.IsSizeHintLength("1.2.3px");
  }

  /** Anything after the unit, even a newline, is rejected, and so is the empty string. */
  lemma SizeHintRejectsTrailing()
    ensures SizeHintDeclaration("5px\n") == Err(InvalidSizeHintValue)
    ensures SizeHintDeclaration("5pxpx") == Err(InvalidSizeHintValue)
    ensures SizeHintDeclaration("") == Err(InvalidSizeHintValue)
  {
  }

  // ---------------------------------------------------------------- presets

  /** `defaultSizes` */
  const DefaultSizes: Entries<ThemeValue> := [("sm", Str("300px")), ("md", Str("500px")), ("lg", Str("800px"))]

  /** `{...defaultSizes, ...themeValues}` */
  function MergeSizes(themeValues: Entries<ThemeValue>): Entries<ThemeValue> {
    Spread(Spread([], DefaultSizes), themeValues)
  }

  /** The map view of the defaults. */
  lemma DefaultSizesMap()
    ensures DistinctKeys(DefaultSizes)
    ensures ToMap(DefaultSizes) == map["sm" := Str("300px"), "md" := Str("500px"), "lg" := Str("800px")]
  {
  }

  /**
   * The merge: keys stay distinct, the defaults come first in their order,
   * every key of either side is present, a key the theme supplies takes the
   * theme's value, and every other default keeps its default.
   */
  lemma MergeSizesSpec(themeValues: Entries<ThemeValue>)
    ensures DistinctKeys(MergeSizes(themeValues))
    ensures var m := MergeSizes(themeValues);
      |m| >= 3 && m[0].0 == "sm" && m[1].0 == "md" && m[2].0 == "lg"
    ensures ToMap(MergeSizes(themeValues)) == ToMap(DefaultSizes) + ToMap(themeValues)
    ensures forall k :: k in ToMap(MergeSizes(themeValues)) <==> k in ToMap(DefaultSizes) || k in ToMap(themeValues)
    ensures forall k :: k in ToMap(themeValues) ==> ToMap(MergeSizes(themeValues))[k] == ToMap(themeValues)[k]
    ensures forall k :: k in ToMap(DefaultSizes) && k !in ToMap(themeValues) ==>
      ToMap(MergeSizes(themeValues))[k] == ToMap(DefaultSizes)[k]
  {
    DefaultSizesMap();
    SpreadDisjoint([], DefaultSizes);
    assert [] + DefaultSizes == DefaultSizes;
    SpreadMap(DefaultSizes, themeValues);
    SpreadKeys(DefaultSizes, themeValues);
  }

  /** With the theme's `{}` fallback the merged presets are exactly the defaults, in order. */
  lemma MergeEmptyTheme()
    ensures MergeSizes([]) == [("sm", Str("300px")), ("md", Str("500px")), ("lg", Str("800px"))]
  {
    DefaultSizesMap();
    SpreadDisjoint([], DefaultSizes);
    assert [] + DefaultSizes == DefaultSizes;
  }

  // ---------------------------------------------------------------- validation

  /** Every value is a string. */
  ghost predicate AllStrings(sizes: Entries<ThemeValue>) {
    forall i :: 0 <= i < |sizes| ==> sizes[i].1.Str?
  }

  /** Entry i is the first whose value is not a string. */
  ghost predicate FirstNonString(sizes: Entries<ThemeValue>, i: int) {
    0 <= i < |sizes| && sizes[i].1.NonString? && forall j :: 0 <= j < i ==> sizes[j].1.Str?
  }

  /** The message thrown for a preset whose value is not a string. */
  function NotAStringMessage(key: string): string {
    "Invalid size hint value for \"" + key + "\": must be a string"
  }

  /** Different keys give different messages, so a message identifies the preset it names. */
  lemma NotAStringMessageInjective(k1: string, k2: string)
    requires k1 != k2
    ensures NotAStringMessage(k1) != NotAStringMessage(k2)
  {
    var p := "Invalid size hint value for \"";
    if |k1| == |k2| {
      assert NotAStringMessage(k1)[|p|..|p| + |k1|] == k1;
      assert NotAStringMessage(k2)[|p|..|p| + |k2|] == k2;
    }
  }

  /**
   * `validateSizes`: the entries are checked in order and the first one whose
   * value is not a string throws, naming its key; otherwise the presets are
   * returned unchanged.
   */
  function ValidateSizes(sizes: Entries<ThemeValue>): (r: Result<Entries<ThemeValue>>)
    ensures r.Ok? <==> AllStrings(sizes)
    ensures r.Ok? ==> r.value == sizes
    ensures r.Err? ==> exists i :: FirstNonString(sizes, i) && r.error == NotAStringMessage(sizes[i].0)
  {
    if sizes == [] then Ok(sizes)
    else if sizes[0].1.NonString? then Err(NotAStringMessage(sizes[0].0))
    else match ValidateSizes(sizes[1..])
      case Ok(_) => Ok(sizes)
      case Err(e) => Err(e)
  }

  // ---------------------------------------------------------------- utilities

  /** `.size-hint-${key}` */
  function SizeHintSelector(key: string): string {
    ".size-hint-" + key
  }

  /** The three `content-visibility` utilities, whatever the presets. */
  const FixedRules: Entries<Declaration> := [
    (".content-auto", Declaration("content-visibility", "auto")),
    (".content-hidden", Declaration("content-visibility", "hidden")),
    (".content-visible", Declaration("content-visibility", "visible"))
  ]

  /** One size-hint utility per preset entry, in entry order. */
  function SizeHintEntries(sizes: Entries<ThemeValue>): Entries<Declaration>
    requires AllStrings(sizes)
  {
    seq(|sizes|, i requires 0 <= i < |sizes| => (SizeHintSelector(sizes[i].0), ContainIntrinsicSize(sizes[i].1.s)))
  }

  /**
   * The `reduce` over the entries of the presets: starting from `{}`, each
   * step is `{...acc, [selector]: declaration}`, which assigns one property.
   */
  function SizeHintRules(sizes: Entries<ThemeValue>): Entries<Declaration>
    requires AllStrings(sizes)
  {
    Spread([], SizeHintEntries(sizes))
  }

  /** The object given to `addUtilities`: the fixed utilities, then the spread size hints. */
  function Utilities(sizes: Entries<ThemeValue>): Entries<Declaration>
    requires AllStrings(sizes)
  {
    Spread(FixedRules, SizeHintRules(sizes))
  }

  /** Distinct preset keys give distinct size-hint selectors, none of them a fixed one. */
  lemma {:induction false} RulesDistinct(sizes: Entries<ThemeValue>)
    requires AllStrings(sizes) && DistinctKeys(sizes)
    ensures DistinctKeys(SizeHintEntries(sizes))
    ensures DistinctKeys(FixedRules + SizeHintEntries(sizes))
  {
    var e := SizeHintEntries(sizes);
    forall i, j | 0 <= i < j < |e| ensures e[i].0 != e[j].0 {
      SelectorInjective(sizes[i].0, sizes[j].0);
    }
    var all := FixedRules + e;
    forall i, j | 0 <= i < j < |all| ensures all[i].0 != all[j].0 {
      if j >= 3 {
        assert all[j] == e[j - 3];
        if i >= 3 {
          assert all[i] == e[i - 3];
        } else {
          FixedNotSizeHint(i, sizes[j - 3].0);
        }
      }
    }
  }

  /** Different keys give different selectors. */
  lemma SelectorInjective(k1: string, k2: string)
    requires k1 != k2
    ensures SizeHintSelector(k1) != SizeHintSelector(k2)
  {
    var p := ".size-hint-";
    assert SizeHintSelector(k1)[|p|..] == k1;
    assert SizeHintSelector(k2)[|p|..] == k2;
  }

  /**
   * The utilities for distinct presets: exactly the three fixed ones, then one
   * size-hint rule per preset in preset order, so 3 + |sizes| rules in all.
   */
  lemma {:induction false} UtilitiesLayout(sizes: Entries<ThemeValue>)
    requires AllStrings(sizes) && DistinctKeys(sizes)
    ensures Utilities(sizes) == FixedRules + SizeHintEntries(sizes)
    ensures |Utilities(sizes)| == 3 + |sizes|
    ensures Utilities(sizes)[..3] == FixedRules
    ensures DistinctKeys(Utilities(sizes))
    ensures forall i :: 0 <= i < |sizes| ==>
      Utilities(sizes)[3 + i] == (SizeHintSelector(sizes[i].0), ContainIntrinsicSize(sizes[i].1.s))
  {
    var e := SizeHintEntries(sizes);
    RulesDistinct(sizes);
    assert [] + e == e;
    SpreadDisjoint([], e);
    SpreadDisjoint(FixedRules, e);
    assert (FixedRules + e)[..3] == FixedRules;
  }

  /**
   * There is a `.size-hint-k` utility exactly for the preset keys k: none for
   * any other key.
   */
  lemma UtilitiesSelectors(sizes: Entries<ThemeValue>)
    requires AllStrings(sizes) && DistinctKeys(sizes)
    ensures forall k :: SizeHintSelector(k) in KeySet(Utilities(sizes)) <==> k in KeySet(sizes)
  {
    forall k ensures SizeHintSelector(k) in KeySet(Utilities(sizes)) <==> k in KeySet(sizes) {
      SelectorPresent(sizes, k);
    }
  }

  /** One key at a time: `.size-hint-k` is among the selectors exactly when k is a preset key. */
  lemma SelectorPresent(sizes: Entries<ThemeValue>, k: string)
    requires AllStrings(sizes) && DistinctKeys(sizes)
    ensures SizeHintSelector(k) in KeySet(Utilities(sizes)) <==> k in KeySet(sizes)
  {
    UtilitiesLayout(sizes);
    var u := Utilities(sizes);
    if k in KeySet(sizes) {
      var i :| 0 <= i < |sizes| && sizes[i].0 == k;
      assert u[3 + i].0 == SizeHintSelector(k);
    }
    forall i | 0 <= i < 3 ensures u[i].0 != SizeHintSelector(k) {
      FixedNotSizeHint(i, k);
    }
    if SizeHintSelector(k) in KeySet(u) {
      var j :| 0 <= j < |u| && u[j].0 == SizeHintSelector(k);
      if j >= 3 {
        if sizes[j - 3].0 != k {
          SelectorInjective(sizes[j - 3].0, k);
        }
      }
    }
  }

  /** No fixed selector has the size-hint form. */
  lemma FixedNotSizeHint(i: nat, k: string)
    requires i < 3
    ensures FixedRules[i].0 != SizeHintSelector(k)
  {
    assert FixedRules[i].0[1] == 'c' && SizeHintSelector(k)[1] == 's';
  }

  // ---------------------------------------------------------------- the whole pass

  /** Merge the theme values over the defaults, validate, and build the static utilities. */
  function ContentUtilities(themeValues: Entries<ThemeValue>): Result<Entries<Declaration>> {
    match ValidateSizes(MergeSizes(themeValues))
    case Err(e) => Err(e)
    case Ok(sizes) => Ok(Utilities(sizes))
  }

  /** For distinct keys, all entries are strings exactly when all values of the map view are. */
  lemma AllStringsMap(m: Entries<ThemeValue>)
    requires DistinctKeys(m)
    ensures AllStrings(m) <==> forall k :: k in ToMap(m) ==> ToMap(m)[k].Str?
  {
    ToMapKeys(m);
    forall i | 0 <= i < |m| ensures m[i].0 in ToMap(m) && ToMap(m)[m[i].0] == m[i].1 {
      ToMapAt(m, i);
    }
  }

  /**
   * The pass succeeds exactly when the theme leaves no preset with a value
   * that is not a string: the defaults are all strings, so only the theme
   * can make validation fail.
   */
  lemma ContentUtilitiesSucceeds(themeValues: Entries<ThemeValue>)
    ensures ContentUtilities(themeValues).Ok? <==>
      forall k :: k in ToMap(themeValues) ==> ToMap(themeValues)[k].Str?
  {
    var merged := MergeSizes(themeValues);
    MergeSizesSpec(themeValues);
    DefaultSizesMap();
    AllStringsMap(merged);
  }

  /** A failure names the key of the first non-string preset in merge order, and the theme gives that key a non-string value. */
  lemma ContentUtilitiesFailure(themeValues: Entries<ThemeValue>)
    requires ContentUtilities(themeValues).Err?
    ensures exists k ::
      && k in ToMap(themeValues) && ToMap(themeValues)[k] == NonString
      && ContentUtilities(themeValues).error == NotAStringMessage(k)
    ensures exists i ::
      && FirstNonString(MergeSizes(themeValues), i)
      && var k := MergeSizes(themeValues)[i].0;
      && k in ToMap(themeValues) && ToMap(themeValues)[k] == NonString
      && ContentUtilities(themeValues).error == NotAStringMessage(k)
  {
    var merged := MergeSizes(themeValues);
    MergeSizesSpec(themeValues);
    DefaultSizesMap();
    var i :| FirstNonString(merged, i) && ValidateSizes(merged).error == NotAStringMessage(merged[i].0);
    var k := merged[i].0;
    ToMapAt(merged, i);
    assert k in ToMap(themeValues);
  }

  /** On success the utilities are the fixed three, then one rule per merged preset, in merge order. */
  lemma ContentUtilitiesSuccess(themeValues: Entries<ThemeValue>)
    requires ContentUtilities(themeValues).Ok?
    ensures AllStrings(MergeSizes(themeValues))
    ensures ContentUtilities(themeValues).value == FixedRules + SizeHintEntries(MergeSizes(themeValues))
  {
    MergeSizesSpec(themeValues);
    UtilitiesLayout(MergeSizes(themeValues));
  }

  /** The defaults pass validation unchanged. */
  lemma DefaultSizesValid()
    ensures AllStrings(DefaultSizes) && ValidateSizes(DefaultSizes) == Ok(DefaultSizes)
  {
  }

  /** The utilities built from the defaults alone. */
  lemma DefaultUtilities()
    ensures AllStrings(DefaultSizes)
    ensures Utilities(DefaultSizes) == [
      (".content-auto", Declaration("content-visibility", "auto")),
      (".content-hidden", Declaration("content-visibility", "hidden")),
      (".content-visible", Declaration("content-visibility", "visible")),
      (".size-hint-sm", Declaration("contain-intrinsic-size", "0 300px")),
      (".size-hint-md", Declaration("contain-intrinsic-size", "0 500px")),
      (".size-hint-lg", Declaration("contain-intrinsic-size", "0 800px"))
    ]
  {
    DefaultSizesMap();
    UtilitiesLayout(DefaultSizes);
    assert SizeHintEntries(DefaultSizes) == [
      (".size-hint-sm", Declaration("contain-intrinsic-size", "0 300px")),
      (".size-hint-md", Declaration("contain-intrinsic-size", "0 500px")),
      (".size-hint-lg", Declaration("contain-intrinsic-size", "0 800px"))
    ] by {
      assert SizeHintSelector("sm") == ".size-hint-sm";
      assert SizeHintSelector("md") == ".size-hint-md";
      assert SizeHintSelector("lg") == ".size-hint-lg";
      assert ContainIntrinsicSize("300px").value == "0 300px";
      assert ContainIntrinsicSize("500px").value == "0 500px";
      assert ContainIntrinsicSize("800px").value == "0 800px";
    }
  }

  /** With no `sizeHint` in the theme the plugin emits exactly six utilities. */
  lemma ContentUtilitiesDefault()
    ensures ContentUtilities([]) == Ok([
      (".content-auto", Declaration("content-visibility", "auto")),
      (".content-hidden", Declaration("content-visibility", "hidden")),
      (".content-visible", Declaration("content-visibility", "visible")),
      (".size-hint-sm", Declaration("contain-intrinsic-size", "0 300px")),
      (".size-hint-md", Declaration("contain-intrinsic-size", "0 500px")),
      (".size-hint-lg", Declaration("contain-intrinsic-size", "0 800px"))
    ])
  {
    MergeEmptyTheme();
    DefaultSizesValid();
    DefaultUtilities();
  }
}
