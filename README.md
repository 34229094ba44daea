# tailwindcss-visibility, modelled in Dafny

This project models the core of the Tailwind CSS plugin `index.js`. The plugin does three things:

- It checks an arbitrary `size-hint-[…]` value against the pattern
  `^-?\d*\.?\d+(px|rem|em|vh|vw)$`. An accepted value becomes the declaration
  `contain-intrinsic-size: 0 <value>`. A rejected value throws `Invalid size hint value`.
- It merges the theme's `sizeHint` presets over the defaults `sm → 300px`, `md → 500px`
  and `lg → 800px`. Then it checks that every merged value is a string, failing on the first
  key whose value is not.
- It builds the static utilities. These are three fixed `content-visibility` rules
  (`.content-auto`, `.content-hidden`, `.content-visible`), then one `.size-hint-<key>`
  rule per merged preset.

The code is pure, so the model is all datatypes, functions and lemmas, in four modules:

- `Results` (results.dfy): the `Result` type. It stands for "returns a value or throws an
  Error with this message".
- `OrderedObjects` (objects.dfy): a JavaScript object as its entries in enumeration order.
  `Put` is property assignment: an existing key keeps its place, a new key goes last.
  `Spread` is `{...a, ...b}`. `ToMap` is the key-to-value view. The lemmas prove three things
  about spreading: the map view is Dafny's right-biased map union, keys stay distinct, and the
  keys of the left operand keep their order.
- `SizeHintLength` (length.dfy): the regular expression written as a chain of ghost
  predicates, one per atom (`-?`, `\d*`, `\.?`, `\d+`, the unit group, with `^`/`$` anchoring
  the whole string). Beside it is a greedy left-to-right scanner, `IsSizeHintLength`.
  `ScannerMatchesPattern` proves that the scanner accepts exactly the strings the pattern
  matches.
- `ContentVisibility` (plugin.dfy): the `size-hint` callback, the defaults and the merge,
  `validateSizes`, the rule construction, and the whole pass `ContentUtilities`.

The regular expression rejects trailing-dot forms such as `5.px`, because `\d+` must follow
the optional dot. Leading-dot forms such as `.5px` and `-.5vh` are accepted. A reading of the
pattern as "any decimal number" would also accept `5.px`; the regex does not, and the model
follows the regex: `SizeHintRejectsDots` proves that `5.px` is rejected. Without the `m`
flag, `$` matches only at the very end of the input, so `5px\n` is rejected too.

The model has no hidden state: each operation is a function of its inputs. So calling the
merge or the whole pass twice on the same input gives equal results by construction.

## Model

| member | source | states |
|---|---|---|
| `ContentVisibility.SizeHintDeclaration` | index.js:18-26 | The callback succeeds exactly when the whole raw string matches the pattern. On success it returns the single declaration `contain-intrinsic-size` with value `"0 "` followed by the raw string unchanged. Otherwise it fails with exactly `Invalid size hint value`. |
| `ContentVisibility.ContainIntrinsicSize` | index.js:23-25 | The one-property block that sets `contain-intrinsic-size` to `0 ` followed by the length; index.js:66-68 builds the same block. `SizeHintDeclaration`, `UtilitiesLayout` and `DefaultUtilities` state where it appears and with which value. |
| `SizeHintLength.ScannerMatchesPattern` | index.js:20 | The hand-written scanner accepts a string if and only if the full pattern matches all of it: optional minus, `\d*`, optional dot, `\d+`, then exactly one of px, rem, em, vh, vw and nothing after it. |
| `SizeHintLength.MatchesSizeHintPattern` | index.js:20 | The pattern `^-?\d*\.?\d+`, then one of px, rem, em, vh, vw, then `$`, written atom by atom: the whole string splits into an optional minus, a digit run, an optional dot, a non-empty digit run and one unit. `ScannerComplete` and `ScannerSound` tie it to the scanner. |
| `SizeHintLength.IsSizeHintLength` | index.js:20 | The executable test the callback uses. Its meaning comes from `ScannerMatchesPattern`: it is true exactly when `MatchesSizeHintPattern` holds. |
| `SizeHintLength.ScannerSound` | index.js:20 | Every string the scanner accepts matches the pattern; the lemma builds the split points of the match. |
| `SizeHintLength.ScannerComplete` | index.js:20 | Every string the pattern matches is accepted by the scanner. In every match the sign, the dot and the start of the unit are fixed, because units start with a letter. Without a dot the two digit runs can split differently, but together they cover the same characters, so the scanner's greedy run finds them. |
| `SizeHintLength.ScanSplit` | index.js:20 | If a string splits into optional minus, digits, optional dot, at least one digit, and a unit, the scanner accepts it. |
| `SizeHintLength.SplitSign` | index.js:20 | In any match, `-?` consumes a minus exactly when the string starts with one. |
| `SizeHintLength.SignLength` | index.js:20 | The length of the `-?` the scanner skips: one when the string starts with a minus, zero otherwise. `SplitSign` shows that every match's `-?` has this length. |
| `SizeHintLength.SkipDigits` | index.js:20 | Returns the end of the longest run of `\d` characters from a position: everything before it is a digit, and the character at it is not. |
| `SizeHintLength.SkipDigitsExact` | index.js:20 | A digit run that stops at a non-digit or at the end is the run `SkipDigits` finds. |
| `SizeHintLength.UnitStart` | index.js:20 | Each unit alternative is non-empty and starts with a character that is not a digit, a dot or a minus. |
| `ContentVisibility.SizeHintAcceptsWholeNumbers` | index.js:20-25 | `500px` and `2em` are accepted and yield `0 500px` and `0 2em`. |
| `ContentVisibility.SizeHintAcceptsFractions` | index.js:20-25 | `-1.5rem` and the leading-dot `.5vh` are accepted and yield `0 -1.5rem` and `0 .5vh`. |
| `ContentVisibility.SizeHintAcceptsSignedFraction` | index.js:20-25 | `-.5vw` is accepted and yields `0 -.5vw`. |
| `ContentVisibility.SizeHintRejectsMalformed` | index.js:20-22 | `10%`, `12`, `abc` and `-px` are rejected with `Invalid size hint value`. |
| `ContentVisibility.SizeHintRejectsDots` | index.js:20-22 | The trailing-dot `5.px` and the two-dot `1.2.3px` are rejected. |
| `ContentVisibility.SizeHintRejectsTrailing` | index.js:20-22 | `5px\n`, `5pxpx` and the empty string are rejected. |
| `ContentVisibility.DefaultSizesMap` | index.js:39-43 | The defaults have distinct keys and map `sm`, `md` and `lg` to `300px`, `500px` and `800px`. |
| `ContentVisibility.MergeSizes` | index.js:47-50 | The object `{...defaultSizes, ...themeValues}`. `MergeSizesSpec` gives it its meaning: distinct keys, defaults first, and the theme's values win. |
| `ContentVisibility.MergeSizesSpec` | index.js:39-50 | The merged presets have distinct keys, and `sm`, `md`, `lg` come first in that order. Their map view is defaults ∪ theme with the theme winning: every key of either side is present, a theme key has the theme's value, and any other default keeps its default. |
| `ContentVisibility.MergeEmptyTheme` | index.js:39-50 | With the `{}` fallback for the theme, the merged presets are exactly `sm → 300px`, `md → 500px`, `lg → 800px`, in that order. |
| `ContentVisibility.ValidateSizes` | index.js:30-37 | Succeeds exactly when every value is a string, and then returns its input unchanged. Otherwise it fails, returning nothing, with the message `Invalid size hint value for "<key>": must be a string` for the first entry whose value is not a string. |
| `ContentVisibility.NotAStringMessage` | index.js:33 | The message `Invalid size hint value for "<key>": must be a string`. `ValidateSizes` and `ContentUtilitiesFailure` state which key it names. |
| `ContentVisibility.NotAStringMessageInjective` | index.js:33 | Different keys give different messages, so the message identifies the key it names. |
| `ContentVisibility.DefaultSizesValid` | index.js:30-43 | The defaults pass validation unchanged. |
| `ContentVisibility.ContentUtilities` | index.js:46-72 | The whole pass from the theme's entries to the `addUtilities` object, or to the validation error. `ContentUtilitiesSucceeds`, `ContentUtilitiesFailure`, `ContentUtilitiesSuccess` and `ContentUtilitiesDefault` give it its meaning. |
| `ContentVisibility.ContentUtilitiesSucceeds` | index.js:30-50 | The pass succeeds exactly when every value in the theme's map view is a string. The defaults are all strings, so they can never cause the failure. |
| `ContentVisibility.ContentUtilitiesFailure` | index.js:30-50 | A failure's message names the key of the first non-string entry in merge order, and the theme's map view gives that same key a non-string value. |
| `ContentVisibility.ContentUtilitiesSuccess` | index.js:46-72 | On success, every merged value is a string. The utilities are then the three fixed rules followed by one size-hint rule per merged preset, in merge order. |
| `ContentVisibility.SizeHintRules` | index.js:63-71 | The object built by the `reduce`. `UtilitiesLayout` shows that for distinct preset keys it has one rule `.size-hint-<key>` per preset, in order. |
| `ContentVisibility.SizeHintEntries` | index.js:63-68 | The `[key, value]` to `[.size-hint-key]: {...}` mapping, applied to each preset in order. `UtilitiesLayout` shows that spreading these entries is what the `reduce` builds. |
| `ContentVisibility.Utilities` | index.js:53-72 | The object handed to `addUtilities`. `UtilitiesLayout` and `UtilitiesSelectors` state its layout and exactly which selectors it has. |
| `ContentVisibility.UtilitiesLayout` | index.js:53-72 | For distinct preset keys, the utility object is the three fixed rules then one rule `.size-hint-<key>` → `contain-intrinsic-size: 0 <value>` per preset, in order. So there are 3 + (number of presets) rules, the first three are those fixed rules whatever the presets, and no selector appears twice. |
| `ContentVisibility.UtilitiesSelectors` | index.js:63-71 | A selector `.size-hint-k` appears among the utilities exactly when `k` is a preset key: no size-hint rule exists for any other key. |
| `ContentVisibility.SelectorPresent` | index.js:63-71 | The same as `UtilitiesSelectors`, for one key at a time. |
| `ContentVisibility.RulesDistinct` | index.js:54-71 | Distinct preset keys give distinct size-hint selectors, and none of them equals a fixed selector. |
| `ContentVisibility.SelectorInjective` | index.js:66 | Different keys give different `.size-hint-` selectors. |
| `ContentVisibility.SizeHintSelector` | index.js:66 | The selector `.size-hint-${key}`. `SelectorInjective` and `FixedNotSizeHint` show that it is distinct per key and never equals a fixed selector. |
| `ContentVisibility.FixedNotSizeHint` | index.js:54-66 | No fixed `.content-*` selector has the form `.size-hint-<key>`. |
| `ContentVisibility.DefaultUtilities` | index.js:39-72 | The utilities built from the defaults are exactly the three `content-visibility` rules, then `.size-hint-sm/md/lg` with `0 300px`, `0 500px` and `0 800px`. |
| `ContentVisibility.ContentUtilitiesDefault` | index.js:39-72 | With an empty theme the whole pass succeeds with exactly those six rules. |
| `ContentVisibility.AllStringsMap` | index.js:31-33 | For distinct keys, every entry is a string exactly when every value of the map view is a string. |
| `OrderedObjects.SpreadMap` | index.js:47-50 | Object spread keeps keys distinct. Its map view is the right-biased union of the two operands, so the later object's values win. |
| `OrderedObjects.SpreadKeys` | index.js:47-50 | Object spread keeps the left operand's keys first, in their order. Its key set is the union of both operands' keys. |
| `OrderedObjects.SpreadDisjoint` | index.js:53-72 | Spreading entries whose keys are all new appends them in order, as happens when the size-hint rules are spread after the fixed ones. |
| `OrderedObjects.Spread` | index.js:47-50 | Object spread `{...acc, ...src}`, one property assignment per source entry in order. `SpreadMap`, `SpreadKeys` and `SpreadDisjoint` give it its meaning. |
| `OrderedObjects.PutNew` | index.js:64-69 | Assigning a key not yet present appends it as the last entry. This is one step of the `reduce`. |
| `OrderedObjects.PutKeys` | index.js:64-69 | Assignment keeps the keys already present in their positions and adds the assigned key. |
| `OrderedObjects.PutDistinct` | index.js:64-69 | Assignment keeps keys distinct. |
| `OrderedObjects.PutToMap` | index.js:64-69 | Assignment updates the map view at the assigned key and nowhere else. |
| `OrderedObjects.Put` | index.js:64-69 | Property assignment: an existing key keeps its position and takes the new value, a new key is appended. `PutNew`, `PutKeys`, `PutDistinct` and `PutToMap` give it its meaning. |
| `OrderedObjects.ToMapAt` | index.js:31 | For distinct keys, the map view gives each entry its own value. |
| `OrderedObjects.ToMapKeys` | index.js:31 | The map view has exactly the object's keys. |
| `OrderedObjects.DistinctCons` | index.js:31 | Keys are distinct exactly when the first key is not among the rest and the rest are distinct. |
| `OrderedObjects.KeySetCons` | index.js:31 | The keys of a non-empty object are its first key plus the keys of the rest. |
| `OrderedObjects.ToMap` | index.js:31 | The key-to-value view of an object, with later entries winning. `ToMapKeys` and `ToMapAt` give it its meaning. |

## Left out

- Plugin registration (index.js:1, 15, 17, 46, 53, 75): `plugin`, `matchUtilities`, `addUtilities`, `theme`, and the import and export are calls into the host framework. The theme's `sizeHint` value is a parameter of `ContentUtilities` (its `{}` fallback is the empty entry list). The object handed to `addUtilities` is its result. The callback given to `matchUtilities` is `SizeHintDeclaration`.
- The JavaScript regular-expression engine: the pattern is a declarative predicate plus a verified scanner. Backtracking is not modelled.
- Dynamic typing: a theme value is either a string or "not a string" (`ThemeValue`). What a non-string value actually is does not matter to the code.
- JavaScript's enumeration order for integer-like keys (these come before the other keys): the model enumerates keys in insertion order.
- What `content-visibility` and `contain-intrinsic-size` mean in CSS: the plugin only emits these strings.
- Declaration blocks are modelled as a single `Declaration`, because every block the plugin emits has exactly one property.
- `ContentVisibility.Utilities`: it requires every preset value to be a string (`AllStrings`). That is what validation has established whenever the code reaches it. What a template literal would make of a non-string is not modelled.
- `ContentVisibility.SizeHintDeclaration`: the framework passes the raw value as a string. The string conversion `RegExp.prototype.test` would apply to a non-string is not modelled.
