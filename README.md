# pyncer-i18n in Dafny

A model of the core of the PHP library pyncer-i18n, with proofs about it. It covers three parts.

- **The locale registry.** `I18n::addLocale`, `initializeLocale`, `hasLocale`, `getLocale` and `getDefaultLocale`. A code is validated and canonicalised (`en-ca` becomes the class name `en_CA`). The locale is stored under its lower-case, hyphenated key, and a message sourcer is added once per key. The code goes on an ordered, duplicate-free default list with move-to-end semantics. A regional locale also registers its short code (`en-CA` → `en`).
- **The message engine of `I18n::get`.** The lookup result is pluralised. Argument names are sorted in descending order. Each `{name}` is replaced by its argument. Each `{name:method}` directive is then scanned left to right, with the code's two-character escape test, and replaced by the argument as transformed by the locale.
- **The per-language rules.** `pluralize`, the `transform` dispatch, the `decimals` guards and the unit-message fallback come from `AbstractLocale`. `formatList`, `getCardinalRule` and `getRangeRule` are modelled for en, fr, ru and ja, plus the English possessive.

Layout, one module per file:

- `wrappers.dfy`: Option, Result and the errors the code throws.
- `phpstrings.dfy`: the PHP string built-ins used, with PHP semantics.
- `rules.dfy`: `Rule`, numbers and list styles.
- `lists.dfy`: the `foreach` that builds a list text.
- `abstractlocale.dfy`: `AbstractLocale`.
- `en.dfy`, `fr.dfy`, `ru.dfy`, `ja.dfy`: one file per language.
- `locales.dfy`: the table of locale classes and per-language dispatch.
- `template.dfy`: the placeholder engine.
- `keyorder.dfy`: `rsort` of argument names.
- `registry.dfy`: the `I18n` class.

## How the model departs from the code

`I18n::get` cannot run as written, and a few other lines fail when PHP runs them. The model departs from the code in these places:

- **What is spliced.** Lines 208-212 transform and splice the whole message into itself. The model splices `transform(argument, method)` over the directive, which is what the comment at src/I18n.php:183 describes.
- **What is returned.** Line 218 returns the undefined `$text`. The model returns the expanded message.
- **Locale codes.** The closures at lines 141-143 and 156-158 read an undefined variable. The model normalises each code with `str_replace('_', '-', strtolower(code))`, as `hasLocale` does.
- **Termination.** Spliced text is scanned again, so the loop ends only if transforms add no `{`. `Get` therefore requires brace-free argument values and a formatter that never writes `{`. Under those conditions each step removes one `{` from the text still to scan.
- **The argument array.** Line 173 calls `pyncer_ensure_array`, which src/I18n.php never imports. The only import of that name is at src/AbstractLocale.php:26, and it is spelled `Pycner\Array\ensure_array`. The model takes the arguments as a sequence of name/value pairs.
- **The missing-locale exception.** Line 106 throws `LocaleNotFoundException` without importing it. The class is declared in `Pyncer\I18n\Exception`, so PHP looks for `Pyncer\I18n\LocaleNotFoundException` and fails on the missing class. `Registry.InitializeLocale` throws the intended exception. `Registry.InitializeLocaleAsWritten` gives the error as written (see Findings).
- **Russian unit texts.** ru's `getCardinalRule` returns a `Rule`, while en, fr and ja return its name. src/AbstractLocale.php:387 uses that result as an array key, which PHP refuses for an enum. `Locales.UnitText` keeps this behaviour, and `Locales.UnitTextByName` keys the messages by the rule's name (see Findings).
- **The Russian plural rule.** `Locales.CardinalRule` uses the corrected Russian rule (see Findings). `Ru.CardinalRule` keeps the code as written.
- **Strings.** PHP strings are byte strings; the model's strings are sequences of characters. For ASCII text the built-ins used (`strpos`, `substr`, `str_replace`, `strtolower`, `explode`) give the same results on both. Multi-byte text, such as the ja and ru separators, is counted by character in the model and by byte in PHP. This includes the `strlen($key)` and `substr` offsets at src/I18n.php:205-206 for a key that is not ASCII.

These behaviours are kept as written:

- **Escapes.** The escape test looks back only two characters.
- **Method length.** The method is cut with length `pos2 - offset - 1`, which drops its last character. `{item:possesive}` therefore asks the locale for `possesiv`, an unknown selector that returns the argument unchanged. `Template.MethodLosesLastCharacter` shows this, and `Template.IntendedMethod` states what the comment means. The engine keeps the written arithmetic.
- **Scan offset.** `++pos` is kept. A directive that ends the text and transforms to the empty string leaves the offset past the end, and `strpos` then throws. `Template.DirectiveReplaced` states this case.

Calls into code that is not shown are parameters:

- The message sources are `Fetch`.
- ICU's `NumberFormatter` is `Formatter`.
- The formatted value of a unit text is the parameter `formatted` of `AbstractLocale.UnitMessage`.

## Model

| member | source | states |
|---|---|---|
| Rules.NameInjective | src/Rule.php:4-16 | distinct plural categories have distinct names |
| Rules.Name | src/Rule.php:4-16 | a category's name is its backing value: three to five lower-case letters |
| AbstractLocale.Locale.CodeShort | src/AbstractLocale.php:54-57 | the short code, or the code itself when none is set |
| AbstractLocale.Locale.LocaleCodes | src/AbstractLocale.php:93-100 | `[code]` when code and short code agree, else `[code, codeShort]` with distinct entries |
| AbstractLocale.Pluralize | src/AbstractLocale.php:102-118 | plain text unchanged; else the rule's entry, else `other`; UnexpectedValue exactly when neither exists |
| AbstractLocale.PluralizeWithOther | src/AbstractLocale.php:108-113 | a map with `other` pluralises for every rule |
| AbstractLocale.FormatDecimal | src/AbstractLocale.php:246-264 | InvalidArgument exactly for negative decimals, else the formatter with those decimals |
| AbstractLocale.FormatPercent | src/AbstractLocale.php:266-284 | InvalidArgument exactly for negative decimals, else the formatter with those decimals |
| AbstractLocale.FormatSpellout | src/AbstractLocale.php:296-313 | InvalidArgument exactly for negative decimals; no decimals means no rounding; a count of zero or more is the spellout call rounding to that many digits |
| AbstractLocale.CheckDecimals | src/AbstractLocale.php:248-252 | InvalidArgument exactly for a negative count; otherwise the count, or its absence, is passed on unchanged |
| AbstractLocale.DecimalsArg | src/AbstractLocale.php:126-127 | the default when no `:count` is given; TypeError exactly when the count is not an integer literal; otherwise the integer that literal spells |
| AbstractLocale.UnknownSelectorUnchanged | src/AbstractLocale.php:120-133 | a selector outside the six known ones returns the value unchanged |
| AbstractLocale.BaseTransform | src/AbstractLocale.php:120-133 | each known selector calls its formatter; `decimal` and `percent` take 2 and 0 digits by default, TypeError for a count that is not an integer, InvalidArgument for a negative one; any other selector returns the value unchanged |
| AbstractLocale.DecimalDefault | src/AbstractLocale.php:126 | bare `decimal` formats with 2 digits |
| AbstractLocale.PercentDefault | src/AbstractLocale.php:127 | bare `percent` formats with 0 digits |
| AbstractLocale.NegativeDecimalsRefused | src/AbstractLocale.php:248-252 | `decimal:-1` reaches the guard and is refused |
| AbstractLocale.EmptyDecimalsTypeError | src/AbstractLocale.php:127 | `percent:` is a TypeError |
| AbstractLocale.UnitMessage | src/AbstractLocale.php:386-388 | every `{0}` of the rule's message, else of `other`, is replaced by the value; with neither, the value itself; a message without `{0}` is used as it is |
| AbstractLocale.ChosenMessage | src/AbstractLocale.php:387 | the rule's message, else `other`, else `{0}` |
| AbstractLocale.UnitMessageFilled | src/AbstractLocale.php:386-388 | a message of brace-free pieces around `{0}` becomes those pieces around the value, with no `{0}` left when the value has no `{` |
| Lists.Accumulate | src/Locale/en.php:40-54 | the loop yields "" for no items, the item for one, and for more the first item, `sep` before each middle item and `lastSep` before the last |
| Lists.JoinAllIsInterleave | src/Locale/en.php:40-54 | building the list from the left equals the right-recursive join |
| Lists.ListText | src/Locale/en.php:40-54 | the items but the last joined by `sep`, then `lastSep` and the last item; two items are joined by `lastSep` alone |
| En.FormatList | src/Locale/en.php:20-55 | "" / the item / `a and b` / `a, b, and c` (comma before the conjunction) |
| En.ThreeItems | src/Locale/en.php:40-54 | an illustration: three items read `a, b, and c` |
| En.CardinalRule | src/Locale/en.php:57-70 | `none` iff flagged zero; `one` iff the integer ±1 (float 1.0 is `other`) |
| En.Possessive | src/Locale/en.php:79-85 | the value followed by `'` iff its last character lower-cased is `s`, else by `'s` |
| En.Transform | src/Locale/en.php:77-89 | `possesive` gives the value's possessive; any other method goes to the shared dispatch |
| En.PossessiveExamples | src/Locale/en.php:79-85 | illustrations: James', Dogs', John's, and `'s` for the empty string |
| Fr.FormatList | src/Locale/fr.php:21-56 | "" / the item / `a et b` / `a, b et c` (no comma before the conjunction) |
| Fr.ThreeItems | src/Locale/fr.php:41-55 | an illustration: three items read `a, b et c` |
| Fr.CardinalRule | src/Locale/fr.php:58-71 | `none` iff flagged zero; `one` iff -2 < v < 2 otherwise; else `other` |
| Ru.FormatList | src/Locale/ru.php:21-56 | the French shape with `и` / `или` |
| Ru.CardinalRule | src/Locale/ru.php:58-86 | as written: NONE for flagged zero, OTHER for floats, MANY for 11..19, ONE for a positive remainder 1, FEW for every other integer |
| Ru.CardinalRuleIntended | src/Locale/ru.php:58-86 | with the range test corrected: NONE for flagged zero, MANY exactly for 11..19, ONE exactly for a positive remainder 1 outside 11..19, FEW exactly for truncated remainders 2..4 outside 11..19, OTHER exactly for floats and the remaining integers (negatives included) |
| Ru.Examples | src/Locale/ru.php:58-86 | illustrations: 11 MANY, 21 and 111 ONE, 23, 25, 0 and -1 FEW; corrected 25 OTHER |
| Ja.FormatList | src/Locale/ja.php:20-59 | "" / the item / `aとb` / items joined by `、` with `、または` before the last OR item |
| Ja.AndListIsPlainJoin | src/Locale/ja.php:44-55 | three or more AND items are joined by `、` alone |
| Ja.CardinalRule | src/Locale/ja.php:61-68 | `none` iff flagged zero, else `other` |
| Locales.Implementation | src/I18n.php:104-111 | an existing class's code is the canonical name with `_` spelled `-`; short codes are `en` or `fr` |
| Locales.ShortCodeImplemented | src/I18n.php:82-84 | a short code has its own class, with no short code and the same language |
| Locales.TransformKeepsBraceFree | src/Locale/en.php:77-89 | with a formatter that writes no `{`, every transform of brace-free text is brace-free |
| Locales.Transform | src/Locale/en.php:77-89 | English `possesive` gives the possessive; every other language and method goes to the shared `transform` |
| Locales.UnitText | src/AbstractLocale.php:374-388 | as written: en, fr and ja pick the message by the rule's name; ru fails with a TypeError |
| Locales.UnitTextByName | src/AbstractLocale.php:386-388 | keyed by the rule's name: the rule's message, else `other`, with `{0}` replaced, else the value |
| Locales.RussianUnitText | src/Locale/ru.php:58-86 | every Russian unit text fails as written; keyed by name, endings 2 to 4 outside the teens take `few` and the teens take `many` |
| Locales.CardinalRule | src/LocaleInterface.php:35 | the rule of the locale's own language (en.php:57-70, fr.php:58-71, ru.php:58-86 with the corrected range test, ja.php:61-68); in every language `none` exactly for a flagged zero |
| Locales.RangeRule | src/Locale/fr.php:73-76 | `other` for en and ja; fr and ru fail calling the undefined `getNumberRule` |
| Locales.FormatList | src/LocaleInterface.php:38-41 | the list of the locale's own language at every length (en.php:20-55, fr.php:21-56, ru.php:21-56, ja.php:20-59): "" and the item for 0 and 1; `a <word> b` (ja `aとb`) for 2; for 3 or more the items joined by `, ` (ja `、`) with the language's last separator |
| Template.DirectiveMethod | src/I18n.php:205-206 | the method runs from after the colon to one character before the closing brace |
| Template.IntendedMethod | src/I18n.php:183 | the text between `{key:` and `}` |
| Template.MethodLosesLastCharacter | src/I18n.php:205-206 | at every directive the written method is the intended one less its last character |
| Template.MethodFound | src/I18n.php:200-206 | for `{key:m}` the method passed to the locale is `m` without its last character |
| Template.EscapedAtJoin | src/I18n.php:191-198 | a `{` after text `a` counts as escaped exactly when `a` ends in a backslash not preceded by another |
| Template.StepAt | src/I18n.php:186-214 | a pass that stops leaves the text as it is; one that continues moves the offset forward |
| Template.StepDecreases | src/I18n.php:200-214 | each continuing pass leaves fewer `{` to scan |
| Template.DirectiveStep | src/I18n.php:186-214 | an unescaped `{key:m}` at the first match is replaced by the argument transformed with the cut method, and the scan goes on one past its start |
| Template.EscapedStep | src/I18n.php:191-197 | an escaped directive stays in place and the scan moves one character on |
| Template.Expand | src/I18n.php:184-215 | a starting offset past the end fails as `strpos` does |
| Template.ExpandKeepsPrefix | src/I18n.php:186-214 | the scan never changes text before its starting offset |
| Template.ExpandAbsent | src/I18n.php:186-189 | text without `{key:` is returned unchanged |
| Template.ExpandDirectives | src/I18n.php:184-215 | the `while (true)` loop computes exactly the directive scan `Expand` |
| Template.DirectiveReplaced | src/I18n.php:184-215 | in `a{key:m}b` without other `{`, the directive becomes the transform of the argument; an empty result at the very end makes `strpos` fail |
| Template.SubstituteUntouched | src/I18n.php:176-216 | text with no `{name` for any argument name comes back unchanged |
| Template.Substitute | src/I18n.php:176-216 | no arguments, or a message without `{`, leave the message unchanged |
| Template.SubstituteStep | src/I18n.php:176-215 | one argument's pass is the `str_replace` of its placeholder, then its directive scan, then the remaining arguments |
| Template.SubstituteFails | src/I18n.php:176-215 | a directive scan that fails ends the whole loop with its error |
| Template.SubstituteAll | src/I18n.php:176-216 | the `foreach` over the sorted arguments computes exactly `Substitute` |
| Template.PlaceholderReplaced | src/I18n.php:177-181 | in `a{name}b` with brace-free `a` and `b`, the placeholder becomes the argument, a backslash before it included |
| Template.HoleReplaced | src/I18n.php:177-181 | the `str_replace` of `{name}` in `a{name}b` gives `a`, the argument, `b` |
| Template.PlaceholderCanRemain | src/I18n.php:177-181 | one `str_replace` pass does not rescan what it wrote: `{{k}k}` with the empty argument leaves `{k}` |
| Template.EscapedDirectiveKept | src/I18n.php:191-198 | `a{key:m}b` with `a` ending in a single backslash comes back unchanged |
| Template.NameMismatch | src/I18n.php:186 | the search for `{k:` or `{k}` never matches at the `{j:` or `{j}` of a different name |
| Template.Lookup | src/I18n.php:176-179 | the argument under a name, or none exactly when no argument has that name |
| Template.FillPieces | src/I18n.php:177-181 | in a message made of pieces, `str_replace` replaces exactly the placeholders of that name |
| Template.ExpandPieces | src/I18n.php:184-215 | the directive scan of a message made of pieces transforms exactly its unescaped directives of that name |
| Template.SubstitutePieces | src/I18n.php:176-216 | the whole loop turns each placeholder into its argument and each unescaped directive into the transformed argument; escaped directives and names without an argument stay as written |
| Template.LookupAgrees | src/I18n.php:173-174 | with unique names, reordering the arguments does not change which value a name finds |
| Template.ReorderedArgs | src/I18n.php:173-174 | with unique names, the order the arguments are processed in does not change the output |
| KeyOrder.Insert | src/I18n.php:174 | insertion keeps the names descending and the arguments as a multiset |
| KeyOrder.SortDescending | src/I18n.php:173-174 | `rsort`: a permutation of the arguments with names descending |
| KeyOrder.PrefixProcessedLater | src/I18n.php:174 | a name that is a proper prefix of another comes after it |
| KeyOrder.BelowTotal | src/I18n.php:174 | any two different names are ordered one way |
| KeyOrder.BelowTransitive | src/I18n.php:174 | the name order is transitive |
| Registry.NormalizeIdempotent | src/I18n.php:41 | normalising a key again changes nothing |
| Registry.NormalizeSeparator | src/I18n.php:41 | `-` and `_` spellings share a key |
| Registry.Normalize | src/I18n.php:41 | a key has the code's length, no `_` and no upper-case letter; each character is lower-cased, `_` becoming `-` |
| Registry.SameKey | src/I18n.php:41 | two codes share a key iff they have the same length and agree at every position up to case, with `-` and `_` alike |
| Registry.Canonical | src/I18n.php:97-102 | the canonical class name has the same key as the code |
| Registry.CanonicalExamples | src/I18n.php:97-102 | illustrations: `en-ca` becomes `en_CA`; `en` and `fr` are unchanged |
| Registry.InitializeLocale | src/I18n.php:89-112 | InvalidArgument iff the code is not `[a-zA-Z_-]+`; LocaleNotFound with the canonical name iff no class; a found locale has the code's key |
| Registry.InitializeLocaleAsWritten | src/I18n.php:89-112 | as written, a valid code without a class fails on the undefined class `Pyncer\I18n\LocaleNotFoundException`; otherwise as `InitializeLocale` |
| Registry.MissingClassError | src/I18n.php:104-107 | for a valid code without a class the intended error names the canonical class, and the code as written fails on the exception class |
| Registry.UpperCaseLanguageNotFound | src/I18n.php:97-107 | the first segment keeps its case: `EN` is not found |
| Registry.IndexOf | src/I18n.php:67-70 | the first index holding the code, or none iff absent |
| Registry.MoveToEnd | src/I18n.php:65-80 | the code ends the list once, other codes kept; no duplicates stay no duplicates |
| Registry.MoveTwoToEnd | src/I18n.php:65-84 | moving code then short code ends the list with both, once each |
| Registry.Register | src/I18n.php:57-58 | the locale is stored under its key |
| Registry.RegisterConsistent | src/I18n.php:57-80 | one registration keeps keys, defaults and sourcers consistent |
| Registry.ShortCodeStops | src/I18n.php:82-84 | the short code initialises and does not cascade further |
| Registry.Add | src/I18n.php:50-87 | `addLocale` fails exactly when `initializeLocale` does, with its error |
| Registry.AddCascade | src/I18n.php:82-84 | a regional code registers itself and then adds its short code, whose locale has the short code as its code |
| Registry.AddRegisters | src/I18n.php:41-58 | afterwards every case/separator spelling of the code, and its short code, is registered; earlier keys stay |
| Registry.AddConsistent | src/I18n.php:50-87 | `addLocale` keeps the registry invariant |
| Registry.AddNotDefault | src/I18n.php:65 | without `isDefault` the default list is unchanged |
| Registry.AddDefaultPlain | src/I18n.php:65-80 | a locale without short code ends the default list, once |
| Registry.AddDefaultRegional | src/I18n.php:65-84 | a regional locale ends the list with `[code, codeShort]`, each once |
| Registry.AddSourcersOnce | src/I18n.php:60-63 | re-adding registered keys adds no sourcer |
| Registry.NormalizeAll | src/I18n.php:156-158 | each lookup code is normalised in place |
| Registry.I18n.constructor | src/I18n.php:34-37 | an empty, consistent registry |
| Registry.I18n.Store | src/I18n.php:57-80 | the in-place update of one `addLocale` call is exactly `Register` of the old state |
| Registry.I18n.GetLocale | src/I18n.php:45-48 | the locale stored under the code as given, or none |
| Registry.I18n.HasLocale | src/I18n.php:39-43 | true exactly when `getLocale` of the normalised code finds a locale |
| Registry.I18n.HasLocaleAnySpelling | src/I18n.php:39-48 | `hasLocale` agrees on spellings with one key, and matches `getLocale` of that key |
| Registry.I18n.AddLocale | src/I18n.php:50-87 | the new state is `Add` of the old one; failure leaves it unchanged; consistency is kept; every spelling is then found |
| Registry.I18n.GetDefaultLocale | src/I18n.php:114-123 | UnexpectedValue iff no default codes; otherwise a locale iff the first default code is already its own key, and then the locale stored under that key |
| Registry.I18n.RegionalDefaultIsNull | src/I18n.php:114-123 | a default code with an upper-case letter is never found |
| Registry.I18n.GetDefaultLocaleByKey | src/I18n.php:114-123 | UnexpectedValue iff no default codes |
| Registry.I18n.DefaultLocaleByKeyFound | src/I18n.php:114-123 | with the key normalised, a default locale is always found, and it has that key |
| Registry.I18n.Resolve | src/I18n.php:154-171 | null exactly when no source has the key; a source without a registered locale fails; a failing plural choice is the result; without arguments the pluralised text |
| Registry.I18n.ResolveUntouched | src/I18n.php:173-216 | a message naming no argument after `{` is returned as pluralised |
| Registry.I18n.ResolvePieces | src/I18n.php:173-216 | for a message made of text, placeholders and directives, each placeholder becomes its argument and each unescaped directive its argument as the locale transforms it |
| Registry.I18n.Get | src/I18n.php:147-219 | the lookup, plural choice and per-name loop compute exactly `Resolve` |

## Left out

- ICU formatting is an uninterpreted `Formatter`. This covers `formatDate`, `formatTime`, `formatDateTime`, `formatInteger`, `formatOrdinal`, `formatDuration` and `formatCurrency`, plus the formatter bodies of `formatDecimal`, `formatPercent` and `formatSpellout`. The `intval`/`floatval` conversion of the argument and the `round` in `formatSpellout` are part of the formatter's input.
- `getResourceMessages` is left out: it reads ICU resource bundles and keeps a lazy cache. So are the static size-message tables. `UnitMessage` takes the chosen message map as input.
- The `has($key)`/`get` branch of `formatLength`, `formatMass` and `formatSize` is not modelled, because it goes through the unseen message sources.
- `LocaleSourcer`, `SourceDirector` and `SourceMap` are not part of this model. Message lookup is the abstract `Fetch`, and a sourcer is recorded only by its key.
- The forwarding methods `I18n::getCode` through `formatSize`, and `I18n::has`, are only delegation and are not modelled.
- These functions cannot run as written and are not modelled:
  - `AbstractLocale::formatList` uses undefined variables.
  - `getName` calls the undefined `name()`.
- Locales.Implementation: src/Locale/en_UK.php declares class `en_CA`, so loading `en_UK` fails in PHP. The model uses the defaults written in that file.
- Registry.I18n.Get: `rsort` with its default flags compares numeric names as numbers, and integer array keys are possible in PHP. The model orders all names as strings, byte by byte.
- AbstractLocale.DecimalsArg: PHP's coercion of a string to an `int` parameter is modelled only for the spelling `-?[0-9]+`. Leading whitespace, `+` and numeric strings with a fraction are refused.
- Template.ExpandDirectives: the loop is modelled only for argument values without `{` and formatters that write none. Otherwise it may not terminate.
- Exceptions are `Err` values naming their kind, and a call on `null` is `NullLocale`. Exception messages are not modelled.
- Fr.CardinalRule: floats are modelled as reals, so INF, NAN and floats outside the 64-bit integer range are not covered. For those, `intval` gives 0 or an unspecified integer; `getCardinalRule(INF)` is `one` in PHP and has no counterpart in the model. PHP's `abs(PHP_INT_MIN)` is a float. Integers are unbounded in the model.
- Registry.UpperCaseLanguageNotFound: the class lookup is `file_exists` on `Locale/<name>.php`, which the model treats as case-sensitive. On a case-insensitive file system `EN` would find `en.php`.
- Template.SubstitutePieces: the closed form of the output is stated for messages made of pieces whose names contain no `{`, `}` or `:`, whose text runs contain no `{` and do not end in a backslash, and whose directive results are non-empty and do not end in a backslash. Other messages are covered step by step by `Template.DirectiveStep` and `Template.EscapedStep`, not by a closed form.
- Registry.I18n.ResolvePieces: the same side conditions on the message as `Template.SubstitutePieces`.
- Registry.I18n.ResolvePieces: argument names are assumed unique, as PHP array keys are.

## Findings

| source | as written | input that shows it | evidently intended | confidence | as-written member | corrected member |
|---|---|---|---|---|---|---|
| src/Locale/ru.php:81 | the disjunction of `$ending >= 2` and `$ending <= 4` holds for every integer | `getCardinalRule(25)` gives FEW; OTHER is unreachable for integers | `$ending >= 2 && $ending <= 4` | high, not executed | Ru.CardinalRule | Ru.CardinalRuleIntended |
| src/I18n.php:122 | the first default code (`en-CA`) is used as the key, but keys are stored lower-case (`en-ca`) | `addLocale('en-CA', true)` then `getDefaultLocale()` gives null | look up the normalised code | high, not executed | Registry.I18n.RegionalDefaultIsNull | Registry.I18n.DefaultLocaleByKeyFound |
| src/I18n.php:106 | `LocaleNotFoundException` is thrown without a `use`, so it names `Pyncer\I18n\LocaleNotFoundException`, which does not exist | `initializeLocale('de')` fails on the missing class instead of throwing the locale exception | import `Pyncer\I18n\Exception\LocaleNotFoundException` | high, not executed | Registry.MissingClassError | Registry.InitializeLocale |
| src/AbstractLocale.php:387 | ru's `getCardinalRule` returns a `Rule` enum, which cannot be an array key | `formatLength(5, 0, $unit)` on a ru locale without a message source fails with a TypeError | key the messages by the rule's name, as for en, fr and ja | medium, not executed | Locales.UnitText | Locales.UnitTextByName |
