# Localizable, modelled in Dafny

A model of the `Localizable` class of the Localize library for iOS. Given a
key, it returns the string for the user's language from a per-language JSON
catalog named `<fileName>-<language>.json`. If that file is missing it falls
back to the default language's catalog. On any miss it returns the key itself.
Three substitution strategies can be applied to the resolved string: one value
for every `%`, a list of values for successive `%`, and a dictionary of `:name`
tokens.

The model has five modules:

- `Wrappers` (`wrappers.dfy`): the `Option` type.
- `Text` (`text.dfy`): the Foundation string operations the class relies on.
  These are `components(separatedBy:)`, `joined(separator:)` and
  `replacingOccurrences(of:with:)`. Their properties are proved here.
- `Catalogs` (`catalogs.dfy`): a parsed catalog as a tree
  `Str | Dict | Other`. This module holds the exact lookup, the dotted path walk
  (a loop, proved against `Walk`) and the fall-back to the key.
- `Substitution` (`substitution.dfy`): the three rewriting strategies.
  - The positional loop is kept exactly as written and proved against a closed
    form, `Spliced`.
  - The dictionary loop is proved against the fold `Named`.
- `Localization` (`localizable.dfy`): the class `Localizable`. Its fields are:
  - `json`, the single-slot cache;
  - `fileName` and `defaultLanguage`;
  - `stored`, the `UserDefaults` preference;
  - `notifications`, a counter of posted `LanguageChangeNotification`s;
  - three constants standing for the platform: `languages` (the raw values of
    the `Languages` enum, in order), `bundle` (resource name to parsed
    catalog) and `device` (`Locale.preferredLanguages`).

The platform services are modelled as follows:

- The bundle and the JSON parser become the map `bundle`. A name is a key when
  the resource file exists. Its value is `None` when the file cannot be read,
  is not JSON, or its top level is not a dictionary.
- `UserDefaults` becomes the field `stored`.
- `Notification` posts become increments of `notifications`.
- The device language list is a constant that must not be empty, because the
  source indexes `[0]`.
- The Swift dictionary given to `localize(key:dictionary:)` becomes a sequence
  of pairs in the dictionary's iteration order.

In these places the code does less than a natural reading of the API suggests.
The model follows the code:

- Changing `fileName` or `defaultLanguage` does not invalidate the cache
  (`SetFileName` and `SetDefaultLanguage` keep `json`).
- The dictionary overload rewrites even a key that missed. It applies the pairs
  in iteration order, with no longest-name-first rule.
- The positional overload leaves a trailing space and can drop values (see
  Findings).
- This source has no flat/tree provider switch; every catalog is read as JSON.

## Model

| member | source | states |
|---|---|---|
| `Text.Split` | Source/Localizable.swift:109 | `components(separatedBy:)` always yields at least one piece, and no piece contains the separator |
| `Text.JoinSplit` | Source/Localizable.swift:178 | joining the pieces back with the separator gives the original string |
| `Text.ReplaceCharIsJoin` | Source/Localizable.swift:164 | replacing every occurrence of one character equals splitting on it and joining with the replacement |
| `Text.ReplaceCharRemoves` | Source/Localizable.swift:164 | after replacing a character by text that lacks it, the character no longer occurs |
| `Text.ReplaceAbsent` | Source/Localizable.swift:202 | replacing a pattern that does not occur leaves the string unchanged |
| `Text.SplitHead` | Source/Localizable.swift:217 | the first piece is the prefix up to the first separator, or the whole string |
| `Catalogs.Walk` | Source/Localizable.swift:108-119 | a walk yields a string exactly when the descent ends on a string leaf; ending on a sub-dictionary or non-string, or failing to descend, gives nil |
| `Catalogs.DescendAppend` | Source/Localizable.swift:111-117 | descending along `p + q` is descending along `p`, then along `q` from the node reached |
| `Catalogs.WalkStopsAt` | Source/Localizable.swift:111-116 | the walk fails as soon as a segment is absent or the current node is not a dictionary, whatever follows |
| `Catalogs.LocalizeLevel` | Source/Localizable.swift:108-119 | the loop over the `.`-separated segments returns exactly the specified walk |
| `Catalogs.LocalizeFile` | Source/Localizable.swift:93-103 | an exact top-level key decides alone: its value if that is a string, else nil, with no path walk; only an absent key is walked as a dotted path |
| `Catalogs.FlatKey` | Source/Localizable.swift:93-103 | a key without `.` is resolved by the top-level lookup alone |
| `Catalogs.Resolve` | Source/Localizable.swift:141-151 | with no catalog, or a key that does not resolve to a string, the result is the key; when the key resolves to a string, the result is that string |
| `Catalogs.HelloWorld` | Tests/JSONBadSources.swift:26-27 | `{"hello":{"world":"Hello world!"}}` resolves `hello.world` to `Hello world!` |
| `Substitution.Single` | Source/Localizable.swift:164 | every `%` is replaced by `replace` (the pieces between `%` joined with `replace`), and no `%` remains when `replace` has none |
| `Substitution.Consumed` | Source/Localizable.swift:181-183 | the number of values consumed is min(values, N/2 + 1) for N placeholders, never more than the values or the fragments |
| `Substitution.ConsumedStep` | Source/Localizable.swift:182-185 | the closed form agrees with the guard `index < array.count`: a turn consumes exactly when the index is below the fragments left, and then the index equals the number consumed |
| `Substitution.Positional` | Source/Localizable.swift:178-189 | the loop (consumed + fragments left = N + 1, first value as frag0+v0, later ones as frag_i+v_i+" ", leftovers appended, `"  "` collapsed) computes `Spliced` |
| `Substitution.SplicedUsesPrefix` | Source/Localizable.swift:181-186 | values past the consumed ones have no effect on the result |
| `Substitution.SplicedTrailingSpace` | Source/Localizable.swift:184 | template `%-%` with values `a`, `b` yields `a-b ` |
| `Substitution.SplicedDropsValue` | Source/Localizable.swift:182 | template `% % %` with values `a`, `b`, `c` yields `a b `: the third value is dropped |
| `Substitution.SplicedWithoutPlaceholder` | Source/Localizable.swift:182-184 | template `Hello` (no `%`) with value `x` yields `Hellox`: the value is appended |
| `Substitution.ReplaceNamed` | Source/Localizable.swift:201-203 | the loop applies each `(name, value)` pair in order, replacing every `:name` by `value`, as the fold `Named` does |
| `Substitution.NamedWithoutColon` | Source/Localizable.swift:201-203 | a template with no `:` is returned unchanged by any dictionary |
| `Substitution.NamedExample` | Source/Localizable.swift:201-203 | `Hi :name` with `name` = `Sam` yields `Hi Sam` |
| `Substitution.PositionalIntended` | Source/Localizable.swift:173-190 | corrected splice: no `%` survives unless a value brings one, whether values are missing or in excess |
| `Substitution.IntendedAgreesWithSingle` | Source/Localizable.swift:159-190 | corrected splice with the same value for every placeholder equals the single-value replacement |
| `Substitution.IntendedExamples` | Source/Localizable.swift:173-190 | corrected splice gives `a-b` for `%-%` with `a`, `b`, `a b c` for `% % %` with `a`, `b`, `c`, and `Hello` for `Hello` with `x` |
| `Localization.Localizable.constructor` | Source/Localizable.swift:26-37 | initial state: no cached catalog, file name `lang`, default language English (`en`), no notification yet |
| `Localization.Localizable.Fetch` | Source/Localizable.swift:72-88 | an existing resource yields its parsed catalog, or nil when it is unreadable or malformed; a missing resource gives nil |
| `Localization.Localizable.Language` | Source/Localizable.swift:212-218 | the stored preference when set; otherwise the prefix of the first device language up to its first `-` |
| `Localization.Localizable.UpdateLanguage` | Source/Localizable.swift:221-227 | stores the code (so it becomes the active language), reloads the cache and posts exactly one notification |
| `Localization.Localizable.UpdateLanguageCode` | Source/Localizable.swift:230-239 | a code outside `Languages` changes nothing and posts nothing; a valid one behaves as `UpdateLanguage` |
| `Localization.Localizable.ResetLanguage` | Source/Localizable.swift:242-246 | clears the stored preference only; cache and notifications untouched |
| `Localization.Localizable.Present` | Source/Localizable.swift:251-261 | a code is listed exactly when it is declared and its resource exists |
| `Localization.Localizable.AvailableLanguages` | Source/Localizable.swift:251-261 | the loop returns the declared codes whose resource exists, in declaration order |
| `Localization.Localizable.Reloaded` | Source/Localizable.swift:58-64 | the active-language catalog wins when present; otherwise the default-language catalog, only if the active language differs from the default; nil exactly when both fail |
| `Localization.Localizable.ReadJSON` | Source/Localizable.swift:53-67 | with a cached catalog and no reload, returns it and changes nothing; otherwise stores the reload result, nil included; returns the new cache |
| `Localization.Localizable.SetFileName` | Source/Localizable.swift:33 | assigning `fileName` leaves the cached catalog in place |
| `Localization.Localizable.SetDefaultLanguage` | Source/Localizable.swift:37 | assigning `defaultLanguage` leaves the cached catalog in place |
| `Localization.Localizable.Localize` | Source/Localizable.swift:141-151 | reads the cache as `readJSON()` does, then returns the resolved string or the key verbatim |
| `Localization.Localizable.LocalizeReplace` | Source/Localizable.swift:159-165 | a miss returns the key untouched; otherwise every `%` of the resolved string is replaced |
| `Localization.Localizable.LocalizeValues` | Source/Localizable.swift:173-190 | a miss returns the key untouched; otherwise the positional splice as written |
| `Localization.Localizable.LocalizeNamed` | Source/Localizable.swift:199-205 | the dictionary is applied to the resolved string or to the missed key alike; an empty dictionary returns `localize(key:)` exactly |
| `Localization.NamedRewritesMissedKey` | Source/Localizable.swift:199-205 | with no catalog, `Hi :name` and `name` = `Sam` come back as `Hi Sam`, not as the key |

## Left out

- File I/O and JSON parsing (`Bundle.main.path`, `Data(contentsOf:)`, `JSONSerialization`, Source/Localizable.swift:72-88): replaced by the `bundle` map; the distinction between missing, unreadable and malformed collapses to `None`, as it does for every caller.
- The `print` diagnostics (Source/Localizable.swift:78, 85): logging only.
- `UserDefaults` persistence across runs and `synchronize()`: the stored preference is a field, initialised by the constructor.
- `NotificationCenter`: posts are counted, subscribers are not modelled.
- `iterateEnum` (Source/Localizable.swift:122-132): unsafe-pointer reflection over the enum, replaced by the declared sequence `languages`. This assumes the reflection visits every case in order, which holds only while each case's `hashValue` equals its index (the test at Source/Localizable.swift:128); that reading of the source is not executed. The `Languages` enum is not part of this model; its English case is taken to have raw value `en`.
- `displayNameForLanguage` (Source/Localizable.swift:266-272): a call into `NSLocale`.
- The static forwarding methods (Source/Localizable.swift:281-350), the shared singleton and the private initialiser: plain delegation.
- `localizableInterface` (Source/Localizable.swift:40): a stored setting no modelled operation reads.
- Positional values of type `Any`: modelled as strings, since how `Any` is rendered by string interpolation is a library matter.
- Concurrency: the class is used from one thread.
- Unicode semantics: strings are `seq<char>`, compared and searched scalar by scalar. Swift's `String ==` uses canonical equivalence (a precomposed `é` equals `e` followed by U+0301), and Foundation's `replacingOccurrences` and `components(separatedBy:)` search non-literally by default. So the miss guards (Source/Localizable.swift:161, 175), the default-language comparison (Source/Localizable.swift:62), the dictionary lookups and the splitting and replacing agree with the source only on strings where the two notions coincide.
- Text.ReplaceAll: requires a non-empty pattern; Foundation's behaviour for an empty pattern is not modelled, since every call site passes `%`, `"  "` or `:` + name.
- Localization.Localizable.Present: its contract states membership only; declaration order follows from its definition as an order-preserving filter and is not stated as a separate clause.
- Localization.Localizable.UpdateLanguage: `update(language: Languages)` takes an enum value; the model expresses this as the requirement that the code is in `languages`.
- The test files call `update(provider:)`, `update(bundle:)`, `update(fileName:)`, `localize(tableName:)` and `.localized`, which this source does not define; they are used only as scenarios where they agree with it (`hello.world`).

## Findings

The class keeps the behaviour as written (`LocalizeValues` uses `Spliced`). The
corrected splice `PositionalIntended` stands beside it with its intended
properties proved.

| source | as written | input that shows it | evidently intended | confidence | as-written member | corrected member |
|---|---|---|---|---|---|---|
| Source/Localizable.swift:182 | the guard `index < array.count` compares the value index with an array that loses one fragment per consumed value, so only min(values, N/2 + 1) values are used | template `% % %`, values `a`, `b`, `c` gives `a b ` | each placeholder takes the next value: `a b c` | medium, not executed | `Substitution.SplicedDropsValue` | `Substitution.PositionalIntended` |
| Source/Localizable.swift:184 | a space is appended after every value except the first, and the final pass only collapses doubled spaces | template `%-%`, values `a`, `b` gives `a-b ` | `a-b`, with no trailing space | medium, not executed | `Substitution.SplicedTrailingSpace` | `Substitution.PositionalIntended` |
| Source/Localizable.swift:182-184 | with no `%` in the template there is one fragment, so index 0 passes the guard and the first value is appended to the text | template `Hello`, value `x` gives `Hellox` | a template without placeholders is left as it is: `Hello` | medium, not executed | `Substitution.SplicedWithoutPlaceholder` | `Substitution.PositionalIntended` |
