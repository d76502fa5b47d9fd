# Localization pipeline of the probe desktop UI, in Dafny

This project models the two pieces of real logic in the localization pipeline
of the probe desktop application and proves properties of them.

- **The translation build script** (`scripts/update-translations.js`,
  module `UpdateTranslations` in `translations.dfy`). It lists the catalog
  files `./lang/*.json` to get the supported languages, writes the
  languages' react-intl locale data joined by newlines to
  `static/locale-data.js`, folds the rows of `data/lang-en.csv` into the
  English catalog (throwing `Duplicate message id: <id>` on a repeated id),
  writes it to `./lang/en.json`, then reads every catalog back into one
  bundle and writes `window.OONITranslations = <bundle>` to
  `./static/translations.js`. The two `reduce` folds are methods with loops
  over an accumulating map (`BuildMessages`, `BuildTranslations`), proved
  equal to the recursive reference folds `Messages` and `Translations`. The
  whole script is the method `Run`, which returns the ordered log of the files
  it wrote and the exception that stopped it. `Run` is proved equal to the
  function `Effects`, and the lemmas state what the files hold and in which
  order they are written.
- **The runtime locale switch** (`renderer/pages/_app.js`, module
  `LocaleSwitch` in `app.dfy`). The class `App` holds the React state
  `activeLang` and `localeDataToLoad`, the memoized intl context, and the
  locale-data imports still in flight. `ChangeLocale` only records a pending
  request. `StartLoad` is the synchronous part of the effect (lines 43-49): it
  needs a window and a truthy request, substitutes `"en"` for an unsupported
  language, and starts the import only when `Intl.DisplayNames.polyfilled` is
  true. `CompleteLoad(i)` is the moment import `i` resolves: the request is
  cleared and that import's language is activated. There is no staleness
  check, so whichever import resolves last decides the active language.
  The intl context is always `IntlContext(activeLang, getMessages(activeLang))`
  and is rebuilt only when the active language changes. `Mount` is the first
  render in a window followed by the effect's mount-time run. That run starts
  a load of the initial locale only when `Intl.DisplayNames.polyfilled` is
  true and the locale is non-empty. `LastCompletionWins`,
  `MountLoadCanOverrideRequest`, `UnsupportedFallsBackToEnglish`, `SwitchTwice`
  and `FalsyRequestStartsNothing` begin with `Mount` with a window and
  `Intl.DisplayNames.polyfilled` true. `WithoutPolyfillNothingActivates`
  begins with it with the flag false. Each of these client methods proves a
  whole run from the class's contracts.

`wrappers.dfy` holds the `Option` and `Result` datatypes, and `catalogs.dfy`
the `Catalog` type (message id to localized text) that both modules share.

Several behaviours one might expect of a locale switch are not in the code,
and the model does not promise them:
- No stale-result guard. A load whose target no longer matches the pending
  request is not discarded. Every resolved import activates its own
  language, so the last import to resolve wins, even an older one
  (`LastCompletionWins`). This includes the mount-time load of the initial
  locale (`MountLoadCanOverrideRequest`).
- No catalog fallback. Nothing substitutes an empty or English catalog for
  a language without one. `getMessages` is a parameter, and the context
  holds whatever it returns.
- Artifacts are written on a duplicate id. The script writes
  `static/locale-data.js` before it reads the CSV, so that file has already
  been written when a duplicate id aborts the build (`EffectsDuplicateId`).
- No validation when the switch is requested. `changeLocale` records the raw
  target. The `"en"` substitution happens only in the effect (`ChangeLocale`,
  `StartLoad`).

## Model

| member | source | states |
|---|---|---|
| `UpdateTranslations.BasenameOfPath` | scripts/update-translations.js:7 | `basename(dir + stem + ext, ext)` is `stem` when `dir` ends in `/`, `stem` is non-empty, and neither `stem` nor `ext` contains `/` |
| `UpdateTranslations.BasenameOfLangFile` | scripts/update-translations.js:7 | a language's catalog path `./lang/<lang>.json` is a path the glob lists, and its basename without `.json` is the language again |
| `UpdateTranslations.LangFileOfBasename` | scripts/update-translations.js:7 | every listed `./lang/<name>.json` path is exactly the catalog path of its non-empty basename |
| `UpdateTranslations.SupportedLanguagesNameTheirFiles` | scripts/update-translations.js:7 | the supported-language list has one code per listed file, in listing order, and each code's catalog path is the file it came from |
| `UpdateTranslations.EnglishIsListed` | scripts/update-translations.js:7 | when `./lang/en.json` is listed, `"en"` is a supported language and its catalog path is `./lang/en.json` |
| `UpdateTranslations.LocaleDataParts` | scripts/update-translations.js:9-11 | resolving succeeds exactly when every language has locale data, and then the i-th part is the i-th language's data; otherwise the error names a language without locale data |
| `UpdateTranslations.JoinAt` | scripts/update-translations.js:13 | joining keeps each part, unchanged, at its offset, in list order |
| `UpdateTranslations.JoinSeparatorAt` | scripts/update-translations.js:13 | between consecutive parts the joined text holds exactly the separator |
| `UpdateTranslations.MessagesOkIff` | scripts/update-translations.js:16-26 | the rows fold to a catalog exactly when their ids are pairwise distinct, and the catalog's key set is then the set of row ids |
| `UpdateTranslations.MessagesExact` | scripts/update-translations.js:16-26 | with distinct ids each row contributes exactly `id -> text`, and the catalog has as many entries as there are rows |
| `UpdateTranslations.MessagesAbortIsFinal` | scripts/update-translations.js:21-22 | once the fold has thrown, rows after the throwing one change nothing |
| `UpdateTranslations.MessagesSnocDuplicate` | scripts/update-translations.js:21-22 | a row whose id the distinct rows above it already define makes the fold throw with that id |
| `UpdateTranslations.MessagesThrowAtRow` | scripts/update-translations.js:21-22 | the fold of the rows up to and including the first repeated id throws `DuplicateMessageId` of that id |
| `UpdateTranslations.MessagesAbortPrefix` | scripts/update-translations.js:21-22 | if a prefix of the rows throws, the whole fold throws the same error |
| `UpdateTranslations.FirstRepeat` | scripts/update-translations.js:21 | when some id repeats, there is a first row whose id already occurs above it, and the rows above it have distinct ids |
| `UpdateTranslations.DuplicateNamesFirstRepeat` | scripts/update-translations.js:21-22 | with a repeated id, the fold throws `Duplicate message id` naming the id of the first repeat, the second occurrence |
| `UpdateTranslations.BuildMessages` | scripts/update-translations.js:16-26 | the loop that adds each row to the accumulating dictionary, and stops at the first id already present, computes the reference fold `Messages` |
| `UpdateTranslations.TranslationsExact` | scripts/update-translations.js:31-35 | the bundle is built exactly when every language's catalog file exists, and then it has one key per supported language whose value is that language's catalog file; otherwise the error names a missing catalog file |
| `UpdateTranslations.TranslationsAbortIsFinal` | scripts/update-translations.js:33 | once reading a catalog has thrown, later languages change nothing |
| `UpdateTranslations.BuildTranslations` | scripts/update-translations.js:31-35 | the loop that sets `t[lang]` to each language's catalog computes the reference fold `Translations` |
| `UpdateTranslations.EffectsSucceedIff` | scripts/update-translations.js:7-38 | the script runs to the end exactly when every language has locale data, the ids are distinct and every catalog file other than `./lang/en.json` exists; it has then written three files |
| `UpdateTranslations.EffectsWriteOrder` | scripts/update-translations.js:13-38 | the files are written in the order locale data, `./lang/en.json`, bundle; the script fails exactly when it wrote fewer than three; missing locale data leaves no file written, a duplicate id one, a missing catalog file two (`./lang/en.json` written, the bundle not) |
| `UpdateTranslations.EffectsMissingLocaleData` | scripts/update-translations.js:9-13 | a language without locale data stops the script before any file is written |
| `UpdateTranslations.EffectsDuplicateId` | scripts/update-translations.js:13-28 | a duplicate id throws naming the first repeated id after the locale data was written and before `./lang/en.json` and the bundle are written |
| `UpdateTranslations.EffectsLocaleData` | scripts/update-translations.js:9-13 | the locale-data file is the per-language contents joined by newlines, with the i-th language's data at the i-th place |
| `UpdateTranslations.EffectsEnglishCatalog` | scripts/update-translations.js:16-28 | `./lang/en.json` holds exactly the CSV rows' ids, each mapped to its row's text, one entry per row |
| `UpdateTranslations.EffectsBundle` | scripts/update-translations.js:31-38 | the bundle is `window.OONITranslations = ` before a map with one key per supported language; English holds the catalog just written, every other language its catalog file |
| `UpdateTranslations.EffectsRoundTripEnglish` | scripts/update-translations.js:7-33 | if `./lang/en.json` was listed, the bundle's `en` entry equals the catalog this run built from the CSV |
| `UpdateTranslations.Run` | scripts/update-translations.js:7-38 | the script's ordered writes and its exception are exactly those of `Effects` |
| `LocaleSwitch.Normalize` | renderer/pages/_app.js:45-47 | the activated language is always supported or `"en"`; it is the requested one exactly when that is supported or `"en"`, and an unsupported request becomes `"en"` |
| `LocaleSwitch.InitialLocale` | renderer/pages/_app.js:24 | the query language when it is present and non-empty, otherwise the OS locale |
| `LocaleSwitch.App.constructor` | renderer/pages/_app.js:24-31 | the active language and the pending request both start at the initial locale, unvalidated, and the context is built once for it |
| `LocaleSwitch.App.ChangeLocale` | renderer/pages/_app.js:33-36 | the pending request becomes the target; the active language, the context and the in-flight loads are unchanged |
| `LocaleSwitch.App.StartLoad` | renderer/pages/_app.js:42-50 | with a window, a truthy request and the polyfill in use, one import of the normalized request starts; otherwise nothing changes; the active language and the request are unchanged |
| `LocaleSwitch.App.CompleteLoad` | renderer/pages/_app.js:49-52 | a resolved import clears the request and activates that import's language; the context is rebuilt exactly when the active language changed and always equals the one derived from the active language |
| `LocaleSwitch.Mount` | renderer/pages/_app.js:24-58 | after the first render in a window and the mount-time effect, the initial locale is active and still pending, the context was built once, and exactly one load of the normalized initial locale is in flight when `Intl.DisplayNames.polyfilled` is true and that locale is non-empty, none otherwise |
| `LocaleSwitch.LastCompletionWins` | renderer/pages/_app.js:42-55 | with a window and `Intl.DisplayNames.polyfilled` true, after the mount-time load resolves, two overlapping requests whose imports resolve in reverse order leave the older request's normalized language active and nothing pending |
| `LocaleSwitch.MountLoadCanOverrideRequest` | renderer/pages/_app.js:42-55 | with a window and `Intl.DisplayNames.polyfilled` true, if the mount-time load resolves after a user's request has resolved, the normalized initial locale ends up active, overriding the request |
| `LocaleSwitch.WithoutPolyfillNothingActivates` | renderer/pages/_app.js:49-53 | with a window but without the polyfill, neither the mount-time effect nor a later request starts an import; the request stays pending and the initial language stays active |
| `LocaleSwitch.UnsupportedFallsBackToEnglish` | renderer/pages/_app.js:45-52 | with a window and `Intl.DisplayNames.polyfilled` true, after the mount-time load, a request for an unsupported language activates `"en"` with its messages |
| `LocaleSwitch.SwitchTwice` | renderer/pages/_app.js:28-31 | with a window and `Intl.DisplayNames.polyfilled` true, after the mount-time load, which rebuilds the context only if normalizing changed the initial locale, requesting the same language twice in sequence rebuilds it on the first commit exactly when the language changes, and never on the second |
| `LocaleSwitch.FalsyRequestStartsNothing` | renderer/pages/_app.js:43 | with a window and `Intl.DisplayNames.polyfilled` true, after the mount-time effect, an empty request is falsy and starts no further import |

## Left out

- File system, `glob`, `require.resolve`, `csv-parse` and JSON: the glob listing, the resolved locale-data contents, the parsed CSV rows and the parsed catalog files are inputs. A file's content is the value serialized into it. Malformed JSON and CSV, and `JSON.stringify` formatting and key order, are not modelled.
- The glob's ordering and filtering: the listing is an input in the order glob returns it. The lemmas about it assume each entry is a `./lang/<name>.json` path.
- `Basename`: the model takes the text after the last `/` and strips the extension when it is a proper suffix. Node's handling of trailing slashes, and of a bare `.json` with no directory, is not modelled. The glob produces neither.
- The CSV header skip (`from: 2`) is the parser's: rows start after the header. Each row is an (id, text) pair; further columns are ignored, and rows with a single column are not modelled.
- `Messages` and `BuildMessages` treat every id as an ordinary map key. JavaScript object-key quirks are not modelled. Assigning the id `__proto__` does not add an own property. Once an id `hasOwnProperty` has been stored, the next row's `messages.hasOwnProperty(id)` throws a TypeError (lines 21, 24). The model instead keeps folding: rows `[("hasOwnProperty", "x"), ("a", "b")]` give a two-entry catalog.
- `console.log` output, the unused `webpack` import, the Sentry setup, the `@formatjs` polyfill import and the intl cache.
- React scheduling: when the effect runs is decided by whoever calls `StartLoad`. React's bail-out when the same value is set again is not modelled. Effects are not tied automatically to changes of `localeDataToLoad`.
- The `intl['setLocale'] = changeLocale` assignment (line 40) is represented by the `ChangeLocale` method itself.
- `getMessages`, `getSupportedLanguages` and `getLocale` (the `langUtils` module) are not part of this model. They are constructor parameters. A query `lang` given as an array is not modelled.
- The dynamic `import()` of display-name data is represented by the in-flight load list. An import that fails or never resolves simply never reaches `CompleteLoad`.
- `MeasurementContainer.js`, `LanguageSelector.js` and `main/windows/index.js` are rendering and window plumbing, outside the localization logic.
