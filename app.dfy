/**
 * The runtime locale switch of the application shell (renderer/pages/_app.js).
 *
 * `MyApp` keeps two pieces of React state: the active language and the
 * language whose locale data is waiting to be loaded. `changeLocale` only
 * records a pending request; an effect picks the request up, falls back to
 * "en" for an unsupported language and, when the Intl.DisplayNames polyfill
 * is in use, imports that language's display-name data and then activates
 * it. The intl context is derived from the active language alone.
 *
 * The effect's synchronous part (lines 43-49) and the moment the dynamic
 * import resolves (lines 50-52) are separate events here, `StartLoad` and
 * `CompleteLoad`, so that loads started for different requests can resolve
 * in any order. `getSupportedLanguages` and `getMessages` live in a module
 * that is not part of this model; they are constructor parameters.
 */
module LocaleSwitch {
  import opened Wrappers
  import opened Catalogs

  /** What `createIntl` is given: the locale and its messages. */
  datatype IntlContext = IntlContext(locale: string, messages: Catalog)

  const DefaultLocale := "en"

  /** JavaScript truthiness of a possibly-null string: null and "" are falsy. */
  predicate Truthy(s: Option<string>)
  {
    s.Some? && s.value != ""
  }

  /** The language activated for a request: the request itself if supported, else "en". */
  function Normalize(target: string, supported: seq<string>): (r: string)
    ensures r in supported || r == DefaultLocale
    ensures r == target <==> target in supported || target == DefaultLocale
    ensures target !in supported ==> r == DefaultLocale
  {
    if target in supported then target else DefaultLocale
  }

  /** `lang || getLocale()`: the query language unless it is missing or empty. */
  function InitialLocale(queryLang: Option<string>, osLocale: string): (r: string)
    ensures r == osLocale || (queryLang.Some? && r == queryLang.value)
    ensures Truthy(queryLang) ==> r == queryLang.value
    ensures r == "" ==> osLocale == ""
  {
    if Truthy(queryLang) then queryLang.value else osLocale
  }

  class App {
    /** getSupportedLanguages() */
    const supported: seq<string>
    /** getMessages */
    const getMessages: string -> Catalog

    /** React state `activeLang` */
    var activeLang: string
    /** React state `localeDataToLoad`; None is null */
    var localeDataToLoad: Option<string>
    /** Normalized targets of locale-data imports started and not yet resolved */
    var loads: seq<string>
    /** The memoized intl context */
    var intl: IntlContext
    /** How many times the memo has (re)built the intl context */
    var contextBuilds: nat
    /** Whether any locale-data import has resolved */
    ghost var completed: bool

    ghost predicate Valid()
      reads this
    {
      && intl == IntlContext(activeLang, getMessages(activeLang))
      && (forall t :: t in loads ==> t in supported || t == DefaultLocale)
      && (completed ==> activeLang in supported || activeLang == DefaultLocale)
    }

    /** The first render: both state variables start at the initial locale, unvalidated. */
    constructor (queryLang: Option<string>, osLocale: string, supported: seq<string>, getMessages: string -> Catalog)
      ensures Valid()
      ensures this.supported == supported && this.getMessages == getMessages
      ensures activeLang == InitialLocale(queryLang, osLocale)
      ensures localeDataToLoad == Some(InitialLocale(queryLang, osLocale))
      ensures loads == [] && contextBuilds == 1 && !completed
    {
      this.supported := supported;
      this.getMessages := getMessages;
      var locale := InitialLocale(queryLang, osLocale);
      activeLang := locale;
      localeDataToLoad := Some(locale);
      loads := [];
      intl := IntlContext(locale, getMessages(locale));
      contextBuilds := 1;
      completed := false;
    }

    /** `changeLocale`: record the request; nothing else changes. */
    method ChangeLocale(target: string)
      requires Valid()
      modifies this`localeDataToLoad
      ensures Valid()
      ensures localeDataToLoad == Some(target)
      ensures activeLang == old(activeLang) && intl == old(intl) && loads == old(loads)
    {
      localeDataToLoad := Some(target);
    }

    /**
     * The effect on `localeDataToLoad`, up to the `await`: with a window and a
     * truthy request, normalize the request and, when the polyfill is in use,
     * start importing its locale data. Otherwise nothing happens.
     */
    method StartLoad(hasWindow: bool, polyfilled: bool)
      requires Valid()
      modifies this`loads
      ensures Valid()
      ensures hasWindow && Truthy(localeDataToLoad) && polyfilled ==>
        loads == old(loads) + [Normalize(localeDataToLoad.value, supported)]
      ensures !(hasWindow && Truthy(localeDataToLoad) && polyfilled) ==> loads == old(loads)
      ensures activeLang == old(activeLang) && localeDataToLoad == old(localeDataToLoad)
    {
      if hasWindow && Truthy(localeDataToLoad) {
        var locale := localeDataToLoad.value;
        if locale !in supported {
          locale := DefaultLocale;
        }
        if polyfilled {
          loads := loads + [locale];
        }
      }
    }

    /**
     * The import of load `i` resolves: clear the request and activate that
     * load's language, whatever was requested since. The memo rebuilds the
     * context only if the active language changed.
     */
    method CompleteLoad(i: nat)
      requires Valid()
      requires i < |loads|
      modifies this
      ensures Valid()
      ensures completed
      ensures localeDataToLoad == None
      ensures activeLang == old(loads[i])
      ensures loads == old(loads[..i] + loads[i + 1..])
      ensures contextBuilds == old(contextBuilds) + if activeLang == old(activeLang) then 0 else 1
    {
      var locale := loads[i];
      assert locale in loads;
      localeDataToLoad := None;
      loads := loads[..i] + loads[i + 1..];
      assert forall t :: t in loads ==> t in old(loads);
      if locale != activeLang {
        activeLang := locale;
        intl := IntlContext(locale, getMessages(locale));
        contextBuilds := contextBuilds + 1;
      }
      completed := true;
    }
  }

  /**
   * The first render of the app in a window, followed by the mount-time run
   * of the effect: a load of the initial locale starts only when the
   * polyfill is in use and the locale is non-empty.
   */
  method Mount(supported: seq<string>, getMessages: string -> Catalog, queryLang: Option<string>, osLocale: string, polyfilled: bool)
    returns (app: App)
    ensures fresh(app) && app.Valid()
    ensures app.supported == supported && app.getMessages == getMessages
    ensures app.activeLang == InitialLocale(queryLang, osLocale)
    ensures app.localeDataToLoad == Some(InitialLocale(queryLang, osLocale))
    ensures app.contextBuilds == 1
    ensures app.loads == if polyfilled && InitialLocale(queryLang, osLocale) != ""
      then [Normalize(InitialLocale(queryLang, osLocale), supported)] else []
  {
    app := new App(queryLang, osLocale, supported, getMessages);
    app.StartLoad(true, polyfilled);
  }

  // The scenarios below start from `Mount` in a window with the polyfill in
  // use, except `WithoutPolyfillNothingActivates`, which runs without it.

  /**
   * Two overlapping requests whose loads resolve in the opposite order, after
   * the mount-time load has resolved: with no staleness check, the older
   * request's language ends up active.
   */
  method LastCompletionWins(supported: seq<string>, getMessages: string -> Catalog, osLocale: string, first: string, second: string)
    returns (active: string, context: IntlContext, pending: Option<string>)
    requires first != "" && second != ""
    ensures active == Normalize(first, supported)
    ensures context == IntlContext(active, getMessages(active))
    ensures pending == None
  {
    var app := Mount(supported, getMessages, None, osLocale, true);
    if |app.loads| > 0 {
      app.CompleteLoad(0);
    }
    app.ChangeLocale(first);
    app.StartLoad(true, true);
    app.ChangeLocale(second);
    app.StartLoad(true, true);
    app.CompleteLoad(1);
    app.CompleteLoad(0);
    active, context, pending := app.activeLang, app.intl, app.localeDataToLoad;
  }

  /**
   * The mount-time load resolving after a user's request: it overrides the
   * request, and the first-render language (normalized) ends up active.
   */
  method MountLoadCanOverrideRequest(supported: seq<string>, getMessages: string -> Catalog, osLocale: string, target: string)
    returns (active: string, pending: Option<string>)
    requires osLocale != "" && target != ""
    ensures active == Normalize(osLocale, supported)
    ensures pending == None
  {
    var app := Mount(supported, getMessages, None, osLocale, true);
    app.ChangeLocale(target);
    app.StartLoad(true, true);
    app.CompleteLoad(1);
    app.CompleteLoad(0);
    active, pending := app.activeLang, app.localeDataToLoad;
  }

  /**
   * Without the polyfill the effect never activates anything: the request
   * stays pending and the first-render language stays active.
   */
  method WithoutPolyfillNothingActivates(supported: seq<string>, getMessages: string -> Catalog, queryLang: Option<string>, osLocale: string, target: string)
    returns (active: string, pending: Option<string>, started: nat)
    ensures active == InitialLocale(queryLang, osLocale)
    ensures pending == Some(target)
    ensures started == 0
  {
    var app := Mount(supported, getMessages, queryLang, osLocale, false);
    app.ChangeLocale(target);
    app.StartLoad(true, false);
    active, pending, started := app.activeLang, app.localeDataToLoad, |app.loads|;
  }

  /** A request for an unsupported language, after the mount-time load, activates "en". */
  method UnsupportedFallsBackToEnglish(supported: seq<string>, getMessages: string -> Catalog, osLocale: string, target: string)
    returns (active: string, context: IntlContext)
    requires target != "" && target !in supported
    ensures active == DefaultLocale
    ensures context == IntlContext(DefaultLocale, getMessages(DefaultLocale))
  {
    var app := Mount(supported, getMessages, None, osLocale, true);
    if |app.loads| > 0 {
      app.CompleteLoad(0);
    }
    app.ChangeLocale(target);
    app.StartLoad(true, true);
    app.CompleteLoad(0);
    active, context := app.activeLang, app.intl;
  }

  /**
   * Requesting the same language twice, the second time after the first
   * load resolved: the first commit rebuilds the context only if it changes
   * the active language, the second commit never does.
   */
  method SwitchTwice(supported: seq<string>, getMessages: string -> Catalog, osLocale: string, target: string)
    returns (before: string, active: string, buildsBefore: nat, buildsAfterFirst: nat, buildsAfterSecond: nat)
    requires target != ""
    ensures before == (if osLocale == "" then osLocale else Normalize(osLocale, supported))
    ensures active == Normalize(target, supported)
    ensures buildsBefore == if before == osLocale then 1 else 2
    ensures buildsAfterFirst == buildsBefore + if active == before then 0 else 1
    ensures buildsAfterSecond == buildsAfterFirst
  {
    var app := Mount(supported, getMessages, None, osLocale, true);
    if |app.loads| > 0 {
      app.CompleteLoad(0);
    }
    before, buildsBefore := app.activeLang, app.contextBuilds;
    app.ChangeLocale(target);
    app.StartLoad(true, true);
    app.CompleteLoad(0);
    buildsAfterFirst := app.contextBuilds;
    app.ChangeLocale(target);
    app.StartLoad(true, true);
    app.CompleteLoad(0);
    active, buildsAfterSecond := app.activeLang, app.contextBuilds;
  }

  /** An empty request is falsy: the effect starts no further load. */
  method FalsyRequestStartsNothing(supported: seq<string>, getMessages: string -> Catalog, osLocale: string)
    returns (startedBefore: nat, startedAfter: nat, active: string)
    ensures startedAfter == startedBefore
    ensures active == osLocale
  {
    var app := Mount(supported, getMessages, None, osLocale, true);
    startedBefore := |app.loads|;
    app.ChangeLocale("");
    app.StartLoad(true, true);
    startedAfter, active := |app.loads|, app.activeLang;
  }
}
