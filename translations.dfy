/**
 * The build script that assembles the translation artifacts
 * (scripts/update-translations.js).
 *
 * The file system, `glob`, `require.resolve`, the CSV parser and JSON
 * (de)serialisation are not modelled as code: the glob listing, the resolved
 * locale-data files, the parsed CSV rows and the parsed catalog files are
 * inputs, and every file the script writes is recorded, in order, in a write
 * log. A file's content is the value that was serialised into it.
 */
module UpdateTranslations {
  import opened Wrappers
  import opened Catalogs

  /** One row of data/lang-en.csv after the header rows: column 0 is the id, column 1 the text. */
  datatype Row = Row(id: string, text: string)

  /** The ways the script stops with an exception. */
  datatype BuildError =
    | MissingLocaleData(lang: string)  // require.resolve finds no react-intl locale data
    | DuplicateMessageId(id: string)   // "Duplicate message id: <id>"
    | MissingCatalog(path: string)     // readFileSync of a catalog file fails

  /** What a write puts in a file. */
  datatype Content =
    | Text(text: string)                                  // plain text
    | Json(catalog: Catalog)                              // JSON.stringify of a catalog
    | Script(prefix: string, bundle: map<string, Catalog>) // prefix + JSON.stringify(bundle)

  datatype Write = Write(path: string, content: Content)

  const LangDir := "./lang/"
  const JsonExt := ".json"
  const LocaleDataPath := "static/locale-data.js"
  const EnCatalogPath := "./lang/en.json"
  const TranslationsPath := "./static/translations.js"
  const BundlePrefix := "window.OONITranslations = "
  const LineSeparator := "\n"

  // ---------------------------------------------------------------------
  // Supported languages: basenames of ./lang/*.json without the suffix
  // ---------------------------------------------------------------------

  /** The part of a path after its last '/'. */
  function LastSegment(p: string): (r: string)
    ensures '/' !in r
    ensures |r| <= |p|
  {
    if |p| == 0 then ""
    else if p[|p| - 1] == '/' then ""
    else LastSegment(p[..|p| - 1]) + [p[|p| - 1]]
  }

  /** path.basename(p, ext): the last segment, with `ext` removed when it ends the segment and is not all of it. */
  function Basename(p: string, ext: string): string
  {
    var b := LastSegment(p);
    if |ext| < |b| && b[|b| - |ext|..] == ext then b[..|b| - |ext|] else b
  }

  /** The catalog file of a language, `./lang/${lang}.json`. */
  function LangFile(lang: string): string
  {
    LangDir + lang + JsonExt
  }

  /** A path that globbing ./lang for .json files can produce: a non-empty name without '/' in ./lang/, ending in .json. */
  ghost predicate IsLangFile(p: string)
  {
    |p| > |LangDir| + |JsonExt| &&
    p[..|LangDir|] == LangDir &&
    p[|p| - |JsonExt|..] == JsonExt &&
    '/' !in p[|LangDir|..]
  }

  lemma {:induction false} LastSegmentAfterSlash(dir: string, name: string)
    requires |dir| > 0 && dir[|dir| - 1] == '/'
    requires '/' !in name
    ensures LastSegment(dir + name) == name
  {
    if |name| == 0 {
      assert dir + name == dir;
    } else {
      var p := dir + name;
      var init, c := name[..|name| - 1], name[|name| - 1];
      assert c in name;
      assert p[..|p| - 1] == dir + init;
      assert p[|p| - 1] == c;
      assert '/' !in init by {
        assert forall x :: x in init ==> x in name;
      }
      LastSegmentAfterSlash(dir, init);
      assert LastSegment(p) == LastSegment(dir + init) + [c];
      assert init + [c] == name;
    }
  }

  /** Basename strips the directory and the extension of `dir + stem + ext`. */
  lemma BasenameOfPath(dir: string, stem: string, ext: string)
    requires |dir| > 0 && dir[|dir| - 1] == '/'
    requires stem != "" && '/' !in stem && '/' !in ext
    ensures Basename(dir + stem + ext, ext) == stem
  {
    var name := stem + ext;
    assert '/' !in name by {
      assert forall x :: x in name ==> x in stem || x in ext;
    }
    assert dir + stem + ext == dir + name;
    LastSegmentAfterSlash(dir, name);
    assert name[|name| - |ext|..] == ext;
    assert name[..|name| - |ext|] == stem;
  }

  /** The language code of a catalog file is recovered from its path. */
  lemma BasenameOfLangFile(lang: string)
    requires lang != "" && '/' !in lang
    ensures IsLangFile(LangFile(lang))
    ensures Basename(LangFile(lang), JsonExt) == lang
  {
    BasenameOfPath(LangDir, lang, JsonExt);
    var p := LangFile(lang);
    assert p[|LangDir|..] == lang + JsonExt;
    assert '/' !in lang + JsonExt by {
      assert forall x :: x in lang + JsonExt ==> x in lang || x in JsonExt;
    }
  }

  /** Every path the glob lists is the catalog file of its basename. */
  lemma LangFileOfBasename(p: string)
    requires IsLangFile(p)
    ensures Basename(p, JsonExt) != ""
    ensures LangFile(Basename(p, JsonExt)) == p
  {
    var name := p[|LangDir|..];
    var stem := name[..|name| - |JsonExt|];
    assert p == LangDir + stem + JsonExt by {
      assert name[|name| - |JsonExt|..] == p[|p| - |JsonExt|..];
      assert stem + JsonExt == name;
    }
    assert '/' !in stem by {
      assert forall x :: x in stem ==> x in name;
    }
    BasenameOfPath(LangDir, stem, JsonExt);
  }

  /** Line 7: the language codes, in glob order. */
  function SupportedLanguages(listing: seq<string>): (langs: seq<string>)
  {
    seq(|listing|, i requires 0 <= i < |listing| => Basename(listing[i], JsonExt))
  }

  /** Each supported language names exactly the file it came from, in the same position. */
  lemma SupportedLanguagesNameTheirFiles(listing: seq<string>)
    requires forall p :: p in listing ==> IsLangFile(p)
    ensures |SupportedLanguages(listing)| == |listing|
    ensures forall i :: 0 <= i < |listing| ==>
      SupportedLanguages(listing)[i] != "" && LangFile(SupportedLanguages(listing)[i]) == listing[i]
  {
    forall i | 0 <= i < |listing|
      ensures SupportedLanguages(listing)[i] != "" && LangFile(SupportedLanguages(listing)[i]) == listing[i]
    {
      LangFileOfBasename(listing[i]);
    }
  }

  // ---------------------------------------------------------------------
  // Locale data (lines 9-13)
  // ---------------------------------------------------------------------

  /** The react-intl locale-data file contents of each language, in order; the first unresolvable language fails. */
  function LocaleDataParts(langs: seq<string>, localeData: map<string, string>): (r: Result<seq<string>, BuildError>)
    ensures r.Ok? <==> forall l :: l in langs ==> l in localeData
    ensures r.Ok? ==> |r.value| == |langs| && forall i :: 0 <= i < |langs| ==> r.value[i] == localeData[langs[i]]
    ensures r.Err? ==> r.error.MissingLocaleData? && r.error.lang in langs && r.error.lang !in localeData
  {
    if langs == [] then Ok([])
    else if langs[0] !in localeData then Err(MissingLocaleData(langs[0]))
    else
      match LocaleDataParts(langs[1..], localeData)
      case Err(e) => Err(e)
      case Ok(rest) => Ok([localeData[langs[0]]] + rest)
  }

  /** Array.prototype.join. */
  function Join(parts: seq<string>, sep: string): string
  {
    if |parts| == 0 then ""
    else if |parts| == 1 then parts[0]
    else parts[0] + sep + Join(parts[1..], sep)
  }

  /** Where part i starts in Join(parts, sep). */
  function Offset(parts: seq<string>, sep: string, i: nat): nat
    requires i <= |parts|
  {
    if i == 0 then 0 else |parts[0]| + |sep| + Offset(parts[1..], sep, i - 1)
  }

  lemma SliceAfter(a: string, b: string, lo: nat, hi: nat)
    requires |a| <= lo <= hi <= |a| + |b|
    ensures (a + b)[lo..hi] == b[lo - |a|..hi - |a|]
  {
  }

  lemma JoinCons(parts: seq<string>, sep: string)
    requires |parts| > 1
    ensures Join(parts, sep) == (parts[0] + sep) + Join(parts[1..], sep)
  {
  }

  /** Join keeps every part, in order, at its offset. */
  lemma {:induction false} JoinAt(parts: seq<string>, sep: string, i: nat)
    requires i < |parts|
    ensures Offset(parts, sep, i) + |parts[i]| <= |Join(parts, sep)|
    ensures Join(parts, sep)[Offset(parts, sep, i)..Offset(parts, sep, i) + |parts[i]|] == parts[i]
  {
    if i == 0 {
      JoinStartsWithHead(parts, sep);
    } else {
      var head, tail := parts[0] + sep, parts[1..];
      var rest := Join(tail, sep);
      JoinCons(parts, sep);
      JoinAt(tail, sep, i - 1);
      var o := Offset(tail, sep, i - 1);
      assert tail[i - 1] == parts[i];
      assert Offset(parts, sep, i) == |head| + o;
      SliceAfter(head, rest, |head| + o, |head| + o + |parts[i]|);
    }
  }

  lemma JoinStartsWithHead(parts: seq<string>, sep: string)
    requires 0 < |parts|
    ensures |parts[0]| <= |Join(parts, sep)| && Join(parts, sep)[..|parts[0]|] == parts[0]
  {
    if |parts| > 1 {
      JoinCons(parts, sep);
      assert (parts[0] + sep + Join(parts[1..], sep))[..|parts[0]|] == parts[0];
    }
  }

  /** Between consecutive parts, Join puts exactly the separator. */
  lemma {:induction false} JoinSeparatorAt(parts: seq<string>, sep: string, i: nat)
    requires i + 1 < |parts|
    ensures Offset(parts, sep, i) + |parts[i]| + |sep| <= |Join(parts, sep)|
    ensures Join(parts, sep)[Offset(parts, sep, i) + |parts[i]|..Offset(parts, sep, i) + |parts[i]| + |sep|] == sep
  {
    var head := parts[0] + sep;
    var rest := Join(parts[1..], sep);
    JoinCons(parts, sep);
    if i == 0 {
      assert (head + rest)[|parts[0]|..|head|] == sep;
    } else {
      var tail := parts[1..];
      assert tail[i - 1] == parts[i];
      JoinSeparatorAt(tail, sep, i - 1);
      var e := Offset(tail, sep, i - 1) + |parts[i]|;
      assert Offset(parts, sep, i) + |parts[i]| == |head| + e;
      SliceAfter(head, rest, |head| + e, |head| + e + |sep|);
    }
  }

  // ---------------------------------------------------------------------
  // English catalog from the CSV rows (lines 16-26)
  // ---------------------------------------------------------------------

  function Ids(rows: seq<Row>): set<string>
  {
    set r | r in rows :: r.id
  }

  predicate DistinctIds(rows: seq<Row>)
  {
    forall i, j :: 0 <= i < j < |rows| ==> rows[i].id != rows[j].id
  }

  /** The reduce over the rows: a left fold that stops at the first id it has already seen. */
  function Messages(rows: seq<Row>): Result<Catalog, BuildError>
  {
    if rows == [] then Ok(map[])
    else
      var last := rows[|rows| - 1];
      match Messages(rows[..|rows| - 1])
      case Err(e) => Err(e)
      case Ok(m) =>
        if last.id in m then Err(DuplicateMessageId(last.id)) else Ok(m[last.id := last.text])
  }

  lemma IdsOfSnoc(rows: seq<Row>)
    requires rows != []
    ensures Ids(rows) == Ids(rows[..|rows| - 1]) + {rows[|rows| - 1].id}
  {
    assert rows == rows[..|rows| - 1] + [rows[|rows| - 1]];
  }

  lemma InIds(rows: seq<Row>, x: string)
    ensures x in Ids(rows) <==> exists i :: 0 <= i < |rows| && rows[i].id == x
  {
    if x in Ids(rows) {
      var r :| r in rows && r.id == x;
      var i :| 0 <= i < |rows| && rows[i] == r;
    }
  }

  /** Ids are distinct exactly when those above the last row are and the last id is new. */
  lemma DistinctIdsSnoc(rows: seq<Row>)
    requires rows != []
    ensures DistinctIds(rows) <==>
      DistinctIds(rows[..|rows| - 1]) && rows[|rows| - 1].id !in Ids(rows[..|rows| - 1])
  {
    var init := rows[..|rows| - 1];
    var k := |rows| - 1;
    assert forall i :: 0 <= i < k ==> init[i] == rows[i];
    InIds(init, rows[k].id);
  }

  /** The fold succeeds exactly when the ids are distinct. */
  lemma {:induction false} MessagesOkIff(rows: seq<Row>)
    ensures Messages(rows).Ok? <==> DistinctIds(rows)
    ensures Messages(rows).Ok? ==> Messages(rows).value.Keys == Ids(rows)
  {
    if rows != [] {
      var init := rows[..|rows| - 1];
      MessagesOkIff(init);
      IdsOfSnoc(rows);
      DistinctIdsSnoc(rows);
    }
  }

  /**
   * Without duplicates every row contributes exactly its own entry id -> text,
   * and the catalog has one entry per row.
   */
  lemma {:induction false} MessagesExact(rows: seq<Row>)
    requires DistinctIds(rows)
    ensures Messages(rows).Ok?
    ensures var m := Messages(rows).value;
      m.Keys == Ids(rows) && |m| == |rows| &&
      forall i :: 0 <= i < |rows| ==> rows[i].id in m && m[rows[i].id] == rows[i].text
  {
    MessagesOkIff(rows);
    if rows != [] {
      var init := rows[..|rows| - 1];
      var last := rows[|rows| - 1];
      DistinctIdsSnoc(rows);
      MessagesExact(init);
      MessagesOkIff(init);
      var m := Messages(init).value;
      var m' := m[last.id := last.text];
      assert Messages(rows) == Ok(m');
      assert m'.Keys == m.Keys + {last.id};
      assert |m'| == |m| + 1;
      forall i | 0 <= i < |rows| ensures rows[i].id in m' && m'[rows[i].id] == rows[i].text {
        if i < |rows| - 1 {
          assert rows[i] == init[i];
        }
      }
    }
  }

  /** Once the fold has thrown, later rows change nothing: no later entry is added. */
  lemma {:induction false} MessagesAbortIsFinal(rows: seq<Row>, more: seq<Row>)
    requires Messages(rows).Err?
    ensures Messages(rows + more) == Messages(rows)
  {
    if more != [] {
      var init := more[..|more| - 1];
      MessagesAbortIsFinal(rows, init);
      var all := rows + more;
      assert all[..|all| - 1] == rows + init;
      assert Messages(all) == Messages(rows + init);
    } else {
      assert rows + more == rows;
    }
  }

  /** The index of the first row whose id already occurred above it. */
  function FirstRepeat(rows: seq<Row>): (k: nat)
    requires !DistinctIds(rows)
    ensures k < |rows|
    ensures DistinctIds(rows[..k])
    ensures rows[k].id in Ids(rows[..k])
  {
    var init := rows[..|rows| - 1];
    if !DistinctIds(init) then
      var k := FirstRepeat(init);
      assert rows[..k] == init[..k];
      k
    else
      var k := |rows| - 1;
      assert rows[..k] == init;
      assert rows[k].id in Ids(init) by {
        DistinctIdsSnoc(rows);
      }
      k
  }

  /** The fold throws at a row whose id the rows above it already defined. */
  lemma MessagesSnocDuplicate(rows: seq<Row>)
    requires rows != []
    requires DistinctIds(rows[..|rows| - 1])
    requires rows[|rows| - 1].id in Ids(rows[..|rows| - 1])
    ensures Messages(rows) == Err(DuplicateMessageId(rows[|rows| - 1].id))
  {
    MessagesOkIff(rows[..|rows| - 1]);
  }

  /** A row whose id the distinct rows above it already hold makes the fold throw there. */
  lemma MessagesThrowAtRow(rows: seq<Row>, k: nat)
    requires k < |rows| && DistinctIds(rows[..k]) && rows[k].id in Ids(rows[..k])
    ensures Messages(rows[..k + 1]) == Err(DuplicateMessageId(rows[k].id))
  {
    var upto := rows[..k + 1];
    assert upto[..k] == rows[..k];
    MessagesSnocDuplicate(upto);
  }

  /** A prefix that throws makes the whole fold throw the same error. */
  lemma MessagesAbortPrefix(rows: seq<Row>, n: nat)
    requires n <= |rows| && Messages(rows[..n]).Err?
    ensures Messages(rows) == Messages(rows[..n])
  {
    MessagesAbortIsFinal(rows[..n], rows[n..]);
    assert rows[..n] + rows[n..] == rows;
  }

  /** With a repeated id, the build throws naming the id of the first repeat. */
  lemma DuplicateNamesFirstRepeat(rows: seq<Row>)
    requires !DistinctIds(rows)
    ensures Messages(rows) == Err(DuplicateMessageId(rows[FirstRepeat(rows)].id))
  {
    var k := FirstRepeat(rows);
    MessagesThrowAtRow(rows, k);
    MessagesAbortPrefix(rows, k + 1);
  }

  /** The reduce at lines 17-26, a loop that updates the accumulating dictionary in place. */
  method BuildMessages(rows: seq<Row>) returns (r: Result<Catalog, BuildError>)
    ensures r == Messages(rows)
  {
    var messages: Catalog := map[];
    var i := 0;
    while i < |rows|
      invariant 0 <= i <= |rows|
      invariant Messages(rows[..i]) == Ok(messages)
    {
      var id := rows[i].id;
      var text := rows[i].text;
      assert rows[..i + 1][..i] == rows[..i];
      if id in messages {
        MessagesAbortIsFinal(rows[..i + 1], rows[i + 1..]);
        assert rows[..i + 1] + rows[i + 1..] == rows;
        return Err(DuplicateMessageId(id));
      }
      messages := messages[id := text];
      i := i + 1;
    }
    assert rows[..i] == rows;
    return Ok(messages);
  }

  // ---------------------------------------------------------------------
  // Translations bundle (lines 31-38)
  // ---------------------------------------------------------------------

  /** The reduce over the languages: each language maps to its parsed catalog file. */
  function Translations(langs: seq<string>, dir: map<string, Catalog>): Result<map<string, Catalog>, BuildError>
  {
    if langs == [] then Ok(map[])
    else
      var lang := langs[|langs| - 1];
      match Translations(langs[..|langs| - 1], dir)
      case Err(e) => Err(e)
      case Ok(t) =>
        if LangFile(lang) in dir then Ok(t[lang := dir[LangFile(lang)]]) else Err(MissingCatalog(LangFile(lang)))
  }

  /**
   * The bundle has exactly one key per supported language, holding that
   * language's catalog file; it fails exactly when a catalog file is missing.
   */
  lemma {:induction false} TranslationsExact(langs: seq<string>, dir: map<string, Catalog>)
    ensures Translations(langs, dir).Ok? <==> forall l :: l in langs ==> LangFile(l) in dir
    ensures Translations(langs, dir).Ok? ==>
      var t := Translations(langs, dir).value;
      t.Keys == (set l | l in langs) && forall l :: l in langs ==> t[l] == dir[LangFile(l)]
    ensures Translations(langs, dir).Err? ==>
      exists l :: l in langs && LangFile(l) !in dir && Translations(langs, dir).error == MissingCatalog(LangFile(l))
  {
    if langs != [] {
      var init := langs[..|langs| - 1];
      var lang := langs[|langs| - 1];
      TranslationsExact(init, dir);
      assert langs == init + [lang];
      assert forall l :: l in langs <==> l in init || l == lang;
    }
  }

  method BuildTranslations(langs: seq<string>, dir: map<string, Catalog>) returns (r: Result<map<string, Catalog>, BuildError>)
    ensures r == Translations(langs, dir)
  {
    var t: map<string, Catalog> := map[];
    var i := 0;
    while i < |langs|
      invariant 0 <= i <= |langs|
      invariant Translations(langs[..i], dir) == Ok(t)
    {
      var lang := langs[i];
      assert langs[..i + 1][..i] == langs[..i];
      if LangFile(lang) !in dir {
        TranslationsAbortIsFinal(langs[..i + 1], langs[i + 1..], dir);
        assert langs[..i + 1] + langs[i + 1..] == langs;
        return Err(MissingCatalog(LangFile(lang)));
      }
      t := t[lang := dir[LangFile(lang)]];
      i := i + 1;
    }
    assert langs[..i] == langs;
    return Ok(t);
  }

  lemma {:induction false} TranslationsAbortIsFinal(langs: seq<string>, more: seq<string>, dir: map<string, Catalog>)
    requires Translations(langs, dir).Err?
    ensures Translations(langs + more, dir) == Translations(langs, dir)
  {
    if more != [] {
      var init := more[..|more| - 1];
      TranslationsAbortIsFinal(langs, init, dir);
      var all := langs + more;
      assert all[..|all| - 1] == langs + init;
      assert Translations(all, dir) == Translations(langs + init, dir);
    } else {
      assert langs + more == langs;
    }
  }

  // ---------------------------------------------------------------------
  // The whole script
  // ---------------------------------------------------------------------

  /** Whether every step of the script can go through. */
  ghost predicate Buildable(langs: seq<string>, localeData: map<string, string>, rows: seq<Row>, langDir: map<string, Catalog>)
  {
    (forall l :: l in langs ==> l in localeData) &&
    DistinctIds(rows) &&
    forall l :: l in langs ==> LangFile(l) == EnCatalogPath || LangFile(l) in langDir
  }

  /** The files the script wrote, in order, and the exception that stopped it, if any. */
  datatype Outcome = Outcome(writes: seq<Write>, failure: Option<BuildError>)

  /**
   * The script as a whole: write the locale data, build and write the English
   * catalog, then read every catalog (the English one as just written) into
   * the bundle and write it.
   */
  function Effects(listing: seq<string>, localeData: map<string, string>, rows: seq<Row>, langDir: map<string, Catalog>): Outcome
  {
    var langs := SupportedLanguages(listing);
    match LocaleDataParts(langs, localeData)
    case Err(e) => Outcome([], Some(e))
    case Ok(parts) =>
      var localeDataWrite := Write(LocaleDataPath, Text(Join(parts, LineSeparator)));
      match Messages(rows)
      case Err(e) => Outcome([localeDataWrite], Some(e))
      case Ok(m) =>
        var enWrite := Write(EnCatalogPath, Json(m));
        match Translations(langs, langDir[EnCatalogPath := m])
        case Err(e) => Outcome([localeDataWrite, enWrite], Some(e))
        case Ok(t) => Outcome([localeDataWrite, enWrite, Write(TranslationsPath, Script(BundlePrefix, t))], None)
  }

  /** The script runs to the end exactly when every step can go through, and then it wrote all three files. */
  lemma EffectsSucceedIff(listing: seq<string>, localeData: map<string, string>, rows: seq<Row>, langDir: map<string, Catalog>)
    ensures var o := Effects(listing, localeData, rows, langDir);
      (o.failure.None? <==> Buildable(SupportedLanguages(listing), localeData, rows, langDir)) &&
      (o.failure.None? ==> |o.writes| == 3)
  {
    var langs := SupportedLanguages(listing);
    MessagesOkIff(rows);
    if Messages(rows).Ok? {
      var dir := langDir[EnCatalogPath := Messages(rows).value];
      TranslationsExact(langs, dir);
      assert (forall l :: l in langs ==> LangFile(l) in dir) <==>
        (forall l :: l in langs ==> LangFile(l) == EnCatalogPath || LangFile(l) in langDir);
    }
  }

  /**
   * The writes happen in the order locale data, English catalog, bundle, and
   * stop at the failure: none before missing locale data, one before a
   * duplicate id, two before a missing catalog file, all three otherwise.
   */
  lemma EffectsWriteOrder(listing: seq<string>, localeData: map<string, string>, rows: seq<Row>, langDir: map<string, Catalog>)
    ensures var w := Effects(listing, localeData, rows, langDir).writes;
      |w| <= 3 &&
      (|w| > 0 ==> w[0].path == LocaleDataPath) &&
      (|w| > 1 ==> w[1].path == EnCatalogPath) &&
      (|w| > 2 ==> w[2].path == TranslationsPath)
    ensures var o := Effects(listing, localeData, rows, langDir);
      (o.failure.None? <==> |o.writes| == 3) &&
      (o.failure.Some? && o.failure.value.MissingLocaleData? ==> |o.writes| == 0) &&
      (o.failure.Some? && o.failure.value.DuplicateMessageId? ==> |o.writes| == 1) &&
      (o.failure.Some? && o.failure.value.MissingCatalog? ==> |o.writes| == 2)
  {
    MessagesOkIff(rows);
    if !DistinctIds(rows) {
      DuplicateNamesFirstRepeat(rows);
    } else {
      TranslationsExact(SupportedLanguages(listing), langDir[EnCatalogPath := Messages(rows).value]);
    }
  }

  /** A missing react-intl locale-data module stops the script before anything is written. */
  lemma EffectsMissingLocaleData(listing: seq<string>, localeData: map<string, string>, rows: seq<Row>, langDir: map<string, Catalog>, lang: string)
    requires lang in SupportedLanguages(listing) && lang !in localeData
    ensures var o := Effects(listing, localeData, rows, langDir);
      o.writes == [] && o.failure.Some? && o.failure.value.MissingLocaleData? && o.failure.value.lang !in localeData
  {
  }

  /**
   * A duplicate message id throws naming the first repeated id; by then the
   * locale data has been written, but neither lang/en.json nor the bundle.
   */
  lemma EffectsDuplicateId(listing: seq<string>, localeData: map<string, string>, rows: seq<Row>, langDir: map<string, Catalog>)
    requires forall l :: l in SupportedLanguages(listing) ==> l in localeData
    requires !DistinctIds(rows)
    ensures var o := Effects(listing, localeData, rows, langDir);
      o.failure == Some(DuplicateMessageId(rows[FirstRepeat(rows)].id)) &&
      |o.writes| == 1 && o.writes[0].path == LocaleDataPath
  {
    DuplicateNamesFirstRepeat(rows);
  }

  /**
   * The locale-data file is the languages' locale data joined by newlines:
   * the i-th language's data sits at the i-th place.
   */
  lemma EffectsLocaleData(listing: seq<string>, localeData: map<string, string>, rows: seq<Row>, langDir: map<string, Catalog>, i: nat)
    requires forall l :: l in SupportedLanguages(listing) ==> l in localeData
    requires i < |listing|
    ensures var w := Effects(listing, localeData, rows, langDir).writes;
      var langs := SupportedLanguages(listing);
      var parts := LocaleDataParts(langs, localeData).value;
      var at := Offset(parts, LineSeparator, i);
      |w| > 0 && w[0].content == Text(Join(parts, LineSeparator)) &&
      |parts| == |listing| && langs[i] in localeData &&
      at + |localeData[langs[i]]| <= |Join(parts, LineSeparator)| &&
      Join(parts, LineSeparator)[at..at + |localeData[langs[i]]|] == localeData[langs[i]]
  {
    var langs := SupportedLanguages(listing);
    var parts := LocaleDataParts(langs, localeData).value;
    assert parts[i] == localeData[langs[i]];
    JoinAt(parts, LineSeparator, i);
  }

  /** lang/en.json holds exactly one entry per CSV row, row id -> row text. */
  lemma EffectsEnglishCatalog(listing: seq<string>, localeData: map<string, string>, rows: seq<Row>, langDir: map<string, Catalog>)
    requires |Effects(listing, localeData, rows, langDir).writes| > 1
    ensures var w := Effects(listing, localeData, rows, langDir).writes;
      w[1].content.Json? &&
      var m := w[1].content.catalog;
      m.Keys == Ids(rows) && |m| == |rows| &&
      forall i :: 0 <= i < |rows| ==> m[rows[i].id] == rows[i].text
  {
    MessagesOkIff(rows);
    MessagesExact(rows);
  }

  /**
   * The bundle is the prefix followed by a map with exactly one key per
   * supported language, holding that language's catalog file as it is after
   * lang/en.json was written.
   */
  lemma EffectsBundle(listing: seq<string>, localeData: map<string, string>, rows: seq<Row>, langDir: map<string, Catalog>)
    requires |Effects(listing, localeData, rows, langDir).writes| > 2
    ensures var w := Effects(listing, localeData, rows, langDir).writes;
      var langs := SupportedLanguages(listing);
      w[2].content.Script? && w[2].content.prefix == BundlePrefix && w[1].content.Json? &&
      var t := w[2].content.bundle;
      t.Keys == (set l | l in langs) &&
      forall l :: l in langs ==>
        if LangFile(l) == EnCatalogPath then t[l] == w[1].content.catalog
        else LangFile(l) in langDir && t[l] == langDir[LangFile(l)]
  {
    var langs := SupportedLanguages(listing);
    var m := Messages(rows).value;
    TranslationsExact(langs, langDir[EnCatalogPath := m]);
  }

  /** The listed path ./lang/en.json yields the language code "en", whose catalog file it is. */
  lemma EnglishIsListed(listing: seq<string>, k: nat)
    requires k < |listing| && listing[k] == EnCatalogPath
    ensures SupportedLanguages(listing)[k] == "en"
    ensures "en" in SupportedLanguages(listing)
    ensures LangFile("en") == EnCatalogPath
  {
    assert LangFile("en") == EnCatalogPath;
    BasenameOfLangFile("en");
    assert SupportedLanguages(listing)[k] in SupportedLanguages(listing);
  }

  /**
   * Round trip: when lang/en.json was listed, the bundle's "en" entry is the
   * English catalog this run built from the CSV and wrote.
   */
  lemma EffectsRoundTripEnglish(listing: seq<string>, localeData: map<string, string>, rows: seq<Row>, langDir: map<string, Catalog>)
    requires EnCatalogPath in listing
    requires Effects(listing, localeData, rows, langDir).failure.None?
    ensures var w := Effects(listing, localeData, rows, langDir).writes;
      |w| == 3 && w[1].content.Json? && w[2].content.Script? &&
      "en" in w[2].content.bundle && w[2].content.bundle["en"] == w[1].content.catalog
  {
    var k :| 0 <= k < |listing| && listing[k] == EnCatalogPath;
    EnglishIsListed(listing, k);
    EffectsBundle(listing, localeData, rows, langDir);
  }

  /** The script itself: ordered writes into a log, stopping at the first exception. */
  method Run(listing: seq<string>, localeData: map<string, string>, rows: seq<Row>, langDir: map<string, Catalog>)
    returns (writes: seq<Write>, failure: Option<BuildError>)
    ensures Outcome(writes, failure) == Effects(listing, localeData, rows, langDir)
  {
    var langs := SupportedLanguages(listing);
    writes := [];
    var parts := LocaleDataParts(langs, localeData);
    if parts.Err? {
      return writes, Some(parts.error);
    }
    var localeDataWrite := Write(LocaleDataPath, Text(Join(parts.value, LineSeparator)));
    writes := writes + [localeDataWrite];

    var lang := BuildMessages(rows);
    if lang.Err? {
      return writes, Some(lang.error);
    }
    var enWrite := Write(EnCatalogPath, Json(lang.value));
    writes := writes + [enWrite];
    assert writes == [localeDataWrite, enWrite];

    var dir := langDir[EnCatalogPath := lang.value];
    var t := BuildTranslations(langs, dir);
    if t.Err? {
      return writes, Some(t.error);
    }
    writes := writes + [Write(TranslationsPath, Script(BundlePrefix, t.value))];
    failure := None;
  }
}
