/** Saving settings with buildEnvContent and loading them with parseEnvFile and enrichWithDbFields. */
module EnvRoundTrip {
  import opened Prelude
  import opened Text
  import UriComponent
  import opened DatabaseUrl
  import opened EnvFile

  // ---------------------------------------------------------------- one line

  /** What the parser makes of a value standing behind `KEY=`. */
  function Read(v: string): string {
    Unquote(Trim(TrimEnd(v)))
  }

  lemma ReadIsIdentityIff(v: string)
    ensures Read(v) == v <==> Trimmed(v) && !Quoted(v)
  {
    TrimEndFacts(v);
    TrimFacts(v);
    TrimFacts(TrimEnd(v));
  }

  predicate KeyChar(c: char) {
    'A' <= c <= 'Z' || c == '_'
  }

  predicate KeyOk(key: string) {
    key != "" && forall c :: c in key ==> KeyChar(c)
  }

  predicate LineOk(line: Line) {
    match line
    case Comment(text) => text == "" || text[0] == '#'
    case Setting(key, _) => KeyOk(key)
  }

  lemma ParseComment(text: string)
    requires text == "" || text[0] == '#'
    ensures ParseLine(text) == None
  {
    hide Cut;
    if text != "" {
      assert text == "#" + text[1..];
      TrimAfterSolidStart("#", text[1..]);
    }
  }

  lemma ParseSetting(key: string, value: string)
    requires KeyOk(key)
    ensures ParseLine(key + "=" + value) == Some((key, Read(value)))
  {
    var front := key + "=";
    var trimmed := front + TrimEnd(value);
    assert key[0] in key && key[|key| - 1] in key && !KeyChar('=');
    assert front[0] == key[0];
    TrimAfterSolidStart(front, value);
    TrimFacts(key);
    CutExact(trimmed, '=', key, TrimEnd(value));
    assert trimmed[0] == key[0];
    hide Cut, Trim, TrimEnd, Unquote, KeyOk;
  }

  lemma ParseRendered(line: Line)
    requires LineOk(line)
    ensures ParseLine(Render(line)) == match line case Comment(_) => None case Setting(key, value) => Some((key, Read(value)))
  {
    match line {
      case Comment(text) => ParseComment(text);
      case Setting(key, value) => ParseSetting(key, value);
    }
  }

  // ---------------------------------------------------------------- many lines

  /** The settings a list of lines stands for. */
  function Meaning(lines: seq<Line>): Settings {
    if lines == [] then map[]
    else
      var earlier := Meaning(lines[..|lines| - 1]);
      match lines[|lines| - 1]
      case Comment(_) => earlier
      case Setting(key, value) => earlier[key := Read(value)]
  }

  lemma {:induction false} ParseLinesRendered(lines: seq<Line>)
    requires forall line :: line in lines ==> LineOk(line)
    ensures ParseLines(Rendered(lines)) == Meaning(lines)
  {
    hide LineOk, ParseLine, Read, Render;
    if lines != [] {
      var n := |lines| - 1;
      ParseLinesRendered(lines[..n]);
      assert Rendered(lines)[..n] == Rendered(lines[..n]);
      ParseRendered(lines[n]);
    }
  }

  /** A key that is set to one value only means that value; a key that is not set means nothing. */
  lemma {:induction false} MeaningOfKey(lines: seq<Line>, key: string, value: string)
    requires forall w :: Setting(key, w) in lines ==> w == value
    ensures key in Meaning(lines) ==> Meaning(lines)[key] == Read(value)
    ensures key in Meaning(lines) <==> Setting(key, value) in lines
  {
    hide Read;
    if lines != [] {
      var n := |lines| - 1;
      assert lines == lines[..n] + [lines[n]];
      MeaningOfKey(lines[..n], key, value);
      if lines[n].Setting? && lines[n].key == key { assert Setting(key, lines[n].value) in lines; }
    }
  }

  // ---------------------------------------------------------------- the lines of the file

  /** What the definition table must satisfy; ENV_DEFINITIONS does. */
  predicate WellFormed(defs: seq<EnvDefinition>) {
    && (forall d :: d in defs ==> KeyOk(d.key) && d.key != "DATABASE_URL" && d.group in GROUP_ORDER)
    && (forall d :: d in defs ==> (IsDbKey(d.key) <==> d.group == "database"))
    && (forall d, e :: d in defs && e in defs && d.key == e.key ==> d == e)
    && EnvDefinition("DB_HOST", "database", "localhost") in defs && EnvDefinition("DB_PORT", "database", "3306") in defs
    && EnvDefinition("DB_USER", "database", "root") in defs && EnvDefinition("DB_PASSWORD", "database", "") in defs
    && EnvDefinition("DB_NAME", "database", "nestjs_engine_db") in defs
  }

  /** The definition puts this line into the file. */
  predicate Emits(d: EnvDefinition, data: Settings, key: string, value: string) {
    !IsDbKey(d.key) && d.key == key && SettingOf(data, d) == value
  }

  ghost predicate Printed(defs: seq<EnvDefinition>, data: Settings, key: string, value: string) {
    || (key == "DATABASE_URL" && value == BuildDatabaseUrl(FieldsOf(data)))
    || exists d :: d in defs && Emits(d, data, key, value)
  }

  lemma {:induction false} SettingLinesHold(defs: seq<EnvDefinition>, data: Settings, key: string, value: string)
    ensures Setting(key, value) in SettingLines(defs, data) <==> exists d :: d in defs && Emits(d, data, key, value)
  {
    hide SettingOf, IsDbKey;
    if defs != [] {
      var n := |defs| - 1;
      assert defs == defs[..n] + [defs[n]];
      SettingLinesHold(defs[..n], data, key, value);
      assert Setting(key, value) in SettingLines(defs, data)
        <==> Setting(key, value) in SettingLines(defs[..n], data) || Emits(defs[n], data, key, value);
    }
  }

  lemma {:induction false} SectionsHold(defs: seq<EnvDefinition>, groups: seq<string>, data: Settings, line: Line)
    ensures line in Sections(defs, groups, data) <==> exists g :: g in groups && line in Section(defs, g, data)
  {
    hide Section;
    if groups != [] {
      var n := |groups| - 1;
      assert groups == groups[..n] + [groups[n]];
      SectionsHold(defs, groups[..n], data, line);
    }
  }

  lemma SectionHolds(defs: seq<EnvDefinition>, group: string, data: Settings, key: string, value: string)
    ensures Setting(key, value) in Section(defs, group, data)
            <==> if group == "database" then key == "DATABASE_URL" && value == BuildDatabaseUrl(FieldsOf(data))
                 else exists d :: d in defs && d.group == group && Emits(d, data, key, value)
  {
    hide Emits, BuildDatabaseUrl, FieldsOf, GroupComment, SettingLines;
    SettingLinesHold(InGroup(defs, group), data, key, value);
  }

  /** The file assigns exactly the settings outside the database group, and DATABASE_URL. */
  lemma FileHolds(defs: seq<EnvDefinition>, data: Settings, timestamp: string, key: string, value: string)
    requires WellFormed(defs)
    ensures Setting(key, value) in FileLines(defs, data, timestamp) <==> Printed(defs, data, key, value)
  {
    hide Section, Sections, BuildDatabaseUrl, FieldsOf, SettingOf, KeyOk, IsDbKey;
    var line := Setting(key, value);
    SectionsHold(defs, GROUP_ORDER, data, line);
    assert line in FileLines(defs, data, timestamp) <==> line in Sections(defs, GROUP_ORDER, data);
    SectionHolds(defs, "database", data, key, value);
    assert "database" in GROUP_ORDER;
    forall g | g in GROUP_ORDER && line in Section(defs, g, data) ensures Printed(defs, data, key, value) {
      SectionHolds(defs, g, data, key, value);
    }
    forall d | d in defs && Emits(d, data, key, value) ensures line in Section(defs, d.group, data) {
      SectionHolds(defs, d.group, data, key, value);
    }
  }

  // ---------------------------------------------------------------- splitting the file again

  predicate LineFits(line: Line) {
    LineOk(line) && '\n' !in Render(line)
  }

  /** No printed value holds a line break. */
  predicate OneLined(defs: seq<EnvDefinition>, data: Settings) {
    && (forall d :: d in defs && !IsDbKey(d.key) ==> '\n' !in SettingOf(data, d))
    && '\n' !in BuildDatabaseUrl(FieldsOf(data))
  }

  lemma {:induction false} SettingLinesAreSettings(defs: seq<EnvDefinition>, data: Settings, line: Line)
    requires line in SettingLines(defs, data)
    ensures line.Setting?
  {
    var n := |defs| - 1;
    if line in SettingLines(defs[..n], data) { SettingLinesAreSettings(defs[..n], data, line); }
  }

  lemma GroupCommentFits(group: string)
    requires group in GROUP_ORDER
    ensures LineFits(Comment(GroupComment(group)))
  {
  }

  lemma SectionCommentFits(defs: seq<EnvDefinition>, group: string, data: Settings, text: string)
    requires group in GROUP_ORDER && Comment(text) in Section(defs, group, data)
    ensures LineFits(Comment(text))
  {
    GroupCommentFits(group);
    var settings := SettingLines(InGroup(defs, group), data);
    if Comment(text) in settings { SettingLinesAreSettings(InGroup(defs, group), data, Comment(text)); }
    hide InGroup, SettingLines, BuildDatabaseUrl, FieldsOf, GroupComment;
    assert text == "" || text == GroupComment(group);
  }

  lemma CommentFits(defs: seq<EnvDefinition>, data: Settings, timestamp: string, text: string)
    requires '\n' !in timestamp && Comment(text) in FileLines(defs, data, timestamp)
    ensures LineFits(Comment(text))
  {
    hide Sections, Section;
    SectionsHold(defs, GROUP_ORDER, data, Comment(text));
    if Comment(text) in Sections(defs, GROUP_ORDER, data) {
      var g :| g in GROUP_ORDER && Comment(text) in Section(defs, g, data);
      SectionCommentFits(defs, g, data, text);
    } else if Comment(text) in Header(timestamp) {
      HeaderFits(timestamp, text);
    }
  }

  lemma HeaderFits(timestamp: string, text: string)
    requires '\n' !in timestamp && Comment(text) in Header(timestamp)
    ensures LineFits(Comment(text))
  {
    TitleFits();
    TimestampFits(timestamp);
    hide LineFits;
    assert text == "" || text == "# App" || text == "# NestJS Engine Environment Configuration"
           || text == "# Generated by Setup Wizard at " + timestamp;
    GroupCommentFits("app");
    EmptyFits();
  }

  lemma TitleFits()
    ensures LineFits(Comment("# NestJS Engine Environment Configuration"))
  {
  }

  lemma TimestampFits(timestamp: string)
    requires '\n' !in timestamp
    ensures LineFits(Comment("# Generated by Setup Wizard at " + timestamp))
  {
    var prefix := "# Generated by Setup Wizard at ";
    assert '\n' !in prefix;
  }

  lemma EmptyFits()
    ensures LineFits(Comment(""))
  {
  }

  lemma SettingFits(key: string, value: string)
    requires KeyOk(key) && '\n' !in value
    ensures LineFits(Setting(key, value))
  {
    assert !KeyChar('\n');
  }

  lemma PrintedFits(defs: seq<EnvDefinition>, data: Settings, key: string, value: string)
    requires WellFormed(defs) && OneLined(defs, data) && Printed(defs, data, key, value)
    ensures KeyOk(key) && '\n' !in value
  {
    UrlKeyOk();
    hide BuildDatabaseUrl, FieldsOf, SettingOf, KeyOk, IsDbKey;
    if !(key == "DATABASE_URL" && value == BuildDatabaseUrl(FieldsOf(data))) {
      var d :| d in defs && Emits(d, data, key, value);
      assert KeyOk(d.key);
    }
  }

  lemma FileLinesFit(defs: seq<EnvDefinition>, data: Settings, timestamp: string, line: Line)
    requires WellFormed(defs) && '\n' !in timestamp && OneLined(defs, data)
    requires line in FileLines(defs, data, timestamp)
    ensures LineFits(line)
  {
    hide FileLines, BuildDatabaseUrl, FieldsOf, SettingOf, KeyOk, IsDbKey, LineFits;
    match line {
      case Comment(text) => CommentFits(defs, data, timestamp, text);
      case Setting(key, value) =>
        FileHolds(defs, data, timestamp, key, value);
        PrintedFits(defs, data, key, value);
        SettingFits(key, value);
    }
  }

  lemma UrlKeyOk()
    ensures KeyOk("DATABASE_URL")
  {
  }

  lemma ContentParses(defs: seq<EnvDefinition>, data: Settings, timestamp: string)
    requires WellFormed(defs) && '\n' !in timestamp && OneLined(defs, data)
    ensures ParseContent(Some(BuildContent(defs, data, timestamp))) == Meaning(FileLines(defs, data, timestamp))
  {
    hide FileLines, WellFormed, OneLined, LineOk, Render, Meaning, ParseLines;
    var lines := FileLines(defs, data, timestamp);
    forall line | line in lines ensures LineFits(line) { FileLinesFit(defs, data, timestamp, line); }
    assert |lines| > 0 by { FileIsNotEmpty(defs, data, timestamp); }
    forall text | text in Rendered(lines) ensures '\n' !in text {
      var i :| 0 <= i < |lines| && Rendered(lines)[i] == text;
      assert lines[i] in lines;
    }
    SplitJoin(Rendered(lines), '\n');
    ParseLinesRendered(lines);
  }

  lemma FileIsNotEmpty(defs: seq<EnvDefinition>, data: Settings, timestamp: string)
    ensures |FileLines(defs, data, timestamp)| > 0
  {
  }

  // ---------------------------------------------------------------- reading the file back

  /** Load what was saved. */
  function ReadBack(defs: seq<EnvDefinition>, data: Settings, timestamp: string): Result<Settings, Error> {
    Enriched(ParseContent(Some(BuildContent(defs, data, timestamp))))
  }

  /** Every setting of the table has its saved value, or its default. */
  predicate Restored(defs: seq<EnvDefinition>, data: Settings, loaded: Result<Settings, Error>) {
    loaded.Ok? && forall d :: d in defs ==> d.key in loaded.value && loaded.value[d.key] == SettingOf(data, d)
  }

  /** `=` in a value, `#` behind the start, quotes that do not match: all of these survive. */
  predicate Clean(v: string) {
    '\n' !in v && Trimmed(v) && !Quoted(v)
  }

  predicate EndsSolid(s: string) {
    s == "" || !IsSpace(s[|s| - 1])
  }

  predicate UrlSurvives(f: DbFields) {
    Representable(f) && '\n' !in f.user && '\n' !in f.host && EndsSolid(f.dbName)
  }

  predicate Survives(defs: seq<EnvDefinition>, data: Settings) {
    && (forall d :: d in defs && !IsDbKey(d.key) ==> Clean(SettingOf(data, d)))
    && UrlSurvives(FieldsOf(data))
  }

  lemma ReadUrl(f: DbFields)
    ensures Read(BuildDatabaseUrl(f)) == TrimEnd(BuildDatabaseUrl(f)) && TrimEnd(BuildDatabaseUrl(f)) != ""
  {
    hide UriComponent.Encode, Trim;
    var url := BuildDatabaseUrl(f);
    var rest := url[|SCHEME|..];
    assert url == SCHEME + rest;
    TrimEndAppend(SCHEME, rest);
    assert TrimEnd(url)[0] == 'm';
    TrimEndFacts(url);
    TrimFacts(TrimEnd(url));
  }

  lemma SettingMeans(defs: seq<EnvDefinition>, data: Settings, timestamp: string, d: EnvDefinition)
    requires WellFormed(defs) && d in defs
    ensures var m := Meaning(FileLines(defs, data, timestamp));
            if IsDbKey(d.key) then d.key !in m else d.key in m && m[d.key] == Read(SettingOf(data, d))
  {
    hide FileLines, Meaning, BuildDatabaseUrl, FieldsOf, SettingOf, KeyOk, IsDbKey, Read;
    var lines := FileLines(defs, data, timestamp);
    var value := SettingOf(data, d);
    forall w ensures Setting(d.key, w) in lines <==> Emits(d, data, d.key, w) {
      FileHolds(defs, data, timestamp, d.key, w);
    }
    MeaningOfKey(lines, d.key, value);
  }

  lemma UrlMeans(defs: seq<EnvDefinition>, data: Settings, timestamp: string)
    requires WellFormed(defs)
    ensures var m := Meaning(FileLines(defs, data, timestamp));
            var url := BuildDatabaseUrl(FieldsOf(data));
            Truthy(m, "DATABASE_URL") && m["DATABASE_URL"] == TrimEnd(url)
  {
    hide FileLines, Meaning, BuildDatabaseUrl, FieldsOf, SettingOf, KeyOk, IsDbKey, Read;
    var lines := FileLines(defs, data, timestamp);
    var url := BuildDatabaseUrl(FieldsOf(data));
    forall w ensures Setting("DATABASE_URL", w) in lines <==> w == url {
      FileHolds(defs, data, timestamp, "DATABASE_URL", w);
    }
    MeaningOfKey(lines, "DATABASE_URL", url);
    ReadUrl(FieldsOf(data));
  }

  predicate NoDbKeys(m: Settings) {
    "DB_HOST" !in m && "DB_PORT" !in m && "DB_USER" !in m && "DB_PASSWORD" !in m && "DB_NAME" !in m
  }

  predicate HasFields(m: Settings, f: DbFields) {
    && "DB_HOST" in m && m["DB_HOST"] == f.host && "DB_PORT" in m && m["DB_PORT"] == f.port
    && "DB_USER" in m && m["DB_USER"] == f.user && "DB_PASSWORD" in m && m["DB_PASSWORD"] == f.password
    && "DB_NAME" in m && m["DB_NAME"] == f.dbName
  }

  lemma WithFieldsHasFields(m: Settings, f: DbFields)
    requires NoDbKeys(m)
    ensures HasFields(WithFields(m, f), f)
    ensures forall k :: !IsDbKey(k) ==> (k in WithFields(m, f) <==> k in m) && (k in m ==> WithFields(m, f)[k] == m[k])
  {
  }

  /** The fields of the URL are the settings of the database group. */
  lemma RestoredFields(defs: seq<EnvDefinition>, data: Settings, m: Settings)
    requires WellFormed(defs)
    ensures (forall d :: d in defs && IsDbKey(d.key) ==> d.key in m && m[d.key] == SettingOf(data, d)) <==> HasFields(m, FieldsOf(data))
  {
    hide KeyOk, OrElse;
  }

  lemma RestoredGivenOneLined(defs: seq<EnvDefinition>, data: Settings, timestamp: string)
    requires WellFormed(defs) && '\n' !in timestamp && OneLined(defs, data)
    ensures Restored(defs, data, ReadBack(defs, data, timestamp))
            <==> (forall d :: d in defs && !IsDbKey(d.key) ==> Read(SettingOf(data, d)) == SettingOf(data, d))
                 && ParseDatabaseUrl(TrimEnd(BuildDatabaseUrl(FieldsOf(data)))) == Ok(FieldsOf(data))
  {
    hide Read, Meaning, FileLines, BuildDatabaseUrl, FieldsOf, SettingOf, ParseDatabaseUrl, TrimEnd, WithFields, ParseContent,
         BuildContent, OneLined, IsDbKey, KeyOk, HasFields;
    var m := Meaning(FileLines(defs, data, timestamp));
    ContentParses(defs, data, timestamp);
    UrlMeans(defs, data, timestamp);
    forall d | d in defs
      ensures if IsDbKey(d.key) then d.key !in m else d.key in m && m[d.key] == Read(SettingOf(data, d))
    {
      SettingMeans(defs, data, timestamp, d);
    }
    match ParseDatabaseUrl(TrimEnd(BuildDatabaseUrl(FieldsOf(data)))) {
      case Err(_) =>
      case Ok(f) =>
        DbKeysInTable(defs);
        WithFieldsHasFields(m, f);
        RestoredFields(defs, data, WithFields(m, f));
        SameFields(WithFields(m, f), f, FieldsOf(data));
    }
  }

  lemma DbKeysInTable(defs: seq<EnvDefinition>)
    requires WellFormed(defs)
    ensures forall k :: IsDbKey(k) ==> exists d :: d in defs && d.key == k
  {
    hide KeyOk;
  }

  lemma SameFields(m: Settings, f: DbFields, g: DbFields)
    requires HasFields(m, f)
    ensures HasFields(m, g) <==> f == g
  {
  }

  // ---------------------------------------------------------------- the condition on the input

  lemma LastOfUrl(f: DbFields)
    requires f.dbName != ""
    ensures var url := BuildDatabaseUrl(f); url != "" && url[|url| - 1] == f.dbName[|f.dbName| - 1]
  {
    hide UriComponent.Encode;
  }

  /** A matching URL ends in its database name. */
  lemma LastOfMatch(url: string, g: Groups)
    requires Matches(url, g)
    ensures url != "" && g.dbName != "" && url[|url| - 1] == g.dbName[|g.dbName| - 1]
  {
  }

  lemma UrlIsOneLine(f: DbFields)
    requires '\n' !in f.user && '\n' !in f.host && '\n' !in f.port && '\n' !in f.dbName
    ensures '\n' !in BuildDatabaseUrl(f)
  {
    UriComponent.EncodeIsSafe(f.password);
    assert !UriComponent.LetterDigitOrMark('\n');
    hide UriComponent.Encode, UriComponent.LetterDigitOrMark;
    assert '\n' !in SCHEME;
  }

  lemma NameIsNotEmpty(f: DbFields)
    requires Representable(f)
    ensures f.dbName != ""
  {
  }

  lemma DigitsAreOneLine(f: DbFields)
    requires Representable(f)
    ensures '\n' !in f.port && '\n' !in f.dbName
  {
  }

  /** The printed URL survives the trimming of its line exactly when its last character is no white space. */
  lemma TrimmedUrlParsesIff(f: DbFields)
    ensures ParseDatabaseUrl(TrimEnd(BuildDatabaseUrl(f))) == Ok(f)
            <==> Representable(f) && EndsSolid(f.dbName)
  {
    hide BuildDatabaseUrl, TrimEnd, Match, Matches, UriComponent.Decode, UriComponent.Encode, Digits, OneLine, NonEmptyWithout, IsSpace;
    var url := BuildDatabaseUrl(f);
    var trimmed := TrimEnd(url);
    TrimEndFacts(url);
    if Representable(f) && EndsSolid(f.dbName) {
      NameIsNotEmpty(f);
      LastOfUrl(f);
      DatabaseUrlRoundTripIff(f);
    }
    if ParseDatabaseUrl(trimmed) == Ok(f) {
      ParsedIsRepresentable(trimmed, f);
      match Match(trimmed) {
        case None => FallbackEndsSolid();
        case Some(g) =>
          MatchIsTheRegex(trimmed, g);
          LastOfMatch(trimmed, g);
      }
    }
  }

  lemma FallbackEndsSolid()
    ensures EndsSolid(DEFAULT_FIELDS.dbName)
  {
  }

  // ---------------------------------------------------------------- line breaks

  /** Nothing the loader returns holds a line break, except a password decoded from the URL. */
  lemma LoadedIsOneLine(content: string, loaded: Settings)
    requires Enriched(ParseContent(Some(content))) == Ok(loaded)
    ensures forall k :: k in loaded && k != "DB_PASSWORD" ==> '\n' !in loaded[k]
  {
    hide ParseLines, ParseDatabaseUrl, Split;
    var values := ParseContent(Some(content));
    ParsedValuesAreOneLine(Split(content, '\n'));
    if Truthy(values, "DATABASE_URL") {
      ParsedFieldsAreOneLine(values["DATABASE_URL"], ParseDatabaseUrl(values["DATABASE_URL"]).value);
    }
  }

  lemma ParsedFieldsAreOneLine(url: string, f: DbFields)
    requires '\n' !in url && ParseDatabaseUrl(url) == Ok(f)
    ensures '\n' !in f.host && '\n' !in f.port && '\n' !in f.user && '\n' !in f.dbName
  {
    hide Match, UriComponent.Decode;
    match Match(url) {
      case None =>
      case Some(g) => MatchIsTheRegex(url, g);
    }
  }

  /** Settings that came back were printed without a line break. */
  lemma RestoredIsOneLined(defs: seq<EnvDefinition>, data: Settings, timestamp: string)
    requires WellFormed(defs)
    ensures Restored(defs, data, ReadBack(defs, data, timestamp)) ==> OneLined(defs, data)
  {
    hide BuildContent, ParseContent, Enriched, BuildDatabaseUrl, SettingOf, KeyOk;
    if Restored(defs, data, ReadBack(defs, data, timestamp)) {
      var loaded := ReadBack(defs, data, timestamp).value;
      LoadedIsOneLine(BuildContent(defs, data, timestamp), loaded);
      RestoredFields(defs, data, loaded);
      UrlIsOneLine(FieldsOf(data));
    }
  }

  // ---------------------------------------------------------------- the round trip

  /** Loading a saved file restores every setting exactly when the values are of the kind the format can carry. */
  lemma SettingsComeBackIff(defs: seq<EnvDefinition>, data: Settings, timestamp: string)
    requires WellFormed(defs) && '\n' !in timestamp
    ensures Restored(defs, data, ReadBack(defs, data, timestamp)) <==> Survives(defs, data)
  {
    hide Restored, ReadBack, WellFormed, FieldsOf, BuildDatabaseUrl, ParseDatabaseUrl, Representable, TrimEnd, IsSpace, SettingOf, IsDbKey,
         Read, Trimmed, Quoted;
    var f := FieldsOf(data);
    TrimmedUrlParsesIff(f);
    forall d | d in defs ensures Read(SettingOf(data, d)) == SettingOf(data, d) <==> Trimmed(SettingOf(data, d)) && !Quoted(SettingOf(data, d)) {
      ReadIsIdentityIff(SettingOf(data, d));
    }
    if Survives(defs, data) {
      DigitsAreOneLine(f);
      UrlIsOneLine(f);
      RestoredGivenOneLined(defs, data, timestamp);
    }
    if Restored(defs, data, ReadBack(defs, data, timestamp)) {
      RestoredIsOneLined(defs, data, timestamp);
      RestoredGivenOneLined(defs, data, timestamp);
      OneLineUrlFields(f);
    }
  }

  lemma OneLineUrlFields(f: DbFields)
    requires '\n' !in BuildDatabaseUrl(f)
    ensures '\n' !in f.user && '\n' !in f.host
  {
    hide UriComponent.Encode;
  }

  /** In particular: each value given in the form comes back, and a key left out comes back as its default. */
  lemma SavedValuesComeBack(defs: seq<EnvDefinition>, data: Settings, timestamp: string, d: EnvDefinition)
    requires WellFormed(defs) && '\n' !in timestamp && Survives(defs, data) && d in defs
    ensures var loaded := ReadBack(defs, data, timestamp);
            && loaded.Ok? && d.key in loaded.value
            && (d.key in data && data[d.key] != "" ==> loaded.value[d.key] == data[d.key])
            && (d.key !in data ==> loaded.value[d.key] == d.defaultValue)
            && (d.key in data && data[d.key] == "" ==>
                  loaded.value[d.key] == if d.key in {"DB_HOST", "DB_PORT", "DB_USER", "DB_PASSWORD", "DB_NAME"} then d.defaultValue else "")
  {
    SettingsComeBackIff(defs, data, timestamp);
    hide ReadBack, WellFormed, Survives;
  }

  // ---------------------------------------------------------------- the table of the setup wizard

  /** An index for every key of the table, so that the table's keys differ. */
  function KeyIndex(key: string): nat {
    if |key| == 4 then 1
    else if |key| == 7 then (if key[3] == 'H' then 3 else if key[3] == 'P' then 4 else if key[3] == 'U' then 5 else if key[3] == 'N' then 7 else 22)
    else if |key| == 8 then 0
    else if |key| == 10 then (if key[6] == 'M' then 8 else if key[6] == 'H' then 9 else if key[6] == 'P' then 10 else 12)
    else if |key| == 11 then (if key[0] == 'A' then 2 else 6)
    else if |key| == 12 then (if key[0] == 'C' then 21 else if key[0] == 'S' then 24 else 25)
    else if |key| == 14 then (if key[0] == 'R' then 11 else 19)
    else if |key| == 15 then 23
    else if |key| == 16 then (if key[0] == 'G' then 15 else 20)
    else if |key| == 19 then 17
    else if |key| == 20 then (if key[0] == 'G' then 16 else 18)
    else if |key| == 21 then 13
    else 14
  }

  predicate KeyAt(key: string, i: nat) {
    KeyOk(key) && KeyIndex(key) == i
  }

  lemma DbKeyIndex(key: string)
    ensures IsDbKey(key) ==> 3 <= KeyIndex(key) <= 7
    ensures KeyIndex("DATABASE_URL") == 25
  {
  }

  lemma AppAndDatabaseKeys()
    ensures KeyAt("NODE_ENV", 0)
    ensures KeyAt("PORT", 1)
    ensures KeyAt("API_VERSION", 2)
    ensures KeyAt("DB_HOST", 3)
    ensures KeyAt("DB_PORT", 4)
    ensures KeyAt("DB_USER", 5)
    ensures KeyAt("DB_PASSWORD", 6)
    ensures KeyAt("DB_NAME", 7)
  {
  }

  lemma RedisKeys()
    ensures KeyAt("REDIS_MODE", 8)
    ensures KeyAt("REDIS_HOST", 9)
    ensures KeyAt("REDIS_PORT", 10)
    ensures KeyAt("REDIS_PASSWORD", 11)
    ensures KeyAt("JWT_SECRET", 12)
  {
  }

  lemma TokenKeys()
    ensures KeyAt("JWT_ACCESS_EXPIRES_IN", 13)
    ensures KeyAt("JWT_REFRESH_EXPIRES_IN", 14)
    ensures KeyAt("GOOGLE_CLIENT_ID", 15)
  {
  }

  lemma GoogleKeys()
    ensures KeyAt("GOOGLE_CLIENT_SECRET", 16)
    ensures KeyAt("GOOGLE_CALLBACK_URL", 17)
    ensures KeyAt("MAX_DEVICES_PER_USER", 18)
  {
  }

  lemma EtcKeys()
    ensures KeyAt("ENCRYPTION_KEY", 19)
    ensures KeyAt("DEFAULT_TIMEZONE", 20)
    ensures KeyAt("CORS_ORIGINS", 21)
  {
  }

  lemma TailKeys()
    ensures KeyAt("LOG_DIR", 22)
    ensures KeyAt("SWAGGER_ENABLED", 23)
    ensures KeyAt("SWAGGER_PATH", 24)
  {
  }

  predicate EntryOk(d: EnvDefinition, i: nat) {
    KeyAt(d.key, i) && d.group in GROUP_ORDER && (IsDbKey(d.key) <==> d.group == "database")
  }

  lemma TableOk(i: nat)
    requires i < |ENV_DEFINITIONS|
    ensures EntryOk(ENV_DEFINITIONS[i], i)
  {
    AppAndDatabaseKeys();
    RedisKeys();
    TokenKeys();
    GoogleKeys();
    EtcKeys();
    TailKeys();
    DbKeyIndex(ENV_DEFINITIONS[i].key);
    hide KeyOk, KeyIndex;
  }

  lemma DbDefinitions()
    ensures ENV_DEFINITIONS[3] == EnvDefinition("DB_HOST", "database", "localhost")
    ensures ENV_DEFINITIONS[4] == EnvDefinition("DB_PORT", "database", "3306")
    ensures ENV_DEFINITIONS[5] == EnvDefinition("DB_USER", "database", "root")
    ensures ENV_DEFINITIONS[6] == EnvDefinition("DB_PASSWORD", "database", "")
    ensures ENV_DEFINITIONS[7] == EnvDefinition("DB_NAME", "database", "nestjs_engine_db")
  {
  }

  lemma TableWellFormed(defs: seq<EnvDefinition>)
    requires |defs| > 7
    requires forall i :: 0 <= i < |defs| ==> EntryOk(defs[i], i)
    requires forall i :: 0 <= i < |defs| ==> defs[i].key != "DATABASE_URL"
    requires defs[3] == EnvDefinition("DB_HOST", "database", "localhost") && defs[4] == EnvDefinition("DB_PORT", "database", "3306")
    requires defs[5] == EnvDefinition("DB_USER", "database", "root") && defs[6] == EnvDefinition("DB_PASSWORD", "database", "")
    requires defs[7] == EnvDefinition("DB_NAME", "database", "nestjs_engine_db")
    ensures WellFormed(defs)
  {
    hide KeyOk, KeyIndex, IsDbKey;
    forall d, e | d in defs && e in defs && d.key == e.key ensures d == e {
      var i :| 0 <= i < |defs| && defs[i] == d;
      var j :| 0 <= j < |defs| && defs[j] == e;
    }
  }

  lemma EnvDefinitionsAreWellFormed()
    ensures WellFormed(ENV_DEFINITIONS)
  {
    hide EntryOk, WellFormed, KeyIndex;
    forall i | 0 <= i < |ENV_DEFINITIONS| ensures EntryOk(ENV_DEFINITIONS[i], i) && ENV_DEFINITIONS[i].key != "DATABASE_URL" {
      TableOk(i);
      DbKeyIndex(ENV_DEFINITIONS[i].key);
      EntryIndex(ENV_DEFINITIONS[i], i);
    }
    DbDefinitions();
    TableWellFormed(ENV_DEFINITIONS);
  }

  lemma EntryIndex(d: EnvDefinition, i: nat)
    requires EntryOk(d, i)
    ensures KeyIndex(d.key) == i
  {
  }

  /** The wizard's own table: what is saved from any form comes back when it is loaded, if and only if it survives. */
  lemma WizardRestoresIff(data: Settings, timestamp: string)
    requires '\n' !in timestamp
    ensures Restored(ENV_DEFINITIONS, data, ReadBack(ENV_DEFINITIONS, data, timestamp)) <==> Survives(ENV_DEFINITIONS, data)
  {
    hide Restored, ReadBack, Survives, WellFormed;
    EnvDefinitionsAreWellFormed();
    SettingsComeBackIff(ENV_DEFINITIONS, data, timestamp);
  }

  /** A quoted Redis password comes back without its quotes. */
  lemma QuotedPasswordIsLost(timestamp: string)
    requires '\n' !in timestamp
    ensures var data := map["REDIS_PASSWORD" := "'secret'"];
            !Restored(ENV_DEFINITIONS, data, ReadBack(ENV_DEFINITIONS, data, timestamp))
  {
    hide Restored, ReadBack, UrlSurvives, KeyOk, FieldsOf, BuildDatabaseUrl;
    var data := map["REDIS_PASSWORD" := "'secret'"];
    var d := EnvDefinition("REDIS_PASSWORD", "redis", "");
    WizardRestoresIff(data, timestamp);
    RedisPasswordDefinition();
    assert !Clean(SettingOf(data, d));
  }

  lemma RedisPasswordDefinition()
    ensures var d := EnvDefinition("REDIS_PASSWORD", "redis", ""); d in ENV_DEFINITIONS && !IsDbKey(d.key)
  {
    TableOk(11);
    assert ENV_DEFINITIONS[11] == EnvDefinition("REDIS_PASSWORD", "redis", "");
    assert |"redis"| != |"database"|;
  }
}
