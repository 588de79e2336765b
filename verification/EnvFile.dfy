/** parseEnvFile, enrichWithDbFields and buildEnvContent: settings printed to an .env file and read back. */
module EnvFile {
  import opened Prelude
  import opened Text
  import UriComponent
  import opened DatabaseUrl

  type Settings = map<string, string>

  /** What the printer and the parser use of a definition. */
  datatype EnvDefinition = EnvDefinition(key: string, group: string, defaultValue: string)

  const ENV_DEFINITIONS: seq<EnvDefinition> := [
    EnvDefinition("NODE_ENV", "app", "local"),
    EnvDefinition("PORT", "app", "3000"),
    EnvDefinition("API_VERSION", "app", "v1"),
    EnvDefinition("DB_HOST", "database", "localhost"),
    EnvDefinition("DB_PORT", "database", "3306"),
    EnvDefinition("DB_USER", "database", "root"),
    EnvDefinition("DB_PASSWORD", "database", ""),
    EnvDefinition("DB_NAME", "database", "nestjs_engine_db"),
    EnvDefinition("REDIS_MODE", "redis", "direct"),
    EnvDefinition("REDIS_HOST", "redis", "localhost"),
    EnvDefinition("REDIS_PORT", "redis", "6379"),
    EnvDefinition("REDIS_PASSWORD", "redis", ""),
    EnvDefinition("JWT_SECRET", "auth", ""),
    EnvDefinition("JWT_ACCESS_EXPIRES_IN", "auth", "1h"),
    EnvDefinition("JWT_REFRESH_EXPIRES_IN", "auth", "30d"),
    EnvDefinition("GOOGLE_CLIENT_ID", "auth", ""),
    EnvDefinition("GOOGLE_CLIENT_SECRET", "auth", ""),
    EnvDefinition("GOOGLE_CALLBACK_URL", "auth", "http://localhost:3000/api/v1/auth/google/callback"),
    EnvDefinition("MAX_DEVICES_PER_USER", "auth", "1"),
    EnvDefinition("ENCRYPTION_KEY", "etc", ""),
    EnvDefinition("DEFAULT_TIMEZONE", "etc", "Asia/Seoul"),
    EnvDefinition("CORS_ORIGINS", "etc", "*"),
    EnvDefinition("LOG_DIR", "etc", "./logs"),
    EnvDefinition("SWAGGER_ENABLED", "etc", "true"),
    EnvDefinition("SWAGGER_PATH", "etc", "/api-docs")
  ]

  const GROUP_ORDER: seq<string> := ["app", "database", "redis", "auth", "etc"]

  predicate IsDbKey(key: string) {
    key == "DB_HOST" || key == "DB_PORT" || key == "DB_USER" || key == "DB_PASSWORD" || key == "DB_NAME"
  }

  // ---------------------------------------------------------------- parseEnvFile

  /** Starts and ends with the same quote; a lone quote does both. */
  predicate Quoted(v: string) {
    v != "" && (v[0] == '"' || v[0] == '\'') && v[|v| - 1] == v[0]
  }

  function Unquote(v: string): string {
    if Quoted(v) then (if |v| == 1 then "" else v[1..|v| - 1]) else v
  }

  /** Text put in quotes reads back without them, whatever it holds; text that does not begin with a quote stays. */
  lemma UnquoteQuoted(v: string, quote: char)
    requires quote == '"' || quote == '\''
    ensures Unquote([quote] + v + [quote]) == v
    ensures v == "" || (v[0] != '"' && v[0] != '\'') ==> Unquote(v) == v
    ensures Unquote([quote]) == ""
  {
    var quoted := [quote] + v + [quote];
    assert quoted[1..|quoted| - 1] == v;
  }

  function ParseLine(line: string): Option<(string, string)> {
    var trimmed := Trim(line);
    if trimmed == "" || trimmed[0] == '#' then None
    else
      match Cut(trimmed, '=')
      case None => None
      case Some((before, after)) => Some((Trim(before), Unquote(Trim(after))))
  }

  function ParseLines(lines: seq<string>): Settings {
    if lines == [] then map[]
    else
      var earlier := ParseLines(lines[..|lines| - 1]);
      match ParseLine(lines[|lines| - 1])
      case None => earlier
      case Some((key, value)) => earlier[key := value]
  }

  /** None: there is no file. */
  function ParseContent(content: Option<string>): Settings {
    match content
    case None => map[]
    case Some(text) => ParseLines(Split(text, '\n'))
  }

  method ParseEnvFile(content: Option<string>) returns (result: Settings)
    ensures result == ParseContent(content)
  {
    hide Trim, Split;
    result := map[];
    if content == None { return; }
    var lines := Split(content.value, '\n');
    for i := 0 to |lines|
      invariant result == ParseLines(lines[..i])
    {
      assert lines[..i + 1][..i] == lines[..i];
      var trimmed := Trim(lines[i]);
      if trimmed == "" || trimmed[0] == '#' { continue; }
      var eqIdx := IndexOf(trimmed, '=');
      if eqIdx == None { continue; }
      var key := Trim(trimmed[..eqIdx.value]);
      var value := Trim(trimmed[eqIdx.value + 1..]);
      if Quoted(value) {
        value := if |value| == 1 then "" else value[1..|value| - 1];
      }
      result := result[key := value];
    }
    assert lines[..|lines|] == lines;
  }

  /** Line i assigns this value. */
  predicate Assigns(lines: seq<string>, i: nat, key: string, value: string)
    requires i < |lines|
  {
    ParseLine(lines[i]) == Some((key, value))
  }

  /** The last assignment of a key wins, wherever it stands. */
  lemma {:induction false} LastAssignmentWins(lines: seq<string>, i: nat, key: string, value: string)
    requires i < |lines| && Assigns(lines, i, key, value)
    requires forall j, v :: i < j < |lines| ==> !Assigns(lines, j, key, v)
    ensures key in ParseLines(lines) && ParseLines(lines)[key] == value
  {
    hide ParseLine;
    var n := |lines| - 1;
    if i < n {
      var earlier := lines[..n];
      assert forall j, v | i < j < n :: Assigns(earlier, j, key, v) ==> Assigns(lines, j, key, v);
      LastAssignmentWins(earlier, i, key, value);
      var last := ParseLine(lines[n]);
      if last.Some? { assert Assigns(lines, n, last.value.0, last.value.1); }
    }
  }

  /** And nothing else sets a key. */
  lemma {:induction false} ParsedKeysAreAssigned(lines: seq<string>, key: string)
    ensures key in ParseLines(lines) ==> exists i :: 0 <= i < |lines| && Assigns(lines, i, key, ParseLines(lines)[key])
  {
    hide ParseLine;
    if lines != [] {
      var n := |lines| - 1;
      ParsedKeysAreAssigned(lines[..n], key);
      var last := ParseLine(lines[n]);
      if last.Some? { assert Assigns(lines, n, last.value.0, last.value.1); }
      if i :| 0 <= i < n && key in ParseLines(lines[..n]) && Assigns(lines[..n], i, key, ParseLines(lines[..n])[key]) {
        assert Assigns(lines, i, key, ParseLines(lines[..n])[key]);
      }
    }
  }

  lemma {:induction false} ParsedValuesAreOneLine(lines: seq<string>)
    requires forall line :: line in lines ==> '\n' !in line
    ensures forall key :: key in ParseLines(lines) ==> '\n' !in ParseLines(lines)[key]
  {
    if lines != [] {
      var n := |lines| - 1;
      ParsedValuesAreOneLine(lines[..n]);
      assert lines[n] in lines;
      ParsedLineIsOneLine(lines[n]);
    }
  }

  lemma UnquoteShrinks(v: string)
    ensures forall c :: c in Unquote(v) ==> c in v
  {
  }

  lemma ParsedLineIsOneLine(line: string)
    requires '\n' !in line
    ensures ParseLine(line).Some? ==> '\n' !in ParseLine(line).value.1
  {
    hide Trim, Cut, Unquote;
    TrimFacts(line);
    match Cut(Trim(line), '=') {
      case None =>
      case Some((before, after)) =>
        TrimFacts(after);
        CutExact(Trim(line), '=', before, after);
        assert forall c :: c in after ==> c in Trim(line);
        UnquoteShrinks(Trim(after));
    }
  }

  // ---------------------------------------------------------------- enrichWithDbFields

  predicate Truthy(values: Settings, key: string) {
    key in values && values[key] != ""
  }

  function FillIn(values: Settings, key: string, value: string): Settings {
    if Truthy(values, key) then values else values[key := value]
  }

  function WithFields(values: Settings, f: DbFields): Settings {
    FillIn(FillIn(FillIn(FillIn(FillIn(values, "DB_HOST", f.host), "DB_PORT", f.port), "DB_USER", f.user),
                  "DB_PASSWORD", f.password), "DB_NAME", f.dbName)
  }

  function Enriched(values: Settings): Result<Settings, Error> {
    if !Truthy(values, "DATABASE_URL") then Ok(values)
    else
      match ParseDatabaseUrl(values["DATABASE_URL"])
      case Err(e) => Err(e)
      case Ok(f) => Ok(WithFields(values, f))
  }

  /** Non-empty values stay, and so do all keys but the five database fields. */
  ghost predicate KeepsGiven(values: Settings, more: Settings) {
    && (forall k :: k in values && values[k] != "" ==> k in more && more[k] == values[k])
    && (forall k :: k !in {"DB_HOST", "DB_PORT", "DB_USER", "DB_PASSWORD", "DB_NAME"} ==>
          (k in more <==> k in values) && (k in more ==> more[k] == values[k]))
  }

  lemma FillInKeepsGiven(values: Settings, more: Settings, key: string, value: string)
    requires KeepsGiven(values, more) && key in {"DB_HOST", "DB_PORT", "DB_USER", "DB_PASSWORD", "DB_NAME"}
    ensures KeepsGiven(values, FillIn(more, key, value))
  {
    assert forall k :: k in FillIn(more, key, value) <==> k in more || k == key;
  }

  lemma EnrichedKeepsGiven(values: Settings)
    ensures KeepsGiven(values, values)
    ensures Enriched(values).Ok? ==> KeepsGiven(values, Enriched(values).value)
  {
    assert KeepsGiven(values, values);
    hide KeepsGiven, FillIn, ParseDatabaseUrl;
    if Truthy(values, "DATABASE_URL") && ParseDatabaseUrl(values["DATABASE_URL"]).Ok? {
      var f := ParseDatabaseUrl(values["DATABASE_URL"]).value;
      var v1 := FillIn(values, "DB_HOST", f.host);
      var v2 := FillIn(v1, "DB_PORT", f.port);
      var v3 := FillIn(v2, "DB_USER", f.user);
      var v4 := FillIn(v3, "DB_PASSWORD", f.password);
      FillInKeepsGiven(values, values, "DB_HOST", f.host);
      FillInKeepsGiven(values, v1, "DB_PORT", f.port);
      FillInKeepsGiven(values, v2, "DB_USER", f.user);
      FillInKeepsGiven(values, v3, "DB_PASSWORD", f.password);
      FillInKeepsGiven(values, v4, "DB_NAME", f.dbName);
    }
  }

  class EnvRecord {
    var values: Settings

    constructor (values: Settings)
      ensures this.values == values
    {
      this.values := values;
    }

    /** A malformed escape in the password throws before anything is written. */
    method EnrichWithDbFields() returns (outcome: Result<(), Error>)
      modifies this
      ensures match Enriched(old(values))
              case Ok(enriched) => outcome.Ok? && values == enriched
              case Err(e) => outcome == Err(e) && values == old(values)
      ensures KeepsGiven(old(values), values)
    {
      EnrichedKeepsGiven(values);
      hide ParseDatabaseUrl, KeepsGiven;
      if Truthy(values, "DATABASE_URL") {
        var parsed := ParseDatabaseUrl(values["DATABASE_URL"]);
        if parsed.Err? { return Err(parsed.error); }
        var f := parsed.value;
        if !Truthy(values, "DB_HOST") { values := values["DB_HOST" := f.host]; }
        if !Truthy(values, "DB_PORT") { values := values["DB_PORT" := f.port]; }
        if !Truthy(values, "DB_USER") { values := values["DB_USER" := f.user]; }
        if !Truthy(values, "DB_PASSWORD") { values := values["DB_PASSWORD" := f.password]; }
        if !Truthy(values, "DB_NAME") { values := values["DB_NAME" := f.dbName]; }
      }
      outcome := Ok(());
    }
  }

  // ---------------------------------------------------------------- buildEnvContent

  datatype Line = Comment(text: string) | Setting(key: string, value: string)

  function Render(line: Line): string {
    match line
    case Comment(text) => text
    case Setting(key, value) => key + "=" + value
  }

  function Rendered(lines: seq<Line>): (texts: seq<string>)
    ensures |texts| == |lines|
  {
    seq(|lines|, i requires 0 <= i < |lines| => Render(lines[i]))
  }

  /** `data[key] || fallback` */
  function OrElse(data: Settings, key: string, fallback: string): string {
    if Truthy(data, key) then data[key] else fallback
  }

  function FieldsOf(data: Settings): DbFields {
    DbFields(OrElse(data, "DB_HOST", "localhost"), OrElse(data, "DB_PORT", "3306"), OrElse(data, "DB_USER", "root"),
             OrElse(data, "DB_PASSWORD", ""), OrElse(data, "DB_NAME", "nestjs_engine_db"))
  }

  /** The setting a definition stands for: `data[key] ?? default`, and `||` for the parts of the URL. */
  function SettingOf(data: Settings, d: EnvDefinition): string {
    if IsDbKey(d.key) then OrElse(data, d.key, d.defaultValue)
    else if d.key in data then data[d.key] else d.defaultValue
  }

  function InGroup(defs: seq<EnvDefinition>, group: string): (selected: seq<EnvDefinition>)
    ensures forall d :: d in selected <==> d in defs && d.group == group
  {
    if defs == [] then []
    else
      assert defs == defs[..|defs| - 1] + [defs[|defs| - 1]];
      InGroup(defs[..|defs| - 1], group) + if defs[|defs| - 1].group == group then [defs[|defs| - 1]] else []
  }

  function SettingLines(defs: seq<EnvDefinition>, data: Settings): seq<Line> {
    if defs == [] then []
    else
      var d := defs[|defs| - 1];
      SettingLines(defs[..|defs| - 1], data) + if IsDbKey(d.key) then [] else [Setting(d.key, SettingOf(data, d))]
  }

  function GroupComment(group: string): string {
    if group == "app" then "# App"
    else if group == "database" then "# Database"
    else if group == "redis" then "# Redis"
    else if group == "auth" then "# Auth / Security"
    else if group == "etc" then "# Etc"
    else "# " + group
  }

  function Section(defs: seq<EnvDefinition>, group: string, data: Settings): seq<Line> {
    [Comment(""), Comment(GroupComment(group))]
    + if group == "database" then [Setting("DATABASE_URL", BuildDatabaseUrl(FieldsOf(data)))]
      else SettingLines(InGroup(defs, group), data)
  }

  function Sections(defs: seq<EnvDefinition>, groups: seq<string>, data: Settings): seq<Line> {
    if groups == [] then []
    else Sections(defs, groups[..|groups| - 1], data) + Section(defs, groups[|groups| - 1], data)
  }

  function Header(timestamp: string): seq<Line> {
    [Comment("# NestJS Engine Environment Configuration"), Comment("# Generated by Setup Wizard at " + timestamp),
     Comment(""), Comment("# App")]
  }

  function FileLines(defs: seq<EnvDefinition>, data: Settings, timestamp: string): seq<Line> {
    Header(timestamp) + Sections(defs, GROUP_ORDER, data) + [Comment("")]
  }

  function BuildContent(defs: seq<EnvDefinition>, data: Settings, timestamp: string): string {
    Join(Rendered(FileLines(defs, data, timestamp)), '\n')
  }

  lemma RenderedAppend(a: seq<Line>, b: seq<Line>)
    ensures Rendered(a + b) == Rendered(a) + Rendered(b)
  {
  }

  lemma SettingLinesPush(defs: seq<EnvDefinition>, i: nat, data: Settings)
    requires i < |defs|
    ensures Rendered(SettingLines(defs[..i + 1], data)) == Rendered(SettingLines(defs[..i], data))
            + if IsDbKey(defs[i].key) then [] else [defs[i].key + "=" + SettingOf(data, defs[i])]
  {
    hide IsDbKey, SettingOf;
    assert defs[..i + 1][..i] == defs[..i];
  }

  lemma SectionsPush(defs: seq<EnvDefinition>, groups: seq<string>, i: nat, data: Settings)
    requires i < |groups|
    ensures Rendered(Sections(defs, groups[..i + 1], data))
            == Rendered(Sections(defs, groups[..i], data)) + Rendered(Section(defs, groups[i], data))
  {
    hide Rendered, Section;
    assert groups[..i + 1][..i] == groups[..i];
    RenderedAppend(Sections(defs, groups[..i], data), Section(defs, groups[i], data));
  }

  lemma SectionRendered(defs: seq<EnvDefinition>, group: string, data: Settings)
    ensures Rendered(Section(defs, group, data))
            == ["", GroupComment(group)]
               + if group == "database" then ["DATABASE_URL=" + BuildDatabaseUrl(FieldsOf(data))]
                 else Rendered(SettingLines(InGroup(defs, group), data))
  {
    hide InGroup, SettingLines, GroupComment, BuildDatabaseUrl, FieldsOf;
    var head := [Comment(""), Comment(GroupComment(group))];
    RenderedAppend(head, SettingLines(InGroup(defs, group), data));
    assert Rendered(head) == ["", GroupComment(group)];
    assert "DATABASE_URL" + "=" == "DATABASE_URL=";
  }

  method BuildEnvContent(definitions: seq<EnvDefinition>, data: Settings, timestamp: string) returns (content: string)
    ensures content == BuildContent(definitions, data, timestamp)
  {
    hide Rendered, Section, Sections, SettingLines, InGroup, BuildDatabaseUrl, FieldsOf, SettingOf, Header, GroupComment,
         IsDbKey, Join, Render;
    var databaseUrl := BuildDatabaseUrl(FieldsOf(data));
    var lines := ["# NestJS Engine Environment Configuration", "# Generated by Setup Wizard at " + timestamp, "", "# App"];
    HeaderRendered(timestamp);
    NoSections(definitions, data);
    var groups := GROUP_ORDER;
    for g := 0 to |groups|
      invariant lines == Rendered(Header(timestamp)) + Rendered(Sections(definitions, groups[..g], data))
    {
      ghost var before := lines;
      var group := groups[g];
      SectionsPush(definitions, groups, g, data);
      SectionRendered(definitions, group, data);
      lines := lines + [""];
      lines := lines + [GroupComment(group)];
      if group == "database" {
        lines := lines + ["DATABASE_URL=" + databaseUrl];
        continue;
      }
      var defs := InGroup(definitions, group);
      NoSettings(data);
      for i := 0 to |defs|
        invariant lines == before + (["", GroupComment(group)] + Rendered(SettingLines(defs[..i], data)))
      {
        SettingLinesPush(defs, i, data);
        var def := defs[i];
        var value := SettingOf(data, def);
        if IsDbKey(def.key) { continue; }
        lines := lines + [def.key + "=" + value];
      }
      assert defs[..|defs|] == defs;
    }
    assert groups[..|groups|] == groups;
    FooterRendered(definitions, data, timestamp);
    lines := lines + [""];
    content := Join(lines, '\n');
  }

  lemma HeaderRendered(timestamp: string)
    ensures Rendered(Header(timestamp))
            == ["# NestJS Engine Environment Configuration", "# Generated by Setup Wizard at " + timestamp, "", "# App"]
  {
  }

  lemma NoSections(defs: seq<EnvDefinition>, data: Settings)
    ensures Rendered(Sections(defs, [], data)) == []
  {
  }

  lemma NoSettings(data: Settings)
    ensures Rendered(SettingLines([], data)) == []
  {
  }

  lemma FooterRendered(defs: seq<EnvDefinition>, data: Settings, timestamp: string)
    ensures Rendered(FileLines(defs, data, timestamp))
            == Rendered(Header(timestamp)) + Rendered(Sections(defs, GROUP_ORDER, data)) + [""]
  {
    hide Header, Sections;
  }
}
