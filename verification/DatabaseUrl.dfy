/** buildDatabaseUrl and parseDatabaseUrl: DATABASE_URL as a printed and parsed format. */
module DatabaseUrl {
  import opened Prelude
  import opened Text
  import opened UriComponent

  datatype DbFields = DbFields(host: string, port: string, user: string, password: string, dbName: string)

  const DEFAULT_FIELDS: DbFields := DbFields("localhost", "3306", "root", "", "nestjs_engine_db")

  const SCHEME: string := "mysql://"

  function BuildDatabaseUrl(f: DbFields): string {
    SCHEME + (f.user + ":" + (Encode(f.password) + "@" + (f.host + ":" + (f.port + "/" + f.dbName))))
  }

  /** Which field stands where. */
  lemma UrlLayout(f: DbFields)
    ensures BuildDatabaseUrl(f) == "mysql://" + f.user + ":" + Encode(f.password) + "@" + f.host + ":" + f.port + "/" + f.dbName
  {
    hide Encode;
  }

  // ---------------------------------------------------------------- the regular expression

  /** The five capture groups. */
  datatype Groups = Groups(user: string, password: string, host: string, port: string, dbName: string)

  /** `.` matches anything but a line terminator. */
  predicate IsLineTerminator(c: char) {
    c == '\n' || c == '\r' || c == '\U{2028}' || c == '\U{2029}'
  }

  predicate Digits(s: string) {
    s != "" && forall c :: c in s ==> '0' <= c <= '9'
  }

  predicate NonEmptyWithout(s: string, c: char) {
    s != "" && c !in s
  }

  predicate OneLine(s: string) {
    s != "" && forall c :: c in s ==> !IsLineTerminator(c)
  }

  /** ^mysql:\/\/([^:]+):([^@]*)@([^:]+):(\d+)\/(.+)$ with these captures. */
  predicate Matches(url: string, g: Groups) {
    && url == SCHEME + (g.user + ":" + (g.password + "@" + (g.host + ":" + (g.port + "/" + g.dbName))))
    && NonEmptyWithout(g.user, ':') && '@' !in g.password && NonEmptyWithout(g.host, ':')
    && Digits(g.port) && OneLine(g.dbName)
  }

  /** The text before and after the first occurrence of a delimiter. */
  function Cut(s: string, c: char): Option<(string, string)> {
    match IndexOf(s, c)
    case None => None
    case Some(i) => Some((s[..i], s[i + 1..]))
  }

  lemma CutExact(s: string, c: char, a: string, b: string)
    ensures Cut(s, c) == Some((a, b)) <==> s == a + [c] + b && c !in a
  {
    if Cut(s, c) == Some((a, b)) {
      var i := IndexOf(s, c).value;
      assert s == s[..i] + [s[i]] + s[i + 1..];
    }
    if s == a + [c] + b && c !in a {
      IndexOfJoint(a, c, b);
    }
  }

  /** Matching by cutting at the first delimiter each time: no group can contain the delimiter that ends it. */
  function Match(url: string): Option<Groups> {
    if !(SCHEME <= url) then None
    else
      match Cut(url[|SCHEME|..], ':')
      case None => None
      case Some((user, afterUser)) =>
        match Cut(afterUser, '@')
        case None => None
        case Some((password, afterPassword)) =>
          match Cut(afterPassword, ':')
          case None => None
          case Some((host, afterHost)) =>
            match Cut(afterHost, '/')
            case None => None
            case Some((port, dbName)) =>
              if user != "" && host != "" && Digits(port) && OneLine(dbName)
              then Some(Groups(user, password, host, port, dbName))
              else None
  }

  /** The cuts find exactly the captures of the regular expression, which are therefore unique. */
  lemma MatchIsTheRegex(url: string, g: Groups)
    ensures Match(url) == Some(g) <==> Matches(url, g)
  {
    hide Match, Matches;
    CutsMatch(url, g);
    if Matches(url, g) { CapturesAreCuts(url, g); }
  }

  lemma CutsMatch(url: string, g: Groups)
    ensures Match(url) == Some(g) ==> Matches(url, g)
  {
    hide Cut, Digits, OneLine;
    if Match(url) == Some(g) {
      var rest := url[|SCHEME|..];
      var afterUser := Cut(rest, ':').value.1;
      var afterPassword := Cut(afterUser, '@').value.1;
      var afterHost := Cut(afterPassword, ':').value.1;
      CutExact(rest, ':', g.user, afterUser);
      CutExact(afterUser, '@', g.password, afterPassword);
      CutExact(afterPassword, ':', g.host, afterHost);
      CutExact(afterHost, '/', g.port, g.dbName);
      assert url == SCHEME + rest;
    }
  }

  lemma CapturesAreCuts(url: string, g: Groups)
    requires Matches(url, g)
    ensures Match(url) == Some(g)
  {
    var afterHost := g.port + "/" + g.dbName;
    var afterPassword := g.host + ":" + afterHost;
    var afterUser := g.password + "@" + afterPassword;
    var rest := g.user + ":" + afterUser;
    assert '/' !in g.port;
    hide Cut, Digits, OneLine;
    assert url[|SCHEME|..] == rest;
    CutExact(rest, ':', g.user, afterUser);
    CutExact(afterUser, '@', g.password, afterPassword);
    CutExact(afterPassword, ':', g.host, afterHost);
    CutExact(afterHost, '/', g.port, g.dbName);
  }

  // ---------------------------------------------------------------- parsing

  /** decodeURIComponent throws on a malformed escape. */
  datatype Error = UriError

  function ParseDatabaseUrl(url: string): Result<DbFields, Error> {
    match Match(url)
    case None => Ok(DEFAULT_FIELDS)
    case Some(g) =>
      match Decode(g.password)
      case None => Err(UriError)
      case Some(password) => Ok(DbFields(g.host, g.port, g.user, password, g.dbName))
  }

  /** What the format can carry: any password, but no delimiter inside user or host, a numeric port, a one-line name. */
  predicate Representable(f: DbFields) {
    NonEmptyWithout(f.user, ':') && NonEmptyWithout(f.host, ':') && Digits(f.port) && OneLine(f.dbName)
  }

  /** The same in characters: no colon in user or host, ASCII digits in the port, none of four line terminators in the name. */
  lemma RepresentableIff(f: DbFields)
    ensures Representable(f) <==>
              && f.user != "" && ':' !in f.user && f.host != "" && ':' !in f.host
              && f.port != "" && (forall c :: c in f.port ==> 48 <= c as int <= 57)
              && f.dbName != "" && forall c :: c in f.dbName ==> c as int != 10 && c as int != 13 && c as int != 8232 && c as int != 8233
  {
  }

  lemma BuiltUrlMatches(f: DbFields)
    requires Representable(f)
    ensures Match(BuildDatabaseUrl(f)) == Some(Groups(f.user, Encode(f.password), f.host, f.port, f.dbName))
  {
    EncodeIsSafe(f.password);
    assert !LetterDigitOrMark('@');
    hide Encode, LetterDigitOrMark, Match, Digits, OneLine;
    MatchIsTheRegex(BuildDatabaseUrl(f), Groups(f.user, Encode(f.password), f.host, f.port, f.dbName));
  }

  /** Parsing what was built gives the fields back exactly when the format can carry them. */
  lemma DatabaseUrlRoundTripIff(f: DbFields)
    ensures ParseDatabaseUrl(BuildDatabaseUrl(f)) == Ok(f) <==> Representable(f)
  {
    hide Match, Matches, Encode, Decode, BuildDatabaseUrl, Digits, OneLine, NonEmptyWithout;
    if Representable(f) {
      BuiltUrlMatches(f);
      DecodeEncode(f.password);
    } else if ParseDatabaseUrl(BuildDatabaseUrl(f)) == Ok(f) {
      ParsedIsRepresentable(BuildDatabaseUrl(f), f);
    }
  }

  /** Whatever the parser returns could be built again; the fallback fields too. */
  lemma ParsedIsRepresentable(url: string, f: DbFields)
    requires ParseDatabaseUrl(url) == Ok(f)
    ensures Representable(f)
  {
    hide Match, Matches, Decode, Encode, Digits, OneLine, NonEmptyWithout, Representable;
    match Match(url) {
      case None => FallbackIsRepresentable();
      case Some(g) =>
        MatchIsTheRegex(url, g);
        CapturesAreRepresentable(url, g, f.password);
    }
  }

  lemma FallbackIsRepresentable()
    ensures Representable(DEFAULT_FIELDS)
  {
    hide OneLine;
    FallbackNameIsOneLine();
  }

  /** Text that does not match gives the defaults. */
  lemma NoMatchGivesDefaults(url: string)
    requires forall g :: !Matches(url, g)
    ensures ParseDatabaseUrl(url) == Ok(DbFields("localhost", "3306", "root", "", "nestjs_engine_db"))
  {
    hide Matches;
    if Match(url).Some? { MatchIsTheRegex(url, Match(url).value); }
    hide Match;
  }

  lemma FallbackNameIsOneLine()
    ensures OneLine("nestjs_engine_db")
  {
    hide Digits, NonEmptyWithout;
  }

  lemma CapturesAreRepresentable(url: string, g: Groups, password: string)
    requires Matches(url, g)
    ensures Representable(DbFields(g.host, g.port, g.user, password, g.dbName))
  {
  }
}
