/**
  The database-URL parser of the backup tools and the printer that rebuilds a URL for pg_dump.
  Strings are sequences of characters; the parser does no percent-decoding.
*/
module DbUrl {
  datatype Params = Params(host: string, port: string, user: string, password: string, database: string)

  datatype ParseError = UnsupportedScheme | NoAtSign | NoSlash

  datatype ParseResult = Ok(params: Params) | Err(error: ParseError)

  const PREFIXES: seq<string> := ["postgresql+psycopg2://", "postgresql://", "postgres://"]

  const DEFAULT_PORT := "5432"

  // ---------------------------------------------------------------------------------
  // str.split(c, 1) and str.rsplit(c, 1)
  // ---------------------------------------------------------------------------------

  /** The position of the first c, or the length. */
  function First(s: string, c: char): (i: nat)
    ensures i <= |s| && (i < |s| <==> c in s)
    ensures i < |s| ==> s[i] == c
    ensures forall k :: 0 <= k < i ==> s[k] != c
  {
    if s == [] then 0 else if s[0] == c then 0 else assert s == [s[0]] + s[1..]; First(s[1..], c) + 1
  }

  /** One past the position of the last c, or 0. */
  function Last(s: string, c: char): (i: nat)
    ensures i <= |s| && (i > 0 <==> c in s)
    ensures i > 0 ==> s[i - 1] == c
    ensures forall k :: i <= k < |s| ==> s[k] != c
  {
    if s == [] then 0
    else if s[|s| - 1] == c then |s|
    else assert s == s[..|s| - 1] + [s[|s| - 1]]; Last(s[..|s| - 1], c)
  }

  lemma BeforeFirst(s: string, c: char)
    ensures c !in s[..First(s, c)]
  {
  }

  lemma AfterLast(s: string, c: char)
    ensures c !in s[Last(s, c)..]
  {
  }

  lemma FirstOfJoin(a: string, c: char, b: string)
    requires c !in a
    ensures First(a + [c] + b, c) == |a|
  {
    hide First;
    var s := a + [c] + b;
    assert s[|a|] == c;
    assert forall k :: 0 <= k < |a| ==> s[k] == a[k];
  }

  lemma {:induction false} LastOfJoin(a: string, c: char, b: string)
    requires c !in b
    ensures Last(a + [c] + b, c) == |a| + 1
  {
    if b != [] {
      LastOfJoin(a, c, b[..|b| - 1]);
      assert (a + [c] + b)[..|a| + |b|] == a + [c] + b[..|b| - 1];
    }
  }

  // ---------------------------------------------------------------------------------
  // Parsing and printing
  // ---------------------------------------------------------------------------------

  /** The two halves around the first ':', the second being `default` when there is none. */
  datatype Halves = Halves(left: string, right: string)

  function SplitColon(s: string, default: string): Halves {
    var i := First(s, ':');
    if i < |s| then Halves(s[..i], s[i + 1..]) else Halves(s, default)
  }

  /** What follows the scheme. */
  function ParseBody(url: string): ParseResult {
    var at := First(url, '@');
    if at == |url| then Err(NoAtSign)
    else
      var rest := url[at + 1..];
      var slash := Last(rest, '/');
      if slash == 0 then Err(NoSlash)
      else
        var account, server := SplitColon(url[..at], ""), SplitColon(rest[..slash - 1], DEFAULT_PORT);
        Ok(Params(server.left, server.right, account.left, account.right, rest[slash..]))
  }

  function ParseFrom(url: string, k: nat): ParseResult
    requires k <= |PREFIXES|
    decreases |PREFIXES| - k
  {
    if k == |PREFIXES| then Err(UnsupportedScheme)
    else if PREFIXES[k] <= url then ParseBody(url[|PREFIXES[k]|..])
    else ParseFrom(url, k + 1)
  }

  function Parse(url: string): ParseResult { ParseFrom(url, 0) }

  method ParseDbUrl(databaseUrl: string) returns (r: ParseResult)
    ensures r == Parse(databaseUrl)
  {
    hide ParseBody;
    var url := databaseUrl;
    var k, stripped := 0, false;
    while k < |PREFIXES| && !stripped
      invariant 0 <= k <= |PREFIXES|
      invariant !stripped ==> url == databaseUrl && Parse(databaseUrl) == ParseFrom(databaseUrl, k)
      invariant stripped ==> Parse(databaseUrl) == ParseBody(url)
      decreases |PREFIXES| - k, !stripped
    {
      if PREFIXES[k] <= url {
        url, stripped := url[|PREFIXES[k]|..], true;
      } else {
        k := k + 1;
      }
    }
    if stripped {
      r := SplitBody(url);
    } else {
      r := Err(UnsupportedScheme);
    }
  }

  /** `a, b = s.split(":", 1)` if there is a colon, else `a, b = s, default`. */
  method SplitAtColon(s: string, default: string) returns (left: string, right: string)
    ensures Halves(left, right) == SplitColon(s, default)
  {
    left, right := s, default;
    var colon := First(s, ':');
    if colon < |s| {
      left, right := s[..colon], s[colon + 1..];
    }
  }

  /** The splits after the scheme. */
  method SplitBody(url: string) returns (r: ParseResult)
    ensures r == ParseBody(url)
  {
    hide First, Last, SplitColon;
    var at := First(url, '@');
    if at == |url| {
      return Err(NoAtSign);
    }
    var userPass, rest := url[..at], url[at + 1..];
    var slash := Last(rest, '/');
    if slash == 0 {
      return Err(NoSlash);
    }
    var hostPort, database := rest[..slash - 1], rest[slash..];
    var user, password := SplitAtColon(userPass, "");
    var host, port := SplitAtColon(hostPort, DEFAULT_PORT);
    return Ok(Params(host, port, user, password, database));
  }

  /** The URL handed to pg_dump. */
  function Print(p: Params): string {
    "postgresql://" + Account(p) + "@" + (p.host + ":" + p.port) + "/" + p.database
  }

  function Account(p: Params): string { if p.password == "" then p.user else p.user + ":" + p.password }

  // ---------------------------------------------------------------------------------
  // The grammar the parser decides
  // ---------------------------------------------------------------------------------

  /** s is `left` alone (the other half then being `default`) or left:right with the first colon between. */
  predicate IsPair(s: string, left: string, right: string, default: string) {
    && ':' !in left
    && (s == left + ":" + right || (s == left && right == default))
  }

  /** url reads as prefix account@server/database with these parts. */
  ghost predicate ReadsAs(url: string, prefix: string, account: string, server: string, p: Params) {
    && (prefix == "postgresql+psycopg2://" || prefix == "postgresql://" || prefix == "postgres://")
    && url == prefix + (account + "@" + (server + "/" + p.database))
    && '@' !in account && '/' !in p.database
    && IsPair(account, p.user, p.password, "")
    && IsPair(server, p.host, p.port, "5432")
  }

  lemma SplitColonIsPair(s: string, left: string, right: string, default: string)
    ensures SplitColon(s, default) == Halves(left, right) <==> IsPair(s, left, right, default)
  {
    var i := First(s, ':');
    if i < |s| {
      assert s == s[..i] + ":" + s[i + 1..];
    }
    if ':' !in left && s == left + ":" + right {
      FirstOfJoin(left, ':', right);
      assert s[..|left|] == left && s[|left| + 1..] == right;
    }
  }

  lemma BodyIsGrammar(body: string, account: string, server: string, p: Params)
    requires body == account + "@" + (server + "/" + p.database)
    requires '@' !in account && '/' !in p.database
    ensures var a, s := SplitColon(account, ""), SplitColon(server, DEFAULT_PORT);
            ParseBody(body) == Ok(Params(s.left, s.right, a.left, a.right, p.database))
  {
    var rest := server + "/" + p.database;
    assert body == account + ['@'] + rest && rest == server + ['/'] + p.database;
    FirstOfJoin(account, '@', rest);
    LastOfJoin(server, '/', p.database);
    assert body[..|account|] == account && body[|account| + 1..] == rest;
    assert rest[..|server|] == server && rest[|server| + 1..] == p.database;
  }

  lemma OnePrefix(url: string, k: nat)
    requires k < |PREFIXES| && PREFIXES[k] <= url
    ensures Parse(url) == ParseBody(url[|PREFIXES[k]|..])
  {
    assert |url| > 10;
    assert PREFIXES[0][10] == '+' && PREFIXES[1][10] == ':' && PREFIXES[2][8] == ':';
    assert PREFIXES[0][8] == 'q' && PREFIXES[1][8] == 'q';
    assert forall i :: 0 <= i < |PREFIXES[k]| ==> url[i] == PREFIXES[k][i];
  }

  /** The parser accepts exactly the URLs of the grammar, and with those parts. */
  lemma ParseIsGrammar(url: string, p: Params)
    ensures Parse(url) == Ok(p) <==> exists prefix, account, server :: ReadsAs(url, prefix, account, server, p)
  {
    hide Parse, ReadsAs;
    if Parse(url) == Ok(p) {
      ParsedReads(url, p);
    }
    forall prefix, account, server | ReadsAs(url, prefix, account, server, p) ensures Parse(url) == Ok(p) {
      ReadParses(url, prefix, account, server, p);
    }
  }

  lemma ReadParses(url: string, prefix: string, account: string, server: string, p: Params)
    requires ReadsAs(url, prefix, account, server, p)
    ensures Parse(url) == Ok(p)
  {
    hide Parse, ParseBody, SplitColon, IsPair;
    var k := if prefix == PREFIXES[0] then 0 else if prefix == PREFIXES[1] then 1 else 2;
    var body := account + "@" + (server + "/" + p.database);
    assert url[|prefix|..] == body;
    OnePrefix(url, k);
    BodyIsGrammar(body, account, server, p);
    SplitColonIsPair(account, p.user, p.password, "");
    SplitColonIsPair(server, p.host, p.port, DEFAULT_PORT);
  }

  lemma {:induction false} FindPrefix(url: string, k: nat) returns (j: nat)
    requires k <= |PREFIXES| && ParseFrom(url, k).Ok?
    ensures j < |PREFIXES| && PREFIXES[j] <= url && ParseFrom(url, k) == ParseBody(url[|PREFIXES[j]|..])
    decreases |PREFIXES| - k
  {
    hide ParseBody;
    j := k;
    if !(PREFIXES[k] <= url) {
      j := FindPrefix(url, k + 1);
    }
  }

  lemma CutAt(s: string, i: nat)
    requires i < |s|
    ensures s == s[..i] + ([s[i]] + s[i + 1..])
  {
  }

  lemma CutAtFirst(s: string, c: char) returns (left: string, right: string)
    requires c in s
    ensures left == s[..First(s, c)] && right == s[First(s, c) + 1..]
    ensures s == left + ([c] + right) && c !in left
  {
    hide First;
    CutAt(s, First(s, c));
    BeforeFirst(s, c);
    left, right := s[..First(s, c)], s[First(s, c) + 1..];
  }

  lemma CutAtLast(s: string, c: char) returns (left: string, right: string)
    requires c in s
    ensures left == s[..Last(s, c) - 1] && right == s[Last(s, c)..]
    ensures s == left + ([c] + right) && c !in right
  {
    hide Last;
    CutAt(s, Last(s, c) - 1);
    AfterLast(s, c);
    left, right := s[..Last(s, c) - 1], s[Last(s, c)..];
  }

  lemma BodyReads(body: string, p: Params) returns (account: string, server: string)
    requires ParseBody(body) == Ok(p)
    ensures body == account + ("@" + (server + ("/" + p.database)))
    ensures '@' !in account && '/' !in p.database
    ensures SplitColon(account, "") == Halves(p.user, p.password)
    ensures SplitColon(server, DEFAULT_PORT) == Halves(p.host, p.port)
  {
    hide First, Last, SplitColon;
    var rest, database;
    account, rest := CutAtFirst(body, '@');
    server, database := CutAtLast(rest, '/');
  }

  lemma ParsedReads(url: string, p: Params)
    requires Parse(url) == Ok(p)
    ensures exists prefix, account, server :: ReadsAs(url, prefix, account, server, p)
  {
    hide ParseBody, SplitColon, IsPair;
    var k := FindPrefix(url, 0);
    var body := url[|PREFIXES[k]|..];
    assert url == PREFIXES[k] + body;
    var account, server := BodyReads(body, p);
    SplitColonIsPair(account, p.user, p.password, "");
    SplitColonIsPair(server, p.host, p.port, DEFAULT_PORT);
    assert body == account + "@" + (server + "/" + p.database);
    assert ReadsAs(url, PREFIXES[k], account, server, p);
  }

  /** A URL is refused for its scheme exactly when it starts with none of the three prefixes. */
  lemma UnsupportedExactly(url: string)
    ensures Parse(url) == Err(UnsupportedScheme)
       <==> !("postgresql+psycopg2://" <= url) && !("postgresql://" <= url) && !("postgres://" <= url)
  {
    hide ParseBody;
    if k :| 0 <= k < |PREFIXES| && PREFIXES[k] <= url {
      OnePrefix(url, k);
      BodySchemeOk(url[|PREFIXES[k]|..]);
    } else {
      assert ParseFrom(url, 3) == Err(UnsupportedScheme);
      assert ParseFrom(url, 2) == Err(UnsupportedScheme);
      assert ParseFrom(url, 1) == Err(UnsupportedScheme);
    }
  }

  lemma BodySchemeOk(body: string)
    ensures ParseBody(body) != Err(UnsupportedScheme)
  {
  }

  /** After a good scheme: no '@' is one error, and success needs a '/' somewhere after some '@'. */
  lemma RefusedExactly(url: string, k: nat)
    requires k < |PREFIXES| && PREFIXES[k] <= url
    ensures var body := url[|PREFIXES[k]|..];
            && (Parse(url) == Err(NoAtSign) <==> '@' !in body)
            && (Parse(url).Ok? <==> exists i, j :: 0 <= i < j < |body| && body[i] == '@' && body[j] == '/')
  {
    hide First, Last, SplitColon, Parse;
    var body := url[|PREFIXES[k]|..];
    OnePrefix(url, k);
    var at := First(body, '@');
    if at < |body| {
      var rest := body[at + 1..];
      var slash := Last(rest, '/');
      if slash > 0 {
        assert body[at] == '@' && body[at + slash] == '/';
      }
      forall i, j | 0 <= i < j < |body| && body[i] == '@' && body[j] == '/' ensures slash > 0 {
        assert rest[j - at - 1] == '/';
      }
    }
  }

  /** The parts of a URL, for instance with and without a password and a port. */
  lemma ParsedParts()
    ensures Parse("postgresql://u:p@h:1/d") == Ok(Params("h", "1", "u", "p", "d"))
    ensures Parse("postgresql+psycopg2://u@h/d") == Ok(Params("h", "5432", "u", "", "d"))
    ensures Print(Params("h", "1", "u", "p", "d")) == "postgresql://u:p@h:1/d"
    ensures Print(Params("h", "1", "u", "", "d")) == "postgresql://u@h:1/d"
  {
    hide Parse, Print, ReadsAs, IsPair;
    var p, q := Params("h", "1", "u", "p", "d"), Params("h", "5432", "u", "", "d");
    PrintedParts();
    PrintParseExact(p);
    assert ReadsAs("postgresql+psycopg2://u@h/d", "postgresql+psycopg2://", "u", "h", q) by { ReadsShort(); }
    ParseIsGrammar("postgresql+psycopg2://u@h/d", q);
  }

  lemma PrintedParts()
    ensures Print(Params("h", "1", "u", "p", "d")) == "postgresql://u:p@h:1/d"
    ensures Print(Params("h", "1", "u", "", "d")) == "postgresql://u@h:1/d"
  {
  }

  lemma ReadsShort()
    ensures ReadsAs("postgresql+psycopg2://u@h/d", "postgresql+psycopg2://", "u", "h", Params("h", "5432", "u", "", "d"))
  {
  }

  // ---------------------------------------------------------------------------------
  // Round trips
  // ---------------------------------------------------------------------------------

  /** What the separators demand of the parts. */
  predicate Printable(p: Params) {
    && ':' !in p.user && '@' !in p.user && '@' !in p.password
    && ':' !in p.host && '/' !in p.database
  }

  lemma ParsedIsPrintable(url: string, p: Params)
    requires Parse(url) == Ok(p)
    ensures Printable(p)
  {
    ParsedReads(url, p);
    var prefix, account, server :| ReadsAs(url, prefix, account, server, p);
    assert forall c :: c in p.user ==> c in account;
    assert forall c :: c in p.password ==> c in account;
  }

  lemma PrintedReads(p: Params)
    requires Printable(p)
    ensures ReadsAs(Print(p), "postgresql://", Account(p), p.host + ":" + p.port, p)
  {
    assert PREFIXES[1] == "postgresql://";
    var tail := p.host + ":" + p.port + "/" + p.database;
    assert Print(p) == "postgresql://" + (Account(p) + "@" + tail);
  }

  /** Parameters survive printing and parsing exactly when no part holds a separator that would cut it. */
  lemma PrintParseExact(p: Params)
    ensures Parse(Print(p)) == Ok(p) <==> Printable(p)
  {
    hide Parse, Print, ReadsAs;
    if Printable(p) {
      PrintedReads(p);
      ParseIsGrammar(Print(p), p);
    } else if Parse(Print(p)) == Ok(p) {
      ParsedIsPrintable(Print(p), p);
    }
  }

  /** Whatever URL was accepted, the URL rebuilt for pg_dump stands for the same parameters. */
  lemma ReprintedUrlIsSame(url: string)
    requires Parse(url).Ok?
    ensures Parse(Print(Parse(url).params)) == Parse(url)
  {
    ParsedIsPrintable(url, Parse(url).params);
    PrintParseExact(Parse(url).params);
  }
}
