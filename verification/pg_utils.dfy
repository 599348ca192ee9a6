/** The PostgreSQL helpers of the command-line tool (pkg/utils/postgres.go): the
    connection URL builder, the naive splitting of a SQL file into statements, and the
    order of requests `RestoreSqlFile` sends to the server, run until the first one fails.
    The server is an oracle: `fails(i, request)` is the error the i-th request meets, if
    any. */
module PgUtils {
  import opened Wrappers
  import opened Text
  import opened Seqs

  // ---------------------------------------------------------------- connection URL

  const MissingParams := "missing one or more connection parameters"
  const UrlPrefix := "postgres://"
  const UrlSuffix := "?sslmode=disable"

  /** The five parameters, in the order `GenerateConnectionString` takes them. */
  datatype ConnParams = ConnParams(dbName: string, password: string, user: string,
                                   host: string, port: string)

  predicate AllPresent(p: ConnParams) {
    p.dbName != "" && p.password != "" && p.user != "" && p.host != "" && p.port != ""
  }

  /** `GenerateConnectionString(db_name, db_password, db_user, db_host, db_port)`: an error
      when any parameter is empty, otherwise the URL with the values inserted verbatim, the
      database name last. */
  function GenerateConnectionString(p: ConnParams): (r: Result<string>)
    ensures r.Err? <==> !AllPresent(p)
    ensures r.Err? ==> r.error == MissingParams
    ensures r.Ok? ==> StartsWith(r.value, UrlPrefix) && EndsWith(r.value, UrlSuffix)
  {
    if !AllPresent(p) then Err(MissingParams)
    else
      var url := UrlPrefix + p.user + ":" + p.password + "@" + p.host + ":" + p.port + "/"
                 + p.dbName + UrlSuffix;
      assert url[..|UrlPrefix|] == UrlPrefix;
      assert url[|url| - |UrlSuffix|..] == UrlSuffix;
      Ok(url)
  }

  /** What Go's two results amount to for a caller that only logs the error: the URL, or
      the empty string that comes with an error. */
  function UrlOrEmpty(r: Result<string>): string {
    if r.Ok? then r.value else ""
  }

  /** A value that cannot be confused with the URL's punctuation. */
  predicate UrlSafe(s: string) {
    ':' !in s && '@' !in s && '/' !in s
  }

  /** Reads the five parameters back out of a URL of the generated shape. */
  function ParseConnectionString(url: string): Option<ConnParams> {
    if |url| < |UrlPrefix| + |UrlSuffix| || !StartsWith(url, UrlPrefix) || !EndsWith(url, UrlSuffix)
    then None
    else
      var body := url[|UrlPrefix|..|url| - |UrlSuffix|];
      var slash := Split(body, '/');
      if |slash| != 2 then None
      else
        var at := Split(slash[0], '@');
        if |at| != 2 then None
        else
          var userInfo := Split(at[0], ':');
          var hostPort := Split(at[1], ':');
          if |userInfo| != 2 || |hostPort| != 2 then None
          else Some(ConnParams(slash[1], userInfo[1], userInfo[0], hostPort[0], hostPort[1]))
  }

  /** Parameters free of ':', '@' and '/' are recovered from the URL they generate. */
  lemma ConnectionStringRoundTrip(p: ConnParams)
    requires AllPresent(p)
    requires UrlSafe(p.dbName) && UrlSafe(p.password) && UrlSafe(p.user)
    requires UrlSafe(p.host) && UrlSafe(p.port)
    ensures ParseConnectionString(GenerateConnectionString(p).value) == Some(p)
  {
    var url := GenerateConnectionString(p).value;
    var userInfo := p.user + [':'] + p.password;
    var hostPort := p.host + [':'] + p.port;
    var authority := userInfo + ['@'] + hostPort;
    var body := authority + ['/'] + p.dbName;
    assert url == UrlPrefix + body + UrlSuffix;
    assert url[|UrlPrefix|..|url| - |UrlSuffix|] == body;
    SplitPair(authority, p.dbName, '/');
    SplitPair(userInfo, hostPort, '@');
    SplitPair(p.user, p.password, ':');
    SplitPair(p.host, p.port, ':');
  }

  /** Nothing is escaped, so different parameters can give the same URL: an '@' may end
      up on either side of the password/host boundary. */
  lemma ConnectionStringAmbiguous(p: ConnParams, b: string, c: string)
    requires AllPresent(p) && b != "" && p.password == b + "@" + c
    ensures var q := p.(password := b, host := c + "@" + p.host);
      q != p && GenerateConnectionString(q) == GenerateConnectionString(p)
  {
    var q := p.(password := b, host := c + "@" + p.host);
    assert |q.password| < |p.password|;
    UrlShape(p);
    UrlShape(q);
    AtRegroup(UrlPrefix + p.user + ":", b, c, p.host, ":" + p.port + "/" + p.dbName + UrlSuffix);
  }

  /** The URL of a complete parameter set: the part up to the password, the password, '@',
      the host, and the rest. */
  lemma UrlShape(p: ConnParams)
    requires AllPresent(p)
    ensures GenerateConnectionString(p)
         == Ok((UrlPrefix + p.user + ":") + p.password + "@" + p.host
               + (":" + p.port + "/" + p.dbName + UrlSuffix))
  {
    var x := UrlPrefix + p.user + ":" + p.password + "@" + p.host;
    var y := ":" + p.port + "/" + p.dbName + UrlSuffix;
    TailRegroup(x, p.port, p.dbName);
    assert GenerateConnectionString(p).value == x + y;
  }

  lemma TailRegroup(x: string, port: string, db: string)
    ensures x + ":" + port + "/" + db + UrlSuffix == x + (":" + port + "/" + db + UrlSuffix)
  {
  }

  lemma AtRegroup(head: string, b: string, c: string, h: string, tail: string)
    ensures head + (b + "@" + c) + "@" + h + tail == head + b + "@" + (c + "@" + h) + tail
  {
  }

  /** For instance, password "b@c" with host "d" and password "b" with host "c@d". */
  lemma AmbiguousExample()
    ensures GenerateConnectionString(ConnParams("db", "b@c", "a", "d", "5432"))
         == GenerateConnectionString(ConnParams("db", "b", "a", "c@d", "5432"))
  {
    var p := ConnParams("db", "b@c", "a", "d", "5432");
    assert p.password == "b" + "@" + "c";
    ConnectionStringAmbiguous(p, "b", "c");
    assert p.(password := "b", host := "c" + "@" + "d") == ConnParams("db", "b", "a", "c@d", "5432");
  }

  // ---------------------------------------------------------------- SQL statements

  /** A statement `RestoreSqlFile` executes: not empty, no ';', no outer white space. */
  predicate IsCleanStatement(s: string, ws: char -> bool) {
    s != "" && ';' !in s && Trim(s, ws) == s
  }

  /** Trimming only removes characters. */
  lemma TrimKeepsOut(s: string, c: char, ws: char -> bool)
    requires c !in s
    ensures c !in Trim(s, ws)
  {
    TrimIsSlice(s, ws);
  }

  /** Every piece trimmed. */
  function TrimAll(pieces: seq<string>, ws: char -> bool): (r: seq<string>)
    ensures |r| == |pieces|
    ensures forall i :: 0 <= i < |pieces| ==> r[i] == Trim(pieces[i], ws)
  {
    seq(|pieces|, i requires 0 <= i < |pieces| => Trim(pieces[i], ws))
  }

  function NonEmptyText(s: string): bool {
    s != ""
  }

  /** Each piece trimmed with `strings.TrimSpace`, the empty ones skipped. */
  function Statements(pieces: seq<string>, ws: char -> bool): (r: seq<string>)
    ensures |r| <= |pieces|
    ensures forall i :: 0 <= i < |r| ==> r[i] != ""
  {
    Filter(TrimAll(pieces, ws), NonEmptyText)
  }

  /** Trimming twice trims nothing more. */
  lemma TrimIdempotent(s: string, ws: char -> bool)
    ensures Trim(Trim(s, ws), ws) == Trim(s, ws)
  {
    var t := Trim(s, ws);
    if t != "" {
      assert TrimLeft(t, ws) == t;
      assert TrimRight(t, ws) == t;
    }
  }

  /** Pieces without ';' give statements without ';'. */
  lemma StatementsClean(pieces: seq<string>, ws: char -> bool)
    requires forall j :: 0 <= j < |pieces| ==> ';' !in pieces[j]
    ensures forall i :: 0 <= i < |Statements(pieces, ws)| ==>
              IsCleanStatement(Statements(pieces, ws)[i], ws)
  {
    var trimmed := TrimAll(pieces, ws);
    var r := Statements(pieces, ws);
    forall i | 0 <= i < |r| ensures IsCleanStatement(r[i], ws) {
      assert r[i] in trimmed;
      var j :| 0 <= j < |trimmed| && trimmed[j] == r[i];
      TrimKeepsOut(pieces[j], ';', ws);
      TrimIdempotent(pieces[j], ws);
    }
  }

  /** The statements of a SQL file: `strings.Split(text, ";")`, each piece trimmed, the
      empty ones skipped. */
  function SqlStatements(text: string): seq<string> {
    Statements(Split(text, ';'), IsGoSpace)
  }

  /** Every statement executed is clean, whatever the file holds. */
  lemma SqlStatementsClean(text: string)
    ensures forall i :: 0 <= i < |SqlStatements(text)| ==>
              IsCleanStatement(SqlStatements(text)[i], IsGoSpace)
  {
    StatementsClean(Split(text, ';'), IsGoSpace);
  }

  lemma StatementsOfClean(stmts: seq<string>, ws: char -> bool)
    requires forall i :: 0 <= i < |stmts| ==> IsCleanStatement(stmts[i], ws)
    ensures Statements(stmts, ws) == stmts
  {
    assert TrimAll(stmts, ws) == stmts;
    FilterKeepsAll(stmts, NonEmptyText);
  }

  lemma StatementsAppend(a: seq<string>, b: seq<string>, ws: char -> bool)
    ensures Statements(a + b, ws) == Statements(a, ws) + Statements(b, ws)
  {
    var whole := TrimAll(a + b, ws);
    var parts := TrimAll(a, ws) + TrimAll(b, ws);
    forall i | 0 <= i < |whole| ensures whole[i] == parts[i] {
      if i < |a| {
        assert (a + b)[i] == a[i];
      } else {
        assert (a + b)[i] == b[i - |a|];
      }
    }
    assert whole == parts;
    FilterAppend(TrimAll(a, ws), TrimAll(b, ws), NonEmptyText);
  }

  /** White space holds no ';'. */
  lemma BlankHasNoSemicolon(w: string)
    requires IsBlank(w, IsGoSpace)
    ensures ';' !in w
  {
  }

  /** A file written as clean statements separated by ';' is executed statement by
      statement. */
  lemma SqlStatementsRoundTrip(stmts: seq<string>)
    requires |stmts| >= 1
    requires forall i :: 0 <= i < |stmts| ==> IsCleanStatement(stmts[i], IsGoSpace)
    ensures SqlStatements(Join(stmts, ';')) == stmts
  {
    StatementsOfClean(stmts, IsGoSpace);
    SplitJoin(stmts, ';');
  }

  /** The same holds when the last statement is also followed by ';' and white space. */
  lemma SqlStatementsWithTrailer(stmts: seq<string>, trailer: string)
    requires |stmts| >= 1
    requires forall i :: 0 <= i < |stmts| ==> IsCleanStatement(stmts[i], IsGoSpace)
    requires IsBlank(trailer, IsGoSpace)
    ensures SqlStatements(Join(stmts, ';') + [';'] + trailer) == stmts
  {
    BlankHasNoSemicolon(trailer);
    SplitWithTrailer(stmts, trailer, ';');
    StatementsWithBlankLast(stmts, trailer, IsGoSpace);
  }

  lemma SplitWithTrailer(parts: seq<string>, trailer: string, sep: char)
    requires |parts| >= 1
    requires forall i :: 0 <= i < |parts| ==> sep !in parts[i]
    requires sep !in trailer
    ensures Split(Join(parts, sep) + [sep] + trailer, sep) == parts + [trailer]
  {
    var pieces := parts + [trailer];
    JoinSnoc(parts, trailer, sep);
    forall i | 0 <= i < |pieces| ensures sep !in pieces[i] {
      if i < |parts| {
        assert pieces[i] == parts[i];
      }
    }
    SplitJoin(pieces, sep);
  }

  lemma StatementsWithBlankLast(stmts: seq<string>, w: string, ws: char -> bool)
    requires forall i :: 0 <= i < |stmts| ==> IsCleanStatement(stmts[i], ws)
    requires IsBlank(w, ws)
    ensures Statements(stmts + [w], ws) == stmts
  {
    StatementsAppend(stmts, [w], ws);
    StatementsOfClean(stmts, ws);
    BlankStatementVanishes(w, ws);
    assert stmts + [] == stmts;
  }

  /** A piece of white space gives no statement. */
  lemma BlankStatementVanishes(w: string, ws: char -> bool)
    requires IsBlank(w, ws)
    ensures Statements([w], ws) == []
  {
    TrimEmptyIffBlank(w, ws);
    assert TrimAll([w], ws) == [""];
    FilterDropsAll([""], NonEmptyText);
  }

  // ---------------------------------------------------------------- running requests

  /** A request to the database server or the file system. */
  datatype Request = Open(connStr: string) | Ping | Exec(query: string) | ReadFile(path: string)

  /** The index of the first request that fails, or the length of the plan when none does. */
  function FirstFailure(plan: seq<Request>, fails: (nat, Request) -> Option<string>, from: nat)
    : (k: nat)
    requires from <= |plan|
    ensures from <= k <= |plan|
    ensures k < |plan| ==> fails(k, plan[k]).Some?
    ensures forall i :: from <= i < k ==> fails(i, plan[i]).None?
    decreases |plan| - from
  {
    if from == |plan| then from
    else if fails(from, plan[from]).Some? then from
    else FirstFailure(plan, fails, from + 1)
  }

  /** The first failure is the only index with its two defining properties. */
  lemma {:induction false} FirstFailureUnique(plan: seq<Request>, fails: (nat, Request) -> Option<string>,
                                              from: nat, k: nat)
    requires from <= k <= |plan|
    requires k < |plan| ==> fails(k, plan[k]).Some?
    requires forall i :: from <= i < k ==> fails(i, plan[i]).None?
    ensures FirstFailure(plan, fails, from) == k
    decreases k - from
  {
    if from < k {
      FirstFailureUnique(plan, fails, from + 1, k);
    }
  }

  /** The requests actually sent and the error returned, if any. */
  datatype Run = Run(issued: seq<Request>, err: Option<string>)

  /** The run of a plan that stops at the first error: the requests up to and including
      the failing one, and that request's error. */
  function Outcome(plan: seq<Request>, fails: (nat, Request) -> Option<string>): (r: Run)
    ensures |r.issued| <= |plan| && r.issued == plan[..|r.issued|]
    ensures forall i :: 0 <= i < |r.issued| - 1 ==> fails(i, plan[i]).None?
    ensures r.err.None? <==> (r.issued == plan && forall i :: 0 <= i < |plan| ==> fails(i, plan[i]).None?)
    ensures r.err.Some? ==> |r.issued| >= 1 && r.err == fails(|r.issued| - 1, plan[|r.issued| - 1])
  {
    var k := FirstFailure(plan, fails, 0);
    if k == |plan| then
      assert plan[..|plan|] == plan;
      Run(plan, None)
    else Run(plan[..k + 1], fails(k, plan[k]))
  }

  /** Sends the requests in order and stops at the first error, which it returns. */
  method RunPlan(plan: seq<Request>, fails: (nat, Request) -> Option<string>) returns (r: Run)
    ensures r == Outcome(plan, fails)
  {
    var n := 0;
    var err: Option<string> := None;
    while n < |plan| && err.None?
      invariant 0 <= n <= |plan|
      invariant err.None? ==> forall i :: 0 <= i < n ==> fails(i, plan[i]).None?
      invariant err.Some? ==>
        && n >= 1 && err == fails(n - 1, plan[n - 1])
        && forall i :: 0 <= i < n - 1 ==> fails(i, plan[i]).None?
    {
      err := fails(n, plan[n]);
      n := n + 1;
    }
    if err.None? {
      FirstFailureUnique(plan, fails, 0, |plan|);
      assert plan[..n] == plan;
    } else {
      FirstFailureUnique(plan, fails, 0, n - 1);
    }
    r := Run(plan[..n], err);
  }

  // ---------------------------------------------------------------- RestoreSqlFile

  /** The arguments of `RestoreSqlFile`; `fileText` is the content the file has when it
      is read. */
  datatype RestoreArgs = RestoreArgs(
    filePath: string, host: string, username: string, password: string,
    dbName: string, port: string, fileText: string)

  function AdminParams(a: RestoreArgs): ConnParams {
    ConnParams("postgres", a.password, a.username, a.host, a.port)
  }

  function TargetParams(a: RestoreArgs): ConnParams {
    ConnParams(a.dbName, a.password, a.username, a.host, a.port)
  }

  function ExecAll(stmts: seq<string>): (r: seq<Request>)
    ensures |r| == |stmts| && forall i :: 0 <= i < |stmts| ==> r[i] == Exec(stmts[i])
  {
    seq(|stmts|, i requires 0 <= i < |stmts| => Exec(stmts[i]))
  }

  /** The requests of a restore after both connection strings: on the "postgres" database
      drop and re-create the target, then on the target read the file and execute its
      statements in order. */
  function RestorePlan(a: RestoreArgs, adminUrl: string, targetUrl: string): (plan: seq<Request>)
    ensures |plan| == 7 + |SqlStatements(a.fileText)|
    ensures plan[0] == Open(adminUrl) && plan[4] == Open(targetUrl)
    ensures plan[2] == Exec("DROP DATABASE IF EXISTS " + a.dbName + ";")
    ensures plan[3] == Exec("CREATE DATABASE " + a.dbName + ";")
    ensures forall i :: 0 <= i < |SqlStatements(a.fileText)| ==>
              plan[7 + i] == Exec(SqlStatements(a.fileText)[i])
  {
    var stmts := SqlStatements(a.fileText);
    var setup := [Open(adminUrl), Ping,
                  Exec("DROP DATABASE IF EXISTS " + a.dbName + ";"),
                  Exec("CREATE DATABASE " + a.dbName + ";"),
                  Open(targetUrl), Ping, ReadFile(a.filePath)];
    var execs := ExecAll(stmts);
    assert forall i :: 0 <= i < |stmts| ==> (setup + execs)[7 + i] == execs[i];
    setup + execs
  }

  /** `RestoreSqlFile` as written: an error from either connection string is only logged,
      and the empty string is used as the connection string. */
  method RestoreSqlFile(a: RestoreArgs, fails: (nat, Request) -> Option<string>) returns (r: Run)
    ensures r == Outcome(RestorePlan(a, UrlOrEmpty(GenerateConnectionString(AdminParams(a))),
                                     UrlOrEmpty(GenerateConnectionString(TargetParams(a)))), fails)
  {
    var adminUrl := UrlOrEmpty(GenerateConnectionString(AdminParams(a)));
    var targetUrl := UrlOrEmpty(GenerateConnectionString(TargetParams(a)));
    r := RunPlan(RestorePlan(a, adminUrl, targetUrl), fails);
  }

  /** With an empty host the code as written still asks the driver to open the empty
      connection string. */
  lemma RestoreWithEmptyHostOpensEmptyUrl(a: RestoreArgs)
    requires a.host == ""
    ensures RestorePlan(a, UrlOrEmpty(GenerateConnectionString(AdminParams(a))),
                        UrlOrEmpty(GenerateConnectionString(TargetParams(a))))[0] == Open("")
  {
  }

  /** The plan opens exactly two connections: the first request and the fifth. */
  lemma RestorePlanOpens(a: RestoreArgs, adminUrl: string, targetUrl: string)
    ensures var plan := RestorePlan(a, adminUrl, targetUrl);
      forall i :: 0 <= i < |plan| && plan[i].Open? ==>
        (i == 0 && plan[i].connStr == adminUrl) || (i == 4 && plan[i].connStr == targetUrl)
  {
    var plan := RestorePlan(a, adminUrl, targetUrl);
    forall i | 7 <= i < |plan| ensures !plan[i].Open? {
      assert plan[7 + (i - 7)] == Exec(SqlStatements(a.fileText)[i - 7]);
    }
  }

  /** `RestoreSqlFile` as evidently intended: a connection string error is returned at
      once, before the request that would use it. */
  function CorrectedRestore(a: RestoreArgs, fails: (nat, Request) -> Option<string>): (r: Run)
    ensures !AllPresent(AdminParams(a)) ==> r == Run([], Some(MissingParams))
    ensures AllPresent(AdminParams(a)) && !AllPresent(TargetParams(a)) ==>
              |r.issued| <= 4 && r.err.Some?
  {
    var admin := GenerateConnectionString(AdminParams(a));
    var target := GenerateConnectionString(TargetParams(a));
    if admin.Err? then Run([], Some(admin.error))
    else if target.Err? then
      var setup := Outcome(RestorePlan(a, admin.value, "")[..4], fails);
      if setup.err.Some? then setup else Run(setup.issued, Some(target.error))
    else Outcome(RestorePlan(a, admin.value, target.value), fails)
  }

  /** The corrected restore never asks the driver to open an empty connection string. */
  lemma CorrectedNeverOpensEmpty(a: RestoreArgs, fails: (nat, Request) -> Option<string>)
    ensures var r := CorrectedRestore(a, fails);
      forall i :: 0 <= i < |r.issued| ==> r.issued[i] != Open("")
  {
    var admin := GenerateConnectionString(AdminParams(a));
    var target := GenerateConnectionString(TargetParams(a));
    if admin.Ok? {
      assert |admin.value| >= |UrlPrefix|;
      if target.Err? {
        SetupOpensNoEmpty(a, admin.value, fails);
      } else {
        assert |target.value| >= |UrlPrefix|;
        RunOpensNoEmpty(a, admin.value, target.value, fails);
      }
    }
  }

  lemma RunOpensNoEmpty(a: RestoreArgs, adminUrl: string, targetUrl: string,
                        fails: (nat, Request) -> Option<string>)
    requires adminUrl != "" && targetUrl != ""
    ensures var r := Outcome(RestorePlan(a, adminUrl, targetUrl), fails);
      forall i :: 0 <= i < |r.issued| ==> r.issued[i] != Open("")
  {
    RestorePlanOpens(a, adminUrl, targetUrl);
  }

  lemma SetupOpensNoEmpty(a: RestoreArgs, adminUrl: string, fails: (nat, Request) -> Option<string>)
    requires adminUrl != ""
    ensures var r := Outcome(RestorePlan(a, adminUrl, "")[..4], fails);
      forall i :: 0 <= i < |r.issued| ==> r.issued[i] != Open("")
  {
    var plan := RestorePlan(a, adminUrl, "");
    var r := Outcome(plan[..4], fails);
    RestorePlanOpens(a, adminUrl, "");
    forall i | 0 <= i < |r.issued| ensures r.issued[i] != Open("") {
      assert r.issued[i] == plan[i];
    }
  }

  /** When every parameter is present the corrected restore sends the same requests as the
      code as written and returns the same error. */
  lemma CorrectedAgreesWhenPresent(a: RestoreArgs, fails: (nat, Request) -> Option<string>)
    requires AllPresent(TargetParams(a))
    ensures CorrectedRestore(a, fails)
         == Outcome(RestorePlan(a, UrlOrEmpty(GenerateConnectionString(AdminParams(a))),
                                UrlOrEmpty(GenerateConnectionString(TargetParams(a)))), fails)
  {
    assert AllPresent(AdminParams(a));
  }

  /** The target is dropped and re-created on the "postgres" database before any
      statement of the file runs: a statement is only sent after those requests succeeded. */
  lemma DropAndCreateFirst(a: RestoreArgs, adminUrl: string, targetUrl: string,
                           fails: (nat, Request) -> Option<string>)
    requires |Outcome(RestorePlan(a, adminUrl, targetUrl), fails).issued| > 7
    ensures var plan := RestorePlan(a, adminUrl, targetUrl);
      && fails(2, plan[2]).None? && fails(3, plan[3]).None?
      && plan[2] == Exec("DROP DATABASE IF EXISTS " + a.dbName + ";")
      && plan[3] == Exec("CREATE DATABASE " + a.dbName + ";")
  {
  }

  /** The statements run in file order and only the last one sent can have failed: the
      i-th request after the seven set-up requests is the i-th statement of the file. */
  lemma StatementsInOrder(a: RestoreArgs, adminUrl: string, targetUrl: string,
                          fails: (nat, Request) -> Option<string>)
    ensures var r := Outcome(RestorePlan(a, adminUrl, targetUrl), fails);
      var stmts := SqlStatements(a.fileText);
      && (forall i :: 0 <= i < |stmts| && 7 + i < |r.issued| ==> r.issued[7 + i] == Exec(stmts[i]))
      && (forall i :: 0 <= i < |stmts| && 7 + i < |r.issued| - 1 ==>
            fails(7 + i, Exec(stmts[i])).None?)
  {
    ExecsInOrder(RestorePlan(a, adminUrl, targetUrl), SqlStatements(a.fileText), fails);
  }

  lemma ExecsInOrder(plan: seq<Request>, stmts: seq<string>, fails: (nat, Request) -> Option<string>)
    requires |plan| == 7 + |stmts|
    requires forall i :: 0 <= i < |stmts| ==> plan[7 + i] == Exec(stmts[i])
    ensures var r := Outcome(plan, fails);
      && (forall i :: 0 <= i < |stmts| && 7 + i < |r.issued| ==> r.issued[7 + i] == Exec(stmts[i]))
      && (forall i :: 0 <= i < |stmts| && 7 + i < |r.issued| - 1 ==>
            fails(7 + i, Exec(stmts[i])).None?)
  {
    var r := Outcome(plan, fails);
    forall i | 0 <= i < |stmts| && 7 + i < |r.issued|
      ensures r.issued[7 + i] == Exec(stmts[i])
      ensures 7 + i < |r.issued| - 1 ==> fails(7 + i, Exec(stmts[i])).None?
    {
      assert r.issued[7 + i] == plan[7 + i];
    }
  }
}
