/** The restore command's dispatch (`RestorePostgres` in pkg/restore/postgres.go): a file
    whose extension is ".gz" goes through decompression, any other file is restored as
    plain SQL. Decompression is not modelled: its result is a parameter. */
module PgRestore {
  import opened Wrappers
  import opened GoPath
  import opened PgUtils
  import PgBackup

  /** The two restore routines. */
  datatype Route = GzRestore | SqlRestore

  /** The routine a file goes to: decompression exactly for the extension ".gz", compared
      case-sensitively. */
  function RouteOf(filePath: string): (r: Route)
    ensures r == GzRestore <==> Ext(filePath) == ".gz"
  {
    if Ext(filePath) == ".gz" then GzRestore else SqlRestore
  }

  lemma RouteExamples()
    ensures RouteOf("backup.sql.gz") == GzRestore
    ensures RouteOf("backup.GZ") == SqlRestore
    ensures RouteOf("dump.gz/backup") == SqlRestore
  {
    ExtExamples();
  }

  /** How the command ends: with an error or none returned to its caller, or with the
      process exiting through the logger's `Fatal`. */
  datatype Ending = Returned(err: Option<string>) | Exited(message: string)

  /** The plain SQL restore of `a` as the code is written (see `PgUtils.RestoreSqlFile`). */
  function SqlRun(a: RestoreArgs, fails: (nat, Request) -> Option<string>): Run {
    Outcome(RestorePlan(a, UrlOrEmpty(GenerateConnectionString(AdminParams(a))),
                        UrlOrEmpty(GenerateConnectionString(TargetParams(a)))), fails)
  }

  /** `RestorePostgres`: the result of the ".gz" routine is returned as it is; an error of
      the plain SQL routine ends the process instead of being returned. */
  function RestorePostgres(a: RestoreArgs, gzResult: Option<string>,
                           fails: (nat, Request) -> Option<string>): (r: Ending)
    ensures RouteOf(a.filePath) == GzRestore ==> r == Returned(gzResult)
    ensures r.Exited? <==> RouteOf(a.filePath) == SqlRestore && SqlRun(a, fails).err.Some?
    ensures r.Exited? ==> Some(r.message) == SqlRun(a, fails).err
  {
    if RouteOf(a.filePath) == GzRestore then Returned(gzResult)
    else
      var run := SqlRun(a, fails);
      if run.err.Some? then Exited(run.err.value) else Returned(None)
  }

  /** The caller never receives an error from a plain SQL restore: it either succeeds or
      the process exits. */
  lemma ReturnedErrorsComeFromGz(a: RestoreArgs, gzResult: Option<string>,
                                 fails: (nat, Request) -> Option<string>)
    ensures var r := RestorePostgres(a, gzResult, fails);
      r.Returned? && r.err.Some? ==> Ext(a.filePath) == ".gz" && r.err == gzResult
  {
  }

  /** A restore of a backup written by `FullBackup` always takes the plain SQL route. */
  lemma BackupsRestoreAsSql(a: RestoreArgs, outputDir: string, dbName: string,
                            now: PgBackup.DateTime)
    requires a.filePath == PgBackup.DumpPath(outputDir, dbName, now)
    ensures RouteOf(a.filePath) == SqlRestore
  {
  }
}
