/** The full PostgreSQL backup of the command-line tool (`FullBackup` in
    pkg/backup/postgres.go): the connection check, the dump file's name and path, and the
    order of file-system effects up to the first failure. The clock and the file system are
    parameters; the dump itself is a single effect. */
module PgBackup {
  import opened Wrappers
  import opened Text
  import opened GoPath
  import opened PgUtils

  // ---------------------------------------------------------------- timestamp

  /** A wall-clock reading, as `time.Now()` provides it. */
  datatype DateTime = DateTime(year: nat, month: nat, day: nat, hour: nat, minute: nat, second: nat)

  /** A reading with a four-digit year and every field in its calendar range. */
  predicate ValidTime(t: DateTime) {
    && t.year <= 9999 && 1 <= t.month <= 12 && 1 <= t.day <= 31
    && t.hour < 24 && t.minute < 60 && t.second < 60
  }

  function Pow10(k: nat): (r: nat)
    ensures r >= 1
  {
    if k == 0 then 1 else 10 * Pow10(k - 1)
  }

  /** A number below 10^w has at most w digits. */
  lemma {:induction false} NatToStringLength(n: nat, w: nat)
    requires w >= 1 && n < Pow10(w)
    ensures |NatToString(n)| <= w
    decreases n
  {
    if n >= 10 {
      NatToStringLength(n / 10, w - 1);
    }
  }

  /** `t.Format("20060102T150405")`: year, month, day, 'T', hour, minute, second, each
      zero-padded (the year to four digits). */
  function FormatTimestamp(t: DateTime): string {
    DatePart(t) + "T" + ClockPart(t)
  }

  function DatePart(t: DateTime): string {
    PadNat(t.year, 4) + PadNat(t.month, 2) + PadNat(t.day, 2)
  }

  function ClockPart(t: DateTime): string {
    PadNat(t.hour, 2) + PadNat(t.minute, 2) + PadNat(t.second, 2)
  }

  /** A value below 10^w pads to exactly w digits. */
  lemma PadNatExact(n: nat, w: nat)
    requires w >= 1 && n < Pow10(w)
    ensures |PadNat(n, w)| == w
  {
    NatToStringLength(n, w);
  }

  /** The three pieces of a concatenation are its slices. */
  lemma ThreeSlices(a: string, b: string, c: string)
    ensures var s := a + b + c;
      && s[..|a|] == a && s[|a|..|a| + |b|] == b && s[|a| + |b|..] == c
  {
  }

  /** A valid reading gives 15 characters: digits, with 'T' at index 8. */
  lemma TimestampShape(t: DateTime)
    requires ValidTime(t)
    ensures var r := FormatTimestamp(t);
      |r| == 15 && r[8] == 'T' && forall i :: 0 <= i < 15 && i != 8 ==> IsDigit(r[i])
  {
    TimestampFields(t);
    var r := FormatTimestamp(t);
    var d, c := DatePart(t), ClockPart(t);
    assert r == d + "T" + c;
    forall i | 0 <= i < 15 && i != 8 ensures IsDigit(r[i]) {
      if i < 8 {
        assert r[i] == d[i];
        if i < 4 {
          assert d[i] == PadNat(t.year, 4)[i];
        } else if i < 6 {
          assert d[i] == PadNat(t.month, 2)[i - 4];
        } else {
          assert d[i] == PadNat(t.day, 2)[i - 6];
        }
      } else {
        assert r[i] == c[i - 9];
        if i < 11 {
          assert c[i - 9] == PadNat(t.hour, 2)[i - 9];
        } else if i < 13 {
          assert c[i - 9] == PadNat(t.minute, 2)[i - 11];
        } else {
          assert c[i - 9] == PadNat(t.second, 2)[i - 13];
        }
      }
    }
  }

  /** The decimal value of `s[i..j]`, if it is all digits. */
  function ReadField(s: string, i: nat, j: nat): Option<nat>
    requires i <= j <= |s|
  {
    if AllRadixDigits(s[i..j], 10) then Some(DigitsValue(s[i..j], 10)) else None
  }

  /** Reads a timestamp of the layout "20060102T150405" back into its fields. */
  function ParseTimestamp(s: string): Option<DateTime> {
    if |s| != 15 || s[8] != 'T' then None
    else
      var y, mo, d := ReadField(s, 0, 4), ReadField(s, 4, 6), ReadField(s, 6, 8);
      var h, mi, se := ReadField(s, 9, 11), ReadField(s, 11, 13), ReadField(s, 13, 15);
      if y.None? || mo.None? || d.None? || h.None? || mi.None? || se.None? then None
      else Some(DateTime(y.value, mo.value, d.value, h.value, mi.value, se.value))
  }

  lemma ReadPadded(s: string, i: nat, n: nat, w: nat)
    requires i + w <= |s| && s[i..i + w] == PadNat(n, w)
    ensures ReadField(s, i, i + w) == Some(n)
  {
    PadNatRoundTrip(n, w);
  }

  /** The six fields of a valid reading sit at fixed positions of its timestamp. */
  lemma TimestampFields(t: DateTime)
    requires ValidTime(t)
    ensures var s := FormatTimestamp(t);
      && |s| == 15
      && s[0..4] == PadNat(t.year, 4) && s[4..6] == PadNat(t.month, 2)
      && s[6..8] == PadNat(t.day, 2) && s[9..11] == PadNat(t.hour, 2)
      && s[11..13] == PadNat(t.minute, 2) && s[13..15] == PadNat(t.second, 2)
  {
    PadNatExact(t.year, 4);
    PadNatExact(t.month, 2);
    PadNatExact(t.day, 2);
    PadNatExact(t.hour, 2);
    PadNatExact(t.minute, 2);
    PadNatExact(t.second, 2);
    var d, c := DatePart(t), ClockPart(t);
    ThreeSlices(PadNat(t.year, 4), PadNat(t.month, 2), PadNat(t.day, 2));
    ThreeSlices(PadNat(t.hour, 2), PadNat(t.minute, 2), PadNat(t.second, 2));
    ThreeSlices(d, "T", c);
    var s := FormatTimestamp(t);
    assert s[0..8] == d && s[9..15] == c;
    assert s[0..4] == d[..4] && s[4..6] == d[4..6] && s[6..8] == d[6..];
    assert s[9..11] == c[..2] && s[11..13] == c[2..4] && s[13..15] == c[4..];
  }

  /** A valid reading is recovered from its timestamp, so distinct readings give
      distinct file names. */
  lemma TimestampRoundTrip(t: DateTime)
    requires ValidTime(t)
    ensures ParseTimestamp(FormatTimestamp(t)) == Some(t)
  {
    var s := FormatTimestamp(t);
    TimestampFields(t);
    ReadPadded(s, 0, t.year, 4);
    ReadPadded(s, 4, t.month, 2);
    ReadPadded(s, 6, t.day, 2);
    ReadPadded(s, 9, t.hour, 2);
    ReadPadded(s, 11, t.minute, 2);
    ReadPadded(s, 13, t.second, 2);
  }

  lemma TimestampInjective(t: DateTime, u: DateTime)
    requires ValidTime(t) && ValidTime(u) && FormatTimestamp(t) == FormatTimestamp(u)
    ensures t == u
  {
    TimestampRoundTrip(t);
    TimestampRoundTrip(u);
  }

  // ---------------------------------------------------------------- FullBackup

  /** The dump file's name: `db_name + "-" + timestamp + ".sql"`. */
  function DumpFileName(dbName: string, now: DateTime): (r: string)
    ensures EndsWith(r, ".sql")
  {
    var r := dbName + "-" + FormatTimestamp(now) + ".sql";
    assert r[|r| - 4..] == ".sql";
    r
  }

  /** The dump file's path: the name joined to the output directory. Its extension is
      always ".sql", although a gzip writer is opened on the file and the restore command
      routes only ".gz" files through decompression. */
  function DumpPath(outputDir: string, dbName: string, now: DateTime): (r: string)
    ensures Ext(r) == ".sql"
  {
    JoinPathKeepsSqlExt(outputDir, DumpFileName(dbName, now));
    JoinPath(outputDir, DumpFileName(dbName, now))
  }

  /** The effects on the file system and the database, in order. */
  datatype Effect =
    | MakeDirectory(path: string)
    | CreateFile(path: string)
    | DumpDatabase(url: string, path: string)
    | RemoveFile(path: string)

  /** The errors the environment answers each effect with, if any. */
  datatype Environment = Environment(
    mkdirError: Option<string>,
    createError: Option<string>,
    dumpError: Option<string>)

  /** How `FullBackup` ends: the process exits through the logger's `Fatal`, an error is
      returned, or the backup is saved. */
  datatype Ending = Exited(message: string) | Failed(error: string) | Saved(path: string)

  datatype BackupRun = BackupRun(effects: seq<Effect>, ending: Ending)

  const MissingVariables := "All environment variables not set"

  /** The parameters of the connection string; the integer port is rendered in decimal. */
  function BackupParams(dbName: string, password: string, user: string, host: string,
                        port: int): ConnParams {
    ConnParams(dbName, password, user, host, IntToString(port))
  }

  /** `FullBackup(db_name, db_password, db_user, db_host, outputDir, db_port)` at the
      moment `now`, in the environment `env`. */
  function FullBackup(dbName: string, password: string, user: string, host: string,
                      outputDir: string, port: int, now: DateTime, env: Environment)
    : (r: BackupRun)
    ensures !AllPresent(BackupParams(dbName, password, user, host, port)) ==>
              r == BackupRun([], Exited(MissingVariables))
    ensures r.ending.Saved? ==> r.ending.path == DumpPath(outputDir, dbName, now)
    ensures r.ending.Saved? <==>
              && AllPresent(BackupParams(dbName, password, user, host, port))
              && env.mkdirError.None? && env.createError.None? && env.dumpError.None?
    ensures |r.effects| > 0 ==> r.effects[0] == MakeDirectory(outputDir)
  {
    var url := GenerateConnectionString(BackupParams(dbName, password, user, host, port));
    if url.Err? then BackupRun([], Exited(MissingVariables))
    else BackupSteps(outputDir, DumpPath(outputDir, dbName, now), url.value, env)
  }

  /** The file-system effects once the connection string is built: make the directory,
      create the file at `path`, dump into it, and remove it again if the dump fails. */
  function BackupSteps(outputDir: string, path: string, url: string, env: Environment)
    : (r: BackupRun)
    ensures |r.effects| >= 1 && r.effects[0] == MakeDirectory(outputDir)
    ensures r.ending.Saved? <==>
              env.mkdirError.None? && env.createError.None? && env.dumpError.None?
    ensures r.ending.Saved? ==> r.ending.path == path
    ensures !r.ending.Exited?
  {
    if env.mkdirError.Some? then
      BackupRun([MakeDirectory(outputDir)],
                Failed("failed to create output directory: " + env.mkdirError.value))
    else if env.createError.Some? then
      BackupRun([MakeDirectory(outputDir), CreateFile(path)],
                Failed("failed to create dump file: " + env.createError.value))
    else if env.dumpError.Some? then
      BackupRun([MakeDirectory(outputDir), CreateFile(path), DumpDatabase(url, path),
                 RemoveFile(path)],
                Failed("error dumping database: " + env.dumpError.value))
    else
      BackupRun([MakeDirectory(outputDir), CreateFile(path), DumpDatabase(url, path)],
                Saved(path))
  }

  /** After the directory, every effect is on `path`, and the dump uses `url`. */
  lemma StepsUsePath(outputDir: string, path: string, url: string, env: Environment)
    ensures var r := BackupSteps(outputDir, path, url, env);
      forall i :: 1 <= i < |r.effects| ==>
        && !r.effects[i].MakeDirectory?
        && r.effects[i].path == path
        && (r.effects[i].DumpDatabase? ==> r.effects[i].url == url)
  {
  }

  /** The integer port always renders to a non-empty string, so unlike the other four
      parameters it can never make the connection check fail. */
  lemma PortNeverMissing(dbName: string, password: string, user: string, host: string,
                         port: int)
    ensures AllPresent(BackupParams(dbName, password, user, host, port))
        <==> dbName != "" && password != "" && user != "" && host != ""
  {
  }

  /** A failed dump leaves no file behind: the file created is the one removed, and
      removal is the last effect. */
  lemma FailedDumpRemovesFile(dbName: string, password: string, user: string, host: string,
                              outputDir: string, port: int, now: DateTime, env: Environment)
    requires AllPresent(BackupParams(dbName, password, user, host, port))
    requires env.mkdirError.None? && env.createError.None? && env.dumpError.Some?
    ensures var r := FullBackup(dbName, password, user, host, outputDir, port, now, env);
      && r.ending.Failed?
      && CreateFile(DumpPath(outputDir, dbName, now)) in r.effects
      && r.effects[|r.effects| - 1] == RemoveFile(DumpPath(outputDir, dbName, now))
  {
  }

  /** Every path the backup touches after the directory is the ".sql" dump path, and the
      database is only dumped with the generated URL. */
  lemma EffectsUseDumpPath(dbName: string, password: string, user: string, host: string,
                           outputDir: string, port: int, now: DateTime, env: Environment)
    ensures var r := FullBackup(dbName, password, user, host, outputDir, port, now, env);
      forall i :: 1 <= i < |r.effects| ==>
        && !r.effects[i].MakeDirectory?
        && r.effects[i].path == DumpPath(outputDir, dbName, now)
        && Ext(r.effects[i].path) == ".sql"
        && (r.effects[i].DumpDatabase? ==>
              r.effects[i].url
              == GenerateConnectionString(BackupParams(dbName, password, user, host, port)).value)
  {
    var url := GenerateConnectionString(BackupParams(dbName, password, user, host, port));
    if url.Ok? {
      StepsUsePath(outputDir, DumpPath(outputDir, dbName, now), url.value, env);
    }
  }
}
